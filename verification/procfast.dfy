/**
 The `/run-fastqc` handler of the root `ProcFast.py`: save the upload, run
 fastqc on it, look for the fixed report `example_fastqc.html`, and render
 the page with the charts extracted from it.
 */
module ProcFast {
  import opened Wrappers
  import opened PosixPath
  import opened Fastqc
  import opened ReportImages

  /** The report file the handler looks for, whatever the upload was called. */
  const ReportPath: string := Join(OutputFolder, "example_fastqc.html")

  const ReportNotFound: string := "FastQC report not found!"

  /** The upload was saved and the tool run on it completed. */
  predicate ToolCompleted(upload: Option<string>, save: string -> bool, run: seq<string> -> ToolOutcome) {
    && upload.Some?
    && save(UploadPath(upload.value))
    && run(FastqcArgv(upload.value)).Completed?
  }

  /**
   `run_fastqc()`. The boundaries are parameters: `debug` says whether
   Flask runs in debug mode, `upload` is the file name
   of the `dnaFile` form field (`None` when the field is missing), `save`
   says whether `file.save` succeeds at a path, `run` is the outcome of
   `subprocess.run` on an argument vector, `pathExists` is `os.path.exists`,
   `mainDiv` is what the HTML parser finds in the report, `decode` is
   `base64.b64decode`, and `images` is the image directory before the call.
   */
  method RunFastqc(
    debug: bool,
    upload: Option<string>,
    save: string -> bool,
    run: seq<string> -> ToolOutcome,
    pathExists: string -> bool,
    mainDiv: Option<seq<Option<string>>>,
    decode: string -> Result<Bytes, string>,
    images: Directory
  ) returns (resp: Response, images': Directory)
    ensures upload.None? ==> resp == Aborted(MissingFieldStatus(debug)) && images' == images
    // `file.save` is outside the `try`: its failure becomes the framework's error page.
    ensures upload.Some? && !save(UploadPath(upload.value)) ==> resp == Aborted(500) && images' == images
    ensures upload.Some? && save(UploadPath(upload.value)) && run(FastqcArgv(upload.value)).Raised? ==>
              resp == ErrorResponse(run(FastqcArgv(upload.value)).message) && images' == images
    // Without the report nothing is extracted and the image directory is untouched.
    ensures ToolCompleted(upload, save, run) && !pathExists(ReportPath) ==>
              resp == Body(ReportNotFound, 500) && images' == images
    ensures ToolCompleted(upload, save, run) && pathExists(ReportPath) ==>
              || (resp.Page? && ExtractionOf(mainDiv, decode, Extraction(Success(resp.images), images')))
              || (exists e :: resp == ErrorResponse(e) && ExtractionOf(mainDiv, decode, Extraction(Failure(e), images')))
  {
    if upload.None? {
      return Aborted(MissingFieldStatus(debug)), images;
    }
    var filename := upload.value;
    var filepath := UploadPath(filename);
    if !save(filepath) {
      return Aborted(500), images;
    }
    match run(FastqcArgv(filename)) {
      case Raised(message) =>
        return ErrorResponse(message), images;
      case Completed =>
        if !pathExists(ReportPath) {
          return Body(ReportNotFound, 500), images;
        }
        var r := ExtractAndCopyImages(mainDiv, decode, images);
        images' := r.dir;
        match r.outcome {
          case Success(paths) =>
            resp := Page(paths);
          case Failure(e) =>
            resp := ErrorResponse(e);
        }
    }
  }
}
