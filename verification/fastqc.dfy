/**
 What the two `/run-fastqc` handlers share: the folder constants, where an
 upload is stored, the fastqc command line, and the shape of an HTTP reply.
 */
module Fastqc {
  import opened PyStr
  import opened PosixPath

  const UploadFolder: string := "uploads"
  const OutputFolder: string := "fastqc_output"

  /** Prefix of the reply body when the tool run or a later step raised. */
  const ErrorPrefix: string := "Error running FastQC: "

  /** Where the uploaded file is saved: the upload folder joined with the client's file name. */
  function UploadPath(filename: string): (p: string)
    ensures StartsWith(filename, "/") ==> p == filename
    ensures !StartsWith(filename, "/") ==> p == UploadFolder + "/" + filename
  {
    Join(UploadFolder, filename)
  }

  /**
   The argument vector handed to `subprocess.run`: fastqc on the saved
   upload, writing into the output folder. The file operand lies inside the
   upload folder exactly when the client's name is relative.
   */
  function FastqcArgv(filename: string): (argv: seq<string>)
    ensures |argv| == 4
    ensures argv[0] == "fastqc" && argv[2] == "-o" && argv[3] == OutputFolder
    ensures argv[1] == UploadPath(filename) && EndsWith(argv[1], filename)
    ensures StartsWith(argv[1], UploadFolder + "/") <==> !StartsWith(filename, "/")
  {
    var path := UploadPath(filename);
    assert StartsWith(filename, "/") ==> path[0] == '/';
    assert !StartsWith(filename, "/") ==> path[..|UploadFolder + "/"|] == UploadFolder + "/";
    ["fastqc", path, "-o", OutputFolder]
  }

  /**
   What `subprocess.run([...], check=True)` does: the tool completes with
   exit status 0, or an exception is raised (a nonzero exit status, or the
   binary could not be launched) whose text is `message`.
   */
  datatype ToolOutcome = Completed | Raised(message: string)

  /**
   A handler's reply: the rendered results page with its image URLs, a
   plain body with a status code, or a framework-generated error page with
   only a status code (an exception outside the handler's `try`).
   */
  datatype Response =
    | Page(images: seq<string>)
    | Body(text: string, status: int)
    | Aborted(status: int)

  /**
   The status of the framework's error page when `request.files['dnaFile']`,
   the handler's first statement, raises because the form has no such
   field. Flask answers 400 for the bad-request error, except in debug
   mode (which both scripts' own `app.run(debug=True)` turns on), where the
   error is trapped and re-raised, giving a 500.
   */
  function MissingFieldStatus(debug: bool): int {
    if debug then 500 else 400
  }

  /** The reply of the handler's `except` clause. */
  function ErrorResponse(message: string): (r: Response)
    ensures r.Body? && r.status == 500
    ensures StartsWith(r.text, ErrorPrefix) && r.text[|ErrorPrefix|..] == message
  {
    Body(ErrorPrefix + message, 500)
  }
}
