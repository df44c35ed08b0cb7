/**
 The `/run-fastqc` handler of `Capstone-BioInfromatics/ProcFast.py`: save
 the upload, run fastqc on it, and reply with the text of the
 `summary.txt` that fastqc writes for it. The file defines the handler
 twice with the same body; one model covers both.
 */
module SummaryHandler {
  import opened Wrappers
  import opened PyStr
  import opened PosixPath
  import opened Fastqc

  /**
   `filename.replace('.gz', '').replace('.fastq', '')`: the name with every
   `.gz` removed, then every `.fastq` removed. It is never longer than the name.
   */
  function Stem(filename: string): (stem: string)
    ensures |stem| <= |filename|
  {
    var noGz := Replace(filename, ".gz", "");
    RemoveShrinks(filename, ".gz");
    RemoveShrinks(noGz, ".fastq");
    Replace(noGz, ".fastq", "")
  }

  /** The stem is the file name itself exactly when the name holds neither `.gz` nor `.fastq`. */
  lemma StemUnchangedIff(filename: string)
    ensures Stem(filename) == filename <==> !Contains(filename, ".gz") && !Contains(filename, ".fastq")
  {
    var noGz := Replace(filename, ".gz", "");
    RemoveShrinks(filename, ".gz");
    RemoveShrinks(noGz, ".fastq");
    RemoveUnchangedIff(filename, ".gz");
    RemoveUnchangedIff(noGz, ".fastq");
  }

  /** Text that cannot start an occurrence of the needle is copied through unchanged. */
  lemma {:induction false} ReplaceKeepsPrefix(a: string, b: string, needle: string, replacement: string)
    requires |needle| > 0 && needle[0] !in a
    ensures Replace(a + b, needle, replacement) == a + Replace(b, needle, replacement)
    decreases |a|
  {
    if |a| > 0 {
      var s := a + b;
      assert s[0] == a[0];
      assert s[1..] == a[1..] + b;
      ReplaceKeepsPrefix(a[1..], b, needle, replacement);
      if |s| >= |needle| {
        assert s[..|needle|][0] != needle[0];
      }
      assert a == [a[0]] + a[1..];
    } else {
      assert a + b == b;
    }
  }

  /** A character that does not start an occurrence is copied and the scan moves on. */
  lemma ReplaceSkipsChar(c: char, b: string, needle: string, replacement: string)
    requires |needle| > 0 && !StartsWith([c] + b, needle)
    ensures Replace([c] + b, needle, replacement) == [c] + Replace(b, needle, replacement)
  {
    assert ([c] + b)[1..] == b;
  }

  /** An occurrence at the front is replaced and the scan resumes after it. */
  lemma ReplaceAtFront(b: string, needle: string, replacement: string)
    requires |needle| > 0
    ensures Replace(needle + b, needle, replacement) == replacement + Replace(b, needle, replacement)
  {
    assert (needle + b)[..|needle|] == needle;
    assert (needle + b)[|needle|..] == b;
  }

  /**
   Every occurrence is removed, not only a trailing extension: a gzipped
   FASTQ name whose base holds no dot loses both extensions.
   */
  lemma StemOfGzippedFastq(base: string)
    requires '.' !in base
    ensures Stem(base + ".fastq.gz") == base
  {
    ReplaceKeepsPrefix(base, ".fastq.gz", ".gz", "");
    assert ".fastq.gz" == ['.'] + ("fastq" + ".gz");
    assert ".fastq.gz"[..3][1] != ".gz"[1];
    ReplaceSkipsChar('.', "fastq" + ".gz", ".gz", "");
    ReplaceKeepsPrefix("fastq", ".gz", ".gz", "");
    ReplaceAtFront("", ".gz", "");
    assert ".gz" + "" == ".gz";
    assert base + ".fastq.gz" == base + ".fastq.gz";
    assert Replace(base + ".fastq.gz", ".gz", "") == base + ".fastq";
    ReplaceKeepsPrefix(base, ".fastq", ".fastq", "");
    ReplaceAtFront("", ".fastq", "");
    assert ".fastq" + "" == ".fastq";
  }

  /**
   An inner `.gz` is removed as well as the trailing one (for a second part
   that does not itself begin with `gz`, which would form another `.gz`).
   */
  lemma InnerGzRemoved(a: string, b: string)
    requires '.' !in a && '.' !in b && (|b| == 0 || b[0] != 'g')
    ensures Replace(a + ".gz" + "." + b + ".gz", ".gz", "") == a + "." + b
  {
    var g := ".gz";
    var t := "." + b + g;
    InnerGzRest(b);
    ReplaceAtFront(t, g, "");
    assert Replace(g + t, g, "") == "." + b;
    ReplaceKeepsPrefix(a, g + t, g, "");
    assert Replace(a + (g + t), g, "") == a + ("." + b);
    SeqAssoc5(a, g, ".", b, g);
  }

  /** Regrouping a five-part concatenation. */
  lemma SeqAssoc5(a: string, g: string, d: string, b: string, h: string)
    ensures a + g + d + b + h == a + (g + (d + b + h))
    ensures a + (d + b) == a + d + b
  {
  }

  lemma InnerGzRest(b: string)
    requires '.' !in b && (|b| == 0 || b[0] != 'g')
    ensures Replace("." + b + ".gz", ".gz", "") == "." + b
  {
    var t := "." + b + ".gz";
    if |b| == 0 {
      assert t == "..gz";
      assert t[..3][1] == '.';
      ReplaceSkipsChar('.', ".gz", ".gz", "");
      ReplaceAtFront("", ".gz", "");
      assert ".gz" + "" == ".gz";
    } else {
      assert t == ['.'] + (b + ".gz");
      assert t[..3][1] == b[0];
      ReplaceSkipsChar('.', b + ".gz", ".gz", "");
      ReplaceKeepsPrefix(b, ".gz", ".gz", "");
      ReplaceAtFront("", ".gz", "");
      assert ".gz" + "" == ".gz";
    }
  }

  /** Joining a relative component onto a non-empty folder that does not end in `/`. */
  lemma JoinRelative(a: string, b: string)
    ensures |a| > 0 && !EndsWith(a, "/") && !StartsWith(b, "/") ==> Join(a, b) == a + "/" + b
  {
  }

  lemma SummaryJoinRelative(stem: string)
    ensures !StartsWith(stem, "/") ==>
      Join3(OutputFolder, stem + "_fastqc", "summary.txt") == OutputFolder + "/" + stem + "_fastqc" + "/" + "summary.txt"
  {
    var dir := stem + "_fastqc";
    if !StartsWith(stem, "/") {
      SlashEnds(stem);
      SlashEnds(dir);
      assert |stem| > 0 ==> dir[0] == stem[0];
      SlashEnds(OutputFolder);
      JoinRelative(OutputFolder, dir);
      var inner := OutputFolder + "/" + dir;
      assert Join(OutputFolder, dir) == inner;
      assert inner[|inner| - 1] == 'c';
      SlashEnds(inner);
      SlashEnds("summary.txt");
      JoinRelative(inner, "summary.txt");
    }
  }

  lemma SummaryJoinAbsolute(stem: string)
    ensures StartsWith(stem, "/") ==>
      Join3(OutputFolder, stem + "_fastqc", "summary.txt") == stem + "_fastqc" + "/" + "summary.txt"
  {
    var dir := stem + "_fastqc";
    if StartsWith(stem, "/") {
      SlashEnds(stem);
      SlashEnds(dir);
      assert dir[0] == stem[0];
      assert Join(OutputFolder, dir) == dir;
      assert dir[|dir| - 1] == 'c';
      SlashEnds("summary.txt");
      JoinRelative(dir, "summary.txt");
    }
  }

  /**
   `os.path.join(OUTPUT_FOLDER, stem + '_fastqc', 'summary.txt')` for a
   given stem: the summary inside the output folder, unless the stem is
   absolute, in which case the output folder is discarded.
   */
  function SummaryPathForStem(stem: string): (p: string)
    ensures !StartsWith(stem, "/") ==> p == OutputFolder + "/" + stem + "_fastqc" + "/" + "summary.txt"
    ensures StartsWith(stem, "/") ==> p == stem + "_fastqc" + "/" + "summary.txt"
  {
    SummaryJoinRelative(stem);
    SummaryJoinAbsolute(stem);
    Join3(OutputFolder, stem + "_fastqc", "summary.txt")
  }

  /** The summary path fastqc's output is read from, derived from the uploaded file's name. */
  function SummaryPath(filename: string): string {
    SummaryPathForStem(Stem(filename))
  }

  /**
   `run_fastqc()`. `debug` says whether Flask runs in debug mode,
   `upload` is the file name of the `dnaFile` form field,
   `save` says whether `file.save` succeeds at a path, `run` is the outcome
   of `subprocess.run` on an argument vector, and `readFile` is what
   reading a path returns or the text of the exception it raises.
   */
  function RunFastqc(
    debug: bool,
    upload: Option<string>,
    save: string -> bool,
    run: seq<string> -> ToolOutcome,
    readFile: string -> Result<string, string>
  ): (resp: Response)
    ensures !resp.Page?
    ensures upload.None? ==> resp == Aborted(MissingFieldStatus(debug))
    // `file.save` is outside the `try`: its failure becomes the framework's error page.
    ensures upload.Some? && !save(UploadPath(upload.value)) ==> resp == Aborted(500)
    // Success exactly when the tool completed and the summary derived from the name could be read.
    ensures resp.Body? && resp.status == 200 <==>
              && upload.Some?
              && save(UploadPath(upload.value))
              && run(FastqcArgv(upload.value)).Completed?
              && readFile(SummaryPath(upload.value)).Success?
    ensures resp.Body? && resp.status == 200 ==> resp.text == readFile(SummaryPath(upload.value)).value
    // The `except` clause: a raising tool, or a summary that cannot be read, is reported with its message.
    ensures upload.Some? && save(UploadPath(upload.value)) && run(FastqcArgv(upload.value)).Raised? ==>
              resp == ErrorResponse(run(FastqcArgv(upload.value)).message)
    ensures && upload.Some? && save(UploadPath(upload.value)) && run(FastqcArgv(upload.value)).Completed?
            && readFile(SummaryPath(upload.value)).Failure? ==>
              resp == ErrorResponse(readFile(SummaryPath(upload.value)).error)
    // Conversely, every reply other than success and the framework's pages is such an error reply.
    ensures resp.Body? && resp.status != 200 ==>
              && resp.status == 500
              && upload.Some?
              && StartsWith(resp.text, ErrorPrefix)
              && var message := resp.text[|ErrorPrefix|..];
                 || run(FastqcArgv(upload.value)) == Raised(message)
                 || (run(FastqcArgv(upload.value)).Completed? && readFile(SummaryPath(upload.value)) == Failure(message))
  {
    match upload
    case None => Aborted(MissingFieldStatus(debug))
    case Some(filename) =>
      if !save(UploadPath(filename)) then Aborted(500)
      else
        match run(FastqcArgv(filename))
        case Raised(message) => ErrorResponse(message)
        case Completed =>
          match readFile(SummaryPath(filename))
          case Success(summary) => Body(summary, 200)
          case Failure(message) => ErrorResponse(message)
  }
}
