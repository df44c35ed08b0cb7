# FastQC web handlers: a verified Dafny model

This project models the sequential logic inside the two Flask apps of the
Bioinformatics capstone: the `/run-fastqc` handlers. Each handler saves an
uploaded reads file, runs the external `fastqc` binary on it, and replies
with the tool's results.

- The root `ProcFast.py` looks for the fixed report `example_fastqc.html`.
  It then copies the inline PNG charts out of the report's main `div` into
  the static image directory, using `extract_and_copy_images`. It renders
  the page with their URLs.
- `Capstone-BioInfromatics/ProcFast.py` derives a summary path from the
  upload's file name. It removes every `.gz`, then every `.fastq`, then
  appends `_fastqc/summary.txt`. It replies with that file's text. That file
  defines the same handler twice with identical bodies (lines 17-36 and
  50-69). `SummaryHandler.RunFastqc` models both.

Modules:

- `Wrappers`: `Option` and `Result`.
- `PyStr`: the Python string operations the handlers use.
  - `str.startswith`.
  - `str.replace`: all leftmost, non-overlapping occurrences, scanning left to right.
  - `str.split` on a single character.
  - `str(n)` for a natural number.
- `PosixPath`: `os.path.join`.
  - An absolute component discards everything before it.
  - A `/` is inserted unless the earlier part is empty or already ends in `/`.
- `Fastqc`: what the handlers share.
  - The folder constants.
  - The upload path.
  - The four-element fastqc argument vector.
  - The reply shapes.
  - The `except`-clause reply `"Error running FastQC: " + message`, status 500.
- `ReportImages`: `extract_and_copy_images`.
  - The image directory is a map from file names to bytes.
  - It is emptied first.
  - Only `src` values starting with `data:image/png;base64,` are kept.
  - The payload is the second comma-separated field.
  - The k-th kept image is written as `report_image_k.png`, and its URL is the k-th result.
  - The relational specification `ExtractionOf` describes the whole run, including the run cut short by a decoder exception. `ExtractionUnique` shows that this specification determines the result.
- `ProcFast`: the root handler.
- `SummaryHandler`: the Capstone handler.

Boundaries are parameters:

| parameter | stands for |
|---|---|
| `debug` | whether Flask runs in debug mode, as the scripts' own `app.run(debug=True)` sets it |
| `upload` | the `dnaFile` form field's file name, `None` when missing |
| `save` | whether `file.save` succeeds |
| `run` | the outcome of `subprocess.run(..., check=True)`: completed, or raised with the exception text |
| `pathExists` | `os.path.exists` |
| `readFile` | `open(...).read()`, or the exception text |
| `mainDiv` | the `src` attributes of the `img` elements in the report's `div.main`, as the HTML parser would give them |
| `decode` | `base64.b64decode`, which may raise |

An exception from `b64decode` is not caught inside `extract_and_copy_images`. It propagates to the handler's `except`, so the reply is the 500 error reply, and the images already written stay in the directory.

## Model

| member | source | states |
|---|---|---|
| PyStr.RemoveUnchangedIff | Capstone-BioInfromatics/ProcFast.py:30 | removing a (non-empty) substring leaves the string unchanged exactly when it does not occur |
| PyStr.RemoveShrinks | Capstone-BioInfromatics/ProcFast.py:30 | removing a substring never lengthens the string, and strictly shortens it when the substring occurs |
| PyStr.ReplaceAbsent | Capstone-BioInfromatics/ProcFast.py:30 | replacing a substring that does not occur returns the string unchanged |
| PyStr.ReplaceNonOverlapping | Capstone-BioInfromatics/ProcFast.py:30 | occurrences are taken left to right without overlap: in a run of 2k+1 equal characters the doubled character is replaced k times and the last character is kept |
| PyStr.RemoveCanReintroduce | Capstone-BioInfromatics/ProcFast.py:30 | a single removal pass can create a new occurrence: removing `.gz` from `a.g.gzz` gives `a.gz` |
| PyStr.Split | ProcFast.py:40 | `str.split` on one character yields at least one field and no field holds the separator |
| PyStr.JoinSplit | ProcFast.py:40 | joining the fields of a split with the separator restores the string |
| PyStr.SplitJoin | ProcFast.py:40 | splitting a join of separator-free fields restores the fields |
| PyStr.SplitFirstField | ProcFast.py:40 | the first field is a prefix of the string, ended by the first separator or the end |
| PyStr.DecimalString | ProcFast.py:43 | `str(n)` is a non-empty string of digits without a leading zero |
| PyStr.ParseDecimalString | ProcFast.py:43 | reading the decimal digits of `str(n)` gives back n |
| PyStr.DecimalStringInjective | ProcFast.py:43 | different numbers have different decimal strings |
| PosixPath.Join | ProcFast.py:64 | `os.path.join(a, b)` is exactly b when b is absolute; otherwise it begins with a, ends with b, and holds between them a single `/` when a is non-empty and does not end with `/`, and nothing otherwise |
| PosixPath.JoinSeparatorRule | ProcFast.py:64 | any string built by that separator rule from a and a relative b equals `os.path.join(a, b)`, so the rule determines the join |
| Fastqc.UploadPath | Capstone-BioInfromatics/ProcFast.py:20 | the upload is saved at `uploads/<name>`, or at the name itself when it is absolute |
| Fastqc.FastqcArgv | Capstone-BioInfromatics/ProcFast.py:24-27 | the argument vector is exactly `fastqc`, the upload path, `-o`, `fastqc_output`; the file operand is inside `uploads/` exactly when the name is relative |
| Fastqc.ErrorResponse | Capstone-BioInfromatics/ProcFast.py:35-36 | the error reply has status 500 and its body is `Error running FastQC: ` followed by exactly the exception text |
| ReportImages.KeptSources | ProcFast.py:37-39 | at most one kept source per `img`, and every kept source has the PNG data-URI prefix |
| ReportImages.KeptSourcesMembers | ProcFast.py:38-39 | a string is kept exactly when some `img` has it as `src` and it starts with `data:image/png;base64,` |
| ReportImages.KeptSourcesAppend | ProcFast.py:37 | filtering keeps document order: the kept sources of a concatenation are those of the parts, in order |
| ReportImages.Payload | ProcFast.py:40 | `src.split(",")[1]` exists for a kept source and is the text after the prefix up to the next comma or the end |
| ReportImages.FileNameInjective | ProcFast.py:43 | different counter values give different `report_image_<k>.png` names, so no image overwrites another |
| ReportImages.NameSetSize | ProcFast.py:43-49 | the names for counters 1..n are n distinct names |
| ReportImages.WroteFirstStep | ProcFast.py:43-46 | writing the next decoded image under the next counter keeps every earlier file and adds exactly the new one |
| ReportImages.ClearImages | ProcFast.py:24-26 | removing the listed files one by one leaves the directory empty |
| ReportImages.ExtractAndCopyImages | ProcFast.py:21-51 | the run satisfies `ExtractionOf`: no main `div` gives `[]` and an empty directory; otherwise the k-th kept image is stored as `report_image_k.png`, the k-th URL is `/static/report_images/report_image_k.png`, and a decoder exception ends the run with only the earlier images written |
| ReportImages.StopIndexUnique | ProcFast.py:37-41 | the run stops at the first kept image the decoder rejects, so any two runs on the same input stop at the same image |
| ReportImages.ExtractionUnique | ProcFast.py:21-51 | the result and directory of a run are fully determined by the report and the decoder; no earlier file survives |
| ReportImages.ExtractedFilesMatchUrls | ProcFast.py:24-48 | after a successful run a name is in the directory exactly when its URL is in the result, and there are as many files as URLs |
| ProcFast.RunFastqc | ProcFast.py:61-77 | a missing field gives the framework's error page (400, or 500 in debug mode); a failed save gives a 500 error page; a raising tool gives the error reply; a missing report gives `FastQC report not found!` with 500 and no extraction; otherwise the page with the extracted URLs, or the error reply carrying the decoder's exception |
| SummaryHandler.Stem | Capstone-BioInfromatics/ProcFast.py:30 | the stem is never longer than the file name |
| SummaryHandler.StemUnchangedIff | Capstone-BioInfromatics/ProcFast.py:30 | the stem equals the file name exactly when the name contains neither `.gz` nor `.fastq` |
| SummaryHandler.StemOfGzippedFastq | Capstone-BioInfromatics/ProcFast.py:30 | a dot-free base with `.fastq.gz` appended has that base as its stem |
| SummaryHandler.InnerGzRemoved | Capstone-BioInfromatics/ProcFast.py:63 | every `.gz` is removed, not only a trailing one: `a.gz.b.gz` loses both, giving `a.b` |
| SummaryHandler.SummaryPathForStem | Capstone-BioInfromatics/ProcFast.py:30 | the summary path is `fastqc_output/<stem>_fastqc/summary.txt`, or `<stem>_fastqc/summary.txt` when the stem is absolute |
| SummaryHandler.RunFastqc | Capstone-BioInfromatics/ProcFast.py:17-36 | a missing field gives the framework's error page (400, or 500 in debug mode) and a failed save a 500 error page; status 200 exactly when the tool completed and the summary derived from the name was read, with the body equal to the summary's text; a raising tool or an unreadable summary gives exactly the error reply `Error running FastQC: ` + its exception text, with 500, and every other reply is one of these |

## Left out

- Flask routing, templates, static file serving and `app.run`: I/O shell with no logic. The page reply is modelled as the list of image URLs passed to the template. The framework's own error pages are modelled by their status only.
- The fastqc binary and `subprocess.run` internals: modelled as an opaque outcome, completed or raised with a message. The exact texts of Python exception messages are not modelled.
- HTML parsing with BeautifulSoup: modelled as the optional list of `src` attributes it would find.
- Base64 decoding: the decoder is a parameter. The model does not state which payloads decode.
- `os.makedirs` calls at import time and inside `extract_and_copy_images`: the directories are assumed to exist.
- ReportImages.ExtractAndCopyImages: does not model `os.remove` raising on a sub-directory, a failing `open` of the report, or a failing image write. The directory holds only files, and the file system is abstracted as a map.
- ProcFast.RunFastqc: does not model the report vanishing between `os.path.exists` and `open`. Its exception would give the same error reply as a decoder failure.
- PyStr.Replace: requires a non-empty needle. Python's behaviour for an empty needle is not modelled, because the handlers only pass `.gz` and `.fastq`.
- Which of the two duplicated definitions in `Capstone-BioInfromatics/ProcFast.py` Flask ends up serving: both bodies are identical, so one model covers both.
- Concurrency between requests: the shared folders are not modelled as shared state.
