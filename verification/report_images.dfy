/**
 Copying the charts out of a FastQC HTML report (`extract_and_copy_images`).

 The HTML parser is a boundary: the report is given as the list of `src`
 attributes of the `img` elements inside the `div` of class `main`, in
 document order (`None` when there is no such `div`; a `None` entry for an
 `img` without `src`). The base64 decoder is a boundary too: `decode` maps a
 payload to the decoded bytes or to the text of the exception it raises.
 The image directory is a map from file names to contents.
 */
module ReportImages {
  import opened Wrappers
  import opened PyStr

  newtype byte = b: int | 0 <= b < 256

  type Bytes = seq<byte>

  /** The contents of the static image directory, by file name. */
  type Directory = map<string, Bytes>

  /** The only kind of `src` that is extracted: an inline base64 PNG. */
  const PngDataUriPrefix: string := "data:image/png;base64,"

  /** The URL prefix under which the image directory is served. */
  const ImageUrlBase: string := "/static/report_images/"

  /** `src and src.startswith(...)`: a missing attribute is skipped, and an empty one never has the prefix. */
  predicate Keeps(src: Option<string>) {
    src.Some? && StartsWith(src.value, PngDataUriPrefix)
  }

  /** The `src` values that are extracted, in document order. */
  function KeptSources(srcs: seq<Option<string>>): (kept: seq<string>)
    ensures |kept| <= |srcs|
    ensures forall i :: 0 <= i < |kept| ==> StartsWith(kept[i], PngDataUriPrefix)
  {
    if |srcs| == 0 then []
    else
      var last := srcs[|srcs| - 1];
      KeptSources(srcs[..|srcs| - 1]) + (if Keeps(last) then [last.value] else [])
  }

  /**
   Filtering works element by element and keeps document order: the kept
   sources of a concatenation are those of the first part followed by those
   of the second.
   */
  lemma {:induction false} KeptSourcesAppend(a: seq<Option<string>>, b: seq<Option<string>>)
    ensures KeptSources(a + b) == KeptSources(a) + KeptSources(b)
    decreases |b|
  {
    if |b| == 0 {
      assert a + b == a;
    } else {
      var ab := a + b;
      assert ab[..|ab| - 1] == a + b[..|b| - 1];
      assert ab[|ab| - 1] == b[|b| - 1];
      KeptSourcesAppend(a, b[..|b| - 1]);
    }
  }

  /** A source is kept exactly when some `img` carries it and it has the PNG data-URI prefix. */
  lemma {:induction false} KeptSourcesMembers(srcs: seq<Option<string>>, s: string)
    ensures s in KeptSources(srcs) <==>
      StartsWith(s, PngDataUriPrefix) && exists i :: 0 <= i < |srcs| && srcs[i] == Some(s)
    decreases |srcs|
  {
    if |srcs| > 0 {
      var init := srcs[..|srcs| - 1];
      KeptSourcesMembers(init, s);
      if exists i :: 0 <= i < |srcs| && srcs[i] == Some(s) {
        var i :| 0 <= i < |srcs| && srcs[i] == Some(s);
        if i < |srcs| - 1 {
          assert init[i] == Some(s);
        }
      }
      if exists i :: 0 <= i < |init| && init[i] == Some(s) {
        var i :| 0 <= i < |init| && init[i] == Some(s);
        assert srcs[i] == Some(s);
      }
    }
  }

  lemma PayloadField(src: string)
    requires StartsWith(src, PngDataUriPrefix)
    ensures |Split(src, ',')| >= 2
    ensures Split(src, ',')[1] == Split(src[|PngDataUriPrefix|..], ',')[0]
  {
    var scheme := "data:image/png;base64";
    var rest := src[|PngDataUriPrefix|..];
    assert src == scheme + [','] + rest by {
      assert src == src[..|PngDataUriPrefix|] + rest;
    }
    assert forall i :: 0 <= i < |scheme| ==> scheme[i] != ',';
    SplitAfterField(scheme, rest, ',');
  }

  /**
   `src.split(",")[1]`: the text after the first comma up to the next comma
   or the end. Since the prefix holds exactly one comma, this is the text
   after the prefix up to the next comma, and the index never fails.
   */
  function Payload(src: string): (payload: string)
    requires StartsWith(src, PngDataUriPrefix)
    ensures StartsWith(src[|PngDataUriPrefix|..], payload)
    ensures ',' !in payload
    ensures |PngDataUriPrefix| + |payload| == |src| || src[|PngDataUriPrefix| + |payload|] == ','
  {
    PayloadField(src);
    SplitFirstField(src[|PngDataUriPrefix|..], ',');
    Split(src, ',')[1]
  }

  /** `f"report_image_{counter}.png"` */
  function FileName(k: nat): string {
    "report_image_" + DecimalString(k) + ".png"
  }

  /** `f"/static/report_images/{filename}"` */
  function ImagePath(k: nat): string {
    ImageUrlBase + FileName(k)
  }

  /** Different counters give different file names, so no extracted image overwrites another. */
  lemma FileNameInjective(j: nat, k: nat)
    requires FileName(j) == FileName(k)
    ensures j == k
  {
    var a := FileName(j);
    var b := FileName(k);
    assert a[13..|a| - 4] == DecimalString(j);
    assert b[13..|b| - 4] == DecimalString(k);
    DecimalStringInjective(j, k);
  }

  /** The names report_image_1.png .. report_image_n.png. */
  ghost function NameSet(n: nat): set<string> {
    if n == 0 then {} else NameSet(n - 1) + {FileName(n)}
  }

  /** A name is among the first n exactly when it is report_image_k.png for some k in 1..n. */
  lemma {:induction false} NameSetMembers(n: nat, name: string)
    ensures name in NameSet(n) <==> exists k :: 1 <= k <= n && name == FileName(k)
    decreases n
  {
    if n > 0 {
      NameSetMembers(n - 1, name);
      if exists k :: 1 <= k <= n && name == FileName(k) {
        var k :| 1 <= k <= n && name == FileName(k);
        if k < n {
          assert name in NameSet(n - 1);
        }
      }
    }
  }

  /** There are exactly n names report_image_1.png .. report_image_n.png. */
  lemma {:induction false} NameSetSize(n: nat)
    ensures |NameSet(n)| == n
    decreases n
  {
    if n == 0 {
      assert NameSet(0) == {};
    } else {
      NameSetSize(n - 1);
      NameSetMembers(n - 1, FileName(n));
      if FileName(n) in NameSet(n - 1) {
        var k :| 1 <= k <= n - 1 && FileName(n) == FileName(k);
        FileNameInjective(n, k);
      }
    }
  }

  /** `dir` holds the i-th kept image (counting from 0), successfully decoded, under report_image_{i+1}.png. */
  ghost predicate HoldsImage(dir: Directory, kept: seq<string>, decode: string -> Result<Bytes, string>, i: nat)
    requires i < |kept|
    requires StartsWith(kept[i], PngDataUriPrefix)
  {
    && decode(Payload(kept[i])).Success?
    && FileName(i + 1) in dir
    && dir[FileName(i + 1)] == decode(Payload(kept[i])).value
  }

  /**
   `dir` holds exactly the first `n` kept images, each successfully decoded,
   the i-th of them under report_image_i.png.
   */
  ghost predicate WroteFirst(dir: Directory, kept: seq<string>, decode: string -> Result<Bytes, string>, n: nat)
    requires n <= |kept|
    requires forall i :: 0 <= i < |kept| ==> StartsWith(kept[i], PngDataUriPrefix)
  {
    && dir.Keys == NameSet(n)
    && forall i :: 0 <= i < n ==> HoldsImage(dir, kept, decode, i)
  }

  lemma WroteFirstPrefix(dir: Directory, a: seq<string>, b: seq<string>, decode: string -> Result<Bytes, string>, n: nat)
    requires n <= |a| <= |b| && a == b[..|a|]
    requires forall i :: 0 <= i < |b| ==> StartsWith(b[i], PngDataUriPrefix)
    requires forall i :: 0 <= i < |a| ==> StartsWith(a[i], PngDataUriPrefix)
    requires WroteFirst(dir, a, decode, n)
    ensures WroteFirst(dir, b, decode, n)
  {
    forall i | 0 <= i < n
      ensures HoldsImage(dir, b, decode, i)
    {
      assert a[i] == b[i];
      assert HoldsImage(dir, a, decode, i);
    }
  }

  lemma WroteFirstStep(dir: Directory, kept: seq<string>, decode: string -> Result<Bytes, string>, n: nat)
    requires n < |kept|
    requires forall i :: 0 <= i < |kept| ==> StartsWith(kept[i], PngDataUriPrefix)
    requires WroteFirst(dir, kept, decode, n)
    requires decode(Payload(kept[n])).Success?
    ensures WroteFirst(dir[FileName(n + 1) := decode(Payload(kept[n])).value], kept, decode, n + 1)
  {
    var dir' := dir[FileName(n + 1) := decode(Payload(kept[n])).value];
    forall i | 0 <= i < n
      ensures HoldsImage(dir', kept, decode, i)
    {
      assert HoldsImage(dir, kept, decode, i);
      if FileName(i + 1) == FileName(n + 1) {
        FileNameInjective(i + 1, n + 1);
      }
      assert dir'[FileName(i + 1)] == dir[FileName(i + 1)];
    }
    assert HoldsImage(dir', kept, decode, n);
  }

  /** What one run leaves behind: the returned URLs or the decoder's exception, and the directory. */
  datatype Extraction = Extraction(outcome: Result<seq<string>, string>, dir: Directory)

  /**
   The run of `extract_and_copy_images` on a report whose main container
   holds `mainDiv`. Without a main container nothing is returned and the
   directory is left empty. Otherwise, when every kept image decodes, the
   k-th kept image (in document order) is stored as report_image_k.png and
   its URL is the k-th entry of the result; when the decoder raises on a
   kept image, the exception text is the outcome and only the images
   before it have been written. Either way no earlier file survives.
   */
  ghost predicate ExtractionOf(mainDiv: Option<seq<Option<string>>>, decode: string -> Result<Bytes, string>, r: Extraction) {
    match mainDiv
    case None => r == Extraction(Success([]), map[])
    case Some(srcs) =>
      var kept := KeptSources(srcs);
      match r.outcome
      case Success(paths) =>
        && |paths| == |kept|
        && (forall i :: 0 <= i < |paths| ==> paths[i] == ImagePath(i + 1))
        && WroteFirst(r.dir, kept, decode, |kept|)
      case Failure(e) =>
        exists j :: 0 <= j < |kept| && WroteFirst(r.dir, kept, decode, j) && decode(Payload(kept[j])) == Failure(e)
  }

  /**
   `extract_and_copy_images(report_path)`: empty the image directory, then
   walk the `img` elements of the main container, decoding and storing each
   inline PNG under the next counter value.
   */
  method ExtractAndCopyImages(mainDiv: Option<seq<Option<string>>>, decode: string -> Result<Bytes, string>, dir: Directory)
    returns (r: Extraction)
    ensures ExtractionOf(mainDiv, decode, r)
    ensures mainDiv.None? ==> r.outcome == Success([]) && r.dir == map[]
  {
    var images := ClearImages(dir);
    if mainDiv.None? {
      return Extraction(Success([]), images);
    }
    var srcs := mainDiv.value;
    var paths: seq<string> := [];
    var counter := 1;
    var i := 0;
    assert srcs[..0] == [];
    while i < |srcs|
      invariant 0 <= i <= |srcs|
      invariant counter == |paths| + 1
      invariant Progress(srcs, i, decode, images, paths)
    {
      var src := srcs[i];
      if src.Some? && StartsWith(src.value, PngDataUriPrefix) {
        var decoded := decode(Payload(src.value));
        if decoded.Failure? {
          // The exception propagates; the images written so far stay.
          DecodeFailure(srcs, i, images, decode, paths);
          return Extraction(Failure(decoded.error), images);
        }
        var filename := FileName(counter);
        StoreStep(srcs, i, images, decode, paths);
        images := images[filename := decoded.value];
        paths := paths + [ImageUrlBase + filename];
        counter := counter + 1;
      } else {
        SkipStep(srcs, i, images, decode, paths);
      }
      i := i + 1;
    }
    Finish(srcs, decode, images, paths);
    r := Extraction(Success(paths), images);
  }

  /** Removing every file of the image directory, one at a time. */
  method ClearImages(dir: Directory) returns (empty: Directory)
    ensures empty == map[]
  {
    empty := dir;
    while empty != map[]
      decreases |empty|
    {
      assert empty.Keys != {};
      var f :| f in empty;
      empty := empty - {f};
    }
  }

  /** After examining the first i `img` elements: one URL and one stored file per kept image so far. */
  ghost predicate Progress(srcs: seq<Option<string>>, i: nat, decode: string -> Result<Bytes, string>, dir: Directory, paths: seq<string>)
    requires i <= |srcs|
  {
    && |paths| == |KeptSources(srcs[..i])|
    && (forall k :: 0 <= k < |paths| ==> paths[k] == ImagePath(k + 1))
    && WroteFirst(dir, KeptSources(srcs[..i]), decode, |paths|)
  }

  /** A kept image that decodes is stored under the next name and its URL appended. */
  lemma StoreStep(srcs: seq<Option<string>>, i: nat, dir: Directory, decode: string -> Result<Bytes, string>, paths: seq<string>)
    requires i < |srcs| && Progress(srcs, i, decode, dir, paths)
    requires Keeps(srcs[i]) && decode(Payload(srcs[i].value)).Success?
    ensures Progress(srcs, i + 1, decode,
                     dir[FileName(|paths| + 1) := decode(Payload(srcs[i].value)).value],
                     paths + [ImageUrlBase + FileName(|paths| + 1)])
  {
    KeptSourcesStep(srcs, i, dir, decode, |paths|);
    WroteFirstStep(dir, KeptSources(srcs[..i + 1]), decode, |paths|);
  }

  /** An `img` that is not kept changes nothing. */
  lemma SkipStep(srcs: seq<Option<string>>, i: nat, dir: Directory, decode: string -> Result<Bytes, string>, paths: seq<string>)
    requires i < |srcs| && Progress(srcs, i, decode, dir, paths)
    requires !Keeps(srcs[i])
    ensures Progress(srcs, i + 1, decode, dir, paths)
  {
    KeptSourcesStep(srcs, i, dir, decode, |paths|);
  }

  /** Having examined every `img`, the run succeeded. */
  lemma Finish(srcs: seq<Option<string>>, decode: string -> Result<Bytes, string>, dir: Directory, paths: seq<string>)
    requires Progress(srcs, |srcs|, decode, dir, paths)
    ensures ExtractionOf(Some(srcs), decode, Extraction(Success(paths), dir))
  {
    assert srcs[..|srcs|] == srcs;
  }

  /** One more `img` examined: its source is appended to the kept ones when it is kept. */
  lemma KeptSourcesStep(srcs: seq<Option<string>>, i: nat, dir: Directory, decode: string -> Result<Bytes, string>, n: nat)
    requires i < |srcs| && n == |KeptSources(srcs[..i])|
    requires WroteFirst(dir, KeptSources(srcs[..i]), decode, n)
    ensures KeptSources(srcs[..i + 1]) == KeptSources(srcs[..i]) + (if Keeps(srcs[i]) then [srcs[i].value] else [])
    ensures WroteFirst(dir, KeptSources(srcs[..i + 1]), decode, n)
  {
    assert srcs[..i + 1][..i] == srcs[..i];
    WroteFirstPrefix(dir, KeptSources(srcs[..i]), KeptSources(srcs[..i + 1]), decode, n);
  }

  /** The decoder raising on the `img` at index i ends the run with the images written so far. */
  lemma DecodeFailure(srcs: seq<Option<string>>, i: nat, dir: Directory, decode: string -> Result<Bytes, string>, paths: seq<string>)
    requires i < |srcs| && Progress(srcs, i, decode, dir, paths)
    requires Keeps(srcs[i]) && decode(Payload(srcs[i].value)).Failure?
    ensures ExtractionOf(Some(srcs), decode, Extraction(Failure(decode(Payload(srcs[i].value)).error), dir))
  {
    var n := |paths|;
    KeptSourcesStep(srcs, i, dir, decode, n);
    var kept := KeptSources(srcs);
    assert srcs == srcs[..i + 1] + srcs[i + 1..];
    KeptSourcesAppend(srcs[..i + 1], srcs[i + 1..]);
    WroteFirstPrefix(dir, KeptSources(srcs[..i + 1]), kept, decode, n);
    assert kept[n] == srcs[i].value;
  }

  /**
   The outcome and the directory are determined by the report and the
   decoder alone: running the extraction again on the same report gives the
   same URLs and the same files, whatever the directory held before.
   */
  lemma ExtractionUnique(mainDiv: Option<seq<Option<string>>>, decode: string -> Result<Bytes, string>, r1: Extraction, r2: Extraction)
    requires ExtractionOf(mainDiv, decode, r1) && ExtractionOf(mainDiv, decode, r2)
    ensures r1 == r2
  {
    if mainDiv.Some? {
      var kept := KeptSources(mainDiv.value);
      var n1 := StopIndex(mainDiv.value, decode, r1);
      var n2 := StopIndex(mainDiv.value, decode, r2);
      StopIndexUnique(r1.dir, r2.dir, kept, decode, n1, n2);
      if r1.outcome.Success? && r2.outcome.Success? {
        var p1, p2 := r1.outcome.value, r2.outcome.value;
        assert |p1| == |p2|;
        assert forall i :: 0 <= i < |p1| ==> p1[i] == p2[i];
        assert p1 == p2;
      }
      assert r1.outcome == r2.outcome;
      assert r1.dir.Keys == r2.dir.Keys;
      forall name | name in r1.dir
        ensures r1.dir[name] == r2.dir[name]
      {
        NameSetMembers(n1, name);
        var k :| 1 <= k <= n1 && name == FileName(k);
        var i := k - 1;
        assert HoldsImage(r1.dir, kept, decode, i) && HoldsImage(r2.dir, kept, decode, i);
      }
      assert r1.dir == r2.dir;
    }
  }

  /** How many kept images a run wrote: all of them, or those before the one the decoder rejected. */
  ghost function StopIndex(srcs: seq<Option<string>>, decode: string -> Result<Bytes, string>, r: Extraction): (n: nat)
    requires ExtractionOf(Some(srcs), decode, r)
    ensures n <= |KeptSources(srcs)| && WroteFirst(r.dir, KeptSources(srcs), decode, n)
    ensures r.outcome.Success? <==> n == |KeptSources(srcs)|
    ensures r.outcome.Failure? ==> decode(Payload(KeptSources(srcs)[n])) == Failure(r.outcome.error)
  {
    var kept := KeptSources(srcs);
    if r.outcome.Success? then |kept|
    else
      var j :| 0 <= j < |kept| && WroteFirst(r.dir, kept, decode, j) && decode(Payload(kept[j])) == Failure(r.outcome.error);
      j
  }

  /** Every image among the first n written was decoded successfully. */
  lemma DecodedBefore(dir: Directory, kept: seq<string>, decode: string -> Result<Bytes, string>, n: nat, j: nat)
    requires n <= |kept|
    requires forall i :: 0 <= i < |kept| ==> StartsWith(kept[i], PngDataUriPrefix)
    requires WroteFirst(dir, kept, decode, n) && j < n
    ensures decode(Payload(kept[j])).Success?
  {
    assert HoldsImage(dir, kept, decode, j);
  }

  /** A run stops at the first image the decoder rejects, so two runs stop at the same place. */
  lemma StopIndexUnique(d1: Directory, d2: Directory, kept: seq<string>, decode: string -> Result<Bytes, string>, n1: nat, n2: nat)
    requires n1 <= |kept| && n2 <= |kept|
    requires forall i :: 0 <= i < |kept| ==> StartsWith(kept[i], PngDataUriPrefix)
    requires WroteFirst(d1, kept, decode, n1) && WroteFirst(d2, kept, decode, n2)
    requires n1 == |kept| || decode(Payload(kept[n1])).Failure?
    requires n2 == |kept| || decode(Payload(kept[n2])).Failure?
    ensures n1 == n2
  {
    if n1 < n2 {
      DecodedBefore(d2, kept, decode, n2, n1);
    }
    if n2 < n1 {
      DecodedBefore(d1, kept, decode, n1, n2);
    }
  }

  /**
   After a successful run the directory holds exactly one file per returned
   URL: a name is in the directory iff its URL is in the result.
   */
  lemma ExtractedFilesMatchUrls(mainDiv: Option<seq<Option<string>>>, decode: string -> Result<Bytes, string>, r: Extraction)
    requires ExtractionOf(mainDiv, decode, r) && r.outcome.Success?
    ensures forall name :: name in r.dir <==> ImageUrlBase + name in r.outcome.value
    ensures |r.dir| == |r.outcome.value|
  {
    var paths := r.outcome.value;
    var n := |paths|;
    assert r.dir.Keys == NameSet(n);
    forall name
      ensures name in r.dir <==> ImageUrlBase + name in paths
    {
      NameSetMembers(n, name);
      if name in r.dir {
        var k :| 1 <= k <= n && name == FileName(k);
        assert paths[k - 1] == ImageUrlBase + name;
      }
      if ImageUrlBase + name in paths {
        var i :| 0 <= i < n && paths[i] == ImageUrlBase + name;
        var a := ImageUrlBase + name;
        var b := ImagePath(i + 1);
        assert a[|ImageUrlBase|..] == name;
        assert b[|ImageUrlBase|..] == FileName(i + 1);
        assert name in NameSet(n);
      }
    }
    NameSetSize(n);
    assert |r.dir| == |r.dir.Keys|;
  }
}
