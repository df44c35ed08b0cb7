/**
 The few Python string operations the handlers rely on, stated over `seq<char>`:
 `str.startswith`, `str.replace`, `str.split` with a one-character
 separator, and `str(n)` for a non-negative integer.
 */
module PyStr {

  /** `s.startswith(prefix)` */
  predicate StartsWith(s: string, prefix: string) {
    |prefix| <= |s| && s[..|prefix|] == prefix
  }

  /** `s.endswith(suffix)` */
  predicate EndsWith(s: string, suffix: string) {
    |suffix| <= |s| && s[|s| - |suffix|..] == suffix
  }

  lemma SlashEnds(s: string)
    ensures StartsWith(s, "/") <==> |s| > 0 && s[0] == '/'
    ensures EndsWith(s, "/") <==> |s| > 0 && s[|s| - 1] == '/'
  {
    if |s| > 0 {
      assert s[..1] == [s[0]];
      assert s[|s| - 1..] == [s[|s| - 1]];
    }
  }

  /** `needle` occurs in `s` starting at index `i`. */
  predicate OccursAt(s: string, needle: string, i: int) {
    0 <= i && i + |needle| <= |s| && s[i..i + |needle|] == needle
  }

  /** `needle in s` */
  predicate Contains(s: string, needle: string) {
    exists i | 0 <= i <= |s| :: OccursAt(s, needle, i)
  }

  lemma OccursAtShift(s: string, needle: string, i: int)
    requires |s| > 0 && 0 <= i
    ensures OccursAt(s[1..], needle, i) <==> OccursAt(s, needle, i + 1)
  {
    if i + |needle| <= |s[1..]| {
      assert s[1..][i..i + |needle|] == s[i + 1..i + 1 + |needle|];
    }
  }

  /** An occurrence that does not start at index 0 is an occurrence in the tail. */
  lemma ContainsTail(s: string, needle: string)
    requires |s| > 0 && !OccursAt(s, needle, 0)
    ensures Contains(s, needle) <==> Contains(s[1..], needle)
  {
    if Contains(s, needle) {
      var i :| 0 <= i <= |s| && OccursAt(s, needle, i);
      OccursAtShift(s, needle, i - 1);
      assert 0 <= i - 1 <= |s[1..]|;
    }
    if Contains(s[1..], needle) {
      var i :| 0 <= i <= |s[1..]| && OccursAt(s[1..], needle, i);
      OccursAtShift(s, needle, i);
      assert 0 <= i + 1 <= |s|;
    }
  }

  /**
   `s.replace(needle, replacement)`: the string is scanned left to right;
   where `needle` starts it is replaced and the scan resumes after it,
   otherwise one character is kept. Occurrences therefore never overlap.
   The handlers only ever pass a non-empty literal as `needle`.
   */
  function Replace(s: string, needle: string, replacement: string): string
    requires |needle| > 0
    decreases |s|
  {
    if |s| < |needle| then s
    else if s[..|needle|] == needle then replacement + Replace(s[|needle|..], needle, replacement)
    else [s[0]] + Replace(s[1..], needle, replacement)
  }

  /** A string without an occurrence of `needle` is left unchanged. */
  lemma {:induction false} ReplaceAbsent(s: string, needle: string, replacement: string)
    requires |needle| > 0 && !Contains(s, needle)
    ensures Replace(s, needle, replacement) == s
    decreases |s|
  {
    if |needle| <= |s| {
      assert !OccursAt(s, needle, 0);
      ContainsTail(s, needle);
      ReplaceAbsent(s[1..], needle, replacement);
      assert [s[0]] + s[1..] == s;
    }
  }

  /** Removing a non-empty needle never lengthens the string, and strictly shortens it when the needle occurs. */
  lemma {:induction false} RemoveShrinks(s: string, needle: string)
    requires |needle| > 0
    ensures |Replace(s, needle, "")| <= |s|
    ensures Contains(s, needle) ==> |Replace(s, needle, "")| < |s|
    decreases |s|
  {
    if |s| < |needle| {
      assert forall i :: !OccursAt(s, needle, i);
    } else if s[..|needle|] == needle {
      RemoveShrinks(s[|needle|..], needle);
    } else {
      assert !OccursAt(s, needle, 0);
      ContainsTail(s, needle);
      RemoveShrinks(s[1..], needle);
    }
  }

  /** Removing `needle` changes nothing exactly when `needle` does not occur. */
  lemma RemoveUnchangedIff(s: string, needle: string)
    requires |needle| > 0
    ensures Replace(s, needle, "") == s <==> !Contains(s, needle)
  {
    RemoveShrinks(s, needle);
    if !Contains(s, needle) {
      ReplaceAbsent(s, needle, "");
    }
  }

  /**
   A single removal pass can create a new occurrence: the pieces around a
   removed occurrence are glued together.
   */
  lemma RemoveCanReintroduce()
    ensures Replace("a.g.gzz", ".gz", "") == "a.gz"
    ensures Contains(Replace("a.g.gzz", ".gz", ""), ".gz")
  {
    var s := "a.g.gzz";
    assert s[3..][..3] == ".gz" && s[3..][3..] == "z";
    assert Replace(s[3..], ".gz", "") == "z";
    assert s[2..][..3][0] != '.' && s[2..][1..] == s[3..];
    assert Replace(s[2..], ".gz", "") == "gz";
    assert s[1..][..3][2] != 'z' && s[1..][1..] == s[2..];
    assert Replace(s[1..], ".gz", "") == ".gz";
    assert s[..3][0] != '.';
    assert Replace(s, ".gz", "") == "a.gz";
    assert "a.gz"[1..4] == ".gz";
    assert OccursAt("a.gz", ".gz", 1);
  }

  /** `s * k`: k copies of s, one after the other. */
  function Repeat(s: string, k: nat): (r: string)
    ensures |r| == k * |s|
  {
    if k == 0 then [] else s + Repeat(s, k - 1)
  }

  /**
   Occurrences are consumed left to right and never overlap: in a run of
   2k+1 equal characters the doubled character is found k times, and the
   last character is left over.
   */
  lemma {:induction false} ReplaceNonOverlapping(c: char, k: nat, replacement: string)
    ensures Replace(Repeat([c], 2 * k + 1), [c, c], replacement) == Repeat(replacement, k) + [c]
    decreases k
  {
    var s := Repeat([c], 2 * k + 1);
    if k == 0 {
      assert s == [c];
    } else {
      var rest := Repeat([c], 2 * (k - 1) + 1);
      assert s == [c, c] + rest;
      assert s[..2] == [c, c] && s[2..] == rest;
      ReplaceNonOverlapping(c, k - 1, replacement);
    }
  }

  /**
   `s.split(sep)`: the fields between separators, left to right. There is
   always at least one field and no field holds the separator.
   */
  function Split(s: string, sep: char): (fields: seq<string>)
    ensures |fields| >= 1
    ensures forall i :: 0 <= i < |fields| ==> sep !in fields[i]
    decreases |s|
  {
    if |s| == 0 then [""]
    else
      var rest := Split(s[1..], sep);
      if s[0] == sep then [""] + rest
      else [[s[0]] + rest[0]] + rest[1..]
  }

  /** `sep.join(fields)` */
  function JoinWith(fields: seq<string>, sep: char): string
    requires |fields| >= 1
  {
    if |fields| == 1 then fields[0]
    else fields[0] + [sep] + JoinWith(fields[1..], sep)
  }

  /** Joining the fields of a split gives back the original string. */
  lemma {:induction false} JoinSplit(s: string, sep: char)
    ensures JoinWith(Split(s, sep), sep) == s
    decreases |s|
  {
    if |s| > 0 {
      var rest := Split(s[1..], sep);
      JoinSplit(s[1..], sep);
      if s[0] == sep {
        assert JoinWith([""] + rest, sep) == "" + [sep] + JoinWith(rest, sep);
        assert s == [s[0]] + s[1..];
      } else if |rest| == 1 {
        assert s == [s[0]] + s[1..];
      } else {
        var fields := [[s[0]] + rest[0]] + rest[1..];
        assert fields[1..] == rest[1..];
        assert JoinWith(rest, sep) == rest[0] + [sep] + JoinWith(rest[1..], sep);
        assert s == [s[0]] + s[1..];
      }
    }
  }

  /** A string without the separator is a single field. */
  lemma {:induction false} SplitWithoutSep(a: string, sep: char)
    requires sep !in a
    ensures Split(a, sep) == [a]
    decreases |a|
  {
    if |a| > 0 {
      SplitWithoutSep(a[1..], sep);
      assert [a[0]] + a[1..] == a;
    }
  }

  /** A leading separator-free field followed by the separator splits off as the first field. */
  lemma {:induction false} SplitAfterField(a: string, b: string, sep: char)
    requires sep !in a
    ensures Split(a + [sep] + b, sep) == [a] + Split(b, sep)
    decreases |a|
  {
    var s := a + [sep] + b;
    if |a| == 0 {
      assert s[1..] == b;
    } else {
      assert s[1..] == a[1..] + [sep] + b;
      SplitAfterField(a[1..], b, sep);
      assert [a[0]] + a[1..] == a;
    }
  }

  /** Splitting a join of separator-free fields gives back the fields. */
  lemma {:induction false} SplitJoin(fields: seq<string>, sep: char)
    requires |fields| >= 1
    requires forall i :: 0 <= i < |fields| ==> sep !in fields[i]
    ensures Split(JoinWith(fields, sep), sep) == fields
    decreases |fields|
  {
    if |fields| == 1 {
      SplitWithoutSep(fields[0], sep);
    } else {
      SplitJoin(fields[1..], sep);
      SplitAfterField(fields[0], JoinWith(fields[1..], sep), sep);
      assert [fields[0]] + fields[1..] == fields;
    }
  }

  /** The first field of a split is the longest separator-free prefix. */
  lemma {:induction false} SplitFirstField(s: string, sep: char)
    ensures StartsWith(s, Split(s, sep)[0])
    ensures |Split(s, sep)[0]| == |s| || s[|Split(s, sep)[0]|] == sep
    decreases |s|
  {
    if |s| > 0 && s[0] != sep {
      SplitFirstField(s[1..], sep);
      var f := Split(s[1..], sep)[0];
      assert Split(s, sep)[0] == [s[0]] + f;
      assert s[..|f| + 1] == [s[0]] + s[1..][..|f|];
    }
  }

  /** The character for a decimal digit. */
  function DigitChar(d: nat): (c: char)
    requires d < 10
    ensures '0' <= c <= '9'
  {
    ('0' as int + d) as char
  }

  predicate IsDigits(s: string) {
    forall i :: 0 <= i < |s| ==> '0' <= s[i] <= '9'
  }

  /** `str(n)` for a non-negative integer: decimal digits without leading zeros. */
  function DecimalString(n: nat): (s: string)
    ensures |s| >= 1 && IsDigits(s)
    ensures |s| > 1 ==> s[0] != '0'
    decreases n
  {
    if n < 10 then [DigitChar(n)]
    else DecimalString(n / 10) + [DigitChar(n % 10)]
  }

  /** `int(s)` for a string of decimal digits. */
  function ParseDecimal(s: string): nat
    requires IsDigits(s)
  {
    if |s| == 0 then 0
    else 10 * ParseDecimal(s[..|s| - 1]) + (s[|s| - 1] as int - '0' as int)
  }

  /** Parsing the decimal rendering of `n` gives back `n`. */
  lemma {:induction false} ParseDecimalString(n: nat)
    ensures ParseDecimal(DecimalString(n)) == n
    decreases n
  {
    var s := DecimalString(n);
    if n >= 10 {
      ParseDecimalString(n / 10);
      assert s[..|s| - 1] == DecimalString(n / 10);
    }
  }

  /** Distinct numbers have distinct decimal renderings. */
  lemma DecimalStringInjective(m: nat, n: nat)
    requires DecimalString(m) == DecimalString(n)
    ensures m == n
  {
    ParseDecimalString(m);
    ParseDecimalString(n);
  }
}
