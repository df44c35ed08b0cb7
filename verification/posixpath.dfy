/** `os.path.join` on a POSIX system, the only path operation the handlers use. */
module PosixPath {
  import opened PyStr

  /**
   `os.path.join(a, b)`: an absolute `b` discards `a`; otherwise `b` is
   appended to `a`, with a `/` in between unless `a` is empty or already
   ends with one.
   */
  function Join(a: string, b: string): (p: string)
    ensures StartsWith(b, "/") ==> p == b
    ensures !StartsWith(b, "/") ==> StartsWith(p, a) && EndsWith(p, b)
    ensures !StartsWith(b, "/") ==> |p| == |a| + |b| + (if a == [] || EndsWith(a, "/") then 0 else 1)
    ensures !StartsWith(b, "/") && a != [] && !EndsWith(a, "/") ==> p[|a|] == '/'
  {
    if StartsWith(b, "/") then b
    else if a == [] || EndsWith(a, "/") then a + b
    else a + "/" + b
  }

  /**
   The separator rule determines the joined path: a string that begins
   with `a`, ends with a relative `b`, and has room for at most the one
   `/` between them (present when `a` is non-empty and does not end with
   `/`) is `os.path.join(a, b)`.
   */
  lemma JoinSeparatorRule(a: string, b: string, q: string)
    requires !StartsWith(b, "/") && StartsWith(q, a) && EndsWith(q, b)
    requires |q| == |a| + |b| + (if a == [] || EndsWith(a, "/") then 0 else 1)
    requires a != [] && !EndsWith(a, "/") ==> q[|a|] == '/'
    ensures q == Join(a, b)
  {
  }

  /** `os.path.join(a, b, c)`, which joins left to right. */
  function Join3(a: string, b: string, c: string): string {
    Join(Join(a, b), c)
  }
}
