/** The two `os.path` operations of POSIX Python the pipeline uses to build
    file names and object keys: `join` and the extension half of `splitext`. */
module Paths {
  import opened Text

  /** `os.path.join(a, b)`: an absolute `b` replaces `a`; otherwise a `/` is
      put between them unless `a` is empty or already ends in `/`. */
  function PathJoin(a: string, b: string): (r: string)
    ensures StartsWith(b, "/") ==> r == b
    ensures !StartsWith(b, "/") ==> EndsWith(r, b) && StartsWith(r, a)
    ensures !StartsWith(b, "/") && a != [] && a[|a| - 1] != '/' ==> r == a + "/" + b
  {
    if StartsWith(b, "/") then b
    else if a == [] || a[|a| - 1] == '/' then a + b
    else a + "/" + b
  }

  /** Appending to the last component of a join is appending to the joined path:
      `join(a, f + s) == join(a, f) + s` whenever `f + s` does not start with `/`. */
  lemma PathJoinAppend(a: string, f: string, s: string)
    requires !StartsWith(f + s, "/")
    ensures PathJoin(a, f + s) == PathJoin(a, f) + s
  {
    if f != [] {
      assert (f + s)[..1] == f[..1];
    }
  }

  /** Index of the last `c` in `s`, or -1 (Python's `s.rfind(c)`). */
  function RFind(s: string, c: char): (i: int)
    ensures -1 <= i < |s|
    ensures i >= 0 ==> s[i] == c
    ensures forall k :: i < k < |s| ==> s[k] != c
  {
    if |s| == 0 then -1
    else if s[|s| - 1] == c then |s| - 1
    else RFind(s[..|s| - 1], c)
  }

  /** Index where the last path component of `p` starts. */
  function BaseStart(p: string): nat {
    RFind(p, '/') + 1
  }

  /** The extension `os.path.splitext(p)[1]`: from the last `.` of the last
      path component to the end, provided some character before that dot in
      the component is not a dot (so `.bashrc` has no extension); else empty. */
  function SplitExt(p: string): (ext: string)
    ensures ext != [] ==>
              && EndsWith(p, ext) && ext[0] == '.'
              && BaseStart(p) < |p| - |ext|
              && (forall k :: 1 <= k < |ext| ==> ext[k] != '.' && ext[k] != '/')
              && (exists k :: BaseStart(p) <= k < |p| - |ext| && p[k] != '.')
    ensures ext == [] ==>
              forall i, k :: BaseStart(p) <= k < i < |p| && p[i] == '.' ==> p[k] == '.'
  {
    var sep := RFind(p, '/');
    var dot := RFind(p, '.');
    if dot > sep && exists k :: sep < k < dot && p[k] != '.' then
      assert forall k :: 1 <= k < |p[dot..]| ==> p[dot..][k] == p[dot + k];
      p[dot..]
    else
      ""
  }
}
