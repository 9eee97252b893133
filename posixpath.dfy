/** The two `os.path` operations discovery uses, as POSIX Python defines them. */
module PosixPath {
  import opened Wrappers

  /** Index of the last `c` in `s` (Python's `str.rfind`, with None for -1). */
  function RFind(s: string, c: char): (r: Option<nat>)
    ensures r.Some? ==> r.value < |s| && s[r.value] == c
    ensures r.Some? ==> forall j :: r.value < j < |s| ==> s[j] != c
    ensures r.None? ==> c !in s
    decreases |s|
  {
    if |s| == 0 then None
    else if s[|s| - 1] == c then Some(|s| - 1)
    else
      var r := RFind(s[..|s| - 1], c);
      assert forall j :: 0 <= j < |s| - 1 ==> s[..|s| - 1][j] == s[j];
      r
  }

  /** `s.rstrip('/')`. */
  function RStripSlashes(s: string): (r: string)
    ensures r <= s
    ensures |r| > 0 ==> r[|r| - 1] != '/'
    ensures forall j :: |r| <= j < |s| ==> s[j] == '/'
    decreases |s|
  {
    if |s| > 0 && s[|s| - 1] == '/' then RStripSlashes(s[..|s| - 1]) else s
  }

  predicate AllSlashes(s: string) {
    forall j :: 0 <= j < |s| ==> s[j] == '/'
  }

  /** `os.path.dirname(p)`: the text up to the last slash, trailing slashes removed unless it is only slashes. */
  function DirName(p: string): string {
    var i := match RFind(p, '/') case None => 0 case Some(k) => k + 1;
    var head := p[..i];
    if head != "" && !AllSlashes(head) then RStripSlashes(head) else head
  }

  /** `os.path.join(a, b)` for two components. */
  function PathJoin(a: string, b: string): string {
    if |b| > 0 && b[0] == '/' then b
    else if a == "" || a[|a| - 1] == '/' then a + b
    else a + "/" + b
  }

  /** Joining a directory with a relative name puts exactly one slash between them. */
  lemma JoinRelative(d: string, f: string)
    requires |d| > 0 && d[|d| - 1] != '/'
    requires |f| > 0 && f[0] != '/'
    ensures PathJoin(d, f) == d + "/" + f
  {
  }

  /** The directory of `d/f`, for a slash-free file name `f`, is `d`. */
  lemma DirNameOfJoin(d: string, f: string)
    requires |d| > 0 && d[|d| - 1] != '/'
    requires '/' !in f
    ensures DirName(d + "/" + f) == d
  {
    var p := d + "/" + f;
    assert p[|d|] == '/';
    assert forall j :: |d| < j < |p| ==> p[j] == f[j - |d| - 1];
    var r := RFind(p, '/');
    assert r == Some(|d|);
    var head := p[..|d| + 1];
    assert head == d + "/";
    assert head[|d| - 1] != '/';
    assert RStripSlashes(head) == RStripSlashes(d);
    assert RStripSlashes(d) == d;
  }
}
