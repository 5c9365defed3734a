/** The two POSIX `path` functions the migration script calls on URLs and
    file names: `path.basename(p)` and `path.extname(p)`. */
module NodePath {
  import opened Wrappers

  /** The length of `p` once its trailing `/` characters are dropped. */
  function StrippedLength(p: string): (n: nat)
    ensures n <= |p|
    ensures n == 0 || p[n - 1] != '/'
    ensures forall k :: n <= k < |p| ==> p[k] == '/'
    decreases |p|
  {
    if p != [] && p[|p| - 1] == '/' then StrippedLength(p[..|p| - 1]) else |p|
  }

  /** The index just after the last `/` in `p[..end]`, or 0. */
  function SegmentStart(p: string, end: nat): (i: nat)
    requires end <= |p|
    ensures i <= end
    ensures forall k :: i <= k < end ==> p[k] != '/'
    ensures i > 0 ==> p[i - 1] == '/'
    decreases end
  {
    if end == 0 || p[end - 1] == '/' then end else SegmentStart(p, end - 1)
  }

  /** `r` is the last segment of `p`: once the trailing slashes of `p` are
      dropped, the whole stretch after the last `/`, or all of what is left
      when there is none. */
  predicate LastSegment(r: string, p: string) {
    var n := StrippedLength(p);
    |r| <= n && r == p[n - |r|..n] && (|r| == n || p[n - |r| - 1] == '/')
  }

  /** `path.basename(p)`: the last path segment, trailing slashes ignored.
      Once the trailing slashes are dropped, it is the whole stretch after
      the last `/` (or all of what is left when there is none); it is all of
      `p` when `p` has no `/`. */
  function Basename(p: string): (r: string)
    ensures '/' !in r && |r| <= |p|
    ensures LastSegment(r, p)
    ensures '/' !in p ==> r == p
    ensures p != [] && p[|p| - 1] != '/' ==> r == p[|p| - |r|..] && (|r| == |p| || p[|p| - |r| - 1] == '/')
  {
    var n := StrippedLength(p);
    var i := SegmentStart(p, n);
    assert '/' !in p ==> n == |p| && i == 0;
    p[i..n]
  }

  /** The index of the last `.` in `s`. */
  function LastDot(s: string): (r: Option<nat>)
    ensures r.Some? ==> r.value < |s| && s[r.value] == '.'
    ensures r.Some? ==> forall k :: r.value < k < |s| ==> s[k] != '.'
    ensures r.None? ==> '.' !in s
    decreases |s|
  {
    if s == [] then None
    else if s[|s| - 1] == '.' then Some(|s| - 1)
    else
      var r := LastDot(s[..|s| - 1]);
      assert r.None? ==> s == s[..|s| - 1] + [s[|s| - 1]];
      r
  }

  /** The last `.` of `s` is the one at `d` when no `.` follows it. */
  lemma LastDotIs(s: string, d: nat)
    requires d < |s| && s[d] == '.'
    requires forall k :: d < k < |s| ==> s[k] != '.'
    ensures LastDot(s) == Some(d)
  {
    assert s[d] in s;
  }

  /** The extension of a base name `b`: from its last `.` to its end, or
      empty when `b` has no `.` after its first character, or is `..`. */
  function ExtOf(b: string): (r: string)
    ensures r == [] || (r[0] == '.' && '.' !in r[1..] && |r| < |b|)
    ensures |r| <= |b| && r == b[|b| - |r|..]
    ensures forall k :: 1 <= k < |b| && b[k] == '.' && !(|b| == 2 && b[0] == '.') ==> r != []
  {
    match LastDot(b)
    case None => []
    case Some(d) =>
      if d == 0 || (|b| == 2 && b[0] == '.') then []
      else
        var r := b[d..];
        assert forall k :: 1 <= k < |r| ==> r[k] == b[d + k];
        r
  }

  /** `path.extname(p)`: the extension of the base name. */
  function Extname(p: string): string {
    ExtOf(Basename(p))
  }

  /** A character that `p` does not hold is in neither its base name nor its extension. */
  lemma NameAvoids(p: string, c: char)
    requires c !in p
    ensures c !in Basename(p) && c !in Extname(p)
  {
    var n := StrippedLength(p);
    var i := SegmentStart(p, n);
    assert Basename(p) == p[i..n];
  }
}
