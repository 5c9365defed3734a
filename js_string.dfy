/** The JavaScript string built-ins that the rewrite code relies on, stated on
    `seq<char>`: the `\s` character class (which is also what `trim` removes),
    `trim`, `split(c)[0]`, `replace(c, '')`, `split(sep).join(rep)` and ASCII case mapping. */
module JsString {
  import opened Wrappers

  /** ECMAScript WhiteSpace and LineTerminator code points: `\s`, and what `trim` strips. */
  predicate IsSpace(c: char) {
    c == ' ' || c == '\t' || c == '\n' || c == '\r' || c == '\U{000B}' || c == '\U{000C}' ||
    c == '\U{00A0}' || c == '\U{1680}' || ('\U{2000}' <= c <= '\U{200A}') ||
    c == '\U{2028}' || c == '\U{2029}' || c == '\U{202F}' || c == '\U{205F}' ||
    c == '\U{3000}' || c == '\U{FEFF}'
  }

  predicate IsUpperAscii(c: char) { 'A' <= c <= 'Z' }
  predicate IsLowerAscii(c: char) { 'a' <= c <= 'z' }

  function LowerChar(c: char): char {
    if IsUpperAscii(c) then (c as int + 32) as char else c
  }

  function UpperChar(c: char): char {
    if IsLowerAscii(c) then (c as int - 32) as char else c
  }

  /** `toLowerCase`, restricted to ASCII letters. */
  function ToLower(s: string): (r: string)
    ensures |r| == |s|
    ensures forall k :: 0 <= k < |s| ==> r[k] == LowerChar(s[k])
  {
    seq(|s|, k requires 0 <= k < |s| => LowerChar(s[k]))
  }

  /** `toUpperCase`, restricted to ASCII letters. */
  function ToUpper(s: string): (r: string)
    ensures |r| == |s|
    ensures forall k :: 0 <= k < |s| ==> r[k] == UpperChar(s[k])
  {
    seq(|s|, k requires 0 <= k < |s| => UpperChar(s[k]))
  }

  /** `trimStart`: drop the leading white space. */
  function TrimStart(s: string): (r: string)
    ensures |r| <= |s| && r == s[|s| - |r|..]
    ensures forall k :: 0 <= k < |s| - |r| ==> IsSpace(s[k])
    ensures r == [] || !IsSpace(r[0])
    decreases |s|
  {
    if s != [] && IsSpace(s[0]) then TrimStart(s[1..]) else s
  }

  /** `trimEnd`: drop the trailing white space. */
  function TrimEnd(s: string): (r: string)
    ensures |r| <= |s| && r == s[..|r|]
    ensures forall k :: |r| <= k < |s| ==> IsSpace(s[k])
    ensures r == [] || !IsSpace(r[|r| - 1])
    decreases |s|
  {
    if s != [] && IsSpace(s[|s| - 1]) then TrimEnd(s[..|s| - 1]) else s
  }

  /** `r` is `s` with the white space at both ends taken off: the slice of
      `s` that has only white space before and after it, and none at its
      own ends. */
  ghost predicate TrimOf(r: string, s: string) {
    (r == [] || (!IsSpace(r[0]) && !IsSpace(r[|r| - 1]))) && exists i: nat :: TrimAt(r, s, i)
  }

  /** `r` is the slice of `s` from `i` on, with only white space around it. */
  predicate TrimAt(r: string, s: string, i: nat) {
    i + |r| <= |s| && r == s[i..i + |r|] &&
    (forall k :: 0 <= k < i ==> IsSpace(s[k])) && (forall k :: i + |r| <= k < |s| ==> IsSpace(s[k]))
  }

  /** `trim`: the result is `s` with the white space at both ends taken
      off, and a string that is already trimmed comes back unchanged. */
  function Trim(s: string): (r: string)
    ensures |r| <= |s|
    ensures TrimOf(r, s)
    ensures forall c :: c in r ==> c in s
    ensures (s == [] || (!IsSpace(s[0]) && !IsSpace(s[|s| - 1]))) ==> r == s
  {
    TrimInside(s);
    TrimEnd(TrimStart(s))
  }

  /** What `trimStart` and then `trimEnd` leave is a slice of `s` with only
      white space around it. */
  lemma TrimInside(s: string)
    ensures var t := TrimStart(s); var r := TrimEnd(t);
      TrimAt(r, s, |s| - |t|) && forall c :: c in r ==> c in s
  {
    var t := TrimStart(s);
    var r := TrimEnd(t);
    var i := |s| - |t|;
    SuffixSlice(s, i, t, r);
    ShiftedSpaces(s, i, t, |r|);
  }

  lemma SuffixSlice(s: string, i: nat, t: string, r: string)
    requires i <= |s| && t == s[i..] && |r| <= |t| && r == t[..|r|]
    ensures r == s[i..i + |r|] && forall c :: c in r ==> c in s
  {
    assert forall k :: 0 <= k < |r| ==> r[k] == s[i + k];
  }

  lemma ShiftedSpaces(s: string, i: nat, t: string, a: nat)
    requires i <= |s| && t == s[i..] && forall k :: a <= k < |t| ==> IsSpace(t[k])
    ensures forall k :: i + a <= k < |s| ==> IsSpace(s[k])
  {
    forall k | i + a <= k < |s| ensures IsSpace(s[k]) {
      assert s[k] == t[k - i];
    }
  }

  /** At most one string is `s` trimmed. */
  lemma TrimOfUnique(r1: string, r2: string, s: string)
    requires TrimOf(r1, s) && TrimOf(r2, s)
    ensures r1 == r2
  {
    var i1: nat :| TrimAt(r1, s, i1);
    var i2: nat :| TrimAt(r2, s, i2);
    if r1 != [] && r2 != [] {
      assert s[i1] == r1[0] && s[i2] == r2[0];
      assert i1 == i2;
      assert s[i1 + |r1| - 1] == r1[|r1| - 1] && s[i2 + |r2| - 1] == r2[|r2| - 1];
      assert |r1| == |r2|;
    }
  }

  /** `s.split(c)[0]`: everything before the first `c`, or all of `s`. */
  function BeforeFirst(s: string, c: char): (r: string)
    ensures |r| <= |s| && r == s[..|r|]
    ensures c !in r
    ensures |r| < |s| ==> s[|r|] == c
    decreases |s|
  {
    if s == [] then []
    else if s[0] == c then []
    else [s[0]] + BeforeFirst(s[1..], c)
  }

  /** `s.replace(c, '')` with a one-character string pattern: the first `c` is removed. */
  function DropFirst(s: string, c: char): (r: string)
    ensures c in s ==> |r| == |s| - 1
    ensures c !in s ==> r == s
    ensures |s| > 0 && s[0] == c ==> r == s[1..]
    decreases |s|
  {
    if s == [] then []
    else if s[0] == c then s[1..]
    else [s[0]] + DropFirst(s[1..], c)
  }

  /** `s.replace(/[<cs>]/g, '')`: every character of `cs` removed. */
  function RemoveAll(s: string, cs: set<char>): (r: string)
    ensures forall c :: c in r ==> c in s && c !in cs
    ensures (forall k :: 0 <= k < |s| ==> s[k] !in cs) ==> r == s
    decreases |s|
  {
    if s == [] then []
    else if s[0] in cs then RemoveAll(s[1..], cs)
    else [s[0]] + RemoveAll(s[1..], cs)
  }

  /** RemoveAll works character by character: it keeps the characters
      outside `cs`, in order, and drops the others. */
  lemma {:induction false} RemoveAllAppend(a: string, b: string, cs: set<char>)
    ensures RemoveAll(a + b, cs) == RemoveAll(a, cs) + RemoveAll(b, cs)
    ensures forall c :: RemoveAll([c], cs) == if c in cs then [] else [c]
    decreases |a|
  {
    if a != [] {
      assert (a + b)[0] == a[0] && (a + b)[1..] == a[1..] + b;
      RemoveAllAppend(a[1..], b, cs);
      if a[0] !in cs {
        assert RemoveAll(a + b, cs) == [a[0]] + RemoveAll(a[1..] + b, cs);
      }
    } else {
      assert a + b == b;
    }
    forall c ensures RemoveAll([c], cs) == if c in cs then [] else [c] {
      assert [c][1..] == [];
    }
  }

  /** A greedy `[class]*` from `i`: the index of the first character outside the class. */
  function RunEnd(s: string, i: nat, inClass: char -> bool): (j: nat)
    requires i <= |s|
    ensures i <= j <= |s|
    ensures forall k :: i <= k < j ==> inClass(s[k])
    ensures j == |s| || !inClass(s[j])
    decreases |s| - i
  {
    if i == |s| || !inClass(s[i]) then i else RunEnd(s, i + 1, inClass)
  }

  /** A greedy run whose class members end exactly at `j` stops at `j`. */
  lemma RunEndExact(s: string, i: nat, j: nat, inClass: char -> bool)
    requires i <= j <= |s|
    requires forall k :: i <= k < j ==> inClass(s[k])
    requires j == |s| || !inClass(s[j])
    ensures RunEnd(s, i, inClass) == j
  {
  }

  /** `sep` occurs in `s` at index `k`. */
  predicate Occurs(s: string, sep: string, k: nat) {
    k + |sep| <= |s| && s[k..k + |sep|] == sep
  }

  /** `s.indexOf(sep, from)`: the leftmost occurrence at or after `from`. */
  function IndexOf(s: string, sep: string, from: nat): (r: Option<nat>)
    requires from <= |s|
    ensures r.Some? ==> from <= r.value && Occurs(s, sep, r.value)
    ensures forall k :: from <= k && (r.None? || k < r.value) ==> !Occurs(s, sep, k)
    decreases |s| - from
  {
    if Occurs(s, sep, from) then Some(from)
    else if from == |s| then None
    else IndexOf(s, sep, from + 1)
  }

  function Chars(s: string): (r: seq<string>)
    ensures |r| == |s|
    ensures forall k :: 0 <= k < |s| ==> r[k] == [s[k]]
  {
    seq(|s|, k requires 0 <= k < |s| => [s[k]])
  }

  /** `s.split(sep)`: the pieces between the leftmost non-overlapping
      occurrences of `sep`; the empty separator splits into characters. */
  function Split(s: string, sep: string): (parts: seq<string>)
    ensures sep != [] ==> |parts| >= 1
  {
    if sep == [] then Chars(s) else SplitFrom(s, sep, 0)
  }

  /** The pieces of `s[from..]`, cut at each leftmost occurrence of `sep` from `from` on. */
  function SplitFrom(s: string, sep: string, from: nat): (parts: seq<string>)
    requires sep != [] && from <= |s|
    ensures |parts| >= 1
    decreases |s| - from
  {
    match IndexOf(s, sep, from)
    case None => [s[from..]]
    case Some(k) => [s[from..k]] + SplitFrom(s, sep, k + |sep|)
  }

  /** `parts.join(sep)`. */
  function Join(parts: seq<string>, sep: string): string
    decreases |parts|
  {
    if |parts| == 0 then []
    else if |parts| == 1 then parts[0]
    else parts[0] + sep + Join(parts[1..], sep)
  }

  /** `s.split(sep).join(rep)`: the literal replace-all the rewrite step uses. */
  function ReplaceAll(s: string, sep: string, rep: string): string {
    Join(Split(s, sep), rep)
  }

  lemma {:induction false} JoinChars(s: string)
    ensures Join(Chars(s), []) == s
    decreases |s|
  {
    if |s| > 1 {
      assert Chars(s)[1..] == Chars(s[1..]);
      JoinChars(s[1..]);
      assert s == [s[0]] + s[1..];
    }
  }

  /** A split at the leftmost occurrence `k` of `sep` from `from` on: the piece
      before it, then the split of what follows it. */
  lemma SplitFromAt(s: string, sep: string, from: nat, k: nat)
    requires sep != [] && from <= |s| && IndexOf(s, sep, from) == Some(k)
    ensures from <= k && k + |sep| <= |s|
    ensures |SplitFrom(s, sep, from)| == 1 + |SplitFrom(s, sep, k + |sep|)|
    ensures SplitFrom(s, sep, from)[0] == s[from..k]
    ensures SplitFrom(s, sep, from)[1..] == SplitFrom(s, sep, k + |sep|)
  {
    var rest := SplitFrom(s, sep, k + |sep|);
    assert SplitFrom(s, sep, from) == [s[from..k]] + rest;
    ConsParts(s[from..k], rest);
  }

  lemma ConsParts(piece: string, rest: seq<string>)
    ensures |[piece] + rest| == 1 + |rest| && ([piece] + rest)[0] == piece && ([piece] + rest)[1..] == rest
  {
  }

  lemma SliceOfSlice(s: string, a: nat, b: nat, i: nat, j: nat)
    requires a <= b <= |s| && i <= j <= b - a
    ensures s[a..b][i..j] == s[a + i..a + j]
  {
    forall t | 0 <= t < j - i ensures s[a..b][i..j][t] == s[a + i..a + j][t] {
      assert s[a..b][i..j][t] == s[a + i + t];
    }
  }

  /** The text from `from` on is its piece before an occurrence of `sep` at `k`, `sep`, and what follows it. */
  lemma AroundOccurrence(s: string, sep: string, from: nat, k: nat)
    requires from <= k && Occurs(s, sep, k)
    ensures s[from..] == s[from..k] + sep + s[k + |sep|..]
  {
    assert s[from..] == s[from..k] + s[k..k + |sep|] + s[k + |sep|..];
  }

  lemma {:induction false} JoinSplitFrom(s: string, sep: string, from: nat)
    requires sep != [] && from <= |s|
    ensures Join(SplitFrom(s, sep, from), sep) == s[from..]
    decreases |s| - from
  {
    match IndexOf(s, sep, from)
    case None =>
      assert SplitFrom(s, sep, from) == [s[from..]];
    case Some(k) =>
      var parts := SplitFrom(s, sep, from);
      SplitFromAt(s, sep, from, k);
      assert Join(parts, sep) == parts[0] + sep + Join(parts[1..], sep);
      JoinSplitFrom(s, sep, k + |sep|);
      AroundOccurrence(s, sep, from, k);
  }

  /** Splitting and joining with the same separator gives back the string:
      the pieces of a split, put back together, are the whole input. */
  lemma JoinSplit(s: string, sep: string)
    ensures Join(Split(s, sep), sep) == s
  {
    if sep == [] {
      JoinChars(s);
    } else {
      JoinSplitFrom(s, sep, 0);
    }
  }

  /** `sep` occurs nowhere in `s`. */
  ghost predicate Avoids(s: string, sep: string) {
    forall k: nat :: !Occurs(s, sep, k)
  }

  /** A stretch of `s` in which `sep` starts nowhere holds no occurrence of it. */
  lemma SliceAvoids(s: string, sep: string, from: nat, k: nat)
    requires sep != [] && from <= k <= |s| && forall i :: from <= i < k ==> !Occurs(s, sep, i)
    ensures Avoids(s[from..k], sep)
  {
    forall i: nat | Occurs(s[from..k], sep, i) ensures false {
      SliceOfSlice(s, from, k, i, i + |sep|);
      assert Occurs(s, sep, from + i);
    }
  }

  lemma {:induction false} SplitFromPiecesAvoid(s: string, sep: string, from: nat)
    requires sep != [] && from <= |s|
    ensures forall p :: p in SplitFrom(s, sep, from) ==> Avoids(p, sep)
    decreases |s| - from
  {
    match IndexOf(s, sep, from)
    case None =>
      SliceAvoids(s, sep, from, |s|);
      assert s[from..|s|] == s[from..];
      assert SplitFrom(s, sep, from) == [s[from..]];
    case Some(k) =>
      SplitFromAt(s, sep, from, k);
      SplitFromPiecesAvoid(s, sep, k + |sep|);
      SliceAvoids(s, sep, from, k);
      forall p | p in SplitFrom(s, sep, from) ensures Avoids(p, sep) {
        if p != SplitFrom(s, sep, from)[0] {
          assert p in SplitFrom(s, sep, from)[1..];
        }
      }
  }

  /** No piece of a split contains the (non-empty) separator. */
  lemma SplitPiecesAvoidSeparator(s: string, sep: string)
    requires sep != []
    ensures forall p :: p in Split(s, sep) ==> Avoids(p, sep)
  {
    SplitFromPiecesAvoid(s, sep, 0);
  }

  /** Replacing a separator that does not occur leaves the string alone. */
  lemma ReplaceAllAbsent(s: string, sep: string, rep: string)
    requires sep != []
    requires Avoids(s, sep)
    ensures ReplaceAll(s, sep, rep) == s
  {
    assert IndexOf(s, sep, 0).None?;
    assert s[0..] == s;
  }
}
