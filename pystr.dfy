/** The Python string built-ins the converter relies on (`startswith`, `split`,
    `split(sep, 1)`, `strip`, `" ".join`, slicing and indexing with Python's
    clamping and negative indices, and decimal formatting of integers), each
    given an explicit definition and the facts about it that the converter's
    proofs use. */
module PyStr {

  /** `s.startswith(p)` */
  predicate StartsWith(s: string, p: string) {
    |p| <= |s| && s[..|p|] == p
  }

  /** `sep` occurs in `s` starting at index `i` */
  predicate OccursAt(s: string, sep: string, i: nat) {
    i + |sep| <= |s| && s[i..i + |sep|] == sep
  }

  /** `sep in s` */
  predicate Contains(s: string, sep: string) {
    exists i: nat | i <= |s| :: OccursAt(s, sep, i)
  }

  lemma ContainsTail(s: string, sep: string)
    requires s != [] && Contains(s[1..], sep)
    ensures Contains(s, sep)
  {
    var i: nat :| i <= |s[1..]| && OccursAt(s[1..], sep, i);
    assert s[i + 1..i + 1 + |sep|] == s[1..][i..i + |sep|];
    assert i + 1 <= |s| && OccursAt(s, sep, i + 1);
  }

  // ---------------------------------------------------------------------------
  // str.split(sep): left-to-right, non-overlapping

  /** `s.split(sep)`: at each position either `sep` starts there and a new piece
      begins after it, or the character joins the current piece. */
  function Split(s: string, sep: string): (r: seq<string>)
    requires sep != ""
    ensures |r| >= 1
    decreases |s|
  {
    if s == "" then [""]
    else if StartsWith(s, sep) then [""] + Split(s[|sep|..], sep)
    else
      var rest := Split(s[1..], sep);
      [[s[0]] + rest[0]] + rest[1..]
  }

  /** `sep.join(parts)` */
  function Join(sep: string, parts: seq<string>): string {
    if |parts| == 0 then ""
    else if |parts| == 1 then parts[0]
    else parts[0] + sep + Join(sep, parts[1..])
  }

  /** `"".join(parts)` */
  function Concat(parts: seq<string>): string {
    if parts == [] then "" else parts[0] + Concat(parts[1..])
  }

  lemma {:induction false} ConcatSnoc(parts: seq<string>, p: string)
    ensures Concat(parts + [p]) == Concat(parts) + p
    decreases |parts|
  {
    if parts == [] {
      assert [] + [p] == [p];
    } else {
      ConcatSnoc(parts[1..], p);
      assert (parts + [p])[1..] == parts[1..] + [p];
    }
  }

  /** `s.count(sep)`: the number of non-overlapping occurrences, left to right */
  function Count(s: string, sep: string): nat
    requires sep != ""
    decreases |s|
  {
    if s == "" then 0
    else if StartsWith(s, sep) then 1 + Count(s[|sep|..], sep)
    else Count(s[1..], sep)
  }

  /** `s.replace(sep, "")` */
  function RemoveAll(s: string, sep: string): string
    requires sep != ""
    decreases |s|
  {
    if s == "" then ""
    else if StartsWith(s, sep) then RemoveAll(s[|sep|..], sep)
    else [s[0]] + RemoveAll(s[1..], sep)
  }

  /** `s.replace(c, d)` for single characters */
  function ReplaceChar(s: string, c: char, d: char): (r: string)
    ensures |r| == |s|
    ensures forall k :: 0 <= k < |s| ==> r[k] == if s[k] == c then d else s[k]
  {
    if s == "" then "" else [if s[0] == c then d else s[0]] + ReplaceChar(s[1..], c, d)
  }

  /** Replacing `c` by `d` keeps a string free of a separator and of a set of
      characters, when neither `c` nor `d` can take part in them. */
  lemma ReplaceCharClear(s: string, c: char, d: char, sep: string, cs: set<char>)
    requires forall k :: 0 <= k < |sep| ==> sep[k] != c && sep[k] != d
    requires d !in cs && forall i :: 0 <= i < |s| ==> s[i] !in cs
    requires !Contains(s, sep)
    ensures !Contains(ReplaceChar(s, c, d), sep)
    ensures forall i :: 0 <= i < |ReplaceChar(s, c, d)| ==> ReplaceChar(s, c, d)[i] !in cs
  {
    ReplaceCharContains(s, c, d, sep);
    ReplaceCharOutside(s, c, d, cs);
  }

  /** Replacing `c` by a character outside a set keeps a string clear of that set. */
  lemma ReplaceCharOutside(s: string, c: char, d: char, cs: set<char>)
    requires d !in cs && forall i :: 0 <= i < |s| ==> s[i] !in cs
    ensures forall i :: 0 <= i < |ReplaceChar(s, c, d)| ==> ReplaceChar(s, c, d)[i] !in cs
  {
  }

  /** Replacing `c` by `d` neither creates nor destroys an occurrence of a
      separator that holds neither character. */
  lemma ReplaceCharContains(s: string, c: char, d: char, sep: string)
    requires forall k :: 0 <= k < |sep| ==> sep[k] != c && sep[k] != d
    ensures Contains(ReplaceChar(s, c, d), sep) <==> Contains(s, sep)
  {
    var r := ReplaceChar(s, c, d);
    forall i: nat | i <= |s|
      ensures OccursAt(r, sep, i) <==> OccursAt(s, sep, i)
    {
      if i + |sep| <= |s| {
        if OccursAt(r, sep, i) {
          forall k | 0 <= k < |sep|
            ensures s[i + k] == sep[k]
          {
            assert r[i..i + |sep|][k] == r[i + k];
          }
          assert s[i..i + |sep|] == sep;
        }
        if OccursAt(s, sep, i) {
          forall k | 0 <= k < |sep|
            ensures r[i + k] == sep[k]
          {
            assert s[i..i + |sep|][k] == s[i + k];
          }
          assert r[i..i + |sep|] == sep;
        }
      }
    }
  }

  lemma JoinPrepend(sep: string, c: string, x: string, xs: seq<string>)
    ensures Join(sep, [c + x] + xs) == c + Join(sep, [x] + xs)
  {
    if xs != [] {
      assert ([c + x] + xs)[1..] == xs;
      assert ([x] + xs)[1..] == xs;
    }
  }

  /** Joining the pieces of a split with the separator gives back the string. */
  lemma {:induction false} SplitJoin(s: string, sep: string)
    requires sep != ""
    ensures Join(sep, Split(s, sep)) == s
    decreases |s|
  {
    if s == "" {
    } else if StartsWith(s, sep) {
      var t := s[|sep|..];
      var rest := Split(t, sep);
      assert Split(s, sep) == [""] + rest;
      assert Join(sep, [""] + rest) == "" + sep + Join(sep, rest) by {
        assert ([""] + rest)[1..] == rest;
      }
      SplitJoin(t, sep);
      assert s == sep + t;
    } else {
      var rest := Split(s[1..], sep);
      assert Split(s, sep) == [[s[0]] + rest[0]] + rest[1..];
      assert Join(sep, [[s[0]] + rest[0]] + rest[1..]) == [s[0]] + Join(sep, rest) by {
        JoinPrepend(sep, [s[0]], rest[0], rest[1..]);
        assert [rest[0]] + rest[1..] == rest;
      }
      SplitJoin(s[1..], sep);
      assert s == [s[0]] + s[1..];
    }
  }

  /** A split yields one more piece than there are occurrences of the separator. */
  lemma {:induction false} SplitCount(s: string, sep: string)
    requires sep != ""
    ensures |Split(s, sep)| == Count(s, sep) + 1
    decreases |s|
  {
    if s == "" {
    } else if StartsWith(s, sep) {
      SplitCount(s[|sep|..], sep);
    } else {
      SplitCount(s[1..], sep);
    }
  }

  /** Concatenating the pieces of a split removes every occurrence of the separator. */
  lemma {:induction false} SplitConcat(s: string, sep: string)
    requires sep != ""
    ensures Concat(Split(s, sep)) == RemoveAll(s, sep)
    decreases |s|
  {
    if s == "" {
    } else if StartsWith(s, sep) {
      SplitConcat(s[|sep|..], sep);
      var rest := Split(s[|sep|..], sep);
      assert ([""] + rest)[1..] == rest;
    } else {
      SplitConcat(s[1..], sep);
      var rest := Split(s[1..], sep);
      var r := [[s[0]] + rest[0]] + rest[1..];
      assert r[1..] == rest[1..];
      assert Concat(rest) == rest[0] + Concat(rest[1..]);
    }
  }

  /** A string without the separator splits into itself alone. */
  lemma {:induction false} SplitAbsent(s: string, sep: string)
    requires sep != "" && !Contains(s, sep)
    ensures Split(s, sep) == [s]
    ensures Count(s, sep) == 0 && RemoveAll(s, sep) == s
    decreases |s|
  {
    if s != "" {
      assert !OccursAt(s, sep, 0);
      if Contains(s[1..], sep) {
        ContainsTail(s, sep);
      }
      SplitAbsent(s[1..], sep);
      assert [s[0]] + s[1..] == s;
    }
  }

  /** Splitting on one character leaves that character in no piece. */
  lemma {:induction false} SplitCharPieces(s: string, c: char)
    ensures forall k :: 0 <= k < |Split(s, [c])| ==> c !in Split(s, [c])[k]
    decreases |s|
  {
    if s != "" {
      SplitCharPieces(s[1..], c);
      if !StartsWith(s, [c]) {
        assert s[0] != c;
      }
    }
  }

  /** Splitting on one character and joining with another replaces the first by the second. */
  lemma {:induction false} SplitCharJoin(s: string, c: char, d: char)
    ensures Join([d], Split(s, [c])) == ReplaceChar(s, c, d)
    decreases |s|
  {
    if s == "" {
    } else if StartsWith(s, [c]) {
      SplitCharJoin(s[1..], c, d);
      var rest := Split(s[1..], [c]);
      assert ([""] + rest)[1..] == rest;
      assert s[0] == c;
    } else {
      SplitCharJoin(s[1..], c, d);
      var rest := Split(s[1..], [c]);
      JoinPrepend([d], [s[0]], rest[0], rest[1..]);
      assert [rest[0]] + rest[1..] == rest;
      assert s[0] != c;
    }
  }

  /** The first piece of a split on one character is the text before the first
      occurrence of that character, so a prefix free of that character is a prefix
      of the whole string exactly when it is a prefix of the first piece. */
  lemma {:induction false} FirstPiecePrefix(s: string, c: char, p: string)
    requires c !in p
    ensures StartsWith(s, p) <==> StartsWith(Split(s, [c])[0], p)
    decreases |s|
  {
    if s == "" {
    } else if StartsWith(s, [c]) {
      assert s[0] == c;
      if p != [] {
        assert p[0] != c;
      }
    } else if p != [] {
      FirstPiecePrefix(s[1..], c, p[1..]);
      var rest := Split(s[1..], [c]);
      var first := [s[0]] + rest[0];
      {
        assert StartsWith(s, p) <==> s[0] == p[0] && StartsWith(s[1..], p[1..]);
        assert StartsWith(first, p) <==> s[0] == p[0] && StartsWith(rest[0], p[1..]);
        assert c !in p[1..];
      }
    }
  }

  /** The length of a join of at least two pieces covers the first piece, a
      separator and the last piece. */
  lemma {:induction false} JoinLength(sep: string, parts: seq<string>)
    requires |parts| >= 2
    ensures |Join(sep, parts)| >= |parts[0]| + |sep| + |parts[|parts| - 1]|
    decreases |parts|
  {
    if |parts| > 2 {
      JoinLength(sep, parts[1..]);
    }
  }

  // ---------------------------------------------------------------------------
  // str.split(sep, 1)

  /** `s.split(sep, 1)`: the text before the first occurrence and the text after
      it, or the whole string when the separator does not occur. */
  function SplitOnce(s: string, sep: string): (r: seq<string>)
    requires sep != ""
    ensures |r| == 1 || |r| == 2
    ensures |r| == 1 ==> r[0] == s
    ensures |r| == 2 ==> r[0] + sep + r[1] == s
    decreases |s|
  {
    if s == "" then [""]
    else if StartsWith(s, sep) then ["", s[|sep|..]]
    else
      var rest := SplitOnce(s[1..], sep);
      [[s[0]] + rest[0]] + rest[1..]
  }

  /** `split(sep, 1)` keeps the first piece of the full split and joins the rest back. */
  lemma {:induction false} SplitOnceAgreesWithSplit(s: string, sep: string)
    requires sep != ""
    ensures var full := Split(s, sep);
      SplitOnce(s, sep) == [full[0]] + (if |full| > 1 then [Join(sep, full[1..])] else [])
    decreases |s|
  {
    if s == "" {
    } else if StartsWith(s, sep) {
      SplitJoin(s[|sep|..], sep);
      var rest := Split(s[|sep|..], sep);
      assert ([""] + rest)[1..] == rest;
    } else {
      SplitOnceAgreesWithSplit(s[1..], sep);
    }
  }

  /** When the separator's first character does not occur in `p`, the first
      occurrence of the separator in `p + sep + q` is right after `p`. */
  lemma {:induction false} SplitOnceAfter(p: string, sep: string, q: string)
    requires sep != "" && sep[0] !in p
    ensures SplitOnce(p + sep + q, sep) == [p, q]
    decreases |p|
  {
    var s := p + sep + q;
    if p == [] {
      assert s[..|sep|] == sep;
      assert s[|sep|..] == q;
    } else {
      assert s[0] == p[0] != sep[0];
      assert !StartsWith(s, sep);
      assert s[1..] == p[1..] + sep + q;
      SplitOnceAfter(p[1..], sep, q);
      assert [p[0]] + p[1..] == p;
    }
  }

  /** No occurrence of `sep` starts inside `p`, even one running on into a `sep`
      written after it: in `p + sep + rest` the first match is the one after `p`. */
  predicate Separable(p: string, sep: string) {
    forall i: nat :: i < |p| ==> !OccursAt(p + sep, sep, i)
  }

  /** A piece followed by the separator splits off as the first piece. */
  lemma {:induction false} SplitPrepend(p: string, sep: string, rest: string)
    requires sep != "" && Separable(p, sep)
    ensures Split(p + sep + rest, sep) == [p] + Split(rest, sep)
    decreases |p|
  {
    var s := p + sep + rest;
    if p == "" {
      assert s == sep + rest && s[..|sep|] == sep && s[|sep|..] == rest;
    } else {
      assert !OccursAt(p + sep, sep, 0);
      assert s[..|sep|] == (p + sep)[..|sep|];
      assert !StartsWith(s, sep);
      assert s[1..] == p[1..] + sep + rest;
      forall i: nat | i < |p[1..]|
        ensures !OccursAt(p[1..] + sep, sep, i)
      {
        assert !OccursAt(p + sep, sep, i + 1);
        assert (p[1..] + sep)[i..] == (p + sep)[i + 1..];
      }
      SplitPrepend(p[1..], sep, rest);
      assert [p[0]] + p[1..] == p;
    }
  }

  /** A slice of a slice is a slice of the whole. */
  lemma SliceOfSlice<T>(s: seq<T>, i: nat, j: nat, a: nat, b: nat)
    requires i <= j <= |s| && a <= b <= j - i
    ensures s[i..j][a..b] == s[i + a..i + b]
  {
    var x, y := s[i..j][a..b], s[i + a..i + b];
    assert |x| == |y|;
    forall k | 0 <= k < |x|
      ensures x[k] == y[k]
    {
    }
  }

  /** A nonempty sequence is its front followed by its last element. */
  lemma FrontLast<T>(s: seq<T>)
    requires s != []
    ensures s[..|s| - 1] + [s[|s| - 1]] == s
  {
  }

  /** A string without the separator's first character does not contain it. */
  lemma NoCharNoContains(s: string, sep: string)
    requires sep != [] && forall i :: 0 <= i < |s| ==> s[i] != sep[0]
    ensures !Contains(s, sep)
  {
    forall i: nat | i <= |s|
      ensures !OccursAt(s, sep, i)
    {
      if i + |sep| <= |s| {
        assert s[i..i + |sep|][0] == s[i];
      }
    }
  }

  /** A piece without the separator's first character is separable. */
  lemma SeparableByFirst(p: string, sep: string)
    requires sep != "" && forall k :: 0 <= k < |p| ==> p[k] != sep[0]
    ensures Separable(p, sep)
  {
    forall i: nat | i < |p|
      ensures !OccursAt(p + sep, sep, i)
    {
      assert (p + sep)[i] == p[i] != sep[0];
      assert i + |sep| <= |p + sep| ==> (p + sep)[i..i + |sep|][0] == p[i];
    }
  }

  lemma SeparableAbsent(p: string, sep: string)
    requires sep != "" && Separable(p, sep)
    ensures !Contains(p, sep)
  {
    forall i: nat | i <= |p|
      ensures !OccursAt(p, sep, i)
    {
      if i + |sep| <= |p| {
        assert !OccursAt(p + sep, sep, i);
        assert (p + sep)[i..i + |sep|] == p[i..i + |sep|];
      }
    }
  }

  /** Splitting undoes joining, for pieces that are separable. */
  lemma {:induction false} SplitJoinInverse(sep: string, parts: seq<string>)
    requires sep != "" && |parts| >= 1
    requires forall i :: 0 <= i < |parts| ==> Separable(parts[i], sep)
    ensures Split(Join(sep, parts), sep) == parts
  {
    if |parts| == 1 {
      SeparableAbsent(parts[0], sep);
      SplitAbsent(parts[0], sep);
    } else {
      SplitJoinInverse(sep, parts[1..]);
      SplitPrepend(parts[0], sep, Join(sep, parts[1..]));
      assert [parts[0]] + parts[1..] == parts;
    }
  }

  /** A join starts with its first part. */
  lemma JoinStarts(sep: string, parts: seq<string>)
    requires |parts| >= 1
    ensures StartsWith(Join(sep, parts), parts[0])
  {
    if |parts| > 1 {
      var rest := sep + Join(sep, parts[1..]);
      assert Join(sep, parts) == parts[0] + rest;
      assert (parts[0] + rest)[..|parts[0]|] == parts[0];
    }
  }

  /** `s.startswith(prefixes)` for a tuple of prefixes */
  predicate StartsWithAny(s: string, prefixes: seq<string>) {
    exists k :: 0 <= k < |prefixes| && StartsWith(s, prefixes[k])
  }

  // ---------------------------------------------------------------------------
  // str.strip

  /** The characters Python's `str.strip()` removes (those for which `str.isspace()` holds). */
  const Whitespace: set<char> := {
    ' ', '\t', '\n', '\r', '\U{0B}', '\U{0C}', '\U{1C}', '\U{1D}', '\U{1E}', '\U{1F}',
    '\U{85}', '\U{A0}', '\U{1680}', '\U{2000}', '\U{2001}', '\U{2002}', '\U{2003}',
    '\U{2004}', '\U{2005}', '\U{2006}', '\U{2007}', '\U{2008}', '\U{2009}', '\U{200A}',
    '\U{2028}', '\U{2029}', '\U{202F}', '\U{205F}', '\U{3000}' }

  /** `s.lstrip(chars)` */
  function StripLeft(s: string, cs: set<char>): (r: string)
    ensures |r| <= |s| && r == s[|s| - |r|..]
    ensures r == "" || r[0] !in cs
    ensures forall k :: 0 <= k < |s| - |r| ==> s[k] in cs
  {
    if s != "" && s[0] in cs then StripLeft(s[1..], cs) else s
  }

  /** `s.rstrip(chars)` */
  function StripRight(s: string, cs: set<char>): (r: string)
    ensures |r| <= |s| && r == s[..|r|]
    ensures r == "" || r[|r| - 1] !in cs
    ensures forall k :: |r| <= k < |s| ==> s[k] in cs
  {
    if s != "" && s[|s| - 1] in cs then StripRight(s[..|s| - 1], cs) else s
  }

  /** `r` is the infix of `s` starting at `i` and everything of `s` around it is in `cs` */
  predicate TrimmedAt(s: string, r: string, i: nat, cs: set<char>) {
    && i + |r| <= |s|
    && r == s[i..i + |r|]
    && (forall k :: 0 <= k < i ==> s[k] in cs)
    && (forall k :: i + |r| <= k < |s| ==> s[k] in cs)
  }

  /** `s.strip(chars)`: the longest infix whose ends are not in `chars`, reached by
      removing only characters of `chars` from both ends. */
  function Strip(s: string, cs: set<char>): (r: string)
    ensures |r| <= |s|
    ensures r == "" || (r[0] !in cs && r[|r| - 1] !in cs)
    ensures exists i: nat :: TrimmedAt(s, r, i, cs)
  {
    var left := StripLeft(s, cs);
    var r := StripRight(left, cs);
    var i := |s| - |left|;
    assert TrimmedAt(s, r, i, cs);
    r
  }

  /** Stripping removes exactly a surrounding run of stripped characters from
      a text whose own ends are not stripped. */
  lemma StripSurrounded(p: string, t: string, q: string, cs: set<char>)
    requires t != "" && t[0] !in cs && t[|t| - 1] !in cs
    requires forall i :: 0 <= i < |p| ==> p[i] in cs
    requires forall i :: 0 <= i < |q| ==> q[i] in cs
    ensures Strip(p + t + q, cs) == t
  {
    var s := p + t + q;
    var r := Strip(s, cs);
    var i: nat :| TrimmedAt(s, r, i, cs);
    var a, z := |p|, |p| + |t| - 1;
    assert s[a] == t[0] && s[z] == t[|t| - 1];
    assert i <= a && z < i + |r|;
    assert r[0] == s[i] && r[|r| - 1] == s[i + |r| - 1];
    assert i == a by {
      assert forall k :: 0 <= k < a ==> s[k] == p[k];
    }
    assert i + |r| - 1 == z by {
      assert forall k :: z < k < |s| ==> s[k] == q[k - (z + 1)];
    }
    assert r == s[a..z + 1];
    assert s[a..z + 1] == t;
  }

  /** Stripping a string whose ends are already outside `chars` changes nothing. */
  lemma StripKeeps(s: string, cs: set<char>)
    requires s == "" || (s[0] !in cs && s[|s| - 1] !in cs)
    ensures Strip(s, cs) == s
  {
  }

  /** Stripping twice is stripping once. */
  lemma StripIdempotent(s: string, cs: set<char>)
    ensures Strip(Strip(s, cs), cs) == Strip(s, cs)
  {
    StripKeeps(Strip(s, cs), cs);
  }

  // ---------------------------------------------------------------------------
  // slicing and indexing

  /** Python's normalisation of a slice bound: negative bounds count from the end,
      and every bound is clamped to `0..n`. */
  function Clamp(i: int, n: nat): (r: nat)
    ensures r <= n
    ensures 0 <= i <= n ==> r == i
    ensures i > n ==> r == n
    ensures i < 0 <= i + n ==> r == i + n
    ensures i + n < 0 ==> r == 0
  {
    if i < 0 then (if i + n < 0 then 0 else i + n) else if i > n then n else i
  }

  /** `s[lo:hi]` with Python's clamping and negative indices */
  function Slice(s: string, lo: int, hi: int): (r: string)
    ensures |r| <= |s|
    ensures 0 <= lo <= hi <= |s| ==> r == s[lo..hi]
    ensures 0 <= lo <= |s| <= hi ==> r == s[lo..]
    ensures Clamp(hi, |s|) <= Clamp(lo, |s|) ==> r == ""
  {
    var a := Clamp(lo, |s|);
    var b := Clamp(hi, |s|);
    if a < b then s[a..b] else ""
  }

  /** `s[lo:]` */
  function SliceFrom(s: string, lo: int): (r: string)
    ensures 0 <= lo <= |s| ==> r == s[lo..]
    ensures lo >= |s| ==> r == ""
  {
    Slice(s, lo, |s|)
  }

  /** `s[i]` for `-len(s) <= i < len(s)`: a negative index counts from the end. */
  function Index(s: string, i: int): (c: char)
    requires -|s| <= i < |s|
    ensures i == -1 ==> c == s[|s| - 1]
    ensures 0 <= i ==> c == s[i]
  {
    if i < 0 then s[|s| + i] else s[i]
  }

  // ---------------------------------------------------------------------------
  // decimal formatting, as in f"{n}"

  function Digit(d: nat): (c: char)
    requires d < 10
    ensures '0' <= c <= '9' && c as int - '0' as int == d
  {
    "0123456789"[d]
  }

  /** `str(n)` for a non-negative integer */
  function IntToString(n: nat): (r: string)
    ensures |r| >= 1
    ensures forall k :: 0 <= k < |r| ==> '0' <= r[k] <= '9'
  {
    if n < 10 then [Digit(n)] else IntToString(n / 10) + [Digit(n % 10)]
  }

  /** `int(s)` for a string of decimal digits */
  function DigitsValue(s: string): int
    requires forall k :: 0 <= k < |s| ==> '0' <= s[k] <= '9'
  {
    if s == "" then 0 else DigitsValue(s[..|s| - 1]) * 10 + (s[|s| - 1] as int - '0' as int)
  }

  /** Formatting a number and reading it back gives the number. */
  lemma {:induction false} IntToStringRoundTrip(n: nat)
    ensures DigitsValue(IntToString(n)) == n
  {
    if n >= 10 {
      IntToStringRoundTrip(n / 10);
      var s := IntToString(n / 10) + [Digit(n % 10)];
      assert s[..|s| - 1] == IntToString(n / 10);
    }
  }
}
