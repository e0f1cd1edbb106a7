/**
 * The Python `str` builtins the screening pipeline relies on, over `seq<char>`:
 * `strip()`, `split(sep)`, `find`, `rfind`, the `in` operator on strings,
 * slicing with Python's bound normalisation, `lower()` and `str(n)` for a
 * natural number.
 */
module PyText {

  /** Characters for which Python's `str.isspace()` holds; `strip()` removes exactly these. */
  predicate IsSpace(c: char) {
    || ('\t' <= c <= '\r')              // \t \n \x0b \x0c \r
    || ('\U{1c}' <= c <= '\U{1f}')
    || c == ' '
    || c == '\U{85}' || c == '\U{a0}' || c == '\U{1680}'
    || ('\U{2000}' <= c <= '\U{200a}')
    || c == '\U{2028}' || c == '\U{2029}' || c == '\U{202f}' || c == '\U{205f}' || c == '\U{3000}'
  }

  // ---------------------------------------------------------------- strip()

  /**
   * The bounds of `s[lo:hi]` with the whitespace at both ends removed; the
   * kept text starts and ends with non-whitespace or is empty. Removing from
   * the front first or from the back first gives the same bounds.
   */
  function StripBounds(s: string, lo: nat, hi: nat): (b: (nat, nat))
    requires lo <= hi <= |s|
    ensures lo <= b.0 <= b.1 <= hi
    ensures b.0 == b.1 || (!IsSpace(s[b.0]) && !IsSpace(s[b.1 - 1]))
    decreases hi - lo
  {
    if lo < hi && IsSpace(s[lo]) then StripBounds(s, lo + 1, hi)
    else if lo < hi && IsSpace(s[hi - 1]) then StripBounds(s, lo, hi - 1)
    else (lo, hi)
  }

  /** What `StripBounds` cuts away on either side is whitespace. */
  lemma {:induction false} StripBoundsPadding(s: string, lo: nat, hi: nat)
    requires lo <= hi <= |s|
    ensures forall k :: lo <= k < StripBounds(s, lo, hi).0 ==> IsSpace(s[k])
    ensures forall k :: StripBounds(s, lo, hi).1 <= k < hi ==> IsSpace(s[k])
    decreases hi - lo
  {
    if lo < hi && IsSpace(s[lo]) {
      StripBoundsPadding(s, lo + 1, hi);
    } else if lo < hi && IsSpace(s[hi - 1]) {
      StripBoundsPadding(s, lo, hi - 1);
    }
  }

  /** Everything in `s` outside the window `[lo, hi)` is whitespace. */
  ghost predicate PaddedBy(s: string, lo: int, hi: int)
    requires 0 <= lo <= hi <= |s|
  {
    forall k :: 0 <= k < |s| && (k < lo || hi <= k) ==> IsSpace(s[k])
  }

  /** `r` is the window of `s` starting at `lo`, and only whitespace lies outside it. */
  ghost predicate WindowOf(s: string, lo: int, r: string) {
    0 <= lo <= |s| - |r| && r == s[lo..lo + |r|] && PaddedBy(s, lo, lo + |r|)
  }

  /** Python's `s.strip()`: neither starts nor ends with whitespace. */
  function Strip(s: string): (r: string)
    ensures |r| <= |s|
    ensures r == [] || (!IsSpace(r[0]) && !IsSpace(r[|r| - 1]))
  {
    var b := StripBounds(s, 0, |s|);
    s[b.0..b.1]
  }

  /** Where the text `strip()` keeps begins: after the leading whitespace. */
  function StripOffset(s: string): nat {
    StripBounds(s, 0, |s|).0
  }

  /** `strip()` keeps a window of its input and cuts away only whitespace around it. */
  lemma StripWindow(s: string)
    ensures WindowOf(s, StripOffset(s), Strip(s))
  {
    StripBoundsPadding(s, 0, |s|);
  }

  /** Stripping twice is stripping once. */
  lemma StripIdempotent(s: string)
    ensures Strip(Strip(s)) == Strip(s)
  {
    var r := Strip(s);
    assert r[0..|r|] == r;
  }

  /** A character that is not whitespace survives `strip()` exactly when it occurs in the input. */
  lemma StripKeeps(s: string, c: char)
    requires !IsSpace(c)
    ensures c in s ==> c in Strip(s)
    ensures c in Strip(s) ==> c in s
  {
    StripWindow(s);
    if c in s {
      var k :| 0 <= k < |s| && s[k] == c;
      WindowHolds(s, StripOffset(s), Strip(s), k);
    }
    if c in Strip(s) {
      var k :| 0 <= k < |Strip(s)| && Strip(s)[k] == c;
      WindowInside(s, StripOffset(s), Strip(s), k);
    }
  }

  /** A character of the window is the character of `s` at the shifted index. */
  lemma WindowInside(s: string, lo: int, r: string, k: int)
    requires WindowOf(s, lo, r) && 0 <= k < |r|
    ensures 0 <= lo + k < |s| && s[lo + k] == r[k]
  {
  }

  /** A character of `s` that is not whitespace lies inside the window. */
  lemma WindowHolds(s: string, lo: int, r: string, k: int)
    requires WindowOf(s, lo, r) && 0 <= k < |s| && !IsSpace(s[k])
    ensures lo <= k < lo + |r| && r[k - lo] == s[k]
  {
  }

  /** `strip()` yields the empty string exactly when the input is all whitespace. */
  lemma StripEmptyIff(s: string)
    ensures Strip(s) == [] <==> forall k :: 0 <= k < |s| ==> IsSpace(s[k])
  {
    var r := Strip(s);
    StripWindow(s);
    var lo := StripOffset(s);
  }

  // ------------------------------------------------- find, rfind and `in`

  /** `sub` occurs in `s` starting at index `i`. */
  predicate OccursAt(s: string, sub: string, i: int) {
    0 <= i && i + |sub| <= |s| && s[i..i + |sub|] == sub
  }

  /** Leftmost occurrence of `sub` at an index at least `from`, or -1. */
  function IndexFrom(s: string, sub: string, from: nat): (r: int)
    ensures r == -1 || (from <= r && OccursAt(s, sub, r))
    ensures forall i :: from <= i && (r == -1 || i < r) ==> !OccursAt(s, sub, i)
    decreases |s| - from
  {
    if from + |sub| > |s| then -1
    else if OccursAt(s, sub, from) then from
    else IndexFrom(s, sub, from + 1)
  }

  /** Rightmost occurrence of `sub` at an index at most `upTo`, or -1. */
  function IndexDownFrom(s: string, sub: string, upTo: int): (r: int)
    ensures r == -1 || (0 <= r <= upTo && OccursAt(s, sub, r))
    ensures forall i :: i <= upTo && r < i ==> !OccursAt(s, sub, i)
    decreases upTo + 1
  {
    if upTo < 0 then -1
    else if OccursAt(s, sub, upTo) then upTo
    else IndexDownFrom(s, sub, upTo - 1)
  }

  /** Python's `s.find(sub)`: the leftmost occurrence, or -1 when there is none. */
  function Find(s: string, sub: string): (r: int)
    ensures r == -1 || OccursAt(s, sub, r)
    ensures forall i :: 0 <= i && (r == -1 || i < r) ==> !OccursAt(s, sub, i)
  {
    IndexFrom(s, sub, 0)
  }

  /** Python's `s.rfind(sub)`: the rightmost occurrence, or -1 when there is none. */
  function RFind(s: string, sub: string): (r: int)
    ensures r == -1 || OccursAt(s, sub, r)
    ensures forall i :: r < i ==> !OccursAt(s, sub, i)
  {
    IndexDownFrom(s, sub, |s| - |sub|)
  }

  /** Python's `needle in hay` on two strings (the empty string is in every string). */
  predicate Contains(hay: string, needle: string) {
    Find(hay, needle) != -1
  }

  /** `in` is "occurs somewhere". */
  lemma ContainsIff(hay: string, needle: string)
    ensures Contains(hay, needle) <==> exists i :: OccursAt(hay, needle, i)
  {
  }

  /** A one-character string occurs at `i` exactly when that character is at `i`. */
  lemma OccursAtChar(s: string, c: char, i: int)
    ensures OccursAt(s, [c], i) <==> 0 <= i < |s| && s[i] == c
  {
    if 0 <= i < |s| {
      assert s[i..i + 1] == [s[i]];
    }
  }

  /** `s.find(c)` for a single character: the first index holding `c`, or -1 when `c` is absent. */
  lemma FindChar(s: string, c: char)
    ensures Find(s, [c]) == -1 <==> c !in s
    ensures Find(s, [c]) != -1 ==> 0 <= Find(s, [c]) < |s| && s[Find(s, [c])] == c && c !in s[..Find(s, [c])]
  {
    var r := Find(s, [c]);
    forall i | 0 <= i < |s| ensures OccursAt(s, [c], i) <==> s[i] == c {
      OccursAtChar(s, c, i);
    }
    OccursAtChar(s, c, r);
  }

  /** `s.rfind(c)` for a single character: the last index holding `c`, or -1 when `c` is absent. */
  lemma RFindChar(s: string, c: char)
    ensures RFind(s, [c]) == -1 <==> c !in s
    ensures RFind(s, [c]) != -1 ==> 0 <= RFind(s, [c]) < |s| && s[RFind(s, [c])] == c && c !in s[RFind(s, [c]) + 1..]
  {
    var r := RFind(s, [c]);
    forall i | 0 <= i < |s| ensures OccursAt(s, [c], i) <==> s[i] == c {
      OccursAtChar(s, c, i);
    }
    OccursAtChar(s, c, r);
    if r != -1 {
      forall k | r + 1 <= k < |s| ensures s[k] != c {
        assert !OccursAt(s, [c], k);
      }
    }
  }

  // ---------------------------------------------------------------- slicing

  /** Python's normalisation of one bound of `s[start:end]` for a string of length `n`. */
  function SliceBound(i: int, n: nat): (b: nat)
    ensures b <= n
    ensures 0 <= i <= n ==> b == i
  {
    if i < 0 then (if i + n < 0 then 0 else i + n)
    else if i > n then n
    else i
  }

  /** Python's `s[start:end]`: negative bounds count from the end, and crossed bounds give "". */
  function Slice(s: string, start: int, end: int): (r: string)
    ensures |r| <= |s|
    ensures 0 <= start <= end <= |s| ==> r == s[start..end]
    ensures SliceBound(end, |s|) <= SliceBound(start, |s|) ==> r == []
  {
    var lo, hi := SliceBound(start, |s|), SliceBound(end, |s|);
    if lo < hi then s[lo..hi] else []
  }

  // ----------------------------------------------------------------- split

  /** Python's `sep.join(pieces)`. */
  function Join(pieces: seq<string>, sep: string): string {
    if pieces == [] then []
    else if |pieces| == 1 then pieces[0]
    else pieces[0] + sep + Join(pieces[1..], sep)
  }

  /** Joining a piece in front of a non-empty list puts one separator between them. */
  lemma JoinCons(p: string, tail: seq<string>, sep: string)
    requires tail != []
    ensures Join([p] + tail, sep) == p + sep + Join(tail, sep)
  {
    assert ([p] + tail)[1..] == tail;
  }

  /**
   * Python's `s.split(sep)` for a non-empty separator: cut at the leftmost
   * occurrence of `sep`, then split what follows it.
   */
  function Split(s: string, sep: string): (pieces: seq<string>)
    requires sep != []
    ensures |pieces| >= 1
    decreases |s|
  {
    var i := Find(s, sep);
    if i == -1 then [s] else [s[..i]] + Split(s[i + |sep|..], sep)
  }

  /** Splitting loses nothing: joining the pieces with the separator gives the input back. */
  lemma {:induction false} SplitJoin(s: string, sep: string)
    requires sep != []
    ensures Join(Split(s, sep), sep) == s
    decreases |s|
  {
    var i := Find(s, sep);
    if i != -1 {
      var rest := s[i + |sep|..];
      SplitJoin(rest, sep);
      var tail := Split(rest, sep);
      JoinCons(s[..i], tail, sep);
      CutAround(s, i, sep);
    }
  }

  /** A string is what precedes an occurrence, the occurrence, and what follows it. */
  lemma CutAround(s: string, i: int, sep: string)
    requires OccursAt(s, sep, i)
    ensures s == s[..i] + sep + s[i + |sep|..]
  {
    assert s == s[..i] + s[i..i + |sep|] + s[i + |sep|..];
  }

  /** No piece produced by `split` still contains the separator. */
  lemma {:induction false} SplitPiecesFree(s: string, sep: string)
    requires sep != []
    ensures forall p :: p in Split(s, sep) ==> !Contains(p, sep)
    decreases |s|
  {
    var i := Find(s, sep);
    if i == -1 {
      ContainsIff(s, sep);
    } else {
      var rest := s[i + |sep|..];
      SplitPiecesFree(rest, sep);
      FindPrefixFree(s, sep, i);
      assert Split(s, sep) == [s[..i]] + Split(rest, sep);
    }
  }

  /** The text before the leftmost occurrence of `sep` does not contain `sep`. */
  lemma FindPrefixFree(s: string, sep: string, i: int)
    requires sep != [] && i != -1 && Find(s, sep) == i
    ensures !Contains(s[..i], sep)
  {
    var head := s[..i];
    assert head + s[i..] == s;
    forall j | 0 <= j && j + |sep| <= |head| ensures !OccursAt(head, sep, j) {
      OccursInPrefix(head, s[i..], sep, j);
    }
    ContainsIff(head, sep);
  }

  /** A string that lacks the first character of `sub` does not contain `sub`. */
  lemma MissingFirstChar(s: string, sub: string)
    requires sub != [] && sub[0] !in s
    ensures !Contains(s, sub)
  {
  }

  /** `sub` is found at `i` when it occurs there and no earlier character starts it. */
  lemma FindAt(s: string, sub: string, i: nat)
    requires sub != [] && OccursAt(s, sub, i)
    requires forall j :: 0 <= j < i ==> s[j] != sub[0]
    ensures Find(s, sub) == i
  {
    var r := Find(s, sub);
    if r != -1 && r < i {
      assert s[r..r + |sub|][0] == s[r];
    }
  }

  /**
   * The pieces a `split` could have produced: every piece but the last ends
   * exactly where `find` places the next separator, and the last piece holds
   * no separator.
   */
  ghost predicate CutsCleanly(pieces: seq<string>, sep: string) {
    && pieces != []
    && (forall k :: 0 <= k < |pieces| - 1 ==> Find(pieces[k] + sep, sep) == |pieces[k]|)
    && !Contains(pieces[|pieces| - 1], sep)
  }

  /** Occurrences before the end of `t` are the same in `t` and in `t + rest`. */
  lemma OccursInPrefix(t: string, rest: string, sep: string, i: int)
    requires 0 <= i && i + |sep| <= |t|
    ensures OccursAt(t + rest, sep, i) == OccursAt(t, sep, i)
  {
    assert (t + rest)[i..i + |sep|] == t[i..i + |sep|];
  }

  /** The first separator of `p + sep` stays the first whatever follows. */
  lemma FindBeforeRest(p: string, sep: string, rest: string)
    requires sep != [] && Find(p + sep, sep) == |p|
    ensures Find(p + sep + rest, sep) == |p|
  {
    var t := p + sep;
    assert (t + rest)[|p|..|p| + |sep|] == sep;
    forall i | 0 <= i < |p| ensures !OccursAt(t + rest, sep, i) {
      OccursInPrefix(t, rest, sep, i);
    }
    LeftmostAt(t + rest, sep, |p|);
  }

  /** `rfind` returns `i` when `sub` occurs at `i` and nowhere after. */
  lemma RightmostAt(s: string, sub: string, i: int)
    requires OccursAt(s, sub, i)
    requires forall j :: i < j ==> !OccursAt(s, sub, j)
    ensures RFind(s, sub) == i
  {
  }

  /** `find` returns `i` when `sub` occurs at `i` and nowhere before. */
  lemma LeftmostAt(s: string, sub: string, i: int)
    requires OccursAt(s, sub, i)
    requires forall j :: 0 <= j < i ==> !OccursAt(s, sub, j)
    ensures Find(s, sub) == i
  {
  }

  /** The first cut of `split` ends its first piece: `s[..i] + sep` has its first separator at `i`. */
  lemma FindInPrefix(s: string, sep: string, i: int)
    requires sep != [] && i != -1 && Find(s, sep) == i
    ensures s[..i] + sep == s[..i + |sep|]
    ensures Find(s[..i] + sep, sep) == i
  {
    var t := s[..i + |sep|];
    assert s[..i] + sep == t;
    assert s == t + s[i + |sep|..];
    assert t[i..i + |sep|] == sep;
    forall j | 0 <= j < i ensures !OccursAt(t, sep, j) {
      OccursInPrefix(t, s[i + |sep|..], sep, j);
    }
    LeftmostAt(t, sep, i);
  }

  /**
   * Splitting undoes joining exactly for the lists `split` can produce: when
   * each piece but the last ends where `find` cuts and the last holds no
   * separator. (A resume may mention `C#`; only a `#` touching the separator
   * moves the cut.)
   */
  lemma {:induction false} JoinSplit(pieces: seq<string>, sep: string)
    requires sep != [] && CutsCleanly(pieces, sep)
    ensures Split(Join(pieces, sep), sep) == pieces
  {
    if |pieces| > 1 {
      var p, tail := pieces[0], pieces[1..];
      CutsCleanlyTail(pieces, sep);
      JoinSplit(tail, sep);
      var rest := Join(tail, sep);
      assert Join(pieces, sep) == p + sep + rest;
      FindBeforeRest(p, sep, rest);
      SplitStep(p, sep, rest);
      assert pieces == [p] + tail;
    }
  }

  /** Dropping the first piece of a clean cut leaves a clean cut. */
  lemma CutsCleanlyTail(pieces: seq<string>, sep: string)
    requires |pieces| > 1 && CutsCleanly(pieces, sep)
    ensures CutsCleanly(pieces[1..], sep)
  {
    var tail := pieces[1..];
    forall k | 0 <= k < |tail| - 1 ensures Find(tail[k] + sep, sep) == |tail[k]| {
      assert tail[k] == pieces[k + 1];
    }
    assert tail[|tail| - 1] == pieces[|pieces| - 1];
  }

  /** When the leftmost separator follows `p`, `split` cuts `p` off and carries on with the rest. */
  lemma SplitStep(p: string, sep: string, rest: string)
    requires sep != [] && Find(p + sep + rest, sep) == |p|
    ensures Split(p + sep + rest, sep) == [p] + Split(rest, sep)
  {
    var s := p + sep + rest;
    assert s[..|p|] == p;
    assert s[|p| + |sep|..] == rest;
  }

  /** Every result of `split` cuts cleanly: each cut is at the leftmost separator. */
  lemma {:induction false} SplitCutsCleanly(s: string, sep: string)
    requires sep != []
    ensures CutsCleanly(Split(s, sep), sep)
    decreases |s|
  {
    var i := Find(s, sep);
    if i != -1 {
      var rest := s[i + |sep|..];
      SplitCutsCleanly(rest, sep);
      FindInPrefix(s, sep, i);
      var tail := Split(rest, sep);
      var pieces := Split(s, sep);
      assert pieces == [s[..i]] + tail;
      forall k | 0 <= k < |pieces| - 1 ensures Find(pieces[k] + sep, sep) == |pieces[k]| {
        if k > 0 { assert pieces[k] == tail[k - 1]; }
      }
      assert pieces[|pieces| - 1] == tail[|tail| - 1];
    }
  }

  /** `split` is the only clean cutting of its input into pieces that join back to it. */
  lemma SplitUnique(s: string, sep: string, pieces: seq<string>)
    requires sep != [] && CutsCleanly(pieces, sep) && Join(pieces, sep) == s
    ensures pieces == Split(s, sep)
  {
    JoinSplit(pieces, sep);
  }

  /** Clean cutting for pieces that lack the first character of the separator. */
  lemma CutsCleanlyWithoutFirstChar(pieces: seq<string>, sep: string)
    requires sep != [] && pieces != []
    requires forall k :: 0 <= k < |pieces| ==> sep[0] !in pieces[k]
    ensures CutsCleanly(pieces, sep)
  {
    forall k | 0 <= k < |pieces| - 1 ensures Find(pieces[k] + sep, sep) == |pieces[k]| {
      var t := pieces[k] + sep;
      assert t[|pieces[k]|..|pieces[k]| + |sep|] == sep;
      forall j | 0 <= j < |pieces[k]| ensures t[j] != sep[0] {
        assert t[j] == pieces[k][j];
      }
      FindAt(t, sep, |pieces[k]|);
    }
    MissingFirstChar(pieces[|pieces| - 1], sep);
  }

  // -------------------------------------------------------------- lower()

  /** ASCII case folding of one character. */
  function LowerChar(c: char): char {
    if 'A' <= c <= 'Z' then (c as int + 32) as char else c
  }

  /** `s.lower()`, restricted to ASCII letters. */
  function Lower(s: string): (r: string)
    ensures |r| == |s|
    ensures forall k :: 0 <= k < |s| ==> r[k] == LowerChar(s[k])
  {
    seq(|s|, k requires 0 <= k < |s| => LowerChar(s[k]))
  }

  /** A lowered string has no upper-case ASCII letter, so lowering it again changes nothing. */
  lemma LowerIdempotent(s: string)
    ensures Lower(Lower(s)) == Lower(s)
  {
  }

  // ------------------------------------------------------------------ str(n)

  /** The decimal digit character for `d`. */
  function DigitChar(d: nat): char
    requires d < 10
  {
    ('0' as int + d) as char
  }

  /** Python's `str(n)` for a natural number: its decimal digits, no leading zero. */
  function NatToString(n: nat): (s: string)
    ensures 1 <= |s|
    ensures n < 10 <==> |s| == 1
  {
    if n < 10 then [DigitChar(n)] else NatToString(n / 10) + [DigitChar(n % 10)]
  }

  /** Different numbers print differently. */
  lemma {:induction false} NatToStringInjective(a: nat, b: nat)
    requires NatToString(a) == NatToString(b)
    ensures a == b
  {
    if a >= 10 && b >= 10 {
      var sa, sb := NatToString(a), NatToString(b);
      assert sa[|sa| - 1] == sb[|sb| - 1];
      assert a % 10 == b % 10;
      assert sa[..|sa| - 1] == NatToString(a / 10);
      assert sb[..|sb| - 1] == NatToString(b / 10);
      NatToStringInjective(a / 10, b / 10);
    }
  }
}
