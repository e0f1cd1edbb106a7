/**
 * Splitting the pasted resume batch into individual resumes:
 * `[r.strip() for r in resumes.split("###") if r.strip()]`.
 */
module ResumeBatch {
  import opened PyText

  /** The literal token that separates resumes in the pasted text. */
  const Separator: string := "###"

  /** The comprehension's filter and map: strip each piece, keep the non-empty ones, in order. */
  function StrippedNonEmpty(pieces: seq<string>): (resumes: seq<string>)
    ensures |resumes| <= |pieces|
  {
    if pieces == [] then []
    else
      var t := Strip(pieces[0]);
      (if t != [] then [t] else []) + StrippedNonEmpty(pieces[1..])
  }

  /** Every resume the filter keeps is non-empty and already stripped. */
  lemma {:induction false} StrippedNonEmptyClean(pieces: seq<string>)
    ensures forall k :: 0 <= k < |StrippedNonEmpty(pieces)| ==>
      StrippedNonEmpty(pieces)[k] != [] && Strip(StrippedNonEmpty(pieces)[k]) == StrippedNonEmpty(pieces)[k]
  {
    if pieces != [] {
      StrippedNonEmptyClean(pieces[1..]);
      StripIdempotent(pieces[0]);
    }
  }

  /** The resume list built from the pasted batch. */
  function SplitResumes(text: string): (resumes: seq<string>)
    ensures |resumes| == CountNonBlank(Split(text, Separator))
  {
    StrippedNonEmptyCount(Split(text, Separator));
    StrippedNonEmpty(Split(text, Separator))
  }

  /**
   * A string is in the result exactly when it is the stripped form of some
   * piece and is not empty.
   */
  lemma {:induction false} StrippedNonEmptyMembers(pieces: seq<string>, x: string)
    ensures x in StrippedNonEmpty(pieces) <==> x != [] && exists p :: p in pieces && Strip(p) == x
  {
    if pieces != [] {
      StrippedNonEmptyMembers(pieces[1..], x);
      assert forall p :: p in pieces <==> p == pieces[0] || p in pieces[1..];
    }
  }

  /** The number of pieces whose stripped form is not empty. */
  function CountNonBlank(pieces: seq<string>): nat {
    if pieces == [] then 0
    else (if Strip(pieces[0]) != [] then 1 else 0) + CountNonBlank(pieces[1..])
  }

  /** Exactly one resume per piece that is not all whitespace. */
  lemma {:induction false} StrippedNonEmptyCount(pieces: seq<string>)
    ensures |StrippedNonEmpty(pieces)| == CountNonBlank(pieces)
  {
    if pieces != [] { StrippedNonEmptyCount(pieces[1..]); }
  }

  /** No resume handed to the analyser contains the separator. */
  lemma SplitResumesFree(text: string)
    ensures forall r :: r in SplitResumes(text) ==> !Contains(r, Separator) && r != [] && Strip(r) == r
  {
    var pieces := Split(text, Separator);
    SplitPiecesFree(text, Separator);
    StrippedNonEmptyClean(pieces);
    forall r | r in SplitResumes(text) ensures !Contains(r, Separator) {
      StrippedNonEmptyMembers(pieces, r);
      var p :| p in pieces && Strip(p) == r;
      StripInside(p, r, Separator);
    }
  }

  /** A string that does not contain `sub` has no stripped form containing it. */
  lemma StripInside(p: string, r: string, sub: string)
    requires Strip(p) == r && !Contains(p, sub)
    ensures !Contains(r, sub)
  {
    StripWindow(p);
    var lo := StripOffset(p);
    ContainsIff(p, sub);
    ContainsIff(r, sub);
    if Contains(r, sub) {
      var j :| OccursAt(r, sub, j);
      OccursInWindow(p, lo, r, sub, j);
    }
  }

  /** An occurrence inside a window of `p` is an occurrence in `p`. */
  lemma OccursInWindow(p: string, lo: int, r: string, sub: string, j: int)
    requires 0 <= lo && lo + |r| <= |p| && r == p[lo..lo + |r|] && OccursAt(r, sub, j)
    ensures OccursAt(p, sub, lo + j)
  {
    forall k | 0 <= k < |sub| ensures p[lo + j..lo + j + |sub|][k] == sub[k] {
      assert r[j..j + |sub|][k] == sub[k];
      assert r[j + k] == p[lo + j + k];
    }
  }

  /**
   * `split("###")` cuts a resume cleanly off the batch exactly when the resume
   * holds no `###` and does not end in `#`: `C#` inside a resume is harmless,
   * a trailing `#` moves the cut.
   */
  lemma CutAfterPieceIff(p: string)
    ensures Find(p + Separator, Separator) == |p| <==> !Contains(p, Separator) && (p == [] || p[|p| - 1] != '#')
  {
    if Contains(p, Separator) {
      InnerSeparatorMovesCut(p);
    } else if p != [] && p[|p| - 1] == '#' {
      TrailingHashMovesCut(p);
    } else {
      CleanPieceCuts(p);
    }
  }

  /** A `###` inside the piece is found before the appended separator. */
  lemma InnerSeparatorMovesCut(p: string)
    requires Contains(p, Separator)
    ensures Find(p + Separator, Separator) < |p|
  {
    ContainsIff(p, Separator);
    var j :| OccursAt(p, Separator, j);
    OccursInPrefix(p, Separator, Separator, j);
  }

  /** A trailing `#` and the separator form a `###` one character early. */
  lemma TrailingHashMovesCut(p: string)
    requires p != [] && p[|p| - 1] == '#'
    ensures Find(p + Separator, Separator) < |p|
  {
    var t := p + Separator;
    assert t[|p| - 1..|p| + 2] == Separator;
    assert OccursAt(t, Separator, |p| - 1);
  }

  /** Without `###` inside and without a trailing `#`, the first separator is the appended one. */
  lemma CleanPieceCuts(p: string)
    requires !Contains(p, Separator) && (p == [] || p[|p| - 1] != '#')
    ensures Find(p + Separator, Separator) == |p|
  {
    var t := p + Separator;
    var n := |p|;
    ContainsIff(p, Separator);
    assert t[n..n + 3] == Separator;
    forall j | 0 <= j < n ensures !OccursAt(t, Separator, j) {
      if j + 3 <= n {
        OccursInPrefix(p, Separator, Separator, j);
      } else {
        assert t[j..j + 3][n - 1 - j] == t[n - 1] == p[n - 1] != '#';
        assert Separator[n - 1 - j] == '#';
        assert t[j..j + 3] != Separator;
      }
    }
    LeftmostAt(t, Separator, n);
  }
}
