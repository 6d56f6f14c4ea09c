/**
 * `notes.split(/(?<=[.!?])\s+/)`: cut a text at every run of white space
 * that follows a sentence terminator, dropping the run. The model follows
 * the ECMAScript split algorithm: scan for the next position where the
 * regular expression matches, emit the text before it, continue after the
 * (greedy) match; the text after the last match is the last piece.
 */
module Sentences {
  import opened Text

  predicate IsTerminator(c: char) {
    c == '.' || c == '!' || c == '?'
  }

  /** The pattern matches at `q`: the character before is a terminator (the
      lookbehind) and the one at `q` is white space. */
  predicate BreakAt(s: string, q: int) {
    0 < q < |s| && IsTerminator(s[q - 1]) && IsSpace(s[q])
  }

  /** The first match position at or after `p`, or `|s|` if none. */
  function NextBreak(s: string, p: nat): (q: nat)
    requires p <= |s|
    ensures p <= q <= |s|
    ensures q < |s| ==> BreakAt(s, q)
    ensures forall k :: p <= k < q ==> !BreakAt(s, k)
    decreases |s| - p
  {
    if p == |s| || BreakAt(s, p) then p else NextBreak(s, p + 1)
  }

  /** Where the greedy `\s+` starting at `q` ends. */
  function RunEnd(s: string, q: nat): (e: nat)
    requires q <= |s|
    ensures q <= e <= |s|
    ensures forall k :: q <= k < e ==> IsSpace(s[k])
    ensures e == |s| || !IsSpace(s[e])
    decreases |s| - q
  {
    if q < |s| && IsSpace(s[q]) then RunEnd(s, q + 1) else q
  }

  /** The pieces of `s[p..]`. */
  function Pieces(s: string, p: nat): seq<string>
    requires p <= |s|
    decreases |s| - p
  {
    var q := NextBreak(s, p);
    if q == |s| then [s[p..]] else [s[p..q]] + Pieces(s, RunEnd(s, q))
  }

  /** The white-space runs the split removes from `s[p..]`, one between
      each two consecutive pieces. */
  function Separators(s: string, p: nat): seq<string>
    requires p <= |s|
    decreases |s| - p
  {
    var q := NextBreak(s, p);
    if q == |s| then [] else [s[q..RunEnd(s, q)]] + Separators(s, RunEnd(s, q))
  }

  /** `s.split(/(?<=[.!?])\s+/)`. */
  function Split(s: string): seq<string> {
    Pieces(s, 0)
  }

  /** Pieces and separators interleaved back into one text. */
  function Glue(pieces: seq<string>, seps: seq<string>): string
    requires |pieces| == |seps| + 1
  {
    if |seps| == 0 then pieces[0] else pieces[0] + seps[0] + Glue(pieces[1..], seps[1..])
  }

  /** No match position inside the text. */
  predicate Unbroken(s: string) {
    forall k :: 0 <= k < |s| ==> !BreakAt(s, k)
  }

  /** A removed separator: a non-empty white-space run. */
  predicate Run(t: string) {
    t != [] && AllSpace(t)
  }

  /** A piece that a separator follows: non-empty, ending in a terminator. */
  predicate EndsSentence(t: string) {
    t != [] && IsTerminator(t[|t| - 1])
  }

  /** Empty, or not starting with white space. */
  predicate StartsClean(t: string) {
    t == [] || !IsSpace(t[0])
  }

  /** A property of the first `n` elements carries over to the first
      `n + 1` after putting one more element with it in front. */
  lemma ConsAll(P: string -> bool, first: string, rest: seq<string>, n: nat)
    requires n <= |rest| && P(first)
    requires forall i :: 0 <= i < n ==> P(rest[i])
    ensures forall i :: 0 <= i < n + 1 ==> P(([first] + rest)[i])
  {
    forall i | 0 < i < n + 1 ensures P(([first] + rest)[i]) {
      assert ([first] + rest)[i] == rest[i - 1];
    }
  }

  /** A property of every element holds after the front of `[first] + rest`. */
  lemma TailAll(P: string -> bool, first: string, rest: seq<string>)
    requires forall i :: 0 <= i < |rest| ==> P(rest[i])
    ensures forall i :: 0 < i < |[first] + rest| ==> P(([first] + rest)[i])
  {
    forall i | 0 < i < |[first] + rest| ensures P(([first] + rest)[i]) {
      assert ([first] + rest)[i] == rest[i - 1];
    }
  }

  lemma UnbrokenSlice(s: string, p: nat, q: nat)
    requires p <= q <= |s|
    requires p == 0 || !IsTerminator(s[p - 1])
    requires forall k :: p <= k < q ==> !BreakAt(s, k)
    ensures Unbroken(s[p..q])
  {
    forall k | 0 <= k < q - p
      ensures !BreakAt(s[p..q], k)
    {
      if BreakAt(s[p..q], k) {
        assert BreakAt(s, p + k);
      }
    }
  }

  /** One step of the split: the first piece, its separator, and the rest. */
  lemma PiecesStep(s: string, p: nat)
    requires p <= |s|
    requires NextBreak(s, p) < |s|
    ensures Pieces(s, p) == [s[p..NextBreak(s, p)]] + Pieces(s, RunEnd(s, NextBreak(s, p)))
    ensures Separators(s, p) == [s[NextBreak(s, p)..RunEnd(s, NextBreak(s, p))]] + Separators(s, RunEnd(s, NextBreak(s, p)))
  {
  }

  /** The last step of the split: no match is left, one piece remains. */
  lemma PiecesLast(s: string, p: nat)
    requires p <= |s|
    requires NextBreak(s, p) == |s|
    ensures Pieces(s, p) == [s[p..]] && Separators(s, p) == []
  {
  }

  lemma GlueCons(a: string, b: string, ps: seq<string>, ss: seq<string>)
    requires |ps| == |ss| + 1
    ensures Glue([a] + ps, [b] + ss) == a + b + Glue(ps, ss)
  {
    assert ([a] + ps)[1..] == ps && ([b] + ss)[1..] == ss;
  }

  lemma Slices3(s: string, p: nat, q: nat, e: nat)
    requires p <= q <= e <= |s|
    ensures s[p..] == s[p..q] + s[q..e] + s[e..]
  {
  }

  /** Gluing the pieces back with the removed runs gives the text. */
  lemma {:induction false} PiecesGlue(s: string, p: nat)
    requires p <= |s|
    ensures |Pieces(s, p)| == |Separators(s, p)| + 1
    ensures Glue(Pieces(s, p), Separators(s, p)) == s[p..]
    decreases |s| - p
  {
    var q := NextBreak(s, p);
    if q < |s| {
      var e := RunEnd(s, q);
      PiecesGlue(s, e);
      PiecesStep(s, p);
      GlueCons(s[p..q], s[q..e], Pieces(s, e), Separators(s, e));
      Slices3(s, p, q, e);
    } else {
      PiecesLast(s, p);
    }
  }

  /** The run `RunEnd` finds after a match is a separator. */
  lemma RunAfterBreak(s: string, q: nat)
    requires q < |s| && BreakAt(s, q)
    ensures Run(s[q..RunEnd(s, q)])
  {
    var e := RunEnd(s, q);
    assert forall k :: 0 <= k < e - q ==> s[q..e][k] == s[q + k];
  }

  /** Every removed run is non-empty white space. */
  lemma {:induction false} SeparatorsAreSpace(s: string, p: nat)
    requires p <= |s|
    ensures forall i :: 0 <= i < |Separators(s, p)| ==> Run(Separators(s, p)[i])
    decreases |s| - p
  {
    var q := NextBreak(s, p);
    if q < |s| {
      var e := RunEnd(s, q);
      SeparatorsAreSpace(s, e);
      PiecesStep(s, p);
      RunAfterBreak(s, q);
      ConsAll(Run, s[q..e], Separators(s, e), |Separators(s, e)|);
    } else {
      PiecesLast(s, p);
    }
  }

  /** Scanning from the start or from the end of a run, the piece before
      the next match ends in a terminator, and the run after it is not empty. */
  lemma FirstPieceEnds(s: string, p: nat)
    requires p <= |s|
    requires p == 0 || IsSpace(s[p - 1])
    requires NextBreak(s, p) < |s|
    ensures EndsSentence(s[p..NextBreak(s, p)])
    ensures NextBreak(s, p) < RunEnd(s, NextBreak(s, p))
    ensures IsSpace(s[RunEnd(s, NextBreak(s, p)) - 1])
  {
    var q := NextBreak(s, p);
    assert q != p by {
      assert p > 0 ==> !IsTerminator(s[p - 1]);
    }
    assert s[p..q][q - p - 1] == s[q - 1];
  }

  /** The piece before each removed run is non-empty and ends in a terminator. */
  lemma {:induction false} PiecesEndInTerminator(s: string, p: nat)
    requires p <= |s|
    requires p == 0 || IsSpace(s[p - 1])
    ensures |Pieces(s, p)| == |Separators(s, p)| + 1
    ensures forall i :: 0 <= i < |Separators(s, p)| ==> EndsSentence(Pieces(s, p)[i])
    decreases |s| - p
  {
    var q := NextBreak(s, p);
    if q < |s| {
      var e := RunEnd(s, q);
      FirstPieceEnds(s, p);
      PiecesEndInTerminator(s, e);
      PiecesStep(s, p);
      ConsAll(EndsSentence, s[p..q], Pieces(s, e), |Separators(s, e)|);
    } else {
      PiecesLast(s, p);
    }
  }

  /** No piece contains a match position. */
  lemma {:induction false} PiecesUnbroken(s: string, p: nat)
    requires p <= |s|
    requires p == 0 || IsSpace(s[p - 1])
    ensures forall i :: 0 <= i < |Pieces(s, p)| ==> Unbroken(Pieces(s, p)[i])
    decreases |s| - p
  {
    var q := NextBreak(s, p);
    assert p > 0 ==> !IsTerminator(s[p - 1]);
    UnbrokenSlice(s, p, q);
    if q < |s| {
      var e := RunEnd(s, q);
      PiecesUnbroken(s, e);
      PiecesStep(s, p);
      ConsAll(Unbroken, s[p..q], Pieces(s, e), |Pieces(s, e)|);
    } else {
      PiecesLast(s, p);
      assert s[p..] == s[p..q];
    }
  }

  /** Starting where a run ended, every piece starts clean. */
  lemma {:induction false} PiecesStartClean(s: string, p: nat)
    requires p <= |s|
    requires p == |s| || !IsSpace(s[p])
    ensures forall i :: 0 <= i < |Pieces(s, p)| ==> StartsClean(Pieces(s, p)[i])
    decreases |s| - p
  {
    var q := NextBreak(s, p);
    assert StartsClean(s[p..q]) by {
      assert p < q ==> s[p..q][0] == s[p];
    }
    if q < |s| {
      var e := RunEnd(s, q);
      PiecesStartClean(s, e);
      PiecesStep(s, p);
      ConsAll(StartsClean, s[p..q], Pieces(s, e), |Pieces(s, e)|);
    } else {
      PiecesLast(s, p);
      assert s[p..] == s[p..q];
    }
  }

  /** No piece contains a match position, and every piece after the first
      starts with a non-space character or is the empty remainder: each run
      was taken whole. */
  lemma PiecesAreMaximal(s: string, p: nat)
    requires p <= |s|
    requires p == 0 || IsSpace(s[p - 1])
    ensures forall i :: 0 <= i < |Pieces(s, p)| ==> Unbroken(Pieces(s, p)[i])
    ensures forall i :: 0 < i < |Pieces(s, p)| ==> StartsClean(Pieces(s, p)[i])
  {
    PiecesUnbroken(s, p);
    var q := NextBreak(s, p);
    if q < |s| {
      var e := RunEnd(s, q);
      PiecesStartClean(s, e);
      PiecesStep(s, p);
      TailAll(StartsClean, s[p..q], Pieces(s, e));
    } else {
      PiecesLast(s, p);
    }
  }

  /** The split is faithful: gluing the pieces back with the removed runs
      gives the text; every removed run is non-empty white space following a
      piece that ends in a terminator; no piece contains a match position;
      and every piece after the first starts with a non-space character (or
      is the empty remainder), so each run was taken whole. */
  lemma SplitSpec(s: string)
    ensures |Split(s)| == |Separators(s, 0)| + 1
    ensures Glue(Split(s), Separators(s, 0)) == s
    ensures forall i :: 0 <= i < |Separators(s, 0)| ==> Run(Separators(s, 0)[i])
    ensures forall i :: 0 <= i < |Separators(s, 0)| ==> EndsSentence(Split(s)[i])
    ensures forall i :: 0 <= i < |Split(s)| ==> Unbroken(Split(s)[i])
    ensures forall i :: 0 < i < |Split(s)| ==> StartsClean(Split(s)[i])
  {
    PiecesGlue(s, 0);
    SeparatorsAreSpace(s, 0);
    PiecesEndInTerminator(s, 0);
    PiecesAreMaximal(s, 0);
  }
}
