/**
 * `getNthPos` of the interaction layer: the offset reached after summing,
 * for the first `pos` pieces of `searchStr.split(sep)`, each piece's length
 * plus the separator's length. For `1 <= pos <= count(sep)` that is the
 * offset just past the pos-th separator (not the separator's own index),
 * `pos == count(sep) + 1` reaches one past the end of the string, and any
 * larger `pos` gives -1.
 */
module Locator {
  import opened JsString

  /** Sum of `|pieces[i]| + 1` over the first `n` pieces. */
  function PiecesOffset(pieces: seq<string>, n: nat): nat
    requires n <= |pieces|
  {
    if n == 0 then 0 else |pieces[0]| + 1 + PiecesOffset(pieces[1..], n - 1)
  }

  /** One more piece adds its length and one separator. */
  lemma {:induction false} PiecesOffsetStep(pieces: seq<string>, n: nat)
    requires n < |pieces|
    ensures PiecesOffset(pieces, n + 1) == PiecesOffset(pieces, n) + |pieces[n]| + 1
    decreases n
  {
    if n > 0 {
      PiecesOffsetStep(pieces[1..], n - 1);
    }
  }

  /** Each extra piece moves the offset forward by at least one. */
  lemma {:induction false} PiecesOffsetGrows(pieces: seq<string>, a: nat, b: nat)
    requires a <= b <= |pieces|
    ensures PiecesOffset(pieces, a) + (b - a) <= PiecesOffset(pieces, b)
    decreases b - a
  {
    if a < b {
      PiecesOffsetStep(pieces, b - 1);
      PiecesOffsetGrows(pieces, a, b - 1);
    }
  }

  /**
   * Where the n-th piece sits inside the joined string: it starts at
   * `PiecesOffset(pieces, n)` and is followed by a separator, or by the end
   * of the string for the last piece.
   */
  lemma {:induction false} JoinLayout(pieces: seq<string>, sep: char, n: nat)
    requires n < |pieces|
    ensures PiecesOffset(pieces, n) + |pieces[n]| <= |Join(pieces, sep)|
    ensures Join(pieces, sep)[PiecesOffset(pieces, n)..PiecesOffset(pieces, n) + |pieces[n]|] == pieces[n]
    ensures n + 1 < |pieces| ==> PiecesOffset(pieces, n) + |pieces[n]| < |Join(pieces, sep)|
    ensures n + 1 < |pieces| ==> Join(pieces, sep)[PiecesOffset(pieces, n) + |pieces[n]|] == sep
    ensures n + 1 == |pieces| ==> PiecesOffset(pieces, n) + |pieces[n]| == |Join(pieces, sep)|
    decreases n
  {
    var s := Join(pieces, sep);
    var p0 := pieces[0];
    if |pieces| == 1 {
      assert s == p0;
    } else {
      var tail := Join(pieces[1..], sep);
      assert s == p0 + [sep] + tail;
      if n == 0 {
        assert s[..|p0|] == p0;
      } else {
        JoinLayout(pieces[1..], sep, n - 1);
        var o' := PiecesOffset(pieces[1..], n - 1);
        assert PiecesOffset(pieces, n) == |p0| + 1 + o';
        assert pieces[1..][n - 1] == pieces[n];
        assert s[|p0| + 1..] == tail;
      }
    }
  }

  /** When no piece holds the separator, exactly `n` separators precede the n-th piece. */
  lemma {:induction false} JoinCount(pieces: seq<string>, sep: char, n: nat)
    requires n < |pieces|
    requires forall i :: 0 <= i < |pieces| ==> sep !in pieces[i]
    ensures PiecesOffset(pieces, n) <= |Join(pieces, sep)|
    ensures Count(Join(pieces, sep)[..PiecesOffset(pieces, n)], sep) == n
    decreases n
  {
    JoinLayout(pieces, sep, n);
    var s := Join(pieces, sep);
    if n == 0 {
      assert s[..0] == [];
    } else {
      var p0 := pieces[0];
      var tail := Join(pieces[1..], sep);
      assert s == p0 + [sep] + tail;
      JoinCount(pieces[1..], sep, n - 1);
      var o' := PiecesOffset(pieces[1..], n - 1);
      assert s[..PiecesOffset(pieces, n)] == p0 + ([sep] + tail[..o']);
      CountAbsent(p0, sep);
      CountConcat(p0, [sep] + tail[..o'], sep);
      CountConcat([sep], tail[..o'], sep);
    }
  }

  /** Past the n-th piece (not the last) comes a separator, preceded by exactly `n` others. */
  lemma {:induction false} SeparatorAfterPiece(pieces: seq<string>, sep: char, n: nat)
    requires n + 1 < |pieces|
    requires forall i :: 0 <= i < |pieces| ==> sep !in pieces[i]
    ensures 0 < PiecesOffset(pieces, n + 1) <= |Join(pieces, sep)|
    ensures Join(pieces, sep)[PiecesOffset(pieces, n + 1) - 1] == sep
    ensures Count(Join(pieces, sep)[..PiecesOffset(pieces, n + 1) - 1], sep) == n
  {
    var s := Join(pieces, sep);
    PiecesOffsetStep(pieces, n);
    JoinLayout(pieces, sep, n);
    JoinCount(pieces, sep, n);
    var o := PiecesOffset(pieces, n);
    var e := o + |pieces[n]|;
    assert s[..e] == s[..o] + s[o..e];
    CountAbsent(pieces[n], sep);
    CountConcat(s[..o], s[o..e], sep);
  }

  /** For `1 <= pos <= count`, the offset reached is one past the pos-th separator. */
  lemma {:induction false} InnerPieceEnd(s: string, sep: char, pos: nat)
    requires 1 <= pos <= Count(s, sep)
    ensures |Split(s, sep)| == Count(s, sep) + 1
    ensures var r := PiecesOffset(Split(s, sep), pos);
      && 0 < r <= |s| && s[r - 1] == sep && Count(s[..r - 1], sep) == pos - 1
  {
    SplitProperties(s, sep);
    SeparatorAfterPiece(Split(s, sep), sep, pos - 1);
  }

  /** The last piece ends at the end of the string, so its offset is `|s| + 1`. */
  lemma {:induction false} LastPieceEnd(s: string, sep: char)
    ensures |Split(s, sep)| == Count(s, sep) + 1
    ensures PiecesOffset(Split(s, sep), Count(s, sep) + 1) == |s| + 1
  {
    var pieces := Split(s, sep);
    var n := Count(s, sep);
    SplitProperties(s, sep);
    PiecesOffsetStep(pieces, n);
    JoinLayout(pieces, sep, n);
  }

  /** Both cases of an in-range `pos >= 1`. */
  lemma {:induction false} PieceEnd(s: string, sep: char, pos: nat)
    requires 1 <= pos <= Count(s, sep) + 1
    ensures |Split(s, sep)| == Count(s, sep) + 1
    ensures PiecesOffset(Split(s, sep), pos) > 0
    ensures pos <= Count(s, sep) ==> var r := PiecesOffset(Split(s, sep), pos);
      && r <= |s| && s[r - 1] == sep && Count(s[..r - 1], sep) == pos - 1
    ensures pos == Count(s, sep) + 1 ==> PiecesOffset(Split(s, sep), pos) == |s| + 1
  {
    SplitProperties(s, sep);
    PiecesOffsetGrows(Split(s, sep), 0, pos);
    if pos <= Count(s, sep) {
      InnerPieceEnd(s, sep, pos);
    } else {
      LastPieceEnd(s, sep);
    }
  }

  /**
   * Reference definition of `getNthPos(s, sep, pos)`: nothing for
   * `pos <= 0`, -1 past the last piece, otherwise the offset reached after
   * `pos` pieces of the split.
   */
  function NthPos(s: string, sep: char, pos: int): int {
    var pieces := Split(s, sep);
    if pos <= 0 then 0
    else if pos > |pieces| then -1
    else PiecesOffset(pieces, pos)
  }

  /**
   * What `getNthPos` returns, stated against the string alone: 0 when
   * `pos <= 0`, one past the pos-th separator while there is one, one past
   * the end of the string for the piece after the last separator, and -1
   * (the only negative result) beyond.
   */
  lemma NthPosMeaning(s: string, sep: char, pos: int)
    ensures pos <= 0 ==> NthPos(s, sep, pos) == 0
    ensures NthPos(s, sep, pos) < 0 <==> pos > Count(s, sep) + 1
    ensures NthPos(s, sep, pos) < 0 ==> NthPos(s, sep, pos) == -1
    ensures 1 <= pos <= Count(s, sep) ==> var r := NthPos(s, sep, pos);
      && 0 < r <= |s| && s[r - 1] == sep && Count(s[..r - 1], sep) == pos - 1
    ensures pos == Count(s, sep) + 1 ==> NthPos(s, sep, pos) == |s| + 1
  {
    SplitProperties(s, sep);
    if 1 <= pos <= Count(s, sep) + 1 {
      PieceEnd(s, sep, pos);
    }
  }

  /** The piece after the last separator ends one past the end of the string. */
  lemma NthPosLast(s: string, sep: char)
    ensures NthPos(s, sep, Count(s, sep) + 1) == |s| + 1
  {
    NthPosMeaning(s, sep, Count(s, sep) + 1);
  }

  /** Past the last piece the result is -1. */
  lemma NthPosBeyond(s: string, sep: char, pos: int)
    requires pos > Count(s, sep) + 1
    ensures NthPos(s, sep, pos) == -1
  {
    NthPosMeaning(s, sep, pos);
  }

  /** In range, `NthPos` is the offset reached after `pos` pieces. */
  lemma NthPosPieces(s: string, sep: char, pos: int)
    requires 1 <= pos <= Count(s, sep) + 1
    ensures |Split(s, sep)| == Count(s, sep) + 1
    ensures NthPos(s, sep, pos) == PiecesOffset(Split(s, sep), pos)
  {
    SplitProperties(s, sep);
  }

  /** Just before the offset after `n` pieces lies the join of those `n` pieces. */
  lemma {:induction false} JoinPrefix(pieces: seq<string>, sep: char, n: nat)
    requires 1 <= n <= |pieces|
    ensures PiecesOffset(pieces, n) - 1 <= |Join(pieces, sep)|
    ensures Join(pieces, sep)[..PiecesOffset(pieces, n) - 1] == Join(pieces[..n], sep)
    decreases n
  {
    var p0 := pieces[0];
    if |pieces| == 1 {
      assert pieces[..n] == pieces;
    } else {
      var tail := Join(pieces[1..], sep);
      assert Join(pieces, sep) == p0 + [sep] + tail;
      if n == 1 {
        assert Join(pieces, sep)[..|p0|] == p0;
      } else {
        JoinPrefix(pieces[1..], sep, n - 1);
        var o' := PiecesOffset(pieces[1..], n - 1);
        assert Join(pieces, sep)[..PiecesOffset(pieces, n) - 1] == p0 + [sep] + tail[..o' - 1];
        assert pieces[..n][1..] == pieces[1..][..n - 1];
      }
    }
  }

  /**
   * For `1 <= pos <= count + 1`, everything before the separator that ends
   * the pos-th piece (or before the end of the string) is the first `pos`
   * pieces joined again: `getNthPos` skips exactly `pos` lines.
   */
  lemma NthPosSkipsPieces(s: string, sep: char, pos: int)
    requires 1 <= pos <= Count(s, sep) + 1
    ensures |Split(s, sep)| == Count(s, sep) + 1
    ensures 0 < NthPos(s, sep, pos) <= |s| + 1
    ensures s[..NthPos(s, sep, pos) - 1] == Join(Split(s, sep)[..pos], sep)
  {
    SplitProperties(s, sep);
    NthPosMeaning(s, sep, pos);
    JoinPrefix(Split(s, sep), sep, pos);
  }

  /** Offsets grow strictly with `pos` from 0 up to the last piece. */
  lemma NthPosIncreasing(s: string, sep: char, a: int, b: int)
    requires 0 <= a < b <= Count(s, sep) + 1
    ensures NthPos(s, sep, a) < NthPos(s, sep, b)
  {
    SplitProperties(s, sep);
    PiecesOffsetGrows(Split(s, sep), a, b);
  }

  /** The loop of `getNthPos`, computing `NthPos`. */
  method GetNthPos(searchStr: string, sep: char, pos: int) returns (charCount: int)
    ensures charCount == NthPos(searchStr, sep, pos)
  {
    var strArr := Split(searchStr, sep);
    SplitProperties(searchStr, sep);
    charCount := 0;
    if pos == 0 {
      return 0;
    }
    var i := 0;
    while i < pos
      invariant 0 <= i <= |strArr|
      invariant i == 0 || i <= pos
      invariant charCount == PiecesOffset(strArr, i)
    {
      if i >= |strArr| {
        return -1;
      }
      PiecesOffsetStep(strArr, i);
      charCount := charCount + |strArr[i]| + 1;
      i := i + 1;
    }
  }
}
