/**
 * The JavaScript string primitives the interaction layer relies on, for a
 * single-character separator: `String.prototype.split`, `indexOf`,
 * `trim` and the ASCII part of `toLowerCase`. Strings are sequences of
 * characters; an index is an offset into that sequence.
 */
module JsString {

  /** Number of occurrences of `c` in `s`. */
  function Count(s: string, c: char): (n: nat)
    ensures n <= |s|
  {
    if |s| == 0 then 0
    else (if s[0] == c then 1 else 0) + Count(s[1..], c)
  }

  /** A character that does not occur is counted zero times. */
  lemma {:induction false} CountAbsent(s: string, c: char)
    requires c !in s
    ensures Count(s, c) == 0
    decreases |s|
  {
    if |s| > 0 {
      assert c !in s[1..] by {
        forall x | x in s[1..] ensures x != c {
          assert x in s;
        }
      }
      CountAbsent(s[1..], c);
    }
  }

  /** Occurrences in a concatenation add up. */
  lemma {:induction false} CountConcat(a: string, b: string, c: char)
    ensures Count(a + b, c) == Count(a, c) + Count(b, c)
    decreases |a|
  {
    if |a| > 0 {
      assert (a + b)[0] == a[0];
      assert (a + b)[1..] == a[1..] + b;
      CountConcat(a[1..], b, c);
    } else {
      assert a + b == b;
    }
  }

  /** `fromIndex` clamped into `[0, n]`, as `indexOf` treats it. */
  function Clamp(i: int, n: nat): nat {
    if i < 0 then 0 else if i > n then n else i
  }

  /** The first index at or after `from` that holds `c`, or -1. */
  function IndexFrom(s: string, c: char, from: nat): (r: int)
    requires from <= |s|
    ensures r == -1 || (from <= r < |s| && s[r] == c)
    ensures r == -1 ==> forall j :: from <= j < |s| ==> s[j] != c
    ensures r != -1 ==> forall j :: from <= j < r ==> s[j] != c
    decreases |s| - from
  {
    if from == |s| then -1
    else if s[from] == c then from
    else IndexFrom(s, c, from + 1)
  }

  /**
   * `s.indexOf(c, fromIndex)` for a one-character search string: the
   * negative or too large `fromIndex` is clamped, and -1 means "not found".
   */
  function IndexOf(s: string, c: char, fromIndex: int): (r: int)
    ensures r == -1 <==> forall j :: Clamp(fromIndex, |s|) <= j < |s| ==> s[j] != c
    ensures r != -1 ==> Clamp(fromIndex, |s|) <= r < |s| && s[r] == c
    ensures r != -1 ==> forall j :: Clamp(fromIndex, |s|) <= j < r ==> s[j] != c
  {
    IndexFrom(s, c, Clamp(fromIndex, |s|))
  }

  /** Concatenation of `pieces` with `sep` between neighbours: the inverse of `Split`. */
  function Join(pieces: seq<string>, sep: char): string
    decreases |pieces|
  {
    if |pieces| == 0 then ""
    else if |pieces| == 1 then pieces[0]
    else pieces[0] + [sep] + Join(pieces[1..], sep)
  }

  /**
   * `s.split(sep)` for a one-character separator: a separator starts a new
   * empty piece, any other character extends the current one. The empty
   * string splits into one empty piece.
   */
  function Split(s: string, sep: char): (pieces: seq<string>)
    ensures |pieces| >= 1
    decreases |s|
  {
    if |s| == 0 then [""]
    else
      var rest := Split(s[1..], sep);
      if s[0] == sep then [""] + rest
      else [[s[0]] + rest[0]] + rest[1..]
  }

  /** Prepending to the first piece prepends to the join. */
  lemma {:induction false} JoinPrepend(x: string, pieces: seq<string>, sep: char)
    requires |pieces| >= 1
    ensures Join([x + pieces[0]] + pieces[1..], sep) == x + Join(pieces, sep)
  {
    var q := [x + pieces[0]] + pieces[1..];
    assert q[1..] == pieces[1..];
  }

  /** A split has one more piece than there are separators. */
  lemma {:induction false} SplitCount(s: string, sep: char)
    ensures |Split(s, sep)| == Count(s, sep) + 1
    decreases |s|
  {
    if |s| > 0 {
      SplitCount(s[1..], sep);
    }
  }

  /** No piece of a split holds the separator. */
  lemma {:induction false} SplitPiecesFree(s: string, sep: char)
    ensures forall i :: 0 <= i < |Split(s, sep)| ==> sep !in Split(s, sep)[i]
    decreases |s|
  {
    if |s| > 0 {
      var rest := Split(s[1..], sep);
      SplitPiecesFree(s[1..], sep);
      var pieces := Split(s, sep);
      forall i | 0 <= i < |pieces|
        ensures sep !in pieces[i]
      {
        if s[0] == sep {
          if i > 0 {
            assert pieces[i] == rest[i - 1];
          }
        } else if i > 0 {
          assert pieces[i] == rest[i];
        } else {
          assert pieces[0] == [s[0]] + rest[0];
          assert sep !in rest[0];
        }
      }
    }
  }

  /** Joining the pieces of a split with the separator gives the string back. */
  lemma {:induction false} JoinSplit(s: string, sep: char)
    ensures Join(Split(s, sep), sep) == s
    decreases |s|
  {
    if |s| > 0 {
      var rest := Split(s[1..], sep);
      JoinSplit(s[1..], sep);
      if s[0] == sep {
        var pieces := [""] + rest;
        assert pieces[1..] == rest;
        assert Join(pieces, sep) == "" + [sep] + Join(rest, sep);
      } else {
        JoinPrepend([s[0]], rest, sep);
      }
      assert s == [s[0]] + s[1..];
    }
  }

  /**
   * The pieces of a split are separator-free, one more than there are
   * separators, and joining them with the separator gives `s` back.
   */
  lemma {:induction false} SplitProperties(s: string, sep: char)
    ensures |Split(s, sep)| == Count(s, sep) + 1
    ensures forall i :: 0 <= i < |Split(s, sep)| ==> sep !in Split(s, sep)[i]
    ensures Join(Split(s, sep), sep) == s
  {
    SplitCount(s, sep);
    SplitPiecesFree(s, sep);
    JoinSplit(s, sep);
  }

  /** Splitting a separator-free string, alone or followed by a separator and more text. */
  lemma {:induction false} SplitAfterPiece(x: string, sep: char, rest: string)
    requires sep !in x
    ensures Split(x + [sep] + rest, sep) == [x] + Split(rest, sep)
    ensures Split(x, sep) == [x]
    decreases |x|
  {
    if |x| > 0 {
      assert (x + [sep] + rest)[1..] == x[1..] + [sep] + rest;
      assert sep !in x[1..] by {
        forall k | 0 <= k < |x[1..]| ensures x[1..][k] != sep {
          assert x[1..][k] == x[k + 1];
        }
      }
      SplitAfterPiece(x[1..], sep, rest);
      assert x == [x[0]] + x[1..];
    } else {
      assert x + [sep] + rest == [sep] + rest;
      assert ([sep] + rest)[1..] == rest;
    }
  }

  /** Splitting a join of separator-free pieces gives the pieces back. */
  lemma {:induction false} SplitJoin(pieces: seq<string>, sep: char)
    requires |pieces| >= 1
    requires forall i :: 0 <= i < |pieces| ==> sep !in pieces[i]
    ensures Split(Join(pieces, sep), sep) == pieces
    decreases |pieces|
  {
    assert sep !in pieces[0];
    if |pieces| == 1 {
      SplitAfterPiece(pieces[0], sep, "");
    } else {
      var tail := pieces[1..];
      assert Join(pieces, sep) == pieces[0] + [sep] + Join(tail, sep);
      SplitAfterPiece(pieces[0], sep, Join(tail, sep));
      forall i | 0 <= i < |tail| ensures sep !in tail[i] {
        assert tail[i] == pieces[i + 1];
      }
      SplitJoin(tail, sep);
      assert pieces == [pieces[0]] + tail;
    }
  }

  /**
   * The characters `String.prototype.trim` removes: WhiteSpace and
   * LineTerminator of ECMAScript 5.1 (sections 7.2 and 7.3), taking the Zs
   * space separators from the Zs set of current Unicode.
   */
  predicate IsWhiteSpace(c: char) {
    || c == '\t' || c == '\U{000B}' || c == '\U{000C}' || c == ' '
    || c == '\U{00A0}' || c == '\U{FEFF}' || c == '\U{1680}'
    || ('\U{2000}' <= c <= '\U{200A}')
    || c == '\U{202F}' || c == '\U{205F}' || c == '\U{3000}'
    || c == '\n' || c == '\r' || c == '\U{2028}' || c == '\U{2029}'
  }

  /** `s` without its leading white space. */
  function TrimStart(s: string): (r: string)
    ensures |r| <= |s| && r == s[|s| - |r|..]
    ensures forall k :: 0 <= k < |s| - |r| ==> IsWhiteSpace(s[k])
    ensures |r| > 0 ==> !IsWhiteSpace(r[0])
  {
    if |s| > 0 && IsWhiteSpace(s[0]) then TrimStart(s[1..]) else s
  }

  /** `s` without its trailing white space. */
  function TrimEnd(s: string): (r: string)
    ensures |r| <= |s| && r == s[..|r|]
    ensures forall k :: |r| <= k < |s| ==> IsWhiteSpace(s[k])
    ensures |r| > 0 ==> !IsWhiteSpace(r[|r| - 1])
  {
    if |s| > 0 && IsWhiteSpace(s[|s| - 1]) then TrimEnd(s[..|s| - 1]) else s
  }

  /** `s.trim()` (and jQuery's `$.trim` on a string). */
  function Trim(s: string): (r: string)
    ensures r == "" || (!IsWhiteSpace(r[0]) && !IsWhiteSpace(r[|r| - 1]))
  {
    TrimEnd(TrimStart(s))
  }

  /** Predicate: every character of `w` is white space. */
  predicate AllWhiteSpace(w: string) {
    forall k :: 0 <= k < |w| ==> IsWhiteSpace(w[k])
  }

  /** Leading and trailing white space does not change what `Trim` keeps. */
  lemma {:induction false} TrimIgnoresPadding(left: string, s: string, right: string)
    requires AllWhiteSpace(left) && AllWhiteSpace(right)
    ensures Trim(left + s + right) == Trim(s)
  {
    assert left + s + right == left + (s + right);
    TrimStartPadding(left, s + right);
    if AllWhiteSpace(s) {
      TrimStartPadding(s, right);
      TrimStartAllWhite(right);
      TrimStartAllWhite(s);
    } else {
      TrimStartKeepsSuffix(s, right);
      TrimEndPadding(TrimStart(s), right);
    }
  }

  /** Nothing is left of a string made of white space only. */
  lemma TrimStartAllWhite(w: string)
    requires AllWhiteSpace(w)
    ensures TrimStart(w) == ""
  {
  }

  lemma {:induction false} TrimStartPadding(left: string, s: string)
    requires AllWhiteSpace(left)
    ensures TrimStart(left + s) == TrimStart(s)
    decreases |left|
  {
    if |left| > 0 {
      assert (left + s)[0] == left[0];
      assert (left + s)[1..] == left[1..] + s;
      TrimStartPadding(left[1..], s);
    } else {
      assert left + s == s;
    }
  }

  lemma {:induction false} TrimStartKeepsSuffix(s: string, right: string)
    requires !AllWhiteSpace(s)
    ensures TrimStart(s + right) == TrimStart(s) + right
    decreases |s|
  {
    assert |s| > 0;
    if IsWhiteSpace(s[0]) {
      assert (s + right)[1..] == s[1..] + right;
      TrimStartKeepsSuffix(s[1..], right);
    }
  }

  lemma {:induction false} TrimEndPadding(s: string, right: string)
    requires AllWhiteSpace(right)
    ensures TrimEnd(s + right) == TrimEnd(s)
    decreases |right|
  {
    if |right| > 0 {
      var n := |right| - 1;
      assert (s + right)[..|s + right| - 1] == s + right[..n];
      TrimEndPadding(s, right[..n]);
    } else {
      assert s + right == s;
    }
  }

  /** `c.toLowerCase()` restricted to ASCII letters; other characters are kept. */
  function LowerChar(c: char): char {
    if 'A' <= c <= 'Z' then (c as int + 32) as char else c
  }

  /** `s.toLowerCase()` on the ASCII letters of `s`. */
  function ToLower(s: string): (r: string)
    ensures |r| == |s|
    ensures forall i :: 0 <= i < |s| ==> r[i] == LowerChar(s[i])
  {
    seq(|s|, i requires 0 <= i < |s| => LowerChar(s[i]))
  }

  /** `s.substring(0, n)` for `n >= 0`: at most the first `n` characters. */
  function Prefix(s: string, n: nat): (r: string)
    ensures |r| == if |s| < n then |s| else n
    ensures r == s[..|r|]
  {
    if |s| < n then s else s[..n]
  }
}
