/**
 * Reading the line number out of a parser error message, as `validate`
 * does with `message.match(/line ([0-9]*)/)` followed by
 * `parseInt(match[1], 10)`: the leftmost `"line "` decides, and the
 * (possibly empty) run of ASCII digits right after it is the number. An
 * empty run parses to NaN, modelled as `None`.
 */
module LineNumber {
  import opened Wrappers

  /** The text the message is searched for. */
  const Marker: string := "line "

  /** Predicate: `pat` occurs in `s` starting at index `i`. */
  predicate OccursAt(s: string, pat: string, i: int) {
    0 <= i && i + |pat| <= |s| && s[i..i + |pat|] == pat
  }

  /** The leftmost occurrence of `pat` in `s` at or after `from`. */
  function FindFrom(s: string, pat: string, from: nat): (r: Option<nat>)
    requires from <= |s|
    ensures r.Some? ==> from <= r.value && OccursAt(s, pat, r.value)
    ensures r.Some? ==> forall j :: from <= j < r.value ==> !OccursAt(s, pat, j)
    ensures r.None? ==> forall j :: from <= j ==> !OccursAt(s, pat, j)
    decreases |s| - from
  {
    if from + |pat| > |s| then None
    else if s[from..from + |pat|] == pat then Some(from)
    else FindFrom(s, pat, from + 1)
  }

  predicate IsDigit(c: char) {
    '0' <= c <= '9'
  }

  predicate AllDigits(d: string) {
    forall i :: 0 <= i < |d| ==> IsDigit(d[i])
  }

  /** The longest prefix of `s` made of digits: what `[0-9]*` matches. */
  function DigitRun(s: string): (d: string)
    ensures |d| <= |s| && d == s[..|d|]
    ensures AllDigits(d)
    ensures |d| < |s| ==> !IsDigit(s[|d|])
  {
    if |s| > 0 && IsDigit(s[0]) then [s[0]] + DigitRun(s[1..]) else ""
  }

  /** The value of a digit character. */
  function DigitValue(c: char): nat
    requires IsDigit(c)
  {
    c as int - '0' as int
  }

  /** Decimal value of a digit string, most significant digit first. */
  function DigitsValue(d: string): nat
    requires AllDigits(d)
  {
    if |d| == 0 then 0 else DigitsValue(d[..|d| - 1]) * 10 + DigitValue(d[|d| - 1])
  }

  /** `parseInt(d, 10)` for a run of digits: NaN (`None`) exactly when the run is empty. */
  function ParseInt(d: string): (r: Option<nat>)
    requires AllDigits(d)
    ensures r.None? <==> |d| == 0
  {
    if |d| == 0 then None else Some(DigitsValue(d))
  }

  /** The decimal numeral of `n`, without leading zeros. */
  function ShowNat(n: nat): string
  {
    var last := ['0' + ((n % 10) as char)];
    if n < 10 then last else ShowNat(n / 10) + last
  }

  /** Parsing a numeral gives its number back. */
  lemma {:induction false} ShowNatParses(n: nat)
    ensures |ShowNat(n)| >= 1 && AllDigits(ShowNat(n))
    ensures ParseInt(ShowNat(n)) == Some(n)
  {
    var d := ShowNat(n);
    assert DigitValue(d[|d| - 1]) == n % 10;
    if n >= 10 {
      ShowNatParses(n / 10);
      assert d[..|d| - 1] == ShowNat(n / 10);
      assert DigitsValue(d) == (n / 10) * 10 + n % 10;
    } else {
      assert |d| == 1 && d[..|d| - 1] == "";
      assert DigitsValue(d) == DigitsValue("") * 10 + n % 10;
    }
  }

  /** Leading zeros do not change the parsed value (`parseInt("007", 10)` is 7). */
  lemma {:induction false} LeadingZeroIgnored(d: string)
    requires AllDigits(d)
    ensures AllDigits("0" + d) && DigitsValue("0" + d) == DigitsValue(d)
    ensures |d| > 0 ==> ParseInt("0" + d) == ParseInt(d)
    decreases |d|
  {
    if |d| > 0 {
      var z := "0" + d;
      assert z[..|z| - 1] == "0" + d[..|d| - 1];
      LeadingZeroIgnored(d[..|d| - 1]);
    }
  }

  /** The digit run of a string that starts with `digits` and continues with a non-digit. */
  lemma {:induction false} DigitRunOf(digits: string, suffix: string)
    requires AllDigits(digits)
    requires suffix == [] || !IsDigit(suffix[0])
    ensures DigitRun(digits + suffix) == digits
    decreases |digits|
  {
    if |digits| > 0 {
      assert (digits + suffix)[1..] == digits[1..] + suffix;
      DigitRunOf(digits[1..], suffix);
      assert digits == [digits[0]] + digits[1..];
    } else {
      assert digits + suffix == suffix;
    }
  }

  /** Outcome of the line-number search on a message. */
  datatype LineMatch =
    | NoMatch                         // no `"line "`: the caret is not moved
    | Matched(lineNum: Option<nat>)   // `None` is the NaN of an empty digit run

  /** The line number `validate` reads from an error message. */
  function ExtractLineNumber(message: string): (m: LineMatch)
    ensures m.NoMatch? <==> forall i :: !OccursAt(message, Marker, i)
  {
    match FindFrom(message, Marker, 0)
    case None => NoMatch
    case Some(i) => Matched(ParseInt(DigitRun(message[i + |Marker|..])))
  }

  /** No `"line "` starts inside `prefix` or straddles its end. */
  lemma NoMarkerBefore(prefix: string, tail: string, j: int)
    requires forall i :: !OccursAt(prefix, Marker, i)
    requires 0 <= j < |prefix|
    ensures !OccursAt(prefix + Marker + tail, Marker, j)
  {
    var m := prefix + Marker + tail;
    var p := |prefix|;
    if j + |Marker| <= p {
      assert m[j..j + |Marker|] == prefix[j..j + |Marker|];
      assert !OccursAt(prefix, Marker, j);
    } else if j + |Marker| <= |m| {
      // the blank closing such an occurrence would fall inside "line"
      assert m[j..j + |Marker|][4] == Marker[j + 4 - p] != Marker[4];
    }
  }

  /** The first `"line "` of `prefix + "line " + tail` is the one after `prefix`. */
  lemma MarkerFirst(prefix: string, tail: string)
    requires forall i :: !OccursAt(prefix, Marker, i)
    ensures FindFrom(prefix + Marker + tail, Marker, 0) == Some(|prefix|)
  {
    var m := prefix + Marker + tail;
    assert m[|prefix|..|prefix| + |Marker|] == Marker;
    assert OccursAt(m, Marker, |prefix|);
    forall j | 0 <= j < |prefix|
      ensures !OccursAt(m, Marker, j)
    {
      NoMarkerBefore(prefix, tail, j);
    }
  }

  /**
   * A message whose first `"line "` is followed by the digits `digits` (and
   * then by something that is not a digit) yields exactly those digits'
   * value, or NaN when there are none.
   */
  lemma ExtractFromMessage(prefix: string, digits: string, suffix: string)
    requires forall i :: !OccursAt(prefix, Marker, i)
    requires AllDigits(digits)
    requires suffix == [] || !IsDigit(suffix[0])
    ensures ExtractLineNumber(prefix + Marker + digits + suffix) == Matched(ParseInt(digits))
  {
    var m := prefix + Marker + digits + suffix;
    assert m == prefix + Marker + (digits + suffix);
    MarkerFirst(prefix, digits + suffix);
    assert m[|prefix| + |Marker|..] == digits + suffix;
    DigitRunOf(digits, suffix);
  }

  /** The parser's `"... on line N..."` leads to line number N. */
  lemma ExtractReportedLine(prefix: string, n: nat, suffix: string)
    requires forall i :: !OccursAt(prefix, Marker, i)
    requires suffix == [] || !IsDigit(suffix[0])
    ensures ExtractLineNumber(prefix + Marker + ShowNat(n) + suffix) == Matched(Some(n))
  {
    ShowNatParses(n);
    ExtractFromMessage(prefix, ShowNat(n), suffix);
  }
}
