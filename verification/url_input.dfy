/**
 * The test both click handlers apply before validating or minifying: the
 * trimmed input is fetched through the proxy when its first four
 * characters, lower-cased, are `"http"`.
 */
module UrlInput {
  import opened JsString

  /** Predicate: `c` lower-cases to `lower` (an ASCII lower-case letter). */
  predicate IsLetter(c: char, lower: char)
    requires 'a' <= lower <= 'z'
  {
    c == lower || c as int == lower as int - 32
  }

  /** Predicate: `t` starts with the letters h, t, t, p, each in either case. */
  predicate StartsWithHttp(t: string) {
    |t| >= 4 && IsLetter(t[0], 'h') && IsLetter(t[1], 't') && IsLetter(t[2], 't') && IsLetter(t[3], 'p')
  }

  /** Lower-casing the first four characters gives `"http"` exactly when they spell it in any case. */
  lemma {:induction false} LowerPrefixIsHttp(t: string)
    ensures ToLower(Prefix(t, 4)) == "http" <==> StartsWithHttp(t)
  {
    var l := ToLower(Prefix(t, 4));
    if |t| >= 4 {
      assert l == "http" <==> l[0] == 'h' && l[1] == 't' && l[2] == 't' && l[3] == 'p';
      assert l[0] == LowerChar(t[0]) && l[1] == LowerChar(t[1]);
      assert l[2] == LowerChar(t[2]) && l[3] == LowerChar(t[3]);
    } else {
      assert |l| < 4;
    }
  }

  /** `$.trim(value).substring(0, 4).toLowerCase() === "http"`. */
  function LooksLikeUrl(value: string): (r: bool)
    ensures r <==> StartsWithHttp(Trim(value))
  {
    LowerPrefixIsHttp(Trim(value));
    ToLower(Prefix(Trim(value), 4)) == "http"
  }

  /** The test ignores white space around the input. */
  lemma {:induction false} UrlTestIgnoresPadding(left: string, value: string, right: string)
    requires AllWhiteSpace(left) && AllWhiteSpace(right)
    ensures LooksLikeUrl(left + value + right) == LooksLikeUrl(value)
  {
    TrimIgnoresPadding(left, value, right);
  }

  /** Any mix of cases of "http" at the start counts, such as "HTTP://" or "hTtP". */
  lemma SchemeCaseIgnored(value: string)
    requires |value| >= 4
    requires value[0] in "hH" && value[1] in "tT" && value[2] in "tT" && value[3] in "pP"
    ensures LooksLikeUrl(value)
  {
    assert value[0] == 'h' || value[0] == 'H';
    assert !IsWhiteSpace(value[0]);
    assert TrimStart(value) == value;
    assert value[3] == 'p' || value[3] == 'P';
    assert !IsWhiteSpace(value[3]);
    assert |TrimEnd(value)| >= 4;
    var t := Trim(value);
    assert t[..4] == value[..4];
    assert StartsWithHttp(t);
  }
}
