/**
 * The `reformat` query parameter and what it decides: the `reformat` and
 * `compress` flags set in `init`, the page title variant, and which
 * rendering ends up in the input box after a successful validation.
 */
module Options {
  import opened Wrappers

  /** The two flags `init` derives from the `reformat` parameter. */
  datatype Flags = Flags(reformat: bool, compress: bool)

  /**
   * `reformat` unless the parameter is `"0"` or `"no"`, `compress` only for
   * `"compress"`; `None` is an absent parameter.
   */
  function FlagsOf(param: Option<string>): (f: Flags)
    ensures f.compress ==> f.reformat
    ensures param.None? ==> f.reformat && !f.compress
  {
    Flags(param != Some("0") && param != Some("no"), param == Some("compress"))
  }

  /** The three kinds of page the parameter selects. */
  datatype Variant = Standard | Compressor | Lite

  /** The variant `init` announces in the header: Compressor first, then Lite overrides it. */
  function HeaderOf(f: Flags): Variant {
    var afterCompress := if f.compress then Compressor else Standard;
    if !f.reformat then Lite else afterCompress
  }

  /** The renderings `validate` may write back after a successful parse. */
  datatype Rendering =
    | Indented   // JSON.stringify(JSON.parse(text), null, "    ")
    | Compact    // JSON.stringify(JSON.parse(text), null, "")

  /** The writes `validate` performs, in order, after a successful parse. */
  function WritesAfterValid(f: Flags): seq<Rendering> {
    (if f.reformat then [Indented] else []) + (if f.compress then [Compact] else [])
  }

  /** The text a rendering writes, given what the two `JSON.stringify` calls produce. */
  function Rendered(r: Rendering, indented: string, compact: string): string {
    match r
    case Indented => indented
    case Compact => compact
  }

  /** The box's value after performing `writes` in order, starting from `value`. */
  function ApplyWrites(value: string, writes: seq<Rendering>, indented: string, compact: string): (v: string)
    ensures |writes| == 0 ==> v == value
    ensures |writes| > 0 ==> v == Rendered(writes[|writes| - 1], indented, compact)
    decreases |writes|
  {
    if |writes| == 0 then value
    else ApplyWrites(Rendered(writes[0], indented, compact), writes[1..], indented, compact)
  }

  /** The box's value after a successful validation with flags `f`. */
  function ValueAfterValid(f: Flags, text: string, indented: string, compact: string): string {
    ApplyWrites(text, WritesAfterValid(f), indented, compact)
  }

  /**
   * Flags and header by parameter value: `"compress"` gives both flags and
   * the Compressor title, `"0"` and `"no"` give neither and the Lite title,
   * anything else (absent included) gives reformatting only. The two header
   * writes in `init` never both happen.
   */
  lemma ParameterCases(param: Option<string>)
    ensures param == Some("compress") ==> FlagsOf(param) == Flags(true, true)
    ensures param == Some("0") || param == Some("no") ==> FlagsOf(param) == Flags(false, false)
    ensures param != Some("compress") && param != Some("0") && param != Some("no") ==>
      FlagsOf(param) == Flags(true, false)
    ensures HeaderOf(FlagsOf(param)) == Compressor <==> param == Some("compress")
    ensures HeaderOf(FlagsOf(param)) == Lite <==> param == Some("0") || param == Some("no")
    ensures !(FlagsOf(param).compress && !FlagsOf(param).reformat)
  {
  }

  /**
   * After a successful parse the compact write, performed last, is what
   * remains when both flags are set; with reformatting only, the indented
   * text remains; with neither, the box keeps the input.
   */
  lemma OutputAfterValid(param: Option<string>, text: string, indented: string, compact: string)
    ensures param == Some("compress") ==>
      WritesAfterValid(FlagsOf(param)) == [Indented, Compact]
      && ValueAfterValid(FlagsOf(param), text, indented, compact) == compact
    ensures param == Some("0") || param == Some("no") ==>
      WritesAfterValid(FlagsOf(param)) == []
      && ValueAfterValid(FlagsOf(param), text, indented, compact) == text
    ensures param != Some("compress") && param != Some("0") && param != Some("no") ==>
      WritesAfterValid(FlagsOf(param)) == [Indented]
      && ValueAfterValid(FlagsOf(param), text, indented, compact) == indented
  {
    var f := FlagsOf(param);
    var w := WritesAfterValid(f);
    if param == Some("compress") {
      assert w == [Indented, Compact];
    } else if param == Some("0") || param == Some("no") {
      assert w == [];
    } else {
      assert w == [Indented];
    }
  }
}
