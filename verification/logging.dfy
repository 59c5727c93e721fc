/** Choosing the log output style from its configured name. */
module Logging {
  import Text

  datatype LogStyle = Plain | Compact | Pretty | Json

  /** The lowercase keyword that names each style. */
  function Keyword(style: LogStyle): string {
    match style
    case Plain => "plain"
    case Compact => "compact"
    case Pretty => "pretty"
    case Json => "json"
  }

  predicate IsKeyword(s: string) {
    s == "plain" || s == "compact" || s == "pretty" || s == "json"
  }

  /** The style used for an unrecognised name: Pretty in debug builds, Plain in release builds. */
  function BuildDefault(debugAssertions: bool): LogStyle {
    if debugAssertions then Pretty else Plain
  }

  /**
   * `LogStyle::from_str`: the lowercased name selects the style it spells;
   * any other name selects the build default. It never fails.
   */
  function FromStr(s: string, debugAssertions: bool): (style: LogStyle)
    ensures IsKeyword(Text.ToLower(s)) ==> Keyword(style) == Text.ToLower(s)
    ensures !IsKeyword(Text.ToLower(s)) ==> style == BuildDefault(debugAssertions)
  {
    match Text.ToLower(s)
    case "plain" => Plain
    case "compact" => Compact
    case "pretty" => Pretty
    case "json" => Json
    case _ => BuildDefault(debugAssertions)
  }

  /** Every style's keyword parses back to that style, whatever the build. */
  lemma FromStrKeyword(style: LogStyle, debugAssertions: bool)
    ensures FromStr(Keyword(style), debugAssertions) == style
  {
    KeywordIsLower(style);
  }

  lemma KeywordIsLower(style: LogStyle)
    ensures Text.ToLower(Keyword(style)) == Keyword(style)
  {
    Text.ToLowerOfLower(Keyword(style));
  }

  /** Matching ignores ASCII case: a name parses like its lowercase form. */
  lemma FromStrCaseInsensitive(s: string, debugAssertions: bool)
    ensures FromStr(s, debugAssertions) == FromStr(Text.ToLower(s), debugAssertions)
  {
    Text.ToLowerIdempotent(s);
  }

  /** The build flag only matters for names that are not keywords. */
  lemma BuildFlagOnlyAffectsUnrecognised(s: string)
    ensures FromStr(s, true) != FromStr(s, false) <==> !IsKeyword(Text.ToLower(s))
  {
  }

  /** Case is ignored: "PrEtTy" selects Pretty. */
  lemma MixedCaseExample(debugAssertions: bool)
    ensures FromStr("PrEtTy", debugAssertions) == Pretty
  {
    assert Text.ToLower("PrEtTy") == "pretty";
  }

  /** "auto" and the empty name are not keywords and select the build default. */
  lemma UnrecognisedExamples(debugAssertions: bool)
    ensures FromStr("auto", debugAssertions) == BuildDefault(debugAssertions)
    ensures FromStr("", debugAssertions) == BuildDefault(debugAssertions)
  {
    assert Text.ToLower("auto") == "auto";
  }
}
