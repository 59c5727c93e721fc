/**
 * Environment lookups and the CORS origin list, shared by both configuration
 * loaders. The process environment is a map from variable names to values.
 */
module Env {
  import Text

  type Environment = map<string, string>

  /** `env_or`: the variable's value when it is set, otherwise the default. */
  function EnvOr(env: Environment, key: string, default: string): (v: string)
    ensures key in env ==> v == env[key]
    ensures key !in env ==> v == default
  {
    if key in env then env[key] else default
  }

  /** `pieces` are the comma-free pieces of `raw`: joined with commas they give back `raw`. */
  ghost predicate CommaPieces(raw: string, pieces: seq<string>) {
    && |pieces| > 0
    && Text.Join(pieces, ",") == raw
    && forall k :: 0 <= k < |pieces| ==> ',' !in pieces[k]
  }

  /** `origins` is `pieces` with every piece trimmed, in the same order. */
  ghost predicate TrimmedPieces(pieces: seq<string>, origins: seq<string>) {
    && |origins| == |pieces|
    && forall k :: 0 <= k < |pieces| ==> origins[k] == Text.Trim(pieces[k])
  }

  /**
   * The origin list: `raw` split at every comma, each piece trimmed, order and
   * empty pieces kept, so there is one origin more than there are commas.
   */
  function ParseOrigins(raw: string): (origins: seq<string>)
    ensures |origins| == Text.Count(raw, ',') + 1
    ensures forall k :: 0 <= k < |origins| ==> Text.IsTrimmed(origins[k])
    ensures forall k :: 0 <= k < |origins| ==> ',' !in origins[k]
    ensures exists pieces :: CommaPieces(raw, pieces) && TrimmedPieces(pieces, origins)
  {
    var pieces := Text.Split(raw, ',');
    Text.JoinSplit(raw, ',');
    var origins := seq(|pieces|, k requires 0 <= k < |pieces| => Text.Trim(pieces[k]));
    TrimKeepsCommaFree(pieces, origins);
    assert CommaPieces(raw, pieces) && TrimmedPieces(pieces, origins);
    origins
  }

  lemma TrimKeepsCommaFree(pieces: seq<string>, origins: seq<string>)
    requires forall k :: 0 <= k < |pieces| ==> ',' !in pieces[k]
    requires TrimmedPieces(pieces, origins)
    ensures forall k :: 0 <= k < |origins| ==> ',' !in origins[k]
  {
    forall k | 0 <= k < |origins|
      ensures ',' !in origins[k]
    {
      var i, j :| Text.StripsTo(pieces[k], i, j) && origins[k] == pieces[k][i..j];
      assert forall c :: c in origins[k] ==> c in pieces[k];
    }
  }

  /** The comma-free decomposition of a string is unique, so the origin list is determined by `raw`. */
  lemma ParseOriginsDetermined(raw: string, pieces: seq<string>)
    requires CommaPieces(raw, pieces)
    ensures pieces == Text.Split(raw, ',')
    ensures TrimmedPieces(pieces, ParseOrigins(raw))
  {
    Text.SplitJoin(pieces, ',');
  }

  /** `cors_is_permissive`: whether some origin is exactly `"*"`. */
  function AnyWildcard(origins: seq<string>): (permissive: bool)
    ensures permissive <==> exists i :: 0 <= i < |origins| && origins[i] == "*"
    decreases |origins|
  {
    if |origins| == 0 then false
    else if origins[0] == "*" then true
    else
      var rest := origins[1..];
      assert forall i :: 1 <= i < |origins| ==> origins[i] == rest[i - 1];
      AnyWildcard(rest)
  }

  /** A single comma-free, already trimmed value is the one origin it names. */
  lemma SingleOrigin(o: string)
    requires ',' !in o && Text.IsTrimmed(o)
    ensures ParseOrigins(o) == [o]
  {
    assert CommaPieces(o, [o]);
    ParseOriginsDetermined(o, [o]);
    Text.TrimOfTrimmed(o);
  }

  /** With `CORS_ORIGINS` unset the default `"*"` gives the single origin `"*"`. */
  lemma DefaultOrigins()
    ensures ParseOrigins("*") == ["*"]
  {
    SingleOrigin("*");
  }

  /** Two comma-free pieces joined by one comma give the two trimmed pieces. */
  lemma TwoOrigins(x: string, y: string)
    requires ',' !in x && ',' !in y
    ensures ParseOrigins(x + "," + y) == [Text.Trim(x), Text.Trim(y)]
  {
    assert Text.Join([x, y], ",") == x + "," + y;
    assert CommaPieces(x + "," + y, [x, y]);
    ParseOriginsDetermined(x + "," + y, [x, y]);
  }

  /**
   * Spaces around each origin are dropped: `" <a> , <b> "` gives `[a, b]`
   * for any two comma-free, already trimmed origins.
   */
  lemma PaddedOrigins(a: string, b: string)
    requires ',' !in a && ',' !in b
    requires Text.IsTrimmed(a) && Text.IsTrimmed(b)
    ensures ParseOrigins(" " + a + " , " + b + " ") == [a, b]
  {
    var x, y := " " + a + " ", " " + b + " ";
    assert ',' !in x && ',' !in y;
    assert " " + a + " , " + b + " " == x + "," + y;
    TwoOrigins(x, y);
    Text.TrimPadded(" ", a, " ");
    Text.TrimPadded(" ", b, " ");
  }
}
