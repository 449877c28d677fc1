/** The tail of `compare_frame`: reading the primary score and the optional "3-norm"
    value out of the text an external scorer printed on its standard output. */
module ScorerOutput {
  import opened Wrappers
  import opened Text

  /** The label that introduces the norm line. */
  const NormMarker: string := "3-norm"

  /** What separates the label of the norm line from its value. */
  const NormDelimiter: string := ": "

  /** The ways the parse panics in the program (an `unwrap` on `None`). */
  datatype OutputError =
    | NoScoreLine                          // no non-empty line at all
    | ScoreNotNumeric(token: string)       // the score token does not parse as f64
    | NormLineWithoutDelimiter(line: string)  // the first norm line holds no ": "
    | NormNotNumeric(token: string)        // the norm token does not parse as f64

  /** A parsed scorer output: the primary score and, when the scorer printed one, the norm. */
  datatype ScoreSample<F> = ScoreSample(score: F, norm: Option<F>)

  predicate IsNonEmpty(line: string) { line != "" }

  predicate IsNormLine(line: string) { StartsWith(line, NormMarker) }

  /** The score token: the first non-empty line, trimmed. A line of whitespace only is
      non-empty, so it is selected and yields the empty token. */
  function ScoreToken(stdout: string): (r: Option<string>)
    ensures r.None? <==> forall k :: 0 <= k < |Lines(stdout)| ==> Lines(stdout)[k] == ""
    ensures forall k: nat :: IsFirst(Lines(stdout), k, IsNonEmpty) ==> r == Some(Trim(Lines(stdout)[k]))
  {
    var ls := Lines(stdout);
    match FindIndex(ls, IsNonEmpty)
    case None => None
    case Some(k) =>
      assert forall m :: IsFirst(ls, m, IsNonEmpty) ==> m == k by {
        forall m | IsFirst(ls, m, IsNonEmpty) ensures m == k { FirstIsUnique(ls, m, k, IsNonEmpty); }
      }
      Some(Trim(ls[k]))
  }

  /** A first non-empty line made of whitespace only is selected and gives the empty token
      (which no f64 parse accepts). */
  lemma WhitespaceLineGivesEmptyScoreToken(stdout: string, k: nat)
    requires IsFirst(Lines(stdout), k, IsNonEmpty)
    requires forall i :: 0 <= i < |Lines(stdout)[k]| ==> IsWhitespace(Lines(stdout)[k][i])
    ensures ScoreToken(stdout) == Some("")
  {
    TrimEmpty(Lines(stdout)[k]);
  }

  /** The norm token: `None` when no line starts with the marker; otherwise what follows
      the first ": " of the first such line, untrimmed; an error when that line has no ": ". */
  function NormToken(stdout: string): (r: Result<Option<string>, OutputError>)
    ensures r == Ok(None) <==> forall k :: 0 <= k < |Lines(stdout)| ==> !IsNormLine(Lines(stdout)[k])
    ensures forall k: nat :: IsFirst(Lines(stdout), k, IsNormLine) ==>
      (r.Err? <==> forall j :: 0 <= j <= |Lines(stdout)[k]| ==> !OccursAt(Lines(stdout)[k], NormDelimiter, j))
    ensures forall k: nat :: IsFirst(Lines(stdout), k, IsNormLine) && r.Err? ==>
      r.error == NormLineWithoutDelimiter(Lines(stdout)[k])
  {
    var ls := Lines(stdout);
    match FindIndex(ls, IsNormLine)
    case None => Ok(None)
    case Some(k) =>
      assert forall m :: IsFirst(ls, m, IsNormLine) ==> m == k by {
        forall m | IsFirst(ls, m, IsNormLine) ensures m == k { FirstIsUnique(ls, m, k, IsNormLine); }
      }
      match SplitOnce(ls[k], NormDelimiter)
      case None => Err(NormLineWithoutDelimiter(ls[k]))
      case Some((_, value)) => Ok(Some(value))
  }

  /** When the first norm line is `tag + ": " + value` with no earlier ": " in it, the
      norm token is `value`, exactly as printed. */
  lemma NormTokenIsRightOfFirstDelimiter(stdout: string, k: nat, tag: string, value: string)
    requires IsFirst(Lines(stdout), k, IsNormLine)
    requires Lines(stdout)[k] == tag + NormDelimiter + value
    requires forall j :: 0 <= j < |tag| ==> !OccursAt(Lines(stdout)[k], NormDelimiter, j)
    ensures NormToken(stdout) == Ok(Some(value))
  {
    var ls := Lines(stdout);
    SplitOnceAtFirst(ls[k], NormDelimiter, tag, value);
    var f := FindIndex(ls, IsNormLine);
    FirstIsUnique(ls, f.value, k, IsNormLine);
  }

  /** Both tokens parsed with `parseF64`, an opaque stand-in for `str::parse::<f64>`.
      The score is read first, so a missing or malformed score wins over a bad norm line;
      once the score parses, the result is the norm token's error, the failed parse of the
      norm token, or a sample whose norm is the parse of the norm token. */
  function ParseScorerOutput<F>(stdout: string, parseF64: string -> Option<F>): (r: Result<ScoreSample<F>, OutputError>)
    ensures r == Err(NoScoreLine) <==> forall k :: 0 <= k < |Lines(stdout)| ==> Lines(stdout)[k] == ""
    ensures forall k: nat :: IsFirst(Lines(stdout), k, IsNonEmpty) ==>
      (r.Ok? ==> parseF64(Trim(Lines(stdout)[k])) == Some(r.value.score))
    ensures forall k: nat :: IsFirst(Lines(stdout), k, IsNonEmpty) && parseF64(Trim(Lines(stdout)[k])).None? ==>
      r == Err(ScoreNotNumeric(Trim(Lines(stdout)[k])))
    ensures r.Ok? ==> (r.value.norm.None? <==> forall k :: 0 <= k < |Lines(stdout)| ==> !IsNormLine(Lines(stdout)[k]))
    ensures r.Ok? && r.value.norm.Some? ==>
      NormToken(stdout).Ok? && NormToken(stdout).value.Some? && parseF64(NormToken(stdout).value.value) == r.value.norm
    ensures ScoreToken(stdout).Some? && parseF64(ScoreToken(stdout).value).Some? ==>
      var norm := NormToken(stdout);
      && (norm.Err? ==> r == Err(norm.error))
      && (norm.Ok? && norm.value.Some? && parseF64(norm.value.value).None? ==> r == Err(NormNotNumeric(norm.value.value)))
      && (r.Ok? <==> norm.Ok? && (norm.value.None? || parseF64(norm.value.value).Some?))
  {
    match ScoreToken(stdout)
    case None => Err(NoScoreLine)
    case Some(scoreToken) =>
      match parseF64(scoreToken)
      case None => Err(ScoreNotNumeric(scoreToken))
      case Some(score) =>
        match NormToken(stdout)
        case Err(e) => Err(e)
        case Ok(None) => Ok(ScoreSample(score, None))
        case Ok(Some(normToken)) =>
          match parseF64(normToken)
          case None => Err(NormNotNumeric(normToken))
          case Some(norm) => Ok(ScoreSample(score, Some(norm)))
  }
}
