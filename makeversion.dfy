/**
 * The version normalisation of the makeversion generator: the output of
 * `git describe` is rejected when empty, stripped of carriage returns and
 * line feeds, and given a "-dev" suffix unless it starts with 'v'.
 */
module MakeVersion {
  import opened Wrappers
  import opened GoStd

  /** Why no version is produced. */
  datatype Failure =
    | EmptyOutput       // "git returned empty data", then os.Exit(1)
    | IndexOutOfRange   // the runtime panic of indexing an empty string

  /** The process exit status each failure ends with (a Go runtime panic exits with 2). */
  function ExitCode(f: Failure): int
  {
    match f
    case EmptyOutput => 1
    case IndexOutOfRange => 2
  }

  /** Both strings.ReplaceAll calls: every '\r', then every '\n', removed. */
  function Strip(output: string): (v: string)
    ensures '\r' !in v && '\n' !in v
    ensures forall c :: c != '\r' && c != '\n' ==> multiset(v)[c] == multiset(output)[c]
  {
    var noCr := RemoveAll(output, '\r');
    var v := RemoveAll(noCr, '\n');
    assert multiset(v)['\r'] == multiset(noCr)['\r'] == 0;
    v
  }

  /** Stripping works piecewise and leaves other characters alone, so they keep their order. */
  lemma StripKeepsOrder(a: string, b: string)
    ensures Strip(a + b) == Strip(a) + Strip(b)
    ensures '\r' !in a && '\n' !in a ==> Strip(a) == a
  {
    RemoveAllConcat(a, b, '\r');
    RemoveAllConcat(RemoveAll(a, '\r'), RemoveAll(b, '\r'), '\n');
    if '\r' !in a && '\n' !in a {
      RemoveAllAbsent(a, '\r');
      RemoveAllAbsent(a, '\n');
    }
  }

  /**
   * The normalisation as the generator's main performs it: the emptiness test
   * is made on the raw output, the first-character test on the stripped text,
   * which is empty when the output holds only line breaks.
   */
  function NormalizeAsWritten(output: string): (r: Result<string, Failure>)
    ensures r == Err(EmptyOutput) <==> output == []
    ensures r.Ok? ==> '\r' !in r.value && '\n' !in r.value && Strip(output) <= r.value
  {
    if |output| == 0 then Err(EmptyOutput)
    else
      var version := Strip(output);
      if |version| == 0 then Err(IndexOutOfRange)
      else if version[0] != 'v' then Ok(version + "-dev")
      else Ok(version)
  }

  /** The normalisation with the emptiness test made on the stripped text. */
  function Normalize(output: string): (r: Result<string, Failure>)
    ensures r.Err? <==> Strip(output) == []
    ensures r.Err? ==> r.error == EmptyOutput
    ensures r.Ok? ==> '\r' !in r.value && '\n' !in r.value && Strip(output) <= r.value
  {
    var version := Strip(output);
    if |version| == 0 then Err(EmptyOutput)
    else if version[0] != 'v' then Ok(version + "-dev")
    else Ok(version)
  }

  /**
   * The generator as written panics on output made only of line breaks, such
   * as a lone "\n", and exactly then: the stripped text is empty although the
   * raw output is not.
   */
  lemma AsWrittenPanics(output: string)
    ensures NormalizeAsWritten("\n") == Err(IndexOutOfRange)
    ensures NormalizeAsWritten("\r\n") == Err(IndexOutOfRange)
    ensures NormalizeAsWritten(output) == Err(IndexOutOfRange) <==> output != [] && Strip(output) == []
  {
    assert "\n" == [] + "\n";
    assert Strip("\n") == [];
    assert Strip("\r\n") == [];
  }

  /**
   * The corrected normalisation never panics, rejects with exit code 1 exactly
   * the outputs that strip to nothing (the empty output among them), and
   * otherwise agrees with the generator as written.
   */
  lemma NormalizeCorrected(output: string)
    ensures Normalize(output) != Err(IndexOutOfRange)
    ensures Normalize(output).Err? <==> Strip(output) == []
    ensures Normalize(output).Err? ==> ExitCode(Normalize(output).error) == 1
    ensures output == [] ==> Normalize(output) == NormalizeAsWritten(output) == Err(EmptyOutput)
    ensures Strip(output) != [] ==> Normalize(output) == NormalizeAsWritten(output)
  {
    if output == [] {
      assert Strip(output) == [];
    }
  }

  /**
   * A normalised version holds no '\r' or '\n', starts with the stripped
   * output, and is that text itself when it starts with 'v', that text and
   * "-dev" otherwise.
   */
  lemma NormalizedText(output: string)
    requires Normalize(output).Ok?
    ensures var version := Normalize(output).value;
      var stripped := Strip(output);
      && '\r' !in version && '\n' !in version
      && stripped <= version
      && (stripped[0] == 'v' <==> version == stripped)
      && (stripped[0] != 'v' <==> version == stripped + "-dev")
  {
    var version, stripped := Normalize(output).value, Strip(output);
    if stripped[0] != 'v' {
      assert version == stripped + "-dev";
      assert |version| != |stripped|;
    }
  }

  /**
   * Normalising a normalised version again leaves a 'v' version as it is but
   * appends a second "-dev" to any other: the normalisation is not idempotent.
   */
  lemma NormalizeTwice(output: string)
    requires Normalize(output).Ok?
    ensures var version := Normalize(output).value;
      && (version[0] == 'v' ==> Normalize(version) == Ok(version))
      && (version[0] != 'v' ==> Normalize(version) == Ok(version + "-dev") && version + "-dev" != version)
  {
    var version := Normalize(output).value;
    StripKeepsOrder(version, []);
    assert version + [] == version;
    assert Strip(version) == version;
  }
}
