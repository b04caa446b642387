/**
 * Validation of the three parsed command-line values and derivation of the
 * output archive's name (CompressCBZ.py:21-27). Parsing itself is not modelled.
 */
module Arguments {
  import opened Wrappers
  import opened PySlice

  /** The one error the source raises (`TypeError`), told apart by its message. */
  datatype ArgumentError = WrongExtension | WrongQuality

  /** The validated run configuration. */
  datatype Settings = Settings(input: string, output: string, quality: int)

  /** `input_filename[:-4] + '_compressed.cbz'`. */
  function DefaultOutputName(input: string): string
  {
    AllButLastN(input, 4) + "_compressed.cbz"
  }

  /**
   * The extension test runs first, then the quality range test; only then is
   * an empty output name replaced by the default one.
   */
  function Validate(input: string, output: string, quality: int): (r: Result<Settings, ArgumentError>)
    ensures r == Failure(WrongExtension) <==> !EndsWith(input, ".cbz")
    ensures r == Failure(WrongQuality) <==> EndsWith(input, ".cbz") && !(1 <= quality <= 100)
    ensures r.Success? <==> EndsWith(input, ".cbz") && 1 <= quality <= 100
    ensures r.Success? ==> r.value.input == input && r.value.quality == quality
    ensures r.Success? && output != "" ==> r.value.output == output
    ensures r.Success? && output == "" ==> r.value.output == DefaultOutputName(input)
  {
    LastNMatchIff(input, ".cbz");
    if LastN(input, 4) != ".cbz" then
      Failure(WrongExtension)
    else if quality < 1 || quality > 100 then
      Failure(WrongQuality)
    else
      Success(Settings(input, if output == "" then DefaultOutputName(input) else output, quality))
  }

  /**
   * For an accepted input name the default output name is the input's stem
   * followed by `_compressed.cbz`: it keeps the archive extension and never
   * coincides with the input name.
   */
  lemma DefaultOutputNameShape(input: string)
    requires EndsWith(input, ".cbz")
    ensures DefaultOutputName(input) == input[..|input| - 4] + "_compressed.cbz"
    ensures EndsWith(DefaultOutputName(input), ".cbz")
    ensures |DefaultOutputName(input)| == |input| + 11
    ensures DefaultOutputName(input) != input
  {
    var d := DefaultOutputName(input);
    assert d[|d| - 4..] == ".cbz";
  }

  /** `--input a.cbz` with no `--output` writes `a_compressed.cbz`. */
  lemma DefaultOutputExample()
    ensures Validate("a.cbz", "", 50) == Success(Settings("a.cbz", "a_compressed.cbz", 50))
  {
    assert LastN("a.cbz", 4) == ".cbz";
    assert AllButLastN("a.cbz", 4) == "a";
    assert DefaultOutputName("a.cbz") == "a" + "_compressed.cbz" == "a_compressed.cbz";
  }

  /** The range ends are inclusive: 0 and 101 are rejected, 1 and 100 accepted. */
  lemma QualityBounds(input: string, output: string)
    requires EndsWith(input, ".cbz")
    ensures Validate(input, output, 0) == Failure(WrongQuality)
    ensures Validate(input, output, 101) == Failure(WrongQuality)
    ensures Validate(input, output, 1).Success? && Validate(input, output, 100).Success?
  {
  }
}
