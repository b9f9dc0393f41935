/**
 * A concrete input on which `clean_line` is not idempotent, for any NFKC and
 * lower-casing that agree with the real library calls on the text involved:
 * NFKC maps the fullwidth plus U+FF0B to `+` and leaves ASCII unchanged, and
 * lower-casing leaves text without capital letters unchanged.
 */
module CleanLineWitness {
  import opened Normalize

  /** The deletion and the strip leave the sample line as it is. */
  lemma SampleCore()
    ensures LStripPlusAt(RemoveInvisible("\U{FF0B}ab")) == "\U{FF0B}ab"
  {
    var line := "\U{FF0B}ab";
    assert AllVisible(line);
    RemoveInvisibleKeepsVisible(line);
  }

  /** The deletion and the strip leave "ab" as it is. */
  lemma PlainCore()
    ensures LStripPlusAt(RemoveInvisible("ab")) == "ab"
  {
    var line := "ab";
    assert AllVisible(line);
    RemoveInvisibleKeepsVisible(line);
  }

  /**
   * Cleaning is not idempotent: a fullwidth plus sign in front survives the
   * `+`/`@` strip, becomes `+` under NFKC, and a second pass removes it.
   */
  lemma CleanLineNotIdempotent(u: Unicode)
    requires u.nfkc("\U{FF0B}ab") == "+ab" && u.lower("+ab") == "+ab"
    requires u.nfkc("ab") == "ab" && u.lower("ab") == "ab"
    ensures CleanLine(u, "\U{FF0B}ab") == "+ab"
    ensures CleanLine(u, CleanLine(u, "\U{FF0B}ab")) == "ab"
  {
    SampleCore();
    PlainCore();
    CleanLineIgnoresLeadingMarker(u, '+', "ab");
    assert "+ab" == ['+'] + "ab";
  }
}
