/** Scoring options of the alignment module: the module-level `default`
    dictionary and the shallow merge `{**default, **kwargs}`. */
module Scoring {

  /** The three options the alignment recurrence reads. */
  datatype Scores = Scores(matchScore: int, mismatchScore: int, gap: int)

  /** The module-level defaults, as a keyword dictionary. */
  const DefaultOptions: map<string, int> := map["match" := 1, "mismatch" := -1, "gap" := -2]

  /** The scoring used when the caller passes no keyword arguments. */
  const Default: Scores := Scores(1, -1, -2)

  /** The effective scoring after `{**default, **kwargs}`: every key the caller
      supplies overrides its default, every omitted key keeps it, and keys
      other than the three recognised ones are carried along but never read. */
  function Merge(kwargs: map<string, int>): (sc: Scores)
    ensures sc.matchScore == (if "match" in kwargs then kwargs["match"] else Default.matchScore)
    ensures sc.mismatchScore == (if "mismatch" in kwargs then kwargs["mismatch"] else Default.mismatchScore)
    ensures sc.gap == (if "gap" in kwargs then kwargs["gap"] else Default.gap)
  {
    var merged := DefaultOptions + kwargs;
    Scores(merged["match"], merged["mismatch"], merged["gap"])
  }

  /** Calling without keyword arguments scores with the defaults, and only the
      three recognised keys influence the result. */
  lemma MergeDefaults(kwargs: map<string, int>, extra: map<string, int>)
    requires forall k :: k in extra ==> k != "match" && k != "mismatch" && k != "gap"
    ensures Merge(map[]) == Default
    ensures Merge(kwargs + extra) == Merge(kwargs)
  {
  }

  /** Substitution score for aligning symbol `x` of one sequence against
      symbol `y` of the other. */
  function Substitution(sc: Scores, x: char, y: char): int {
    if x == y then sc.matchScore else sc.mismatchScore
  }
}
