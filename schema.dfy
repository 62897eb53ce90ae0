/** The names of the fields of the analysis the model is asked to return. */
module Schema {

  const JdMatch: string := "JD Match"
  const MissingKeywords: string := "MissingKeywords"
  const MatchingKeywords: string := "MatchingKeywords"
  const ProfileSummary: string := "Profile Summary"
  const ScoreExplanation: string := "ScoreExplanation"

  /** The fields a response must carry, in the order they are checked;
      `ScoreExplanation` is asked for but not required. */
  const RequiredFields: seq<string> := [JdMatch, MissingKeywords, MatchingKeywords, ProfileSummary]
}
