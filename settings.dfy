/** The one setting of the matching policy that the cascade reads. */
module Settings {

  /** Confidence at or above which a decision counts as a match. */
  const THRESHOLD: int := 85
}
