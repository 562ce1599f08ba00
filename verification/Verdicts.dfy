/** What a claims check concludes: the document is right, it is wrong, or
    nobody could tell. */
module Verdicts {
  datatype Verdict = Match | Mismatch | Unknown
}
