/** `TextAnalyzer.applyCorrections(to:)` (Utils.swift:49-68): fix the hex
    codes the text recogniser is known to misread, by a fixed table.
 */
module TextAnalyzer {

  /** The replacement table: misread code to the code it stands for. */
  const ReplacementTable: map<string, string> := map[
    "B0" := "BD",
    "BO" := "BD",
    "80" := "BD",
    "8D" := "BD",
    "EG" := "E9",
    "EY" := "E9",
    "IC" := "1C",
    "65" := "55",
    "66" := "55",
    "56" := "55"
  ]

  /** The codes a correction can produce. */
  const Corrected: set<string> := {"BD", "E9", "1C", "55"}

  /** A table key becomes its replacement; any other string is kept. */
  function ApplyCorrections(hexDigit: string): (r: string)
    ensures hexDigit in ReplacementTable ==> r in Corrected
    ensures hexDigit !in ReplacementTable ==> r == hexDigit
    ensures r !in ReplacementTable || r == hexDigit
  {
    if hexDigit in ReplacementTable then ReplacementTable[hexDigit] else hexDigit
  }

  /** The ten corrections one by one, and the codes they produce, which
      pass through unchanged. */
  lemma ApplyCorrectionsPairs()
    ensures ApplyCorrections("B0") == "BD"
    ensures ApplyCorrections("BO") == "BD"
    ensures ApplyCorrections("80") == "BD"
    ensures ApplyCorrections("8D") == "BD"
    ensures ApplyCorrections("EG") == "E9"
    ensures ApplyCorrections("EY") == "E9"
    ensures ApplyCorrections("IC") == "1C"
    ensures ApplyCorrections("65") == "55"
    ensures ApplyCorrections("66") == "55"
    ensures ApplyCorrections("56") == "55"
    ensures ApplyCorrections("BD") == "BD"
    ensures ApplyCorrections("E9") == "E9"
    ensures ApplyCorrections("1C") == "1C"
    ensures ApplyCorrections("55") == "55"
  {
  }

  /** No replacement is itself a misread code. */
  lemma CorrectedAreNotKeys(s: string)
    requires s in Corrected
    ensures s !in ReplacementTable
  {
  }

  /** Correcting twice is correcting once. */
  lemma ApplyCorrectionsIdempotent(hexDigit: string)
    ensures ApplyCorrections(ApplyCorrections(hexDigit)) == ApplyCorrections(hexDigit)
    ensures ApplyCorrections(hexDigit) !in ReplacementTable
  {
    if hexDigit in ReplacementTable {
      CorrectedAreNotKeys(ApplyCorrections(hexDigit));
    }
  }
}
