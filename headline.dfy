/** Headline clean-up: a news title usually ends in " - Source", and the
    fetcher keeps only the text before the first dash. */
module Headline {

  import opened Strings

  /** `get_text_before_dash`: the prefix up to the first `-`, or the whole
      title when it has none. */
  function TextBeforeDash(text: string): (r: string)
    ensures r <= text
    ensures '-' !in r
    ensures '-' !in text ==> r == text
    ensures '-' in text ==> |r| < |text| && text[|r|] == '-'
  {
    if '-' in text then Split(text, '-')[0] else text
  }

  /** Cutting a second time changes nothing. */
  lemma TextBeforeDashIdempotent(text: string)
    ensures TextBeforeDash(TextBeforeDash(text)) == TextBeforeDash(text)
  {
  }

  /** The result is determined by where the first dash is: it is the
      longest dash-free prefix. */
  lemma {:induction false} TextBeforeDashIsFirstDash(text: string, k: nat)
    requires k < |text| && text[k] == '-'
    requires forall i :: 0 <= i < k ==> text[i] != '-'
    ensures TextBeforeDash(text) == text[..k]
  {
  }

  /** A title with a source suffix and one without. */
  lemma TextBeforeDashExamples()
    ensures TextBeforeDash("Title - Source") == "Title "
    ensures TextBeforeDash("NoDash") == "NoDash"
  {
    TextBeforeDashIsFirstDash("Title - Source", 6);
  }
}
