/** The address bar's navigation step (navigate_to_url): the entry's text is
    handed to the engine with "http://" in front unless it already names a
    scheme, i.e. contains "://" anywhere. */
module Address {
  import opened CStrings

  const SchemeSeparator := "://"
  const DefaultScheme := "http://"

  /** The URL that navigate_to_url loads for the entry text `text` (a C
      string, as gtk_entry_get_text returns it). */
  function Normalize(text: string): (url: string)
    ensures Occurs(url, SchemeSeparator)
    ensures !Occurs(text, SchemeSeparator) ==> url == DefaultScheme + text
    ensures Occurs(text, SchemeSeparator) ==> url == text
  {
    if !Contains(text, SchemeSeparator) then
      assert (DefaultScheme + text)[4..7] == SchemeSeparator;
      assert OccursAt(DefaultScheme + text, SchemeSeparator, 4);
      DefaultScheme + text
    else
      text
  }

  /** The prefix is added exactly when the text has no "://". */
  lemma PrefixedIffNoScheme(text: string)
    ensures Normalize(text) == DefaultScheme + text <==> !Occurs(text, SchemeSeparator)
  {
    if Occurs(text, SchemeSeparator) {
      assert |DefaultScheme + text| != |text|;
    }
  }

  /** Navigating to an already normalised address does not prefix it again. */
  lemma NormalizeIdempotent(text: string)
    ensures Normalize(Normalize(text)) == Normalize(text)
  {
  }
}
