/** `sanitize_for_directory_name`: turns a page title into a directory name.
    The nine characters that are invalid in file names are replaced by `_`,
    then surrounding whitespace is stripped, then every remaining space
    becomes `_`. */
module Sanitizer {
  import opened Strings

  /** The characters replaced first, in the order the source lists them. */
  const InvalidChars: seq<char> := ['\\', '/', ':', '*', '?', '"', '<', '>', '|']

  /** The title used when the page has no title, or an empty one. */
  const UnknownBook: string := "Unknown_Book"

  /** No character of `s` is one of the nine invalid ones. */
  predicate NoInvalid(s: string) {
    forall k :: 0 <= k < |s| ==> s[k] !in InvalidChars
  }

  /** A directory name as the sanitiser leaves it: no invalid character, no
      space, and no whitespace at either end. */
  predicate Clean(s: string) {
    Trimmed(s) && NoInvalid(s) && forall k :: 0 <= k < |s| ==> s[k] != ' '
  }

  /** First step: every invalid character becomes `_`. */
  function ReplaceInvalid(name: string): (r: string)
    ensures |r| == |name| && NoInvalid(r)
    ensures forall k :: 0 <= k < |name| ==> r[k] == if name[k] in InvalidChars then '_' else name[k]
  {
    ReplaceAny(name, InvalidChars, '_')
  }

  /** No invalid character is whitespace, and neither is `_`: the first step
      leaves whitespace where it is and keeps a trimmed string trimmed. */
  lemma ReplaceInvalidKeepsSpaces(name: string)
    ensures forall k :: 0 <= k < |name| && IsSpace(name[k]) ==> ReplaceInvalid(name)[k] == name[k]
    ensures Trimmed(name) ==> Trimmed(ReplaceInvalid(name))
  {
  }

  /** Stripping keeps a string free of invalid characters. */
  lemma StripNoInvalid(s: string)
    requires NoInvalid(s)
    ensures NoInvalid(Strip(s))
  {
    var lo, hi := StripSlice(s);
    assert forall k :: 0 <= k < |Strip(s)| ==> Strip(s)[k] == s[lo + k];
  }

  /** Last step: every space becomes `_`. Nothing else changes, so a string
      that was trimmed and free of invalid characters ends up clean. */
  function ReplaceSpaces(s: string): (r: string)
    ensures |r| == |s| && forall k :: 0 <= k < |r| ==> r[k] != ' '
    ensures NoInvalid(s) ==> NoInvalid(r)
    ensures Trimmed(s) ==> Trimmed(r)
  {
    ReplaceChar(s, ' ', '_')
  }

  /** What `sanitize_for_directory_name` returns. Its result is clean and
      never longer than its argument. */
  function Sanitize(name: string): (r: string)
    ensures |r| <= |name|
    ensures Clean(r)
  {
    var replaced := ReplaceInvalid(name);
    StripNoInvalid(replaced);
    ReplaceSpaces(Strip(replaced))
  }

  /** The source's loop: `name` is reassigned once per invalid character,
      then stripped and its spaces replaced. */
  method SanitizeForDirectoryName(name: string) returns (r: string)
    ensures r == Sanitize(name)
    ensures Clean(r) && |r| <= |name|
  {
    r := name;
    ReplaceAnyNone(name, '_');
    for i := 0 to |InvalidChars|
      invariant r == ReplaceAny(name, InvalidChars[..i], '_')
    {
      ReplaceAnySnoc(name, InvalidChars[..i], InvalidChars[i], '_');
      assert InvalidChars[..i + 1] == InvalidChars[..i] + [InvalidChars[i]];
      r := ReplaceChar(r, InvalidChars[i], '_');
    }
    assert InvalidChars[..|InvalidChars|] == InvalidChars;
    r := ReplaceChar(Strip(r), ' ', '_');
  }

  /** The clean strings are exactly the ones the sanitiser leaves unchanged. */
  lemma SanitizeFixedPoint(s: string)
    ensures Sanitize(s) == s <==> Clean(s)
  {
    if Clean(s) {
      var replaced := ReplaceAny(s, InvalidChars, '_');
      assert replaced == s;
      assert Strip(replaced) == s;
      assert ReplaceChar(s, ' ', '_') == s;
    }
  }

  /** Sanitising twice is the same as sanitising once. */
  lemma SanitizeIdempotent(s: string)
    ensures Sanitize(Sanitize(s)) == Sanitize(s)
  {
    SanitizeFixedPoint(Sanitize(s));
  }

  /** None of the invalid characters is whitespace, so replacing them before
      or after the strip makes no difference: the sanitiser strips the title
      and replaces all ten characters (the nine and the space) by `_`. */
  lemma SanitizeStripsThenReplaces(s: string)
    ensures Sanitize(s) == ReplaceAny(Strip(s), InvalidChars + [' '], '_')
  {
    StripReplaceInvalid(s);
    ReplaceAnySnoc(Strip(s), InvalidChars, ' ', '_');
  }

  /** The first step and the strip commute. */
  lemma StripReplaceInvalid(s: string)
    ensures Strip(ReplaceInvalid(s)) == ReplaceInvalid(Strip(s))
  {
    var replaced := ReplaceInvalid(s);
    var lo, hi := StripSlice(s);
    ReplaceInvalidKeepsSpaces(s);
    ReplaceInvalidKeepsSpaces(Strip(s));
    ReplaceAnySlice(s, InvalidChars, '_', lo, hi);
    assert replaced[lo..hi] == ReplaceInvalid(Strip(s));
    StripUnique(replaced, lo, hi);
  }

  /** Spaces, by contrast, are replaced only after the strip: surrounding
      spaces disappear instead of turning into underscores. */
  lemma SanitizeDropsSurroundingSpaces(title: string)
    requires title == " a b "
    ensures Sanitize(title) == "a_b"
  {
    var replaced := ReplaceInvalid(title);
    assert replaced == title;
    assert replaced[1..4] == "a b";
    StripUnique(replaced, 1, 4);
    assert Strip(replaced) == "a b";
  }

  /** The worked example: invalid characters first, then the space. */
  lemma SanitizeExample(title: string)
    requires title == "A/B: C"
    ensures Sanitize(title) == "A_B__C"
  {
    var replaced := ReplaceInvalid(title);
    assert replaced == "A_B_ C";
    StripTrimmed(replaced);
  }

  /** The fallback title passes through the sanitiser unchanged. */
  lemma SanitizeUnknownBook(title: string)
    requires title == UnknownBook
    ensures Sanitize(title) == UnknownBook
  {
    assert Clean(title);
    SanitizeFixedPoint(title);
  }
}
