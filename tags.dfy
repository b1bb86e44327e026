/**
  The tag field of the edit dialogs and the colour field check. Tags are typed as one line
  separated by semicolons (`work; reading;`). They are stored as a list of trimmed,
  non-empty strings at most 50 long, and shown again in the same form. Length is
  JavaScript's `length`: UTF-16 code units, not characters.
 */
module Tags {
  import opened Wrappers
  import opened Strings

  /** The longest tag the dialogs accept. */
  const MaxTagLength: nat := 50

  /** The message for an empty tag between two semicolons. */
  const EmptyTagError: string := "Empty tags are not allowed. " + "Remove extra semicolons " + "or add content between them."

  /** The message for a tag longer than `MaxTagLength`. */
  function TooLongError(tag: string): string {
    "Tag \"" + tag + "\" is too long. Maximum length is 50 characters."
  }

  /** `!tagInput || !tagInput.trim()`: nothing but whitespace was typed. */
  predicate NothingTyped(input: string) {
    input == "" || Trim(input) == ""
  }

  /** `parseTagsFromInput`: split on ';', trim each piece and drop the empty ones. */
  function ParseTags(input: string): seq<string> {
    if NothingTyped(input) then [] else DropEmpty(TrimAll(Split(input, ';')))
  }

  /** A well-formed stored tag: trimmed, non-empty and free of the separator. */
  predicate IsTag(t: string) {
    t != "" && IsTrimmed(t) && ';' !in t
  }

  /** Trimming keeps only characters of the original. */
  lemma TrimKeepsChars(s: string)
    ensures forall c :: c in Trim(s) ==> c in s
  {
    var t := Trim(s);
    TrimIsSlice(s);
    var i :| BlankAround(s, t, i);
    var j := i + |t|;
    assert t == s[i..j];
    forall c | c in t
      ensures c in s
    {
      SliceKeepsChars(s, i, j, c);
    }
  }

  /** A character of a slice is a character of the whole. */
  lemma SliceKeepsChars(s: string, i: nat, j: nat, c: char)
    requires i <= j <= |s| && c in s[i..j]
    ensures c in s
  {
    var k :| 0 <= k < j - i && s[i..j][k] == c;
    assert s[i + k] == c;
  }

  /** Every parsed tag is well formed. */
  lemma ParsedTagsAreTags(input: string)
    ensures forall i :: 0 <= i < |ParseTags(input)| ==> IsTag(ParseTags(input)[i])
  {
    if !NothingTyped(input) {
      var parts := Split(input, ';');
      var trimmed := TrimAll(parts);
      var tags := DropEmpty(trimmed);
      assert tags == ParseTags(input);
      forall i | 0 <= i < |tags|
        ensures IsTag(tags[i])
      {
        var j :| 0 <= j < |trimmed| && trimmed[j] == tags[i];
        TrimKeepsChars(parts[j]);
        assert ';' !in parts[j];
      }
    }
  }

  /** The first tag the validation loop rejects, with its message; `None` when all pass. */
  function TagError(tags: seq<string>): Option<string> {
    if tags == [] then None
    else if |tags[0]| == 0 then Some(EmptyTagError)
    else if Utf16Length(tags[0]) > MaxTagLength then Some(TooLongError(tags[0]))
    else TagError(tags[1..])
  }

  /** The outcome of `validateTagInput`: `{valid: true, tags}` or `{valid: false, error}`. */
  datatype TagCheck = Valid(tags: seq<string>) | Invalid(error: string)

  /** What `validateTagInput` answers: parse the trimmed input, then report the first tag the loop rejects. */
  function TagValidation(input: string): TagCheck {
    if NothingTyped(input) then Valid([])
    else
      var tags := ParseTags(Trim(input));
      match TagError(tags)
      case None => Valid(tags)
      case Some(e) => Invalid(e)
  }

  /** `validateTagInput`: the loop over the parsed tags, returning at the first one rejected. */
  method ValidateTagInput(tagInput: string) returns (result: TagCheck)
    ensures result == TagValidation(tagInput)
  {
    if NothingTyped(tagInput) {
      return Valid([]);
    }
    var trimmedInput := Trim(tagInput);
    var tags := ParseTags(trimmedInput);
    for i := 0 to |tags|
      invariant TagError(tags[i..]) == TagError(tags)
    {
      var tag := tags[i];
      if |tag| == 0 {
        return Invalid(EmptyTagError);
      }
      if Utf16Length(tag) > MaxTagLength {
        return Invalid(TooLongError(tag));
      }
      assert tags[i..][1..] == tags[i + 1..];
    }
    return Valid(tags);
  }

  /** `tags[i]` is the first tag longer than `MaxTagLength`. */
  predicate FirstLong(tags: seq<string>, i: int) {
    0 <= i < |tags| && Utf16Length(tags[i]) > MaxTagLength && forall j :: 0 <= j < i ==> Utf16Length(tags[j]) <= MaxTagLength
  }

  /** Some tag is longer than `MaxTagLength`. */
  predicate SomeLong(tags: seq<string>) {
    exists i :: 0 <= i < |tags| && Utf16Length(tags[i]) > MaxTagLength
  }

  /** Over non-empty tags, the loop fails exactly when some tag is too long, and names the first such tag. */
  lemma {:induction false} TagErrorFindsFirstLong(tags: seq<string>)
    requires forall i :: 0 <= i < |tags| ==> tags[i] != ""
    ensures TagError(tags).Some? <==> SomeLong(tags)
    ensures TagError(tags).Some? ==> exists i :: FirstLong(tags, i) && TagError(tags).value == TooLongError(tags[i])
  {
    if tags == [] {
      return;
    }
    if Utf16Length(tags[0]) > MaxTagLength {
      assert FirstLong(tags, 0);
      return;
    }
    var rest := tags[1..];
    TagErrorFindsFirstLong(rest);
    assert TagError(tags) == TagError(rest);
    LongInTail(tags);
    if TagError(rest).Some? {
      var i :| FirstLong(rest, i) && TagError(rest).value == TooLongError(rest[i]);
      FirstLongInTail(tags, i);
    }
  }

  /** When the first tag is short enough, a long tag is one of the others. */
  lemma LongInTail(tags: seq<string>)
    requires tags != [] && Utf16Length(tags[0]) <= MaxTagLength
    ensures SomeLong(tags) <==> SomeLong(tags[1..])
  {
    var rest := tags[1..];
    if SomeLong(tags) {
      var i :| 0 <= i < |tags| && Utf16Length(tags[i]) > MaxTagLength;
      assert rest[i - 1] == tags[i];
    }
    if SomeLong(rest) {
      var i :| 0 <= i < |rest| && Utf16Length(rest[i]) > MaxTagLength;
      assert tags[i + 1] == rest[i];
    }
  }

  /** When the first tag is short enough, the first long tag of the others is the first long tag. */
  lemma FirstLongInTail(tags: seq<string>, i: nat)
    requires tags != [] && Utf16Length(tags[0]) <= MaxTagLength && FirstLong(tags[1..], i)
    ensures FirstLong(tags, i + 1) && tags[i + 1] == tags[1..][i]
  {
    var rest := tags[1..];
    forall j | 0 <= j < i + 1
      ensures Utf16Length(tags[j]) <= MaxTagLength
    {
      if j > 0 {
        assert tags[j] == rest[j - 1];
      }
    }
  }

  /** A blank input is valid and has no tags. */
  lemma ValidateNothingTyped(input: string)
    requires NothingTyped(input)
    ensures TagValidation(input) == Valid([])
  {
  }

  /** Typed input is rejected exactly when one of its tags is longer than `MaxTagLength`. */
  lemma ValidateRejectsOnlyLongTags(input: string)
    requires !NothingTyped(input)
    ensures TagValidation(input).Invalid? <==> SomeLong(ParseTags(Trim(input)))
  {
    ParsedTagsAreTags(Trim(input));
    TagErrorFindsFirstLong(ParseTags(Trim(input)));
  }

  /** Accepted tags are the parsed tags, each well formed and short enough. */
  lemma ValidateAcceptsTags(input: string)
    requires TagValidation(input).Valid?
    ensures var tags := TagValidation(input).tags;
      forall i :: 0 <= i < |tags| ==> IsTag(tags[i]) && Utf16Length(tags[i]) <= MaxTagLength
  {
    if !NothingTyped(input) {
      ParsedTagsAreTags(Trim(input));
      TagErrorFindsFirstLong(ParseTags(Trim(input)));
    }
  }

  /** A rejection names the first long tag; the empty-tag message is never produced. */
  lemma ValidateNamesFirstLongTag(input: string)
    requires TagValidation(input).Invalid?
    ensures exists i ::
      FirstLong(ParseTags(Trim(input)), i) && TagValidation(input).error == TooLongError(ParseTags(Trim(input))[i])
    ensures TagValidation(input).error != EmptyTagError
  {
    var tags := ParseTags(Trim(input));
    ParsedTagsAreTags(Trim(input));
    TagErrorFindsFirstLong(tags);
    var i :| FirstLong(tags, i) && TagError(tags).value == TooLongError(tags[i]);
    TooLongIsNotEmpty(tags[i]);
  }

  /** Typing one well-formed tag parses to just that tag. */
  lemma SingleTagParses(t: string)
    requires IsTag(t)
    ensures !NothingTyped(t) && Trim(t) == t && ParseTags(t) == [t]
  {
    TrimOfTrimmed(t);
    SplitJoin([t], ';');
    assert Join([t], [';']) == t;
    assert TrimAll([t]) == [t];
  }

  /** One well-formed tag is rejected exactly when it is longer than the limit. */
  lemma SingleTagValidation(t: string)
    requires IsTag(t)
    ensures TagValidation(t) == if Utf16Length(t) > MaxTagLength then Invalid(TooLongError(t)) else Valid([t])
  {
    SingleTagParses(t);
    assert [t][1..] == [];
    assert TagError([t]) == if Utf16Length(t) > MaxTagLength then Some(TooLongError(t)) else None;
  }

  /**
    A tag of 26 characters beyond U+FFFF (emoji, say) is 52 code units long, and the dialog
    rejects it although it has fewer than 50 characters.
   */
  lemma WideTagRejected(t: string)
    requires IsTag(t) && |t| == 26 && forall i :: 0 <= i < |t| ==> t[i] as int > 0xFFFF
    ensures TagValidation(t) == Invalid(TooLongError(t))
  {
    Utf16LengthOfAstral(t);
    SingleTagValidation(t);
  }

  /** A tag of 50 characters of the Basic Multilingual Plane is exactly at the limit and is accepted. */
  lemma FiftyCharacterTagAccepted(t: string)
    requires IsTag(t) && |t| == 50 && forall i :: 0 <= i < |t| ==> t[i] as int <= 0xFFFF
    ensures TagValidation(t) == Valid([t])
  {
    Utf16LengthOfBmp(t);
    SingleTagValidation(t);
  }

  /** The two messages differ, whatever the tag. */
  lemma TooLongIsNotEmpty(tag: string)
    ensures TooLongError(tag) != EmptyTagError
  {
    assert TooLongError(tag)[0] == 'T' && EmptyTagError[0] == 'E';
  }

  /** `formatTagsForDisplay`: the tags joined by "; ", with a closing ";"; no tags show as "". */
  function FormatTags(tags: seq<string>): string {
    if |tags| == 0 then "" else Join(tags, "; ") + ";"
  }

  /** The pieces between semicolons of a formatted list: every tag after the first keeps its leading space. */
  function Spaced(tags: seq<string>): (r: seq<string>)
    requires |tags| >= 1
    ensures |r| == |tags| && r[0] == tags[0] && forall i :: 1 <= i < |tags| ==> r[i] == " " + tags[i]
  {
    [tags[0]] + seq(|tags| - 1, i requires 0 <= i < |tags| - 1 => " " + tags[i + 1])
  }

  /** Putting `p` in front of the first piece puts it in front of the joined string. */
  lemma JoinPrefixHead(ts: seq<string>, p: string, sep: string)
    requires |ts| >= 1
    ensures Join([p + ts[0]] + ts[1..], sep) == p + Join(ts, sep)
  {
    var l := [p + ts[0]] + ts[1..];
    if |ts| > 1 {
      assert l[1..] == ts[1..];
      assert Join(l, sep) == (p + ts[0]) + sep + Join(ts[1..], sep);
      assert Join(ts, sep) == ts[0] + sep + Join(ts[1..], sep);
    }
  }

  /** Joining with "; " is joining the spaced pieces with ";". */
  lemma {:induction false} JoinSpaced(tags: seq<string>)
    requires |tags| >= 1
    ensures Join(tags, "; ") == Join(Spaced(tags), ";")
  {
    if |tags| > 1 {
      var rest := tags[1..];
      JoinSpaced(rest);
      var sp, spRest := Spaced(tags), Spaced(rest);
      assert sp[1..] == [" " + spRest[0]] + spRest[1..];
      JoinPrefixHead(spRest, " ", ";");
      var j := Join(spRest, ";");
      assert Join(sp[1..], ";") == " " + j;
      assert Join(tags, "; ") == tags[0] + "; " + j;
      assert Join(sp, ";") == tags[0] + ";" + (" " + j);
    }
  }

  /** A trimmed, non-empty tag with one space in front trims back to itself. */
  lemma TrimSpaced(t: string)
    requires t != "" && IsTrimmed(t)
    ensures Trim(" " + t) == t
  {
    assert (" " + t)[1..] == t;
    assert TrimStart(" " + t) == t;
    TrimOfTrimmed(t);
  }

  /** What `ParseTags` does to the pieces of a formatted list. */
  lemma {:induction false} DropEmptyTrimSpaced(tags: seq<string>)
    requires |tags| >= 1 && forall i :: 0 <= i < |tags| ==> IsTag(tags[i])
    ensures DropEmpty(TrimAll(Spaced(tags) + [""])) == tags
  {
    var parts := Spaced(tags) + [""];
    var trimmed := TrimAll(parts);
    forall i | 0 <= i < |tags|
      ensures trimmed[i] == tags[i]
    {
      if i == 0 {
        TrimOfTrimmed(tags[0]);
      } else {
        TrimSpaced(tags[i]);
      }
    }
    assert Trim("") == "";
    assert trimmed == tags + [""];
    DropEmptyKeepsTags(tags);
  }

  /** Dropping the empty pieces of non-empty tags followed by one empty piece gives the tags. */
  lemma {:induction false} DropEmptyKeepsTags(tags: seq<string>)
    requires forall i :: 0 <= i < |tags| ==> tags[i] != ""
    ensures DropEmpty(tags + [""]) == tags
  {
    DropEmptyAppend(tags, [""]);
    DropEmptyKeepsNonEmpty(tags);
  }

  /** The formatted list of well-formed tags is split back into the spaced pieces and a trailing "". */
  lemma FormatSplits(tags: seq<string>)
    requires |tags| > 0 && forall i :: 0 <= i < |tags| ==> IsTag(tags[i])
    ensures Split(FormatTags(tags), ';') == Spaced(tags) + [""]
  {
    JoinSpaced(tags);
    JoinSnocEmpty(Spaced(tags), ";");
    var pieces := Spaced(tags) + [""];
    assert FormatTags(tags) == Join(pieces, [';']);
    forall i | 0 <= i < |pieces|
      ensures ';' !in pieces[i]
    {
    }
    SplitJoin(pieces, ';');
  }

  /** The formatted list of well-formed tags starts with the first tag's first character, so it is not blank. */
  lemma FormatNotBlank(tags: seq<string>)
    requires |tags| > 0 && IsTag(tags[0])
    ensures !NothingTyped(FormatTags(tags))
  {
    var text := FormatTags(tags);
    assert text[0] == tags[0][0] && !IsWhitespace(text[0]);
    TrimEmptyIffBlank(text);
  }

  /** Showing well-formed tags and parsing what is shown gives the same tags back. */
  lemma FormatThenParse(tags: seq<string>)
    requires forall i :: 0 <= i < |tags| ==> IsTag(tags[i])
    ensures ParseTags(FormatTags(tags)) == tags
  {
    if |tags| > 0 {
      var text := FormatTags(tags);
      FormatNotBlank(tags);
      FormatSplits(tags);
      DropEmptyTrimSpaced(tags);
      assert ParseTags(text) == DropEmpty(TrimAll(Spaced(tags) + [""]));
    }
  }

  // ---------------------------------------------------------------------------
  // Colours
  // ---------------------------------------------------------------------------

  /** `[0-9A-F]` under the case-insensitive flag. */
  predicate IsHexDigit(c: char) {
    ('0' <= c <= '9') || ('A' <= c <= 'F') || ('a' <= c <= 'f')
  }

  /** `isValidHexColor`: `/^#[0-9A-F]{6}$/i`, a '#' and exactly six hex digits. */
  predicate IsValidHexColor(s: string) {
    |s| == 7 && s[0] == '#' && forall i :: 1 <= i < 7 ==> IsHexDigit(s[i])
  }

  /** The check ignores letter case. */
  lemma HexColorIgnoresCase(s: string)
    ensures IsValidHexColor(Lower(s)) <==> IsValidHexColor(s)
  {
  }
}
