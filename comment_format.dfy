/**
 * Recognising an `@@author` comment line and cutting out the text after the
 * tag (`checkValidCommentLine`, `generateCommentRegex`,
 * `extractAuthorsParameters` and the `COMMENT_FORMATS` table).
 */
module CommentFormat {
  import opened Wrappers
  import opened Strings

  /** `AUTHOR_TAG`. */
  const AuthorTag: string := "@@author"

  /**
   * How a comment ends: either by whitespace (the table's `\s`, which the
   * extractor treats as "no end marker"), or by a literal marker.
   */
  datatype CommentEnd = WhitespaceEnd | MarkerEnd(marker: Marker)

  /** A literal end marker is never empty (it is a split separator). */
  type Marker = s: string | |s| > 0 witness "*/"

  datatype Format = Format(start: string, end: CommentEnd)

  /** `COMMENT_FORMATS`, in the order `checkValidCommentLine` tries them. */
  const Formats: seq<Format> := [
    Format("//", WhitespaceEnd),
    Format("/*", MarkerEnd("*/")),
    Format("#", WhitespaceEnd),
    Format("<!--", MarkerEnd("-->")),
    Format("%", WhitespaceEnd)
  ]

  /**
   * What the tail `(\s+[^\s]+)*[\s]*(END)?[\s]*$` of the comment pattern
   * accepts after `@@author`: nothing at all, anything that starts with
   * whitespace, or (for a literal end marker) the marker followed only by
   * whitespace.
   */
  predicate TagTailMatches(rest: string, end: CommentEnd) {
    || rest == []
    || IsSpace(rest[0])
    || (end.MarkerEnd? && |end.marker| <= |rest| && rest[..|end.marker|] == end.marker
        && AllSpace(rest[|end.marker|..]))
  }

  /**
   * The anchored pattern built by `generateCommentRegex`,
   * `^[\s]*START[\s]*@@author(\s+[^\s]+)*[\s]*(END)?[\s]*$`, matched from the
   * left: leading whitespace, then the start marker, then the rest. No start
   * marker begins with whitespace, so the leading run is the maximal one.
   */
  predicate MatchesCommentPattern(line: string, format: Format)
    decreases |line|
  {
    if line != [] && IsSpace(line[0]) then MatchesCommentPattern(line[1..], format)
    else StartsWith(line, format.start) && MatchesAfterStart(line[|format.start|..], format.end)
  }

  /**
   * What follows the start marker: `[\s]*@@author` and the tail. The tag does
   * not begin with whitespace, so again the run before it is the maximal one.
   */
  predicate MatchesAfterStart(rest: string, end: CommentEnd)
    decreases |rest|
  {
    if rest != [] && IsSpace(rest[0]) then MatchesAfterStart(rest[1..], end)
    else StartsWith(rest, AuthorTag) && TagTailMatches(rest[|AuthorTag|..], end)
  }

  /** The loop of `checkValidCommentLine` over `formats` from index `i` on. */
  function CheckFrom(line: string, formats: seq<Format>, i: nat): (r: int)
    requires i <= |formats|
    ensures r == -1 || i <= r < |formats|
    decreases |formats| - i
  {
    if i == |formats| then -1
    else if MatchesCommentPattern(line, formats[i]) then i
    else CheckFrom(line, formats, i + 1)
  }

  /** `CheckFrom` finds the first format from `i` on whose pattern matches, or -1 when none does. */
  lemma {:induction false} CheckFromFindsFirst(line: string, formats: seq<Format>, i: nat)
    requires i <= |formats|
    ensures var r := CheckFrom(line, formats, i);
      && (r == -1 <==> forall j :: i <= j < |formats| ==> !MatchesCommentPattern(line, formats[j]))
      && (r >= 0 ==> MatchesCommentPattern(line, formats[r]))
      && (r >= 0 ==> forall j :: i <= j < r ==> !MatchesCommentPattern(line, formats[j]))
    decreases |formats| - i
  {
    if i < |formats| && !MatchesCommentPattern(line, formats[i]) {
      CheckFromFindsFirst(line, formats, i + 1);
    }
  }

  /**
   * `checkValidCommentLine`: the index of the first comment format whose
   * pattern matches the whole line, or -1 when none does.
   */
  function CheckValidCommentLine(line: string): (r: int)
    ensures -1 <= r < |Formats|
  {
    CheckFrom(line, Formats, 0)
  }

  /** `checkValidCommentLine` returns -1 exactly when no pattern matches, and otherwise the least matching index. */
  lemma CheckValidCommentLineFindsFirst(line: string)
    ensures var r := CheckValidCommentLine(line);
      && (r == -1 <==> forall j :: 0 <= j < |Formats| ==> !MatchesCommentPattern(line, Formats[j]))
      && (r >= 0 ==> MatchesCommentPattern(line, Formats[r]))
      && (r >= 0 ==> forall j :: 0 <= j < r ==> !MatchesCommentPattern(line, Formats[j]))
  {
    CheckFromFindsFirst(line, Formats, 0);
  }

  /** Whether `s` begins with `prefix`. */
  predicate StartsWith(s: string, prefix: string) {
    |prefix| <= |s| && s[..|prefix|] == prefix
  }

  /** No text begins with two different start markers. */
  lemma StartMarkersExclusive(a: string, i: nat, j: nat)
    requires i < j < |Formats|
    ensures !(StartsWith(a, Formats[i].start) && StartsWith(a, Formats[j].start))
  {
    var si, sj := Formats[i].start, Formats[j].start;
    assert StartsWith(a, si) ==> a[0] == si[0];
    assert StartsWith(a, sj) ==> a[0] == sj[0];
  }

  /** The five start markers exclude one another: at most one format matches a line. */
  lemma {:induction false} AtMostOneFormat(line: string, i: nat, j: nat)
    requires i < j < |Formats|
    ensures !(MatchesCommentPattern(line, Formats[i]) && MatchesCommentPattern(line, Formats[j]))
    decreases |line|
  {
    if line != [] && IsSpace(line[0]) {
      AtMostOneFormat(line[1..], i, j);
    } else {
      StartMarkersExclusive(line, i, j);
    }
  }

  /** So the format `checkValidCommentLine` reports is the one format the line matches. */
  lemma CheckValidCommentLineIsTheMatch(line: string, i: nat)
    requires i < |Formats|
    ensures CheckValidCommentLine(line) == i <==> MatchesCommentPattern(line, Formats[i])
  {
    var r := CheckValidCommentLine(line);
    CheckValidCommentLineFindsFirst(line);
    if MatchesCommentPattern(line, Formats[i]) && r != i {
      if r < i { AtMostOneFormat(line, r, i); }
    }
  }

  /** Where the tag sits in text that matches the pattern after the start marker. */
  lemma {:induction false} AfterStartFindsTag(rest: string, end: CommentEnd) returns (k: nat)
    requires MatchesAfterStart(rest, end)
    ensures OccursAt(rest, AuthorTag, k)
    decreases |rest|
  {
    if rest != [] && IsSpace(rest[0]) {
      var k' := AfterStartFindsTag(rest[1..], end);
      k := k' + 1;
      OccursInSuffix(rest, AuthorTag, 1, k');
    } else {
      k := 0;
    }
  }

  /** Where the tag sits in a line that matches a comment pattern. */
  lemma {:induction false} PatternFindsTag(line: string, format: Format) returns (k: nat)
    requires MatchesCommentPattern(line, format)
    ensures OccursAt(line, AuthorTag, k)
    decreases |line|
  {
    if line != [] && IsSpace(line[0]) {
      var k' := PatternFindsTag(line[1..], format);
      k := k' + 1;
      OccursInSuffix(line, AuthorTag, 1, k');
    } else {
      var rest := line[|format.start|..];
      var k' := AfterStartFindsTag(rest, format.end);
      k := |format.start| + k';
      OccursInSuffix(line, AuthorTag, |format.start|, k');
    }
  }

  /** A line that matches a comment pattern contains the tag. */
  lemma MatchingLineContainsTag(line: string, format: Format)
    requires MatchesCommentPattern(line, format)
    ensures Contains(line, AuthorTag)
  {
    var k := PatternFindsTag(line, format);
  }

  /** The text between the first and the second `@@author` of `line`. */
  function TagSection(line: string): string
    requires Contains(line, AuthorTag)
  {
    UpTo(After(line, AuthorTag), AuthorTag)
  }

  /**
   * `extractAuthorsParameters`: the trimmed text after the tag (cut before a
   * literal end marker), or `None` for Java's `null`.
   */
  function ExtractAuthorsParameters(line: string, formatIndex: nat): (r: Option<string>)
    requires formatIndex < |Formats|
    ensures r.Some? ==> IsTrimmed(r.value)
  {
    var splitByAuthorTag := JavaSplit(line, AuthorTag);
    if |splitByAuthorTag| < 2 then None
    else
      match Formats[formatIndex].end
      case WhitespaceEnd => Some(Trim(splitByAuthorTag[1]))
      case MarkerEnd(endComment) =>
        var splitByCommentFormat := JavaSplit(Trim(splitByAuthorTag[1]), endComment);
        if |splitByCommentFormat| == 0 then None
        else Some(Trim(splitByCommentFormat[0]))
  }

  /**
   * What `extractAuthorsParameters` returns, without the splits. It is `None`
   * when `line.split("@@author")` has fewer than two pieces (no tag, or
   * nothing but further tags after the first one) or, for a literal end
   * marker, when the trimmed text after the tag is nothing but end markers.
   * Otherwise it is the text between the first and second tag, trimmed, cut
   * before its first end marker and trimmed again.
   */
  lemma ExtractAuthorsParametersMeaning(line: string, formatIndex: nat)
    requires formatIndex < |Formats|
    ensures var r := ExtractAuthorsParameters(line, formatIndex);
      && (r.None? <==>
          || !Contains(line, AuthorTag)
          || Repeats(After(line, AuthorTag), AuthorTag)
          || (Formats[formatIndex].end.MarkerEnd?
              && var t := Trim(TagSection(line));
                 t != [] && Repeats(t, Formats[formatIndex].end.marker)))
      && (r.Some? ==> r.value == match Formats[formatIndex].end
            case WhitespaceEnd => Trim(TagSection(line))
            case MarkerEnd(m) => Trim(UpTo(Trim(TagSection(line)), m)))
  {
    SplitHasSecondPiece(line, AuthorTag);
    if |JavaSplit(line, AuthorTag)| >= 2 && Formats[formatIndex].end.MarkerEnd? {
      var piece := Trim(JavaSplit(line, AuthorTag)[1]);
      SplitFirstPiece(piece, Formats[formatIndex].end.marker);
    }
  }
}
