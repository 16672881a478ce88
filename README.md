# RepoSense `@@author` annotations, modelled in Dafny

RepoSense attributes lines of code to authors. Its `AnnotatorAnalyzer`
lets a file override that attribution with comment lines such as
`// @@author alice 70 bob 30`. Such a line opens a *text block*. The block
collects the lines that follow and ends at an end tag (`// @@author` with
nothing after it). At the end, every block's lines are moved out of the
file's ordinary lines, and the closed blocks are appended to the file with
the authors and weights of their opening line.

The project models that scanner in six modules:

- `Wrappers` (`strings.dfy`) holds `Option`, which stands for both Java's
  `null` and `Optional`.
- `Strings` (`strings.dfy`) covers the Java string operations the scanner
  relies on: `trim`, `indexOf`/`contains`, and `split` with a literal
  separator. The last one includes Java's rule that trailing empty pieces
  are dropped.
- `CommentFormat` (`comment_format.dfy`) covers `COMMENT_FORMATS`, the
  anchored patterns that `generateCommentRegex` builds,
  `checkValidCommentLine` and `extractAuthorsParameters`. Each pattern is
  written as a predicate that reads the line from the left. The project
  builds no regular-expression engine.
- `Authors` (`authors.dfy`) covers the author and the author configuration:
  the map from names to authors, `addAuthor`, and `hasAuthorConfigFile`.
- `AuthorParse` (`author_parse.dfy`) covers `findAuthorsInLine`:
  - the `matcher.find()` scan for `name digits` groups;
  - splitting each group on a space;
  - registering unknown names;
  - the weights;
  - the fallbacks to `{UNKNOWN_AUTHOR: 1}`;
  - the `ArrayIndexOutOfBoundsException` path.

  The function `FindAuthors` is the specification. The method
  `FindAuthorsInLine` keeps the source's `while` loop and is proved equal to
  it.
- `Annotator` (`annotator.dfy`) covers `aggregateAnnotationAuthorInfo`:
  - `FileInfo` is a class whose lines and blocks are updated in place.
  - The `for` loop is kept as a method.
  - The method is proved equal to a functional scan, `Scan`/`Step`.
  - Lemmas about `Scan` describe the blocks that are added and the lines
    that are removed, in both directions: every added block has the shape
    of an opening tag, untagged lines and an end tag, and every such span
    in the file is added; every removed line belongs to some block, and
    every opening tag line and the lines of its block are removed.

The class comment at `AnnotatorAnalyzer.java:15-22` says that a line not in
the form `COMMENT_SYMBOL @@author ONE_STRING_WITH_NO_SPACE` is "ignored and
treated as normal lines", and that a valid git id after the tag attributes
the code to that author. The code differs from that description, and from
what a reader of the tag syntax would expect, in the places below. The
model follows the code:

- An end tag with no block open (`// @@author` on its own) opens a block
  attributed to `{UNKNOWN_AUTHOR: 1}` instead of being ignored. This is
  `FindAuthorsOutcome`: with no block open, a map always comes back.
- `// @@author ` with trailing whitespace is not an end tag. The split keeps
  a piece `" "`, which trims to `""`, which is not `null`. So inside a block
  it opens a new `{UNKNOWN_AUTHOR: 1}` block (`SpaceAfterTagOpensBlock`).
- A second opening tag while a block is open replaces that block. The
  replaced block is never added to the file, but its lines are still removed
  from it (`RemovedLines`).
- A block still open after the last line is never added, and its lines are
  removed too (`RemovedLines`).
- A line that contains `@@author` but matches none of the five comment
  patterns is skipped. It is neither a block line nor a tag, and it stays in
  the file (`StrayTagLineStays`). Unlike a normal line, it does not join an
  open block.
- A group whose name is followed by whitespace other than a single space, or
  by no digits, makes `split(" ")[1]` throw. The handler then treats the line
  as an end tag (`GroupSplit`, `FindAuthorsOutcome`). As a consequence, the
  default weight `"100"` is never used.

## Model

| member | source | states |
|---|---|---|
| Strings.Trim | src/main/java/reposense/authorship/analyzer/AnnotatorAnalyzer.java:182 | the result starts and ends with a character above U+0020 (or is empty), like Java's `trim` |
| Strings.TrimIsSegment | src/main/java/reposense/authorship/analyzer/AnnotatorAnalyzer.java:189 | `trim` returns a contiguous piece of its input, the one that starts just after the leading characters ≤ U+0020 |
| Strings.TrimTrailingChars | src/main/java/reposense/authorship/analyzer/AnnotatorAnalyzer.java:184 | every character after that piece is ≤ U+0020, so `trim` only cuts such characters at the two ends |
| Strings.IndexOf | src/main/java/reposense/authorship/analyzer/AnnotatorAnalyzer.java:59 | the result is an occurrence at or after `from` with none before it; `None` exactly when there is no occurrence from `from` on |
| Strings.Contains | src/main/java/reposense/authorship/analyzer/AnnotatorAnalyzer.java:59 | `lineContent.contains("@@author")`, defined as `indexOf` finding an occurrence; `Strings.ContainsMeaning` pins it down |
| Strings.ContainsMeaning | src/main/java/reposense/authorship/analyzer/AnnotatorAnalyzer.java:59 | `contains` holds exactly when the separator occurs at some position of the text |
| Strings.RawSplit | src/main/java/reposense/authorship/analyzer/AnnotatorAnalyzer.java:172 | the pieces of the text around every occurrence of the separator, left to right without overlap; there is always at least one piece (`Strings.RawSplitJoin` and `Strings.RawSplitPiecesLackSeparator` are its partners) |
| Strings.RawSplitJoin | src/main/java/reposense/authorship/analyzer/AnnotatorAnalyzer.java:172 | joining the raw pieces back with the separator gives the original text, so the split loses nothing |
| Strings.UpToLacksSeparator | src/main/java/reposense/authorship/analyzer/AnnotatorAnalyzer.java:172 | the text before the first occurrence of the separator does not contain it |
| Strings.RawSplitPiecesLackSeparator | src/main/java/reposense/authorship/analyzer/AnnotatorAnalyzer.java:184 | no raw piece contains the separator, so the pieces are cut at every occurrence |
| Strings.DropTrailingEmpty | src/main/java/reposense/authorship/analyzer/AnnotatorAnalyzer.java:172 | the result is a prefix of the pieces that does not end in an empty piece, and every piece it drops is empty |
| Strings.JavaSplit | src/main/java/reposense/authorship/analyzer/AnnotatorAnalyzer.java:132 | Java's `split` on a literal separator: a prefix of the raw pieces, every piece it drops is empty, and a text without the separator splits into itself |
| Strings.SplitAtFirst | src/main/java/reposense/authorship/analyzer/AnnotatorAnalyzer.java:172 | when `a` lacks the separator's first character, the first occurrence in `a + sep + b` is right after `a` and the split cuts `a` off there |
| Strings.SplitHasSecondPiece | src/main/java/reposense/authorship/analyzer/AnnotatorAnalyzer.java:172-176 | `line.split("@@author")` has two pieces or more exactly when the tag occurs and what follows it is not just further tags; the second piece is the text between the first and the second tag |
| Strings.SplitFirstPiece | src/main/java/reposense/authorship/analyzer/AnnotatorAnalyzer.java:184-188 | splitting on an end marker gives no piece exactly when the text is non-empty and nothing but markers; otherwise the first piece is the text before the first marker |
| Strings.SplitWithoutSeparator | src/main/java/reposense/authorship/analyzer/AnnotatorAnalyzer.java:132 | a string without the separator splits into one piece, itself |
| Strings.SplitOnce | src/main/java/reposense/authorship/analyzer/AnnotatorAnalyzer.java:132-134 | `a + " " + b` with no space in `a` or `b` splits into `[a, b]`, or `[a]` when `b` is empty |
| CommentFormat.MatchesCommentPattern | src/main/java/reposense/authorship/analyzer/AnnotatorAnalyzer.java:193-195 | the pattern `generateCommentRegex` builds for a format, read from the left: leading whitespace, the start marker, then `CommentFormat.MatchesAfterStart`; its partners are `CommentFormat.AtMostOneFormat`, `CommentFormat.MatchingLineContainsTag` and `CommentFormat.CheckValidCommentLineFindsFirst` |
| CommentFormat.MatchesAfterStart | src/main/java/reposense/authorship/analyzer/AnnotatorAnalyzer.java:28 | after the start marker: whitespace, then `@@author`, then `CommentFormat.TagTailMatches`; `CommentFormat.MatchingLineContainsTag` shows a match always holds the tag |
| CommentFormat.TagTailMatches | src/main/java/reposense/authorship/analyzer/AnnotatorAnalyzer.java:28 | what may follow the tag: nothing, whitespace first (the `(\s+[^\s]+)*` groups and `[\s]*`), or the format's end marker followed only by whitespace; `Annotator.SpaceAfterTagMatches` and `Annotator.BareTagMatches` exercise it |
| CommentFormat.CheckFromFindsFirst | src/main/java/reposense/authorship/analyzer/AnnotatorAnalyzer.java:203-210 | the loop from index `i` returns -1 exactly when no later pattern matches, and otherwise the first matching index |
| CommentFormat.CheckValidCommentLine | src/main/java/reposense/authorship/analyzer/AnnotatorAnalyzer.java:202-211 | the result is -1 or an index into the five comment formats |
| CommentFormat.CheckValidCommentLineFindsFirst | src/main/java/reposense/authorship/analyzer/AnnotatorAnalyzer.java:202-211 | -1 exactly when none of the patterns of lines 38-44 matches the line, otherwise the least index whose pattern matches |
| CommentFormat.StartMarkersExclusive | src/main/java/reposense/authorship/analyzer/AnnotatorAnalyzer.java:30-36 | no text begins with two different start markers of `CommentFormat.Formats`, the constant that holds `COMMENT_FORMATS` in table order |
| CommentFormat.AtMostOneFormat | src/main/java/reposense/authorship/analyzer/AnnotatorAnalyzer.java:193-195 | no line matches the patterns of two different comment formats |
| CommentFormat.CheckValidCommentLineIsTheMatch | src/main/java/reposense/authorship/analyzer/AnnotatorAnalyzer.java:38-44 | `checkValidCommentLine` returns `i` if and only if pattern `i` matches, so the order of the table does not matter |
| CommentFormat.MatchingLineContainsTag | src/main/java/reposense/authorship/analyzer/AnnotatorAnalyzer.java:59-61 | a line that matches a comment pattern contains `@@author`, so the `contains` test never hides a valid tag line |
| CommentFormat.ExtractAuthorsParameters | src/main/java/reposense/authorship/analyzer/AnnotatorAnalyzer.java:171-191 | a non-`null` result has no leading or trailing character ≤ U+0020 |
| CommentFormat.ExtractAuthorsParametersMeaning | src/main/java/reposense/authorship/analyzer/AnnotatorAnalyzer.java:171-191 | `null` exactly when there is no tag, only tags after the first one, or (for `/*` and `<!--`) only end markers after the trimmed tag text; otherwise the text between the first two tags, trimmed, cut before the first end marker and trimmed again |
| AuthorParse.IsNameUnit | src/main/java/reposense/authorship/analyzer/AnnotatorAnalyzer.java:26 | one unit of the name pattern: `[a-zA-Z0-9]`, or `-` followed by such a character (the look-ahead `-(?=[a-zA-Z0-9])`); `AuthorParse.NameRun` scans maximal runs of it |
| AuthorParse.ValidName | src/main/java/reposense/authorship/analyzer/AnnotatorAnalyzer.java:26 | a GitHub user name: 1 to 39 units, the first alphanumeric; `AuthorParse.MatchAt` shows every match carries one |
| AuthorParse.NameRun | src/main/java/reposense/authorship/analyzer/AnnotatorAnalyzer.java:26 | the longest run of name units (`[a-zA-Z0-9]`, or `-` followed by one) from a position |
| AuthorParse.DigitRun | src/main/java/reposense/authorship/analyzer/AnnotatorAnalyzer.java:26 | the greedy `\d*`: the longest run of digits from a position |
| AuthorParse.MatchesAt | src/main/java/reposense/authorship/analyzer/AnnotatorAnalyzer.java:26 | `REGEX_AUTHOR_NAME_FORMAT` matches at a position: an alphanumeric, a maximal name run of at most 39 characters, then one whitespace character; `AuthorParse.MatchAt` and `AuthorParse.Find` are its partners |
| AuthorParse.MatchAt | src/main/java/reposense/authorship/analyzer/AnnotatorAnalyzer.java:26 | a match is a GitHub-format name of 1 to 39 characters, one whitespace character and a run of digits |
| AuthorParse.MatchEnd | src/main/java/reposense/authorship/analyzer/AnnotatorAnalyzer.java:130 | the match covers exactly the text `group()` returns, and the next search starts after it |
| AuthorParse.Find | src/main/java/reposense/authorship/analyzer/AnnotatorAnalyzer.java:126 | `matcher.find()` reports the first position where the pattern matches, and none when it matches nowhere further on |
| AuthorParse.Matches | src/main/java/reposense/authorship/analyzer/AnnotatorAnalyzer.java:146 | every group the successive `find()` calls report is well formed |
| AuthorParse.ParseInt | src/main/java/reposense/authorship/analyzer/AnnotatorAnalyzer.java:134 | the value of a run of decimal digits is not negative |
| AuthorParse.GroupSplit | src/main/java/reposense/authorship/analyzer/AnnotatorAnalyzer.java:132-134 | `group().split(" ")` has a second piece exactly when the separator is a space and digits follow; the pieces are then the name and the digits, so the `"100"` default is unreachable |
| AuthorParse.Register | src/main/java/reposense/authorship/analyzer/AnnotatorAnalyzer.java:136-138 | `addAuthor` when the name is unknown and there is no configuration file: old entries stay, a new entry can only be the name mapped to an author of that name, and without a configuration file the name is in the map afterwards |
| AuthorParse.Resolve | src/main/java/reposense/authorship/analyzer/AnnotatorAnalyzer.java:140 | `getOrDefault` after registration: the configured author, else a new author of the name without a configuration file, else the unknown author; `AuthorParse.ResolveAfterRegister` pins it down |
| AuthorParse.ResolveAfterRegister | src/main/java/reposense/authorship/analyzer/AnnotatorAnalyzer.java:136-140 | resolving a name is looking it up, defaulting to the unknown author, in the map that registering it gives |
| AuthorParse.GroupStep | src/main/java/reposense/authorship/analyzer/AnnotatorAnalyzer.java:130-146 | one iteration: the loop has thrown exactly when it had already thrown or this group cannot be split, and once thrown nothing changes |
| AuthorParse.GroupScan | src/main/java/reposense/authorship/analyzer/AnnotatorAnalyzer.java:129-147 | the loop over the groups `find()` reports, from an empty map; the `AuthorParse.Scan...` lemmas below state what it computes |
| AuthorParse.ScanThrows | src/main/java/reposense/authorship/analyzer/AnnotatorAnalyzer.java:129-147 | the loop throws exactly when one of the line's groups cannot be split |
| AuthorParse.StaysThrown | src/main/java/reposense/authorship/analyzer/AnnotatorAnalyzer.java:156 | once the loop has thrown, later groups change nothing |
| AuthorParse.ScanAliasesExtend | src/main/java/reposense/authorship/analyzer/AnnotatorAnalyzer.java:136-138 | the alias map only grows: old entries are kept, and a new entry maps a name to a new author of that name, only when there is no configuration file |
| AuthorParse.ScanAliasesFromGroups | src/main/java/reposense/authorship/analyzer/AnnotatorAnalyzer.java:137 | every name the loop adds is the name of one of the line's groups |
| AuthorParse.ScanAliasesRegistered | src/main/java/reposense/authorship/analyzer/AnnotatorAnalyzer.java:136-137 | without a configuration file, every name the loop reached is in the alias map afterwards |
| AuthorParse.ResolveStable | src/main/java/reposense/authorship/analyzer/AnnotatorAnalyzer.java:140 | names registered by `addAuthor` never change what any name resolves to |
| AuthorParse.ScanKeysFromGroups | src/main/java/reposense/authorship/analyzer/AnnotatorAnalyzer.java:140-144 | every author in the loop's map is the resolved author of one of the groups, and it does not ignore the file |
| AuthorParse.ScanKeysOfGroup | src/main/java/reposense/authorship/analyzer/AnnotatorAnalyzer.java:142-143 | when no group throws, the resolved author of every group is in the map unless it ignores the file |
| AuthorParse.ScanKeys | src/main/java/reposense/authorship/analyzer/AnnotatorAnalyzer.java:129-147 | when no group throws, the loop finishes, and the map's keys are exactly the resolved authors of the groups that do not ignore the file |
| AuthorParse.ScanWeights | src/main/java/reposense/authorship/analyzer/AnnotatorAnalyzer.java:134-143 | an author's weight is the value of the digits of the last group that resolves to it (`put` overwrites) |
| AuthorParse.FindAuthors | src/main/java/reposense/authorship/analyzer/AnnotatorAnalyzer.java:110-164 | `findAuthorsInLine` as a value of the extracted parameters, the alias map and whether a block is open; `AuthorParse.FindAuthorsOutcome`, `AuthorParse.FindAuthorsKeys`, `AuthorParse.FindAuthorsWeight` and `AuthorParse.FindAuthorsAliases` state its properties, and `AuthorParse.FindAuthorsInLine` is proved equal to it |
| AuthorParse.FindAuthorsOutcome | src/main/java/reposense/authorship/analyzer/AnnotatorAnalyzer.java:116-163 | with no block open a map always comes back; every returned map is non-empty; `Optional.empty()` comes back exactly when a block is open and the parameters are `null` or a group throws; a map that attributes no named author is `{UNKNOWN_AUTHOR: 1}` |
| AuthorParse.FindAuthorsKeys | src/main/java/reposense/authorship/analyzer/AnnotatorAnalyzer.java:125-154 | when the line names an author who gets into the map, the returned keys are exactly the resolved authors of its groups that do not ignore the file |
| AuthorParse.FindAuthorsWeight | src/main/java/reposense/authorship/analyzer/AnnotatorAnalyzer.java:129-147 | such an author's weight is the value of the digits of the last group that resolves to it |
| AuthorParse.FindAuthorsAliases | src/main/java/reposense/authorship/analyzer/AnnotatorAnalyzer.java:136-140 | the call only adds to the alias map, only names of the line's groups, nothing with a configuration file or `null` parameters, and every reached name without one |
| AuthorParse.FindAuthorsInLine | src/main/java/reposense/authorship/analyzer/AnnotatorAnalyzer.java:110-164 | the method's result and the configuration's new alias map are those of the specification `FindAuthors`, whose properties the lemmas above state |
| Authors.AuthorConfiguration.AddAuthor | src/main/java/reposense/authorship/analyzer/AnnotatorAnalyzer.java:137 | the name now maps to a new author of that name, and no other entry changes |
| Annotator.Without | src/main/java/reposense/authorship/analyzer/AnnotatorAnalyzer.java:101 | removing lines never lengthens the list |
| Annotator.WithoutKeeps | src/main/java/reposense/authorship/analyzer/AnnotatorAnalyzer.java:101 | a line stays in the file exactly when it was there and is not listed for removal |
| Annotator.WithoutConcat | src/main/java/reposense/authorship/analyzer/AnnotatorAnalyzer.java:101 | removal works piecewise, so the lines that stay keep their order |
| Annotator.WithoutAbsent | src/main/java/reposense/authorship/analyzer/AnnotatorAnalyzer.java:101 | removing only lines that are not there leaves the file as it was |
| Annotator.FileInfo.RemoveLines | src/main/java/reposense/authorship/analyzer/AnnotatorAnalyzer.java:101 | the file's lines become the old ones without the listed lines, and its blocks are unchanged |
| Annotator.FileInfo.AddBlocks | src/main/java/reposense/authorship/analyzer/AnnotatorAnalyzer.java:102 | the blocks are appended in order, and the lines are unchanged |
| Annotator.HasTag | src/main/java/reposense/authorship/analyzer/AnnotatorAnalyzer.java:59 | the line's text contains `@@author` (`Strings.Contains`) |
| Annotator.Step | src/main/java/reposense/authorship/analyzer/AnnotatorAnalyzer.java:57-99 | after each line, `foundStartAnnotation` holds exactly when `currentBlock` is not `null` |
| Annotator.CloseBlock | src/main/java/reposense/authorship/analyzer/AnnotatorAnalyzer.java:66-80 | the open block gets the end line number and the end line, the line is listed for removal, the block is added, and no block is open afterwards; `Annotator.CloseBooks`, `Annotator.ShapeClose` and `Annotator.StepCloses` state what it keeps |
| Annotator.OpenBlock | src/main/java/reposense/authorship/analyzer/AnnotatorAnalyzer.java:82-91 | a new block starts at the tag line with its map, the line is listed for removal, and a block is open afterwards; `Annotator.OpenBooks`, `Annotator.ShapeOpen` and `Annotator.StepOpens` state what it keeps |
| Annotator.GrowBlock | src/main/java/reposense/authorship/analyzer/AnnotatorAnalyzer.java:93-98 | the untagged line joins the open block and is listed for removal; `Annotator.GrowBooks`, `Annotator.ShapeGrow` and `Annotator.StepInsideBlock` state what it keeps |
| Annotator.Scan | src/main/java/reposense/authorship/analyzer/AnnotatorAnalyzer.java:54-55 | the same holds from the start, before any line |
| Annotator.StepKeepsBooks | src/main/java/reposense/authorship/analyzer/AnnotatorAnalyzer.java:57-99 | one iteration keeps the bookkeeping: `toRemove` is the lines of the retired blocks followed by those of the open block; `toAdd` is the closed blocks; `toRemove` holds no tag line that matches no format; the alias map only grows |
| Annotator.ScanKeepsBooks | src/main/java/reposense/authorship/analyzer/AnnotatorAnalyzer.java:57-100 | that bookkeeping holds after every prefix of the lines |
| Annotator.StepKeepsShape | src/main/java/reposense/authorship/analyzer/AnnotatorAnalyzer.java:66-91 | one iteration keeps the shape: the open block is its opening tag line followed by the untagged lines since then; each retired block ends at a tag line, and a closed block ends at an end tag; the blocks follow one another in file order |
| Annotator.ScanKeepsShape | src/main/java/reposense/authorship/analyzer/AnnotatorAnalyzer.java:57-100 | that shape holds after every prefix of the lines |
| Annotator.ScanKeepsInvariant | src/main/java/reposense/authorship/analyzer/AnnotatorAnalyzer.java:57-100 | both invariants together hold after every prefix |
| Annotator.Outcome | src/main/java/reposense/authorship/analyzer/AnnotatorAnalyzer.java:100 | when the loop ends, a block is open exactly when `foundStartAnnotation` holds |
| Annotator.AggregateAnnotationAuthorInfo | src/main/java/reposense/authorship/analyzer/AnnotatorAnalyzer.java:49-103 | the file's lines become the old ones without the scan's `toRemove`; its blocks gain the scan's closed blocks in order; the configuration's alias map is the one the scan leaves |
| Annotator.ListsGrow | src/main/java/reposense/authorship/analyzer/AnnotatorAnalyzer.java:57-100 | `toRemove` and `toAdd` only grow: the lists after a prefix of the lines are prefixes of the lists after a longer one |
| Annotator.StepOpens | src/main/java/reposense/authorship/analyzer/AnnotatorAnalyzer.java:82-91 | a tag line answered with a map opens a block holding just that line with that map, lists the line for removal, and adds no block |
| Annotator.StepInsideBlock | src/main/java/reposense/authorship/analyzer/AnnotatorAnalyzer.java:93-98 | inside a block, a line without the tag joins it and is listed for removal; a tag line that matches no format changes nothing |
| Annotator.StepCloses | src/main/java/reposense/authorship/analyzer/AnnotatorAnalyzer.java:66-80 | a tag line answered with nothing, while a block is open, adds exactly that block closed at this line |
| Annotator.StaysOpen | src/main/java/reposense/authorship/analyzer/AnnotatorAnalyzer.java:57-100 | after an opening tag, and with no valid tag line since, the block stays open: it holds the opening line and the untagged lines since, in order, and no block was added meanwhile |
| Annotator.ClosedSpanIsAdded | src/main/java/reposense/authorship/analyzer/AnnotatorAnalyzer.java:66-91 | conversely to `Annotator.AddedBlockShape`: an opening tag line, untagged lines and a later end tag with no valid tag line between always yield that block in the file's added blocks |
| Annotator.OpeningLineRemoved | src/main/java/reposense/authorship/analyzer/AnnotatorAnalyzer.java:82-91 | every tag line for which `findAuthorsInLine` returns a map is removed from the file's lines |
| Annotator.OpenedLinesRemoved | src/main/java/reposense/authorship/analyzer/AnnotatorAnalyzer.java:93-98 | every untagged line after an opening tag line, up to the next valid tag line, is removed from the file's lines |
| Annotator.AddedBlockShape | src/main/java/reposense/authorship/analyzer/AnnotatorAnalyzer.java:66-91 | every added block was opened by a tag line whose map it carries and whose number it starts at; it was closed by a later tag line for which `findAuthorsInLine` returned nothing, and it ends at that line's number; it holds exactly the opening line, the untagged lines between and the end line; no valid tag line lies between |
| Annotator.AddedBlocksInOrder | src/main/java/reposense/authorship/analyzer/AnnotatorAnalyzer.java:75 | blocks are added in file order: an earlier block's end tag comes before a later block's opening line |
| Annotator.RemovedLines | src/main/java/reposense/authorship/analyzer/AnnotatorAnalyzer.java:71-96 | a line is removed exactly when it belongs to a block that was closed, replaced by a later opening tag, or left open at the end |
| Annotator.AddedLinesRemoved | src/main/java/reposense/authorship/analyzer/AnnotatorAnalyzer.java:70-75 | every line of an added block is removed from the file's lines |
| Annotator.StrayTagLineStays | src/main/java/reposense/authorship/analyzer/AnnotatorAnalyzer.java:59-61 | a line that contains the tag but matches no comment format is never removed and joins no block |
| Annotator.UntaggedScanIdle | src/main/java/reposense/authorship/analyzer/AnnotatorAnalyzer.java:93-99 | over lines without the tag and with no block open, the loop changes nothing |
| Annotator.NoAnnotationsNoChange | src/main/java/reposense/authorship/analyzer/AnnotatorAnalyzer.java:57-102 | a file with no `@@author` line keeps every line, gains no block and registers no alias |
| Annotator.SpaceAfterTagMatches | src/main/java/reposense/authorship/analyzer/AnnotatorAnalyzer.java:193-195 | `// @@author ` with a trailing space matches the `//` pattern |
| Annotator.BareTagMatches | src/main/java/reposense/authorship/analyzer/AnnotatorAnalyzer.java:193-195 | `// @@author` matches the `//` pattern |
| Annotator.SpaceAfterTagParameters | src/main/java/reposense/authorship/analyzer/AnnotatorAnalyzer.java:182 | the parameters of `// @@author ` are the empty string, not `null` |
| Annotator.BareTagParameters | src/main/java/reposense/authorship/analyzer/AnnotatorAnalyzer.java:174-175 | the parameters of `// @@author` are `null` |
| Annotator.SpaceAfterTagOpensBlock | src/main/java/reposense/authorship/analyzer/AnnotatorAnalyzer.java:116-154 | inside a block, `// @@author` ends the block, but `// @@author ` is answered with `{UNKNOWN_AUTHOR: 1}` and so opens a new one |

## Left out

- Java's `$` also matches just before a final line terminator. This
  includes U+0085, U+2028 and U+2029, which are not `\s`. A line ending in
  one of these after the tag is therefore not recognised by
  `CommentFormat.MatchesCommentPattern`. Lines are assumed to carry no
  terminator.
- AuthorParse.ParseInt: integers are unbounded. The `NumberFormatException`
  that `Integer.parseInt` throws for a weight above 2^31 - 1 is not caught
  by the source, and is not modelled.
- `Paths.get(fileInfo.getPath())` is modelled as the path string itself.
- `Author.isIgnoringFile` is the parameter `ignores`, because `Author` is
  not part of this model.
- `FileInfo`, `LineInfo`, `TextBlockInfo`, `Author` and
  `AuthorConfiguration` are not part of this model. They are modelled by
  what this file uses of them:
  - lines and blocks are values;
  - `removeLines` takes out every line equal to a listed one, keeping the
    rest in order;
  - `addBlocks` appends;
  - `addAuthor(new Author(name))` maps the name to that author;
  - `hasAuthorConfigFile()` is a constant of the configuration.
- A new `TextBlockInfo`'s end line number before it is set is modelled as
  0.
- Blocks are values, so aliasing of `currentBlock` is not modelled. The
  source drops its only reference when the block closes or is replaced.
- The `HashMap` results are maps, so their iteration order is not
  modelled.
- Annotator.ScanState: `retired` and `openedAt` are bookkeeping that the
  source does not keep. They record which blocks were let go of and where
  the open block began.
- The commented-out calls at lines 72, 76, 88 and 97 are dead code.
- `REGEX_AUTHOR_TAG_FORMAT` and the strings `generateCommentRegex` builds
  are not modelled as text. What they match is given by
  `CommentFormat.MatchesCommentPattern`.
