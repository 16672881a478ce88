/**
 * `aggregateAnnotationAuthorInfo`: the forward scan over a file's lines that
 * opens a block at an `@@author` tag, grows it with the lines that follow,
 * closes it at an end tag, and finally moves the lines of every block out of
 * the file and appends the closed blocks to it. Line numbers in comments
 * refer to `AnnotatorAnalyzer.java`.
 */
module Annotator {
  import opened Wrappers
  import opened Strings
  import opened CommentFormat
  import opened Authors
  import opened AuthorParse

  /** A line of the file: its number and its text. */
  datatype LineInfo = LineInfo(lineNumber: int, content: string)

  /**
   * A block of lines attributed by an annotation: where it starts and ends,
   * its lines, and the authors with their weights.
   */
  datatype TextBlockInfo = TextBlockInfo(
    startLineNumber: int, endLineNumber: int, lines: seq<LineInfo>, contributionMap: map<Author, int>)

  /** `l` with the lines listed in `toRemove` taken out, the rest in order (`removeLines`). */
  function Without(l: seq<LineInfo>, toRemove: seq<LineInfo>): (r: seq<LineInfo>)
    ensures |r| <= |l|
  {
    if l == [] then []
    else Without(l[..|l| - 1], toRemove) + (if l[|l| - 1] in toRemove then [] else [l[|l| - 1]])
  }

  /** A line stays exactly when it was there and is not listed. */
  lemma {:induction false} WithoutKeeps(l: seq<LineInfo>, toRemove: seq<LineInfo>, x: LineInfo)
    ensures x in Without(l, toRemove) <==> x in l && x !in toRemove
    decreases |l|
  {
    if l != [] {
      var l' := l[..|l| - 1];
      WithoutKeeps(l', toRemove, x);
      assert l == l' + [l[|l| - 1]];
    }
  }

  /** Removing lines works piecewise, so the lines that stay keep their relative order. */
  lemma {:induction false} WithoutConcat(a: seq<LineInfo>, b: seq<LineInfo>, toRemove: seq<LineInfo>)
    ensures Without(a + b, toRemove) == Without(a, toRemove) + Without(b, toRemove)
    decreases |b|
  {
    if b == [] {
      assert a + b == a;
    } else {
      var b', x := b[..|b| - 1], b[|b| - 1];
      WithoutConcat(a, b', toRemove);
      var tail := if x in toRemove then [] else [x];
      assert (a + b)[..|a + b| - 1] == a + b';
      assert (a + b)[|a + b| - 1] == x;
      assert Without(a + b, toRemove) == Without(a + b', toRemove) + tail;
      assert Without(b, toRemove) == Without(b', toRemove) + tail;
    }
  }

  /** Removing nothing, or only lines that are not there, leaves the lines as they are. */
  lemma {:induction false} WithoutAbsent(l: seq<LineInfo>, toRemove: seq<LineInfo>)
    requires forall k :: 0 <= k < |l| ==> l[k] !in toRemove
    ensures Without(l, toRemove) == l
    decreases |l|
  {
    if l != [] {
      var l' := l[..|l| - 1];
      assert forall k :: 0 <= k < |l'| ==> l'[k] == l[k];
      WithoutAbsent(l', toRemove);
      assert l == l' + [l[|l| - 1]];
    }
  }

  /**
   * The file being analysed: its path, the lines not claimed by any block,
   * and its blocks.
   */
  class FileInfo {
    const path: string
    var lines: seq<LineInfo>
    var blocks: seq<TextBlockInfo>

    constructor (path: string, lines: seq<LineInfo>)
      ensures this.path == path && this.lines == lines && blocks == []
    {
      this.path := path;
      this.lines := lines;
      blocks := [];
    }

    /** `removeLines`: every listed line leaves the file. */
    method RemoveLines(toRemove: seq<LineInfo>)
      modifies this
      ensures lines == Without(old(lines), toRemove)
      ensures blocks == old(blocks)
    {
      lines := Without(lines, toRemove);
    }

    /** `addBlocks`: the blocks are appended in order. */
    method AddBlocks(toAdd: seq<TextBlockInfo>)
      modifies this
      ensures blocks == old(blocks) + toAdd
      ensures lines == old(lines)
    {
      blocks := blocks + toAdd;
    }
  }

  /** `lineContent.contains("@@author")`. */
  predicate HasTag(line: LineInfo) {
    Contains(line.content, AuthorTag)
  }

  /** A line with the tag that also matches one of the comment formats. */
  predicate IsTagLine(line: LineInfo) {
    HasTag(line) && CheckValidCommentLine(line.content) >= 0
  }

  /**
   * A block the scan has let go of, with the indices of the line that opened
   * it and of the line that ended it: closed by an end tag (and added to the
   * file), or replaced by a later opening tag (and lost).
   */
  datatype RetiredBlock =
    | Closed(block: TextBlockInfo, openedAt: nat, endedAt: nat)
    | Replaced(block: TextBlockInfo, openedAt: nat, endedAt: nat)

  /**
   * The loop's variables after a prefix of the lines, together with the
   * blocks retired so far and the index of the line that opened the current
   * block; these last two are bookkeeping for the properties below, the
   * source does not keep them.
   */
  datatype ScanState = ScanState(
    foundStartAnnotation: bool,
    currentBlock: Option<TextBlockInfo>,
    toRemove: seq<LineInfo>,
    toAdd: seq<TextBlockInfo>,
    aliases: map<string, Author>,
    retired: seq<RetiredBlock>,
    openedAt: nat)

  /** A block is open exactly when `foundStartAnnotation` holds. */
  predicate Consistent(st: ScanState) {
    st.foundStartAnnotation <==> st.currentBlock.Some?
  }

  /**
   * One iteration of the loop (lines 57-99) on the line at index `n`: a tag
   * line that matches a comment format asks `findAuthorsInLine`; an empty
   * answer closes the open block with this line, a map opens a new block
   * here (replacing any open one); a line without the tag joins the open
   * block; a tag line that matches no format is skipped.
   */
  function Step(
    lines: seq<LineInfo>, n: nat, aliases: map<string, Author>, hasAuthorConfigFile: bool,
    filePath: string, ignores: (Author, string) -> bool): (r: ScanState)
    requires n < |lines|
    ensures Consistent(r)
    decreases n, 1
  {
    var st := Scan(lines, n, aliases, hasAuthorConfigFile, filePath, ignores);
    var lineInfo := lines[n];
    if HasTag(lineInfo) then
      var formatIndex := CheckValidCommentLine(lineInfo.content);
      if formatIndex >= 0 then
        var found := FindAuthors(ExtractAuthorsParameters(lineInfo.content, formatIndex), st.aliases,
                                 hasAuthorConfigFile, st.foundStartAnnotation, filePath, ignores);
        match found.authors
        case None =>
          if st.foundStartAnnotation then CloseBlock(st, lineInfo, n, found.aliases)
          else st.(aliases := found.aliases)
        case Some(contributionMap) => OpenBlock(st, lineInfo, n, contributionMap, found.aliases)
      else st
    else if st.foundStartAnnotation then GrowBlock(st, lineInfo)
    else st
  }

  /** The open block ends at the end tag `lineInfo` (at index `n`), which joins it; the block is added. */
  function CloseBlock(st: ScanState, lineInfo: LineInfo, n: nat, aliases: map<string, Author>): (r: ScanState)
    requires Consistent(st) && st.foundStartAnnotation
    ensures Consistent(r)
  {
    var block := st.currentBlock.value.(endLineNumber := lineInfo.lineNumber,
                                        lines := st.currentBlock.value.lines + [lineInfo]);
    ScanState(false, None, st.toRemove + [lineInfo], st.toAdd + [block], aliases,
              st.retired + [Closed(block, st.openedAt, n)], st.openedAt)
  }

  /**
   * A new block opens at `lineInfo` (at index `n`) with the authors' weights;
   * a block that was open is dropped.
   */
  function OpenBlock(
    st: ScanState, lineInfo: LineInfo, n: nat, contributionMap: map<Author, int>,
    aliases: map<string, Author>): (r: ScanState)
    requires Consistent(st)
    ensures Consistent(r)
  {
    ScanState(true, Some(TextBlockInfo(lineInfo.lineNumber, 0, [lineInfo], contributionMap)),
              st.toRemove + [lineInfo], st.toAdd, aliases,
              if st.foundStartAnnotation then st.retired + [Replaced(st.currentBlock.value, st.openedAt, n)]
              else st.retired,
              n)
  }

  /** The untagged `lineInfo` joins the open block. */
  function GrowBlock(st: ScanState, lineInfo: LineInfo): (r: ScanState)
    requires Consistent(st) && st.foundStartAnnotation
    ensures Consistent(r)
  {
    st.(currentBlock := Some(st.currentBlock.value.(lines := st.currentBlock.value.lines + [lineInfo])),
        toRemove := st.toRemove + [lineInfo])
  }

  /** The loop run over the first `n` lines, from the alias map `aliases`. */
  function Scan(
    lines: seq<LineInfo>, n: nat, aliases: map<string, Author>, hasAuthorConfigFile: bool,
    filePath: string, ignores: (Author, string) -> bool): (r: ScanState)
    requires n <= |lines|
    ensures Consistent(r)
    decreases n, 0
  {
    if n == 0 then ScanState(false, None, [], [], aliases, [], 0)
    else Step(lines, n - 1, aliases, hasAuthorConfigFile, filePath, ignores)
  }

  /** What `findAuthorsInLine` returned for the tag line at index `i`. */
  function TagAuthors(
    lines: seq<LineInfo>, i: nat, aliases: map<string, Author>, hasAuthorConfigFile: bool,
    filePath: string, ignores: (Author, string) -> bool): Option<map<Author, int>>
    requires i < |lines| && IsTagLine(lines[i])
  {
    var st := Scan(lines, i, aliases, hasAuthorConfigFile, filePath, ignores);
    FindAuthors(ExtractAuthorsParameters(lines[i].content, CheckValidCommentLine(lines[i].content)),
                st.aliases, hasAuthorConfigFile, st.foundStartAnnotation, filePath, ignores).authors
  }

  /** The lines with index in `[a, b)` that do not contain the tag, in order. */
  function Untagged(lines: seq<LineInfo>, a: nat, b: nat): seq<LineInfo>
    requires a <= b <= |lines|
    decreases b - a
  {
    if a == b then []
    else Untagged(lines, a, b - 1) + (if HasTag(lines[b - 1]) then [] else [lines[b - 1]])
  }

  /** No line with index in `[a, b)` is a tag line that matches a format. */
  predicate NoTagLineIn(lines: seq<LineInfo>, a: nat, b: nat)
    requires a <= b <= |lines|
    decreases b - a
  {
    a == b || (NoTagLineIn(lines, a, b - 1) && !IsTagLine(lines[b - 1]))
  }

  /** No line with index in `[a, b)` is a tag line that matches a format, line by line. */
  lemma {:induction false} NoTagLineInAt(lines: seq<LineInfo>, a: nat, b: nat, k: nat)
    requires a <= k < b <= |lines| && NoTagLineIn(lines, a, b)
    ensures !IsTagLine(lines[k])
    decreases b - a
  {
    if k < b - 1 {
      NoTagLineInAt(lines, a, b - 1, k);
    }
  }

  /** Every line of `ls` is untagged or a tag line that matches a format. */
  predicate NoStrayTag(ls: seq<LineInfo>) {
    ls == [] || (NoStrayTag(ls[..|ls| - 1]) && (!HasTag(ls[|ls| - 1]) || IsTagLine(ls[|ls| - 1])))
  }

  /**
   * `block` is the block opened by the tag line at index `i` as it stands
   * once the lines before index `n` have been read: it starts at that line's
   * number, holds the opening map, and its lines are the opening line and
   * every later line without the tag; no tag line matching a format lies
   * between.
   */
  predicate OpenedAt(
    lines: seq<LineInfo>, i: nat, n: nat, block: TextBlockInfo, aliases: map<string, Author>,
    hasAuthorConfigFile: bool, filePath: string, ignores: (Author, string) -> bool)
  {
    && i < n <= |lines|
    && IsTagLine(lines[i])
    && TagAuthors(lines, i, aliases, hasAuthorConfigFile, filePath, ignores) == Some(block.contributionMap)
    && block.startLineNumber == lines[i].lineNumber
    && block.lines == [lines[i]] + Untagged(lines, i + 1, n)
    && NoTagLineIn(lines, i + 1, n)
  }

  /**
   * The shape of a retired block. A closed block is its opening line, the
   * untagged lines after it and the closing tag line, for which
   * `findAuthorsInLine` returned nothing; it ends at that line's number. A
   * replaced block is what was open when a new opening tag came.
   */
  predicate RetiredShape(
    lines: seq<LineInfo>, rb: RetiredBlock, aliases: map<string, Author>,
    hasAuthorConfigFile: bool, filePath: string, ignores: (Author, string) -> bool)
  {
    && rb.endedAt < |lines|
    && IsTagLine(lines[rb.endedAt])
    && match rb
       case Closed(block, i, j) =>
         && TagAuthors(lines, j, aliases, hasAuthorConfigFile, filePath, ignores).None?
         && block.endLineNumber == lines[j].lineNumber
         && |block.lines| > 0
         && block.lines[|block.lines| - 1] == lines[j]
         && OpenedAt(lines, i, j, block.(lines := block.lines[..|block.lines| - 1]), aliases,
                     hasAuthorConfigFile, filePath, ignores)
       case Replaced(block, i, j) =>
         && TagAuthors(lines, j, aliases, hasAuthorConfigFile, filePath, ignores).Some?
         && OpenedAt(lines, i, j, block, aliases, hasAuthorConfigFile, filePath, ignores)
  }

  /**
   * Every block of `rs` has its shape, each ends no later than the next one
   * opens, and the last one ends before index `bound`.
   */
  predicate RetiredChain(
    lines: seq<LineInfo>, rs: seq<RetiredBlock>, bound: nat, aliases: map<string, Author>,
    hasAuthorConfigFile: bool, filePath: string, ignores: (Author, string) -> bool)
  {
    rs == [] ||
    var last := rs[|rs| - 1];
    && RetiredShape(lines, last, aliases, hasAuthorConfigFile, filePath, ignores)
    && last.endedAt < bound
    && RetiredChain(lines, rs[..|rs| - 1], last.openedAt + 1, aliases, hasAuthorConfigFile, filePath, ignores)
  }

  /** The lines of the retired blocks, one block after another. */
  function RetiredLines(rs: seq<RetiredBlock>): seq<LineInfo> {
    if rs == [] then [] else RetiredLines(rs[..|rs| - 1]) + rs[|rs| - 1].block.lines
  }

  /** The closed blocks among the retired ones, in the order they closed. */
  function ClosedBlocks(rs: seq<RetiredBlock>): seq<TextBlockInfo> {
    if rs == [] then []
    else ClosedBlocks(rs[..|rs| - 1]) + (if rs[|rs| - 1].Closed? then [rs[|rs| - 1].block] else [])
  }

  /** The lines of the open block, if any. */
  function OpenLines(st: ScanState): seq<LineInfo> {
    if st.currentBlock.Some? then st.currentBlock.value.lines else []
  }

  /**
   * Where the blocks lie after the lines before index `n`: the open block
   * and every retired block have the shapes above and follow one another in
   * the file.
   */
  predicate ShapeInvariant(
    lines: seq<LineInfo>, n: nat, st: ScanState, aliases: map<string, Author>,
    hasAuthorConfigFile: bool, filePath: string, ignores: (Author, string) -> bool)
    requires n <= |lines|
  {
    && Consistent(st)
    && (st.foundStartAnnotation ==>
          OpenedAt(lines, st.openedAt, n, st.currentBlock.value, aliases, hasAuthorConfigFile, filePath, ignores))
    && RetiredChain(lines, st.retired, if st.foundStartAnnotation then st.openedAt + 1 else n,
                    aliases, hasAuthorConfigFile, filePath, ignores)
  }

  /** The lines to remove are those of the retired blocks and of the open one; the blocks to add are the closed ones. */
  predicate Books(st: ScanState) {
    st.toRemove == RetiredLines(st.retired) + OpenLines(st) && st.toAdd == ClosedBlocks(st.retired)
  }

  /**
   * The loop's lists balance with the retired blocks, every line to remove
   * is untagged or a tag line matching a format, and the alias map only grew.
   */
  predicate BooksInvariant(st: ScanState, aliases: map<string, Author>, hasAuthorConfigFile: bool) {
    && Consistent(st)
    && Books(st)
    && NoStrayTag(st.toRemove)
    && ExtendsAliases(aliases, st.aliases, hasAuthorConfigFile)
  }

  /** What holds of the loop's state after the lines before index `n`. */
  predicate ScanInvariant(
    lines: seq<LineInfo>, n: nat, st: ScanState, aliases: map<string, Author>,
    hasAuthorConfigFile: bool, filePath: string, ignores: (Author, string) -> bool)
    requires n <= |lines|
  {
    ShapeInvariant(lines, n, st, aliases, hasAuthorConfigFile, filePath, ignores)
    && BooksInvariant(st, aliases, hasAuthorConfigFile)
  }

  lemma RetiredLinesSnoc(rs: seq<RetiredBlock>, x: RetiredBlock)
    ensures RetiredLines(rs + [x]) == RetiredLines(rs) + x.block.lines
  {
    assert (rs + [x])[..|rs|] == rs;
  }

  lemma ClosedBlocksSnoc(rs: seq<RetiredBlock>, x: RetiredBlock)
    ensures ClosedBlocks(rs + [x]) == ClosedBlocks(rs) + (if x.Closed? then [x.block] else [])
  {
    assert (rs + [x])[..|rs|] == rs;
  }

  /** Appending a line keeps "untagged or a matching tag line" for every line to remove. */
  lemma NoStrayTagSnoc(ls: seq<LineInfo>, x: LineInfo)
    requires NoStrayTag(ls) && (!HasTag(x) || IsTagLine(x))
    ensures NoStrayTag(ls + [x])
  {
    assert (ls + [x])[..|ls|] == ls;
  }

  /** A retired block joins the chain when it ends before the new bound and after the chain's. */
  lemma RetiredChainSnoc(
    lines: seq<LineInfo>, rs: seq<RetiredBlock>, rb: RetiredBlock, bound: nat, aliases: map<string, Author>,
    hasAuthorConfigFile: bool, filePath: string, ignores: (Author, string) -> bool)
    requires RetiredChain(lines, rs, rb.openedAt + 1, aliases, hasAuthorConfigFile, filePath, ignores)
    requires RetiredShape(lines, rb, aliases, hasAuthorConfigFile, filePath, ignores) && rb.endedAt < bound
    ensures RetiredChain(lines, rs + [rb], bound, aliases, hasAuthorConfigFile, filePath, ignores)
  {
    assert (rs + [rb])[..|rs|] == rs;
  }

  /** A chain that ends before one bound ends before any later one. */
  lemma RetiredChainWeaken(
    lines: seq<LineInfo>, rs: seq<RetiredBlock>, bound: nat, bound': nat, aliases: map<string, Author>,
    hasAuthorConfigFile: bool, filePath: string, ignores: (Author, string) -> bool)
    requires RetiredChain(lines, rs, bound, aliases, hasAuthorConfigFile, filePath, ignores) && bound <= bound'
    ensures RetiredChain(lines, rs, bound', aliases, hasAuthorConfigFile, filePath, ignores)
  {
  }

  /** Alias maps that only grow compose. */
  lemma ExtendsAliasesTrans(a: map<string, Author>, b: map<string, Author>, c: map<string, Author>, hasAuthorConfigFile: bool)
    requires ExtendsAliases(a, b, hasAuthorConfigFile) && ExtendsAliases(b, c, hasAuthorConfigFile)
    ensures ExtendsAliases(a, c, hasAuthorConfigFile)
  {
  }

  /** Closing the open block keeps the books. */
  lemma CloseBooks(st: ScanState, lineInfo: LineInfo, n: nat, aliases: map<string, Author>)
    requires Consistent(st) && st.foundStartAnnotation && Books(st)
    ensures Books(CloseBlock(st, lineInfo, n, aliases))
  {
    var cur := st.currentBlock.value;
    var rb := CloseBlock(st, lineInfo, n, aliases).retired[|st.retired|];
    RetiredLinesSnoc(st.retired, rb);
    ClosedBlocksSnoc(st.retired, rb);
    ConcatAssoc(RetiredLines(st.retired), cur.lines, [lineInfo]);
  }

  /** Opening a block keeps the books. */
  lemma OpenBooks(st: ScanState, lineInfo: LineInfo, n: nat, contributionMap: map<Author, int>, aliases: map<string, Author>)
    requires Consistent(st) && Books(st)
    ensures Books(OpenBlock(st, lineInfo, n, contributionMap, aliases))
  {
    if st.foundStartAnnotation {
      var rb := Replaced(st.currentBlock.value, st.openedAt, n);
      RetiredLinesSnoc(st.retired, rb);
      ClosedBlocksSnoc(st.retired, rb);
    }
  }

  /** Growing the open block keeps the books. */
  lemma GrowBooks(st: ScanState, lineInfo: LineInfo)
    requires Consistent(st) && st.foundStartAnnotation && Books(st)
    ensures Books(GrowBlock(st, lineInfo))
  {
    ConcatAssoc(RetiredLines(st.retired), st.currentBlock.value.lines, [lineInfo]);
  }

  /** One iteration keeps the books balanced. */
  lemma StepKeepsBooks(
    lines: seq<LineInfo>, n: nat, aliases: map<string, Author>, hasAuthorConfigFile: bool,
    filePath: string, ignores: (Author, string) -> bool)
    requires 0 < n <= |lines|
    requires BooksInvariant(Scan(lines, n - 1, aliases, hasAuthorConfigFile, filePath, ignores), aliases, hasAuthorConfigFile)
    ensures BooksInvariant(Scan(lines, n, aliases, hasAuthorConfigFile, filePath, ignores), aliases, hasAuthorConfigFile)
  {
    var i := n - 1;
    var st := Scan(lines, i, aliases, hasAuthorConfigFile, filePath, ignores);
    var next := Scan(lines, n, aliases, hasAuthorConfigFile, filePath, ignores);
    assert next == Step(lines, i, aliases, hasAuthorConfigFile, filePath, ignores);
    var lineInfo := lines[i];
    if !HasTag(lineInfo) {
      if st.foundStartAnnotation {
        assert next == GrowBlock(st, lineInfo);
        GrowBooks(st, lineInfo);
        NoStrayTagSnoc(st.toRemove, lineInfo);
      } else {
        assert next == st;
      }
    } else if CheckValidCommentLine(lineInfo.content) >= 0 {
      var formatIndex := CheckValidCommentLine(lineInfo.content);
      var params := ExtractAuthorsParameters(lineInfo.content, formatIndex);
      var found := FindAuthors(params, st.aliases, hasAuthorConfigFile, st.foundStartAnnotation, filePath, ignores);
      FindAuthorsAliases(params, st.aliases, hasAuthorConfigFile, st.foundStartAnnotation, filePath, ignores);
      ExtendsAliasesTrans(aliases, st.aliases, found.aliases, hasAuthorConfigFile);
      match found.authors
      case None =>
        if st.foundStartAnnotation {
          assert next == CloseBlock(st, lineInfo, i, found.aliases);
          CloseBooks(st, lineInfo, i, found.aliases);
          NoStrayTagSnoc(st.toRemove, lineInfo);
        } else {
          assert next == st.(aliases := found.aliases);
        }
      case Some(contributionMap) =>
        assert next == OpenBlock(st, lineInfo, i, contributionMap, found.aliases);
        OpenBooks(st, lineInfo, i, contributionMap, found.aliases);
        NoStrayTagSnoc(st.toRemove, lineInfo);
    } else {
      assert next == st;
    }
  }

  /** The books balance after every prefix of the lines. */
  lemma {:induction false} ScanKeepsBooks(
    lines: seq<LineInfo>, n: nat, aliases: map<string, Author>,
    hasAuthorConfigFile: bool, filePath: string, ignores: (Author, string) -> bool)
    requires n <= |lines|
    ensures BooksInvariant(Scan(lines, n, aliases, hasAuthorConfigFile, filePath, ignores), aliases, hasAuthorConfigFile)
  {
    if n > 0 {
      ScanKeepsBooks(lines, n - 1, aliases, hasAuthorConfigFile, filePath, ignores);
      StepKeepsBooks(lines, n, aliases, hasAuthorConfigFile, filePath, ignores);
    }
  }

  /** An open block takes in the next line when it has no tag. */
  lemma OpenedAtGrows(
    lines: seq<LineInfo>, i: nat, n: nat, block: TextBlockInfo, aliases: map<string, Author>,
    hasAuthorConfigFile: bool, filePath: string, ignores: (Author, string) -> bool)
    requires n < |lines| && !HasTag(lines[n])
    requires OpenedAt(lines, i, n, block, aliases, hasAuthorConfigFile, filePath, ignores)
    ensures OpenedAt(lines, i, n + 1, block.(lines := block.lines + [lines[n]]), aliases, hasAuthorConfigFile, filePath, ignores)
  {
    assert Untagged(lines, i + 1, n + 1) == Untagged(lines, i + 1, n) + [lines[n]];
  }

  /** An open block is unaffected by a tag line that matches no format. */
  lemma OpenedAtSkips(
    lines: seq<LineInfo>, i: nat, n: nat, block: TextBlockInfo, aliases: map<string, Author>,
    hasAuthorConfigFile: bool, filePath: string, ignores: (Author, string) -> bool)
    requires n < |lines| && HasTag(lines[n]) && !IsTagLine(lines[n])
    requires OpenedAt(lines, i, n, block, aliases, hasAuthorConfigFile, filePath, ignores)
    ensures OpenedAt(lines, i, n + 1, block, aliases, hasAuthorConfigFile, filePath, ignores)
  {
    assert Untagged(lines, i + 1, n + 1) == Untagged(lines, i + 1, n);
  }

  /** An open block closed by an end tag at index `n` has the closed shape. */
  lemma ClosedShape(
    lines: seq<LineInfo>, i: nat, n: nat, cur: TextBlockInfo, aliases: map<string, Author>,
    hasAuthorConfigFile: bool, filePath: string, ignores: (Author, string) -> bool)
    requires n < |lines| && IsTagLine(lines[n])
    requires TagAuthors(lines, n, aliases, hasAuthorConfigFile, filePath, ignores).None?
    requires OpenedAt(lines, i, n, cur, aliases, hasAuthorConfigFile, filePath, ignores)
    ensures RetiredShape(lines, Closed(cur.(endLineNumber := lines[n].lineNumber, lines := cur.lines + [lines[n]]), i, n),
                         aliases, hasAuthorConfigFile, filePath, ignores)
  {
    var block := cur.(endLineNumber := lines[n].lineNumber, lines := cur.lines + [lines[n]]);
    assert block.lines[..|block.lines| - 1] == cur.lines;
    assert block.(lines := block.lines[..|block.lines| - 1]) == cur.(endLineNumber := lines[n].lineNumber);
  }

  /** An open block replaced by an opening tag at index `n` has the replaced shape. */
  lemma ReplacedShape(
    lines: seq<LineInfo>, i: nat, n: nat, cur: TextBlockInfo, aliases: map<string, Author>,
    hasAuthorConfigFile: bool, filePath: string, ignores: (Author, string) -> bool)
    requires n < |lines| && IsTagLine(lines[n])
    requires TagAuthors(lines, n, aliases, hasAuthorConfigFile, filePath, ignores).Some?
    requires OpenedAt(lines, i, n, cur, aliases, hasAuthorConfigFile, filePath, ignores)
    ensures RetiredShape(lines, Replaced(cur, i, n), aliases, hasAuthorConfigFile, filePath, ignores)
  {
  }

  /** A line that is neither a matching tag line nor taken by an open block leaves every block where it was. */
  lemma ShapeSkip(
    lines: seq<LineInfo>, n: nat, st: ScanState, aliases: map<string, Author>,
    hasAuthorConfigFile: bool, filePath: string, ignores: (Author, string) -> bool)
    requires n < |lines| && !IsTagLine(lines[n]) && (HasTag(lines[n]) || !st.foundStartAnnotation)
    requires ShapeInvariant(lines, n, st, aliases, hasAuthorConfigFile, filePath, ignores)
    ensures ShapeInvariant(lines, n + 1, st, aliases, hasAuthorConfigFile, filePath, ignores)
  {
    if st.foundStartAnnotation {
      OpenedAtSkips(lines, st.openedAt, n, st.currentBlock.value, aliases, hasAuthorConfigFile, filePath, ignores);
    } else {
      RetiredChainWeaken(lines, st.retired, n, n + 1, aliases, hasAuthorConfigFile, filePath, ignores);
    }
  }

  /** A line without the tag joins the open block. */
  lemma ShapeGrow(
    lines: seq<LineInfo>, n: nat, st: ScanState, aliases: map<string, Author>,
    hasAuthorConfigFile: bool, filePath: string, ignores: (Author, string) -> bool)
    requires n < |lines| && !HasTag(lines[n]) && st.foundStartAnnotation
    requires ShapeInvariant(lines, n, st, aliases, hasAuthorConfigFile, filePath, ignores)
    ensures ShapeInvariant(lines, n + 1, GrowBlock(st, lines[n]), aliases, hasAuthorConfigFile, filePath, ignores)
  {
    var next := GrowBlock(st, lines[n]);
    assert next.retired == st.retired && next.openedAt == st.openedAt && next.foundStartAnnotation;
    OpenedAtGrows(lines, st.openedAt, n, st.currentBlock.value, aliases, hasAuthorConfigFile, filePath, ignores);
  }

  /** With no block open, an empty answer from `findAuthorsInLine` moves no block. */
  lemma ShapeIdle(
    lines: seq<LineInfo>, n: nat, st: ScanState, newAliases: map<string, Author>, aliases: map<string, Author>,
    hasAuthorConfigFile: bool, filePath: string, ignores: (Author, string) -> bool)
    requires n < |lines| && !st.foundStartAnnotation
    requires ShapeInvariant(lines, n, st, aliases, hasAuthorConfigFile, filePath, ignores)
    ensures ShapeInvariant(lines, n + 1, st.(aliases := newAliases), aliases, hasAuthorConfigFile, filePath, ignores)
  {
    RetiredChainWeaken(lines, st.retired, n, n + 1, aliases, hasAuthorConfigFile, filePath, ignores);
  }

  /** An end tag closes the open block with its own line. */
  lemma ShapeClose(
    lines: seq<LineInfo>, n: nat, st: ScanState, newAliases: map<string, Author>, aliases: map<string, Author>,
    hasAuthorConfigFile: bool, filePath: string, ignores: (Author, string) -> bool)
    requires n < |lines| && IsTagLine(lines[n]) && st.foundStartAnnotation
    requires TagAuthors(lines, n, aliases, hasAuthorConfigFile, filePath, ignores).None?
    requires ShapeInvariant(lines, n, st, aliases, hasAuthorConfigFile, filePath, ignores)
    ensures ShapeInvariant(lines, n + 1, CloseBlock(st, lines[n], n, newAliases), aliases, hasAuthorConfigFile, filePath, ignores)
  {
    var cur := st.currentBlock.value;
    var block := cur.(endLineNumber := lines[n].lineNumber, lines := cur.lines + [lines[n]]);
    var next := CloseBlock(st, lines[n], n, newAliases);
    assert next.retired == st.retired + [Closed(block, st.openedAt, n)] && !next.foundStartAnnotation;
    ClosedShape(lines, st.openedAt, n, cur, aliases, hasAuthorConfigFile, filePath, ignores);
    RetiredChainSnoc(lines, st.retired, Closed(block, st.openedAt, n), n + 1, aliases, hasAuthorConfigFile, filePath, ignores);
  }

  /** An opening tag starts a block at its own line; an open block is retired as replaced. */
  lemma ShapeOpen(
    lines: seq<LineInfo>, n: nat, st: ScanState, contributionMap: map<Author, int>,
    newAliases: map<string, Author>, aliases: map<string, Author>,
    hasAuthorConfigFile: bool, filePath: string, ignores: (Author, string) -> bool)
    requires n < |lines| && IsTagLine(lines[n])
    requires TagAuthors(lines, n, aliases, hasAuthorConfigFile, filePath, ignores) == Some(contributionMap)
    requires ShapeInvariant(lines, n, st, aliases, hasAuthorConfigFile, filePath, ignores)
    ensures ShapeInvariant(lines, n + 1, OpenBlock(st, lines[n], n, contributionMap, newAliases),
                           aliases, hasAuthorConfigFile, filePath, ignores)
  {
    var next := OpenBlock(st, lines[n], n, contributionMap, newAliases);
    var block := TextBlockInfo(lines[n].lineNumber, 0, [lines[n]], contributionMap);
    assert next.foundStartAnnotation && next.openedAt == n && next.currentBlock == Some(block);
    assert Untagged(lines, n + 1, n + 1) == [];
    assert OpenedAt(lines, n, n + 1, block, aliases, hasAuthorConfigFile, filePath, ignores);
    if st.foundStartAnnotation {
      var rb := Replaced(st.currentBlock.value, st.openedAt, n);
      assert next.retired == st.retired + [rb];
      ReplacedShape(lines, st.openedAt, n, st.currentBlock.value, aliases, hasAuthorConfigFile, filePath, ignores);
      RetiredChainSnoc(lines, st.retired, rb, n + 1, aliases, hasAuthorConfigFile, filePath, ignores);
    } else {
      assert next.retired == st.retired;
      RetiredChainWeaken(lines, st.retired, n, n + 1, aliases, hasAuthorConfigFile, filePath, ignores);
    }
  }

  /** One iteration keeps every block where it belongs. */
  lemma StepKeepsShape(
    lines: seq<LineInfo>, n: nat, aliases: map<string, Author>,
    hasAuthorConfigFile: bool, filePath: string, ignores: (Author, string) -> bool)
    requires n < |lines|
    requires ShapeInvariant(lines, n, Scan(lines, n, aliases, hasAuthorConfigFile, filePath, ignores),
                            aliases, hasAuthorConfigFile, filePath, ignores)
    ensures ShapeInvariant(lines, n + 1, Scan(lines, n + 1, aliases, hasAuthorConfigFile, filePath, ignores),
                           aliases, hasAuthorConfigFile, filePath, ignores)
  {
    var st := Scan(lines, n, aliases, hasAuthorConfigFile, filePath, ignores);
    var next := Scan(lines, n + 1, aliases, hasAuthorConfigFile, filePath, ignores);
    assert next == Step(lines, n, aliases, hasAuthorConfigFile, filePath, ignores);
    var lineInfo := lines[n];
    if !IsTagLine(lineInfo) {
      if HasTag(lineInfo) || !st.foundStartAnnotation {
        assert next == st;
        ShapeSkip(lines, n, st, aliases, hasAuthorConfigFile, filePath, ignores);
      } else {
        assert next == GrowBlock(st, lineInfo);
        ShapeGrow(lines, n, st, aliases, hasAuthorConfigFile, filePath, ignores);
      }
    } else {
      var formatIndex := CheckValidCommentLine(lineInfo.content);
      var params := ExtractAuthorsParameters(lineInfo.content, formatIndex);
      var found := FindAuthors(params, st.aliases, hasAuthorConfigFile, st.foundStartAnnotation, filePath, ignores);
      assert TagAuthors(lines, n, aliases, hasAuthorConfigFile, filePath, ignores) == found.authors;
      match found.authors
      case None =>
        if st.foundStartAnnotation {
          assert next == CloseBlock(st, lineInfo, n, found.aliases);
          ShapeClose(lines, n, st, found.aliases, aliases, hasAuthorConfigFile, filePath, ignores);
        } else {
          assert next == st.(aliases := found.aliases);
          ShapeIdle(lines, n, st, found.aliases, aliases, hasAuthorConfigFile, filePath, ignores);
        }
      case Some(contributionMap) =>
        assert next == OpenBlock(st, lineInfo, n, contributionMap, found.aliases);
        ShapeOpen(lines, n, st, contributionMap, found.aliases, aliases, hasAuthorConfigFile, filePath, ignores);
    }
  }

  /** Every block lies where it belongs after every prefix of the lines. */
  lemma ScanKeepsShape(
    lines: seq<LineInfo>, n: nat, aliases: map<string, Author>,
    hasAuthorConfigFile: bool, filePath: string, ignores: (Author, string) -> bool)
    requires n <= |lines|
    ensures ShapeInvariant(lines, n, Scan(lines, n, aliases, hasAuthorConfigFile, filePath, ignores),
                           aliases, hasAuthorConfigFile, filePath, ignores)
  {
    var k := 0;
    while k < n
      invariant k <= n
      invariant ShapeInvariant(lines, k, Scan(lines, k, aliases, hasAuthorConfigFile, filePath, ignores),
                               aliases, hasAuthorConfigFile, filePath, ignores)
    {
      StepKeepsShape(lines, k, aliases, hasAuthorConfigFile, filePath, ignores);
      k := k + 1;
    }
  }

  /** The invariant holds after every prefix of the lines. */
  lemma ScanKeepsInvariant(
    lines: seq<LineInfo>, n: nat, aliases: map<string, Author>,
    hasAuthorConfigFile: bool, filePath: string, ignores: (Author, string) -> bool)
    requires n <= |lines|
    ensures ScanInvariant(lines, n, Scan(lines, n, aliases, hasAuthorConfigFile, filePath, ignores),
                          aliases, hasAuthorConfigFile, filePath, ignores)
  {
    ScanKeepsShape(lines, n, aliases, hasAuthorConfigFile, filePath, ignores);
    ScanKeepsBooks(lines, n, aliases, hasAuthorConfigFile, filePath, ignores);
  }

  /** The state after line `n`, case by case. */
  lemma ScanStep(
    lines: seq<LineInfo>, n: nat, aliases: map<string, Author>, hasAuthorConfigFile: bool,
    filePath: string, ignores: (Author, string) -> bool)
    requires n < |lines|
    ensures var st := Scan(lines, n, aliases, hasAuthorConfigFile, filePath, ignores);
      var next := Scan(lines, n + 1, aliases, hasAuthorConfigFile, filePath, ignores);
      var line := lines[n];
      && (!HasTag(line) && st.foundStartAnnotation ==> next == GrowBlock(st, line))
      && (!IsTagLine(line) && (HasTag(line) || !st.foundStartAnnotation) ==> next == st)
      && (IsTagLine(line) ==>
            var found := FindAuthors(ExtractAuthorsParameters(line.content, CheckValidCommentLine(line.content)),
                                     st.aliases, hasAuthorConfigFile, st.foundStartAnnotation, filePath, ignores);
            && (found.authors.None? && st.foundStartAnnotation ==> next == CloseBlock(st, line, n, found.aliases))
            && (found.authors.None? && !st.foundStartAnnotation ==> next == st.(aliases := found.aliases))
            && (found.authors.Some? ==> next == OpenBlock(st, line, n, found.authors.value, found.aliases)))
  {
    assert Scan(lines, n + 1, aliases, hasAuthorConfigFile, filePath, ignores)
      == Step(lines, n, aliases, hasAuthorConfigFile, filePath, ignores);
  }

  /** What the loop leaves behind once every line of the file has been read. */
  function Outcome(
    lines: seq<LineInfo>, aliases: map<string, Author>, hasAuthorConfigFile: bool,
    filePath: string, ignores: (Author, string) -> bool): (r: ScanState)
    ensures Consistent(r)
  {
    Scan(lines, |lines|, aliases, hasAuthorConfigFile, filePath, ignores)
  }

  /**
   * `aggregateAnnotationAuthorInfo`: scans the file's lines once, collecting
   * the lines to remove and the closed blocks, then takes those lines out of
   * the file and appends the blocks. `ignores(author, path)` stands for
   * `author.isIgnoringFile(path)`.
   */
  method AggregateAnnotationAuthorInfo(
    fileInfo: FileInfo, authorConfig: AuthorConfiguration, ignores: (Author, string) -> bool)
    modifies fileInfo, authorConfig
    ensures var out := Outcome(old(fileInfo.lines), old(authorConfig.authorDetailsToAuthorMap),
                               authorConfig.hasAuthorConfigFile, fileInfo.path, ignores);
      && fileInfo.lines == Without(old(fileInfo.lines), out.toRemove)
      && fileInfo.blocks == old(fileInfo.blocks) + out.toAdd
      && authorConfig.authorDetailsToAuthorMap == out.aliases
  {
    var filePath := fileInfo.path;
    var lines := fileInfo.lines;
    ghost var init := authorConfig.authorDetailsToAuthorMap;
    var toRemove: seq<LineInfo> := [];
    var toAdd: seq<TextBlockInfo> := [];
    var foundStartAnnotation := false;
    var currentBlock: Option<TextBlockInfo> := None;
    // The blocks let go of so far and the index of the line that opened the current block.
    ghost var retired: seq<RetiredBlock> := [];
    ghost var openedAt: nat := 0;
    for i := 0 to |lines|
      modifies authorConfig
      invariant Scan(lines, i, init, authorConfig.hasAuthorConfigFile, filePath, ignores)
        == ScanState(foundStartAnnotation, currentBlock, toRemove, toAdd, authorConfig.authorDetailsToAuthorMap,
                     retired, openedAt)
    {
      ScanStep(lines, i, init, authorConfig.hasAuthorConfigFile, filePath, ignores);
      var lineInfo := lines[i];
      if Contains(lineInfo.content, AuthorTag) {
        var formatIndex := CheckValidCommentLine(lineInfo.content);
        if formatIndex >= 0 {
          var newAnnotatedAuthors :=
            FindAuthorsInLine(lineInfo.content, authorConfig, foundStartAnnotation, formatIndex, filePath, ignores);
          if newAnnotatedAuthors.None? {
            if foundStartAnnotation {
              var block := currentBlock.value.(endLineNumber := lineInfo.lineNumber,
                                               lines := currentBlock.value.lines + [lineInfo]);
              toRemove := toRemove + [lineInfo];
              toAdd := toAdd + [block];
              currentBlock := None;
              foundStartAnnotation := false;
              retired := retired + [Closed(block, openedAt, i)];
            }
          } else {
            if foundStartAnnotation {
              retired := retired + [Replaced(currentBlock.value, openedAt, i)];
            }
            currentBlock := Some(TextBlockInfo(lineInfo.lineNumber, 0, [lineInfo], newAnnotatedAuthors.value));
            toRemove := toRemove + [lineInfo];
            foundStartAnnotation := true;
            openedAt := i;
          }
        }
      } else if foundStartAnnotation {
        currentBlock := Some(currentBlock.value.(lines := currentBlock.value.lines + [lineInfo]));
        toRemove := toRemove + [lineInfo];
      }
    }
    fileInfo.RemoveLines(toRemove);
    fileInfo.AddBlocks(toAdd);
  }

  /**
   * `block` is the block that the tag line at index `i` opened and the end tag
   * at index `j` closed: it runs from the opening line's number to the end
   * tag's, holds the opening line, every line in between without the tag and
   * the end tag, in file order, and carries the opening line's map; no tag
   * line matching a format lies in between.
   */
  predicate ClosedSpan(
    lines: seq<LineInfo>, i: nat, j: nat, block: TextBlockInfo, aliases: map<string, Author>,
    hasAuthorConfigFile: bool, filePath: string, ignores: (Author, string) -> bool) {
    && i < j < |lines|
    && IsTagLine(lines[i]) && IsTagLine(lines[j])
    && TagAuthors(lines, i, aliases, hasAuthorConfigFile, filePath, ignores) == Some(block.contributionMap)
    && TagAuthors(lines, j, aliases, hasAuthorConfigFile, filePath, ignores).None?
    && block.startLineNumber == lines[i].lineNumber
    && block.endLineNumber == lines[j].lineNumber
    && block.lines == [lines[i]] + Untagged(lines, i + 1, j) + [lines[j]]
    && NoTagLineIn(lines, i + 1, j)
  }

  /** A closed retired block spans from its opening line to its end tag. */
  lemma ClosedRetiredSpan(
    lines: seq<LineInfo>, rb: RetiredBlock, aliases: map<string, Author>, hasAuthorConfigFile: bool,
    filePath: string, ignores: (Author, string) -> bool)
    requires rb.Closed? && RetiredShape(lines, rb, aliases, hasAuthorConfigFile, filePath, ignores)
    ensures ClosedSpan(lines, rb.openedAt, rb.endedAt, rb.block, aliases, hasAuthorConfigFile, filePath, ignores)
  {
    var b := rb.block;
    assert b.lines == b.lines[..|b.lines| - 1] + [b.lines[|b.lines| - 1]];
  }

  /** Every block in a chain has its shape. */
  lemma {:induction false} ChainShapes(
    lines: seq<LineInfo>, rs: seq<RetiredBlock>, bound: nat, k: nat, aliases: map<string, Author>,
    hasAuthorConfigFile: bool, filePath: string, ignores: (Author, string) -> bool)
    requires RetiredChain(lines, rs, bound, aliases, hasAuthorConfigFile, filePath, ignores) && k < |rs|
    ensures RetiredShape(lines, rs[k], aliases, hasAuthorConfigFile, filePath, ignores) && rs[k].endedAt < bound
    decreases |rs|
  {
    if k < |rs| - 1 {
      var prefix := rs[..|rs| - 1];
      ChainShapes(lines, prefix, rs[|rs| - 1].openedAt + 1, k, aliases, hasAuthorConfigFile, filePath, ignores);
      assert prefix[k] == rs[k];
    }
  }

  /** Where the `k`-th closed block sits among the retired ones. */
  lemma {:induction false} ClosedIndex(rs: seq<RetiredBlock>, k: nat) returns (r: nat)
    requires k < |ClosedBlocks(rs)|
    ensures r < |rs| && rs[r].Closed? && rs[r].block == ClosedBlocks(rs)[k]
    decreases |rs|
  {
    var prefix := rs[..|rs| - 1];
    if k < |ClosedBlocks(prefix)| {
      r := ClosedIndex(prefix, k);
      assert rs[r] == prefix[r];
    } else {
      r := |rs| - 1;
    }
  }

  /** Earlier closed blocks sit earlier among the retired ones. */
  lemma {:induction false} ClosedIndicesInOrder(rs: seq<RetiredBlock>, k1: nat, k2: nat) returns (r1: nat, r2: nat)
    requires k1 < k2 < |ClosedBlocks(rs)|
    ensures r1 < r2 < |rs|
    ensures rs[r1].Closed? && rs[r1].block == ClosedBlocks(rs)[k1]
    ensures rs[r2].Closed? && rs[r2].block == ClosedBlocks(rs)[k2]
    decreases |rs|
  {
    var prefix := rs[..|rs| - 1];
    var closed := ClosedBlocks(prefix);
    assert forall k :: 0 <= k < |closed| ==> ClosedBlocks(rs)[k] == closed[k];
    if k2 < |closed| {
      r1, r2 := ClosedIndicesInOrder(prefix, k1, k2);
      assert rs[r1] == prefix[r1] && rs[r2] == prefix[r2];
    } else {
      r1 := ClosedIndex(prefix, k1);
      assert rs[r1] == prefix[r1];
      r2 := |rs| - 1;
    }
  }

  /** A block of a chain ends no later than any later block of it opens. */
  lemma {:induction false} ChainInOrder(
    lines: seq<LineInfo>, rs: seq<RetiredBlock>, bound: nat, r1: nat, r2: nat, aliases: map<string,
    Author>, hasAuthorConfigFile: bool, filePath: string, ignores: (Author, string) -> bool)
    requires RetiredChain(lines, rs, bound, aliases, hasAuthorConfigFile, filePath, ignores) && r1 < r2 < |rs|
    ensures rs[r1].endedAt <= rs[r2].openedAt
    decreases |rs|
  {
    var prefix := rs[..|rs| - 1];
    if r2 < |rs| - 1 {
      ChainInOrder(lines, prefix, rs[|rs| - 1].openedAt + 1, r1, r2, aliases, hasAuthorConfigFile, filePath, ignores);
      assert prefix[r1] == rs[r1] && prefix[r2] == rs[r2];
    } else {
      ChainShapes(lines, prefix, rs[|rs| - 1].openedAt + 1, r1, aliases, hasAuthorConfigFile, filePath, ignores);
      assert prefix[r1] == rs[r1];
    }
  }

  /** The `k`-th closed block of a chain, with the indices of its opening and end tags. */
  lemma ClosedBlockOfChain(
    lines: seq<LineInfo>, rs: seq<RetiredBlock>, bound: nat, k: nat, aliases: map<string, Author>,
    hasAuthorConfigFile: bool, filePath: string, ignores: (Author, string) -> bool)
    returns (i: nat, j: nat)
    requires RetiredChain(lines, rs, bound, aliases, hasAuthorConfigFile, filePath, ignores) && k < |ClosedBlocks(rs)|
    ensures ClosedSpan(lines, i, j, ClosedBlocks(rs)[k], aliases, hasAuthorConfigFile, filePath, ignores) && j < bound
  {
    var r := ClosedIndex(rs, k);
    ChainShapes(lines, rs, bound, r, aliases, hasAuthorConfigFile, filePath, ignores);
    ClosedRetiredSpan(lines, rs[r], aliases, hasAuthorConfigFile, filePath, ignores);
    i, j := rs[r].openedAt, rs[r].endedAt;
  }

  /** The lists of `b` extend those of `a`: `b` lists to remove and to add what `a` does, in place. */
  predicate Grows(a: ScanState, b: ScanState) {
    a.toRemove <= b.toRemove && a.toAdd <= b.toAdd
  }

  /** Extending lists twice extends them. */
  lemma GrowsTrans(a: ScanState, b: ScanState, c: ScanState)
    requires Grows(a, b) && Grows(b, c)
    ensures Grows(a, c)
  {
  }

  /** One iteration only appends to the lines to remove and the blocks to add. */
  lemma StepGrowsLists(
    lines: seq<LineInfo>, n: nat, aliases: map<string, Author>, hasAuthorConfigFile: bool,
    filePath: string, ignores: (Author, string) -> bool)
    requires n < |lines|
    ensures Grows(Scan(lines, n, aliases, hasAuthorConfigFile, filePath, ignores),
                  Scan(lines, n + 1, aliases, hasAuthorConfigFile, filePath, ignores))
  {
    var st := Scan(lines, n, aliases, hasAuthorConfigFile, filePath, ignores);
    var next := Scan(lines, n + 1, aliases, hasAuthorConfigFile, filePath, ignores);
    assert next == Step(lines, n, aliases, hasAuthorConfigFile, filePath, ignores);
    assert || (next.toRemove == st.toRemove && next.toAdd == st.toAdd)
           || (next.toRemove == st.toRemove + [lines[n]] && next.toAdd == st.toAdd)
           || (next.toRemove == st.toRemove + [lines[n]] && exists b :: next.toAdd == st.toAdd + [b]);
  }

  /** What is listed to remove or to add after a prefix of the lines stays listed, in place, after a longer one. */
  lemma {:induction false} ListsGrow(
    lines: seq<LineInfo>, m: nat, n: nat, aliases: map<string, Author>, hasAuthorConfigFile: bool,
    filePath: string, ignores: (Author, string) -> bool)
    requires m <= n <= |lines|
    ensures Grows(Scan(lines, m, aliases, hasAuthorConfigFile, filePath, ignores),
                  Scan(lines, n, aliases, hasAuthorConfigFile, filePath, ignores))
    decreases n - m
  {
    if m < n {
      ListsGrow(lines, m, n - 1, aliases, hasAuthorConfigFile, filePath, ignores);
      StepGrowsLists(lines, n - 1, aliases, hasAuthorConfigFile, filePath, ignores);
      GrowsTrans(Scan(lines, m, aliases, hasAuthorConfigFile, filePath, ignores),
                 Scan(lines, n - 1, aliases, hasAuthorConfigFile, filePath, ignores),
                 Scan(lines, n, aliases, hasAuthorConfigFile, filePath, ignores));
    }
  }

  /** An opening tag at index `n` opens a block of its own line, listed for removal. */
  lemma StepOpens(
    lines: seq<LineInfo>, n: nat, contributionMap: map<Author, int>, aliases: map<string, Author>,
    hasAuthorConfigFile: bool, filePath: string, ignores: (Author, string) -> bool)
    requires n < |lines| && IsTagLine(lines[n])
    requires TagAuthors(lines, n, aliases, hasAuthorConfigFile, filePath, ignores) == Some(contributionMap)
    ensures var st, next := Scan(lines, n, aliases, hasAuthorConfigFile, filePath, ignores),
                            Scan(lines, n + 1, aliases, hasAuthorConfigFile, filePath, ignores);
      && OpenWith(next, lines[n], [], contributionMap)
      && next.toRemove == st.toRemove + [lines[n]]
      && lines[n] in next.toRemove
      && next.toAdd == st.toAdd
  {
    assert Scan(lines, n + 1, aliases, hasAuthorConfigFile, filePath, ignores)
      == Step(lines, n, aliases, hasAuthorConfigFile, filePath, ignores);
    assert [lines[n]] + [] == [lines[n]];
  }

  /** A line that is not a tag line matching a format either joins the open block or is skipped. */
  lemma StepInsideBlock(
    lines: seq<LineInfo>, n: nat, aliases: map<string, Author>,
    hasAuthorConfigFile: bool, filePath: string, ignores: (Author, string) -> bool)
    requires n < |lines| && !IsTagLine(lines[n])
    requires Scan(lines, n, aliases, hasAuthorConfigFile, filePath, ignores).foundStartAnnotation
    ensures var st, next := Scan(lines, n, aliases, hasAuthorConfigFile, filePath, ignores),
                            Scan(lines, n + 1, aliases, hasAuthorConfigFile, filePath, ignores);
      && next == (if HasTag(lines[n]) then st else GrowBlock(st, lines[n]))
      && (!HasTag(lines[n]) ==> lines[n] in next.toRemove)
  {
    assert Scan(lines, n + 1, aliases, hasAuthorConfigFile, filePath, ignores)
      == Step(lines, n, aliases, hasAuthorConfigFile, filePath, ignores);
  }

  /**
   * An end tag at index `n` closes the open block with its own line and adds
   * it: the block `block` that starts at the opening line, ends at this one
   * and holds the open block's lines and this one.
   */
  lemma StepCloses(
    lines: seq<LineInfo>, n: nat, opening: LineInfo, more: seq<LineInfo>, contributionMap: map<Author, int>,
    block: TextBlockInfo, aliases: map<string, Author>,
    hasAuthorConfigFile: bool, filePath: string, ignores: (Author, string) -> bool)
    requires n < |lines| && IsTagLine(lines[n])
    requires TagAuthors(lines, n, aliases, hasAuthorConfigFile, filePath, ignores).None?
    requires OpenWith(Scan(lines, n, aliases, hasAuthorConfigFile, filePath, ignores), opening, more, contributionMap)
    requires block.startLineNumber == opening.lineNumber && block.endLineNumber == lines[n].lineNumber
    requires block.lines == [opening] + more + [lines[n]] && block.contributionMap == contributionMap
    ensures var st, next := Scan(lines, n, aliases, hasAuthorConfigFile, filePath, ignores),
                            Scan(lines, n + 1, aliases, hasAuthorConfigFile, filePath, ignores);
      && next.toAdd == st.toAdd + [block]
      && block in next.toAdd
  {
    assert Scan(lines, n + 1, aliases, hasAuthorConfigFile, filePath, ignores)
      == Step(lines, n, aliases, hasAuthorConfigFile, filePath, ignores);
  }

  /** A line listed for removal once the line at index `n` is read stays listed once the file has been read. */
  lemma RemovedStaysRemoved(
    lines: seq<LineInfo>, n: nat, x: LineInfo, aliases: map<string, Author>, hasAuthorConfigFile: bool,
    filePath: string, ignores: (Author, string) -> bool)
    requires n < |lines| && x in Scan(lines, n + 1, aliases, hasAuthorConfigFile, filePath, ignores).toRemove
    ensures x in Outcome(lines, aliases, hasAuthorConfigFile, filePath, ignores).toRemove
  {
    ListsGrow(lines, n + 1, |lines|, aliases, hasAuthorConfigFile, filePath, ignores);
    var before := Scan(lines, n + 1, aliases, hasAuthorConfigFile, filePath, ignores).toRemove;
    var k :| 0 <= k < |before| && before[k] == x;
    assert Outcome(lines, aliases, hasAuthorConfigFile, filePath, ignores).toRemove[k] == x;
  }

  /** A block listed to add once the line at index `n` is read stays listed once the file has been read. */
  lemma AddedStaysAdded(
    lines: seq<LineInfo>, n: nat, block: TextBlockInfo, aliases: map<string, Author>, hasAuthorConfigFile: bool,
    filePath: string, ignores: (Author, string) -> bool)
    requires n < |lines| && block in Scan(lines, n + 1, aliases, hasAuthorConfigFile, filePath, ignores).toAdd
    ensures block in Outcome(lines, aliases, hasAuthorConfigFile, filePath, ignores).toAdd
  {
    ListsGrow(lines, n + 1, |lines|, aliases, hasAuthorConfigFile, filePath, ignores);
    var before := Scan(lines, n + 1, aliases, hasAuthorConfigFile, filePath, ignores).toAdd;
    var k :| 0 <= k < |before| && before[k] == block;
    assert Outcome(lines, aliases, hasAuthorConfigFile, filePath, ignores).toAdd[k] == block;
  }

  /**
   * `st` has a block open that began at the line `opening` with the map
   * `contributionMap` and has since gained the lines `more`.
   */
  predicate OpenWith(st: ScanState, opening: LineInfo, more: seq<LineInfo>, contributionMap: map<Author, int>) {
    && st.foundStartAnnotation
    && st.currentBlock == Some(TextBlockInfo(opening.lineNumber, 0, [opening] + more, contributionMap))
  }

  /**
   * A block opened by the line at index `i` stays open over the lines up to
   * `n` when none of them is a tag line matching a format: it gains the
   * untagged ones, and nothing is added.
   */
  lemma StaysOpenThrough(
    lines: seq<LineInfo>, i: nat, n: nat, contributionMap: map<Author, int>,
    aliases: map<string, Author>, hasAuthorConfigFile: bool, filePath: string, ignores: (Author, string) -> bool)
    requires i < n <= |lines| && NoTagLineIn(lines, i + 1, n)
    requires OpenWith(Scan(lines, i + 1, aliases, hasAuthorConfigFile, filePath, ignores), lines[i], [], contributionMap)
    ensures OpenWith(Scan(lines, n, aliases, hasAuthorConfigFile, filePath, ignores),
                     lines[i], Untagged(lines, i + 1, n), contributionMap)
    ensures Scan(lines, n, aliases, hasAuthorConfigFile, filePath, ignores).toAdd
         == Scan(lines, i + 1, aliases, hasAuthorConfigFile, filePath, ignores).toAdd
  {
    var opening := lines[i];
    var toAdd := Scan(lines, i + 1, aliases, hasAuthorConfigFile, filePath, ignores).toAdd;
    assert Untagged(lines, i + 1, i + 1) == [];
    var k := i + 1;
    while k < n
      invariant i < k <= n
      invariant OpenWith(Scan(lines, k, aliases, hasAuthorConfigFile, filePath, ignores),
                         opening, Untagged(lines, i + 1, k), contributionMap)
      invariant Scan(lines, k, aliases, hasAuthorConfigFile, filePath, ignores).toAdd == toAdd
    {
      NoTagLineInAt(lines, i + 1, n, k);
      StepInsideBlock(lines, k, aliases, hasAuthorConfigFile, filePath, ignores);
      var before := Untagged(lines, i + 1, k);
      if !HasTag(lines[k]) {
        assert Untagged(lines, i + 1, k + 1) == before + [lines[k]];
        assert [opening] + (before + [lines[k]]) == [opening] + before + [lines[k]];
      } else {
        assert Untagged(lines, i + 1, k + 1) == before;
      }
      k := k + 1;
    }
  }

  /**
   * After an opening tag at index `i`, and with no tag line matching a format
   * up to index `n`, the block opened at `i` is still open: it holds the
   * opening line and the untagged lines since, and nothing has been added.
   */
  lemma StaysOpen(
    lines: seq<LineInfo>, i: nat, n: nat, contributionMap: map<Author, int>, aliases: map<string, Author>,
    hasAuthorConfigFile: bool, filePath: string, ignores: (Author, string) -> bool)
    requires i < n <= |lines| && IsTagLine(lines[i])
    requires TagAuthors(lines, i, aliases, hasAuthorConfigFile, filePath, ignores) == Some(contributionMap)
    requires NoTagLineIn(lines, i + 1, n)
    ensures OpenWith(Scan(lines, n, aliases, hasAuthorConfigFile, filePath, ignores),
                     lines[i], Untagged(lines, i + 1, n), contributionMap)
    ensures Scan(lines, n, aliases, hasAuthorConfigFile, filePath, ignores).toAdd
         == Scan(lines, i, aliases, hasAuthorConfigFile, filePath, ignores).toAdd
  {
    StepOpens(lines, i, contributionMap, aliases, hasAuthorConfigFile, filePath, ignores);
    StaysOpenThrough(lines, i, n, contributionMap, aliases, hasAuthorConfigFile, filePath, ignores);
  }

  /**
   * Conversely to `AddedBlockShape`: every span from an opening tag to an end
   * tag with no valid tag line between is added to the file as a block.
   */
  lemma ClosedSpanIsAdded(
    lines: seq<LineInfo>, i: nat, j: nat, block: TextBlockInfo, aliases: map<string, Author>,
    hasAuthorConfigFile: bool, filePath: string, ignores: (Author, string) -> bool)
    requires ClosedSpan(lines, i, j, block, aliases, hasAuthorConfigFile, filePath, ignores)
    ensures block in Outcome(lines, aliases, hasAuthorConfigFile, filePath, ignores).toAdd
  {
    StaysOpen(lines, i, j, block.contributionMap, aliases, hasAuthorConfigFile, filePath, ignores);
    StepCloses(lines, j, lines[i], Untagged(lines, i + 1, j), block.contributionMap, block,
               aliases, hasAuthorConfigFile, filePath, ignores);
    AddedStaysAdded(lines, j, block, aliases, hasAuthorConfigFile, filePath, ignores);
  }

  /** Conversely to `RemovedLines`: an opening tag line is taken out of the file. */
  lemma OpeningLineRemoved(
    lines: seq<LineInfo>, i: nat, aliases: map<string, Author>, hasAuthorConfigFile: bool,
    filePath: string, ignores: (Author, string) -> bool)
    requires i < |lines| && IsTagLine(lines[i])
    requires TagAuthors(lines, i, aliases, hasAuthorConfigFile, filePath, ignores).Some?
    ensures lines[i] in Outcome(lines, aliases, hasAuthorConfigFile, filePath, ignores).toRemove
  {
    var contributionMap := TagAuthors(lines, i, aliases, hasAuthorConfigFile, filePath, ignores).value;
    StepOpens(lines, i, contributionMap, aliases, hasAuthorConfigFile, filePath, ignores);
    RemovedStaysRemoved(lines, i, lines[i], aliases, hasAuthorConfigFile, filePath, ignores);
  }

  /**
   * Conversely to `RemovedLines`: every untagged line after an opening tag,
   * with no tag line matching a format between, is taken out of the file.
   */
  lemma OpenedLinesRemoved(
    lines: seq<LineInfo>, i: nat, n: nat, aliases: map<string, Author>, hasAuthorConfigFile: bool,
    filePath: string, ignores: (Author, string) -> bool)
    requires i < n < |lines| && IsTagLine(lines[i])
    requires TagAuthors(lines, i, aliases, hasAuthorConfigFile, filePath, ignores).Some?
    requires NoTagLineIn(lines, i + 1, n)
    ensures !HasTag(lines[n]) ==> lines[n] in Outcome(lines, aliases, hasAuthorConfigFile, filePath, ignores).toRemove
  {
    if !HasTag(lines[n]) {
      var contributionMap := TagAuthors(lines, i, aliases, hasAuthorConfigFile, filePath, ignores).value;
      StaysOpen(lines, i, n, contributionMap, aliases, hasAuthorConfigFile, filePath, ignores);
      StepInsideBlock(lines, n, aliases, hasAuthorConfigFile, filePath, ignores);
      RemovedStaysRemoved(lines, n, lines[n], aliases, hasAuthorConfigFile, filePath, ignores);
    }
  }

  /** A line whose answer is empty is not a line whose answer is a map. */
  lemma EndIsNotStart(
    lines: seq<LineInfo>, j: nat, i: nat, aliases: map<string, Author>, hasAuthorConfigFile: bool,
    filePath: string, ignores: (Author, string) -> bool)
    requires j < |lines| && i < |lines| && IsTagLine(lines[j]) && IsTagLine(lines[i])
    requires TagAuthors(lines, j, aliases, hasAuthorConfigFile, filePath, ignores).None?
    requires TagAuthors(lines, i, aliases, hasAuthorConfigFile, filePath, ignores).Some?
    ensures j != i
  {
  }

  /**
   * Closed blocks of a chain come in file order: an earlier one ends before
   * a later one opens.
   */
  lemma ClosedBlocksOfChainInOrder(
    lines: seq<LineInfo>, rs: seq<RetiredBlock>, bound: nat, k1: nat, k2: nat, aliases: map<string, Author>,
    hasAuthorConfigFile: bool, filePath: string, ignores: (Author, string) -> bool)
    returns (i1: nat, j1: nat, i2: nat, j2: nat)
    requires RetiredChain(lines, rs, bound, aliases, hasAuthorConfigFile, filePath, ignores)
    requires k1 < k2 < |ClosedBlocks(rs)|
    ensures ClosedSpan(lines, i1, j1, ClosedBlocks(rs)[k1], aliases, hasAuthorConfigFile, filePath, ignores)
    ensures ClosedSpan(lines, i2, j2, ClosedBlocks(rs)[k2], aliases, hasAuthorConfigFile, filePath, ignores)
    ensures j1 < i2
  {
    var r1, r2 := ClosedIndicesInOrder(rs, k1, k2);
    ChainShapes(lines, rs, bound, r1, aliases, hasAuthorConfigFile, filePath, ignores);
    ChainShapes(lines, rs, bound, r2, aliases, hasAuthorConfigFile, filePath, ignores);
    ChainInOrder(lines, rs, bound, r1, r2, aliases, hasAuthorConfigFile, filePath, ignores);
    ClosedRetiredSpan(lines, rs[r1], aliases, hasAuthorConfigFile, filePath, ignores);
    ClosedRetiredSpan(lines, rs[r2], aliases, hasAuthorConfigFile, filePath, ignores);
    i1, j1, i2, j2 := rs[r1].openedAt, rs[r1].endedAt, rs[r2].openedAt, rs[r2].endedAt;
    EndIsNotStart(lines, j1, i2, aliases, hasAuthorConfigFile, filePath, ignores);
  }

  /** Every block added to the file was opened by a tag line and closed by an end tag. */
  lemma AddedBlockShape(
    lines: seq<LineInfo>, aliases: map<string, Author>, hasAuthorConfigFile: bool, filePath: string,
    ignores: (Author, string) -> bool, k: nat) returns (i: nat, j: nat)
    requires k < |Outcome(lines, aliases, hasAuthorConfigFile, filePath, ignores).toAdd|
    ensures ClosedSpan(lines, i, j, Outcome(lines, aliases, hasAuthorConfigFile, filePath, ignores).toAdd[k],
                       aliases, hasAuthorConfigFile, filePath, ignores)
  {
    var out := Outcome(lines, aliases, hasAuthorConfigFile, filePath, ignores);
    ScanKeepsInvariant(lines, |lines|, aliases, hasAuthorConfigFile, filePath, ignores);
    i, j := ClosedBlockOfChain(lines, out.retired, if out.foundStartAnnotation then out.openedAt + 1 else |lines|,
                               k, aliases, hasAuthorConfigFile, filePath, ignores);
  }

  /** Blocks are added in the order they close, which is file order. */
  lemma AddedBlocksInOrder(
    lines: seq<LineInfo>, aliases: map<string, Author>, hasAuthorConfigFile: bool, filePath: string,
    ignores: (Author, string) -> bool, k1: nat, k2: nat)
    returns (i1: nat, j1: nat, i2: nat, j2: nat)
    requires k1 < k2 < |Outcome(lines, aliases, hasAuthorConfigFile, filePath, ignores).toAdd|
    ensures ClosedSpan(lines, i1, j1, Outcome(lines, aliases, hasAuthorConfigFile, filePath, ignores).toAdd[k1],
                       aliases, hasAuthorConfigFile, filePath, ignores)
    ensures ClosedSpan(lines, i2, j2, Outcome(lines, aliases, hasAuthorConfigFile, filePath, ignores).toAdd[k2],
                       aliases, hasAuthorConfigFile, filePath, ignores)
    ensures j1 < i2
  {
    var out := Outcome(lines, aliases, hasAuthorConfigFile, filePath, ignores);
    ScanKeepsInvariant(lines, |lines|, aliases, hasAuthorConfigFile, filePath, ignores);
    i1, j1, i2, j2 := ClosedBlocksOfChainInOrder(
      lines, out.retired, if out.foundStartAnnotation then out.openedAt + 1 else |lines|, k1, k2,
      aliases, hasAuthorConfigFile, filePath, ignores);
  }

  /** Every line of a list without stray tags is untagged or a tag line that matches a format. */
  lemma {:induction false} NoStrayTagMember(ls: seq<LineInfo>, x: LineInfo)
    requires NoStrayTag(ls) && x in ls
    ensures !HasTag(x) || IsTagLine(x)
    decreases |ls|
  {
    var prefix := ls[..|ls| - 1];
    if x != ls[|ls| - 1] {
      assert ls == prefix + [ls[|ls| - 1]];
      NoStrayTagMember(prefix, x);
    }
  }

  /** `x` is a line of one of the retired blocks `rs`. */
  predicate InRetiredBlock(x: LineInfo, rs: seq<RetiredBlock>) {
    exists r :: 0 <= r < |rs| && x in rs[r].block.lines
  }

  /** The retired lines are the lines of the retired blocks. */
  lemma {:induction false} RetiredLinesMember(rs: seq<RetiredBlock>, x: LineInfo)
    ensures x in RetiredLines(rs) <==> InRetiredBlock(x, rs)
    decreases |rs|
  {
    if rs != [] {
      var prefix, last := rs[..|rs| - 1], rs[|rs| - 1];
      RetiredLinesMember(prefix, x);
      if InRetiredBlock(x, prefix) {
        var r :| 0 <= r < |prefix| && x in prefix[r].block.lines;
        assert rs[r] == prefix[r];
      }
      if InRetiredBlock(x, rs) && x !in last.block.lines {
        var r :| 0 <= r < |rs| && x in rs[r].block.lines;
        assert r < |prefix| && prefix[r] == rs[r];
      }
    }
  }

  /**
   * A line leaves the file exactly when it belongs to a block the scan
   * retired (closed, or replaced by a later opening tag) or to the block
   * still open after the last line.
   */
  lemma RemovedLines(
    lines: seq<LineInfo>, aliases: map<string, Author>, hasAuthorConfigFile: bool, filePath: string,
    ignores: (Author, string) -> bool, x: LineInfo)
    ensures var out := Outcome(lines, aliases, hasAuthorConfigFile, filePath, ignores);
      x in out.toRemove <==> InRetiredBlock(x, out.retired) || x in OpenLines(out)
  {
    var out := Outcome(lines, aliases, hasAuthorConfigFile, filePath, ignores);
    ScanKeepsBooks(lines, |lines|, aliases, hasAuthorConfigFile, filePath, ignores);
    RetiredLinesMember(out.retired, x);
  }

  /** Every line of an added block is taken out of the file. */
  lemma AddedLinesRemoved(
    lines: seq<LineInfo>, aliases: map<string, Author>, hasAuthorConfigFile: bool, filePath: string,
    ignores: (Author, string) -> bool, k: nat, x: LineInfo)
    requires k < |Outcome(lines, aliases, hasAuthorConfigFile, filePath, ignores).toAdd|
    ensures var out := Outcome(lines, aliases, hasAuthorConfigFile, filePath, ignores);
      x in out.toAdd[k].lines ==> x in out.toRemove && x !in Without(lines, out.toRemove)
  {
    var out := Outcome(lines, aliases, hasAuthorConfigFile, filePath, ignores);
    ScanKeepsBooks(lines, |lines|, aliases, hasAuthorConfigFile, filePath, ignores);
    var r := ClosedIndex(out.retired, k);
    RetiredLinesMember(out.retired, x);
    WithoutKeeps(lines, out.toRemove, x);
  }

  /**
   * A line that contains the tag but matches no comment format is never
   * removed, stays in the file, and joins no added block.
   */
  lemma StrayTagLineStays(
    lines: seq<LineInfo>, aliases: map<string, Author>, hasAuthorConfigFile: bool, filePath: string,
    ignores: (Author, string) -> bool, x: LineInfo)
    requires x in lines && HasTag(x) && !IsTagLine(x)
    ensures var out := Outcome(lines, aliases, hasAuthorConfigFile, filePath, ignores);
      && x !in out.toRemove
      && x in Without(lines, out.toRemove)
      && forall k :: 0 <= k < |out.toAdd| ==> x !in out.toAdd[k].lines
  {
    var out := Outcome(lines, aliases, hasAuthorConfigFile, filePath, ignores);
    ScanKeepsBooks(lines, |lines|, aliases, hasAuthorConfigFile, filePath, ignores);
    if x in out.toRemove {
      NoStrayTagMember(out.toRemove, x);
    }
    WithoutKeeps(lines, out.toRemove, x);
    forall k | 0 <= k < |out.toAdd| ensures x !in out.toAdd[k].lines {
      AddedLinesRemoved(lines, aliases, hasAuthorConfigFile, filePath, ignores, k, x);
    }
  }

  /** Over lines without the tag the loop never leaves its initial state. */
  lemma {:induction false} UntaggedScanIdle(
    lines: seq<LineInfo>, n: nat, aliases: map<string, Author>, hasAuthorConfigFile: bool,
    filePath: string, ignores: (Author, string) -> bool)
    requires n <= |lines| && forall k :: 0 <= k < n ==> !HasTag(lines[k])
    ensures Scan(lines, n, aliases, hasAuthorConfigFile, filePath, ignores) == ScanState(false, None, [], [], aliases, [], 0)
  {
    if n > 0 {
      UntaggedScanIdle(lines, n - 1, aliases, hasAuthorConfigFile, filePath, ignores);
    }
  }

  /** A file with no `@@author` line keeps all its lines, gains no block, and registers no alias. */
  lemma NoAnnotationsNoChange(
    lines: seq<LineInfo>, aliases: map<string, Author>, hasAuthorConfigFile: bool, filePath: string,
    ignores: (Author, string) -> bool)
    requires forall k :: 0 <= k < |lines| ==> !HasTag(lines[k])
    ensures var out := Outcome(lines, aliases, hasAuthorConfigFile, filePath, ignores);
      && out.toRemove == [] && out.toAdd == [] && out.aliases == aliases
      && Without(lines, out.toRemove) == lines
  {
    UntaggedScanIdle(lines, |lines|, aliases, hasAuthorConfigFile, filePath, ignores);
    WithoutAbsent(lines, []);
  }

  /** `// @@author ` (a space after the tag) is a tag line in the `//` format. */
  lemma SpaceAfterTagMatches()
    ensures CheckValidCommentLine("// @@author ") == 0
  {
    var end := Formats[0].end;
    assert MatchesAfterStart("@@author ", end) by { assert "@@author "[..8] == AuthorTag && "@@author "[8..] == " "; }
    assert MatchesAfterStart(" @@author ", end) by { assert " @@author "[1..] == "@@author "; }
    assert MatchesCommentPattern("// @@author ", Formats[0]) by { assert "// @@author "[2..] == " @@author "; }
  }

  /** `// @@author` (nothing after the tag) is a tag line in the `//` format. */
  lemma BareTagMatches()
    ensures CheckValidCommentLine("// @@author") == 0
  {
    var end := Formats[0].end;
    assert MatchesAfterStart("@@author", end) by { assert "@@author"[..8] == AuthorTag && "@@author"[8..] == []; }
    assert MatchesAfterStart(" @@author", end) by { assert " @@author"[1..] == "@@author"; }
    assert MatchesCommentPattern("// @@author", Formats[0]) by { assert "// @@author"[2..] == " @@author"; }
  }

  /** The split keeps the piece `" "` after the tag, which trims to `""`. */
  lemma SpaceAfterTagParameters()
    ensures ExtractAuthorsParameters("// @@author ", 0) == Some("")
  {
    SplitAtFirst("// ", AuthorTag, " ");
    assert "// @@author " == "// " + AuthorTag + " ";
    assert RawSplit(" ", AuthorTag) == [" "];
  }

  /** The split drops the empty piece after the tag, leaving one piece: `null`. */
  lemma BareTagParameters()
    ensures ExtractAuthorsParameters("// @@author", 0) == None
  {
    SplitAtFirst("// ", AuthorTag, "");
    assert "// @@author" == "// " + AuthorTag + "";
    assert RawSplit("", AuthorTag) == [""];
  }

  /**
   * Inside a block, `// @@author` ends the block, but `// @@author ` with a
   * trailing space is answered with `{UNKNOWN_AUTHOR: 1}` and so opens a new
   * block in place of the open one.
   */
  lemma SpaceAfterTagOpensBlock(
    aliases: map<string, Author>, hasAuthorConfigFile: bool, filePath: string,
    ignores: (Author, string) -> bool)
    ensures var spaced, bare := "// @@author ", "// @@author";
      && CheckValidCommentLine(spaced) >= 0 && CheckValidCommentLine(bare) >= 0
      && FindAuthors(ExtractAuthorsParameters(spaced, CheckValidCommentLine(spaced)), aliases, hasAuthorConfigFile,
                     true, filePath, ignores).authors == Some(UnknownOnly())
      && FindAuthors(ExtractAuthorsParameters(bare, CheckValidCommentLine(bare)), aliases, hasAuthorConfigFile,
                     true, filePath, ignores).authors == None
  {
    SpaceAfterTagMatches();
    BareTagMatches();
    SpaceAfterTagParameters();
    BareTagParameters();
  }
}
