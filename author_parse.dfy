/**
 * `findAuthorsInLine`: the name/weight groups of an `@@author` line, their
 * resolution against the author configuration (registering unknown names
 * when there is no configuration file), and the fallbacks to the unknown
 * author. Line numbers in comments refer to `AnnotatorAnalyzer.java`.
 */
module AuthorParse {
  import opened Wrappers
  import opened Strings
  import opened CommentFormat
  import opened Authors

  /** `[a-zA-Z0-9]` followed by at most 38 more name characters. */
  const MaxNameLength: nat := 39

  /** Position `k` of `s` is a name unit: `[a-zA-Z0-9]|-(?=[a-zA-Z0-9])`. */
  predicate IsNameUnit(s: string, k: nat)
    requires k < |s|
  {
    IsAlnum(s[k]) || (s[k] == '-' && k + 1 < |s| && IsAlnum(s[k + 1]))
  }

  /** A name the pattern accepts: the GitHub user-name format. */
  predicate ValidName(name: string) {
    && 1 <= |name| <= MaxNameLength
    && IsAlnum(name[0])
    && forall k :: 0 <= k < |name| ==> IsNameUnit(name, k)
  }

  /** Length of the maximal run of name units of `s` from `p`. */
  function NameRun(s: string, p: nat): (n: nat)
    requires p <= |s|
    ensures p + n <= |s|
    ensures forall k :: p <= k < p + n ==> IsNameUnit(s, k)
    ensures p + n == |s| || !IsNameUnit(s, p + n)
    decreases |s| - p
  {
    if p < |s| && IsNameUnit(s, p) then 1 + NameRun(s, p + 1) else 0
  }

  /** Length of the maximal run of digits of `s` from `p` (the greedy `\d*`). */
  function DigitRun(s: string, p: nat): (n: nat)
    requires p <= |s|
    ensures p + n <= |s|
    ensures AllDigits(s[p..p + n])
    ensures p + n == |s| || !IsDigit(s[p + n])
    decreases |s| - p
  {
    if p < |s| && IsDigit(s[p]) then
      var n := DigitRun(s, p + 1);
      assert s[p..p + 1 + n] == [s[p]] + s[p + 1..p + 1 + n];
      1 + n
    else 0
  }

  /**
   * `REGEX_AUTHOR_NAME_FORMAT` matches at `p`. Name units and `\s` are
   * disjoint, so backtracking never helps: the match exists exactly when the
   * maximal name run from an alphanumeric at `p` has at most 39 characters and
   * is followed by whitespace.
   */
  predicate MatchesAt(s: string, p: nat) {
    && p < |s|
    && IsAlnum(s[p])
    && NameRun(s, p) <= MaxNameLength
    && p + NameRun(s, p) < |s|
    && IsSpace(s[p + NameRun(s, p)])
  }

  /** One match of the name pattern: the name, the one whitespace after it, and the digits. */
  datatype NameMatch = NameMatch(name: string, separator: char, digits: string) {
    /** `matcher.group()`. */
    function Group(): string {
      name + [separator] + digits
    }

    /** What the pattern guarantees of every match. */
    predicate WellFormed() {
      ValidName(name) && IsSpace(separator) && AllDigits(digits)
    }

    /** `group().split(" ")` has one piece, so reading its second piece throws. */
    predicate Unsplittable() {
      separator != ' ' || digits == []
    }
  }

  /** The match found at `p`. */
  function MatchAt(s: string, p: nat): (m: NameMatch)
    requires MatchesAt(s, p)
    ensures m.WellFormed()
  {
    var n := NameRun(s, p);
    var name := s[p..p + n];
    assert forall k :: 0 <= k < n ==> name[k] == s[p + k];
    forall k | 0 <= k < n ensures IsNameUnit(name, k) {
      assert IsNameUnit(s, p + k);
      if s[p + k] == '-' {
        assert IsNameUnit(s, p + k + 1);
      }
    }
    NameMatch(name, s[p + n], s[p + n + 1..p + n + 1 + DigitRun(s, p + n + 1)])
  }

  /** Where the match found at `p` ends, and the text it covers. */
  function MatchEnd(s: string, p: nat): (e: nat)
    requires MatchesAt(s, p)
    ensures p < e <= |s|
    ensures s[p..e] == MatchAt(s, p).Group()
  {
    var n := NameRun(s, p);
    var e := p + n + 1 + DigitRun(s, p + n + 1);
    assert s[p..e] == s[p..p + n] + [s[p + n]] + s[p + n + 1..e];
    e
  }

  /** `matcher.find()` resumed at `from`: the first position at or after `from` where a match starts. */
  function Find(s: string, from: nat): (r: Option<nat>)
    ensures r.Some? ==> from <= r.value && MatchesAt(s, r.value)
    ensures r.Some? ==> forall q :: from <= q < r.value ==> !MatchesAt(s, q)
    ensures r.None? ==> forall q :: from <= q ==> !MatchesAt(s, q)
    decreases |s| - from
  {
    if from >= |s| then None
    else if MatchesAt(s, from) then Some(from)
    else Find(s, from + 1)
  }

  /** The successive matches `matcher.find()` reports from `from` on. */
  function Matches(s: string, from: nat): (ms: seq<NameMatch>)
    ensures forall k :: 0 <= k < |ms| ==> ms[k].WellFormed()
    decreases |s| - from
  {
    match Find(s, from)
    case None => []
    case Some(p) => [MatchAt(s, p)] + Matches(s, MatchEnd(s, p))
  }

  /** `Integer.parseInt` on a run of decimal digits. */
  function ParseInt(digits: string): (n: int)
    ensures AllDigits(digits) ==> n >= 0
  {
    if digits == [] then 0
    else ParseInt(digits[..|digits| - 1]) * 10 + (digits[|digits| - 1] as int - '0' as int)
  }

  /**
   * `group().split(" ")` yields the name and the digits exactly when the
   * separator is a space and the digits are not empty; otherwise a single
   * piece. So the `"100"` default for an empty second piece is never used.
   */
  lemma GroupSplit(m: NameMatch)
    requires m.WellFormed()
    ensures var parts := JavaSplit(m.Group(), " ");
      && (|parts| >= 2 <==> !m.Unsplittable())
      && (|parts| >= 2 ==> parts == [m.name, m.digits])
  {
    var g := m.Group();
    assert forall k :: 0 <= k < |m.name| ==> m.name[k] != ' ' by {
      forall k | 0 <= k < |m.name| ensures m.name[k] != ' ' {
        assert IsNameUnit(m.name, k);
      }
    }
    assert forall k :: 0 <= k < |m.digits| ==> m.digits[k] != ' ' by {
      forall k | 0 <= k < |m.digits| ensures m.digits[k] != ' ' {
        assert IsDigit(m.digits[k]);
      }
    }
    if m.separator == ' ' {
      SplitOnce(m.name, m.digits, ' ');
    } else {
      forall k | 0 <= k < |g| ensures g[k] != ' ' {
        if k < |m.name| { assert g[k] == m.name[k]; }
        else if k > |m.name| { assert g[k] == m.digits[k - |m.name| - 1]; }
      }
      SplitWithoutSeparator(g, ' ');
    }
  }

  /** The state of the `while (matcher.find())` loop. */
  datatype MatchScan = MatchScan(authors: map<Author, int>, aliases: map<string, Author>, thrown: bool)

  /**
   * The author a name resolves to after `addAuthor` (lines 136-140): its
   * configured author, a new author of that name when there is no
   * configuration file, the unknown author otherwise.
   */
  function Resolve(name: string, aliases: map<string, Author>, hasAuthorConfigFile: bool): Author {
    if name in aliases then aliases[name]
    else if hasAuthorConfigFile then UnknownAuthor
    else Author(name)
  }

  /** `addAuthor` at lines 136-138: a name absent from the map is registered when there is no configuration file. */
  function Register(aliases: map<string, Author>, name: string, hasAuthorConfigFile: bool): (r: map<string, Author>)
    ensures forall n :: n in aliases ==> n in r && r[n] == aliases[n]
    ensures forall n :: n in r && n !in aliases ==> n == name && !hasAuthorConfigFile && r[n] == Author(name)
    ensures !hasAuthorConfigFile ==> name in r
  {
    if name !in aliases && !hasAuthorConfigFile then aliases[name := Author(name)] else aliases
  }

  /**
   * `Resolve` is what the source does in two steps: register the name
   * (lines 136-138), then look it up with `getOrDefault` (line 140).
   */
  lemma ResolveAfterRegister(name: string, aliases: map<string, Author>, hasAuthorConfigFile: bool)
    ensures var registered := Register(aliases, name, hasAuthorConfigFile);
      Resolve(name, aliases, hasAuthorConfigFile) == if name in registered then registered[name] else UnknownAuthor
  {
  }

  /**
   * One iteration of the loop (lines 130-146), read off the match's parts
   * rather than its split (`GroupSplit` relates the two): an unsplittable
   * group throws; otherwise its name is registered, and its resolved author
   * gets the value of its digits unless that author ignores the file.
   */
  function GroupStep(
    st: MatchScan, m: NameMatch, hasAuthorConfigFile: bool,
    filePath: string, ignores: (Author, string) -> bool): (r: MatchScan)
    ensures r.thrown <==> st.thrown || m.Unsplittable()
    ensures st.thrown ==> r == st
  {
    if st.thrown then st
    else if m.Unsplittable() then st.(thrown := true)
    else
      var a := Resolve(m.name, st.aliases, hasAuthorConfigFile);
      MatchScan(if !ignores(a, filePath) then st.authors[a := ParseInt(m.digits)] else st.authors,
                Register(st.aliases, m.name, hasAuthorConfigFile), false)
  }

  /** The loop run over the matches `ms`, from an empty map and the alias map `aliases`. */
  function GroupScan(
    ms: seq<NameMatch>, aliases: map<string, Author>, hasAuthorConfigFile: bool,
    filePath: string, ignores: (Author, string) -> bool): MatchScan
    decreases |ms|
  {
    if ms == [] then MatchScan(map[], aliases, false)
    else
      GroupStep(GroupScan(ms[..|ms| - 1], aliases, hasAuthorConfigFile, filePath, ignores),
                ms[|ms| - 1], hasAuthorConfigFile, filePath, ignores)
  }

  /** One more iteration of the loop. */
  lemma GroupScanSnoc(
    ms: seq<NameMatch>, m: NameMatch, init: map<string, Author>, hasAuthorConfigFile: bool,
    filePath: string, ignores: (Author, string) -> bool)
    ensures GroupScan(ms + [m], init, hasAuthorConfigFile, filePath, ignores)
      == GroupStep(GroupScan(ms, init, hasAuthorConfigFile, filePath, ignores), m, hasAuthorConfigFile, filePath, ignores)
  {
    assert (ms + [m])[..|ms|] == ms;
  }

  /** No group among `ms[0..k]` is unsplittable: the loop got past match `k`. */
  predicate GoodThrough(ms: seq<NameMatch>, k: nat)
    requires k < |ms|
  {
    forall j :: 0 <= j <= k ==> !ms[j].Unsplittable()
  }

  /** No later match in `ms` resolves to the same author as match `k`. */
  predicate LastFor(ms: seq<NameMatch>, k: nat, aliases: map<string, Author>, hasAuthorConfigFile: bool)
    requires k < |ms|
  {
    forall u :: k < u < |ms| ==>
      Resolve(ms[u].name, aliases, hasAuthorConfigFile) != Resolve(ms[k].name, aliases, hasAuthorConfigFile)
  }

  /** `aliases` is `init` with only new authors added under their own names, and only without a configuration file. */
  predicate ExtendsAliases(init: map<string, Author>, aliases: map<string, Author>, hasAuthorConfigFile: bool) {
    && (forall n :: n in init ==> n in aliases && aliases[n] == init[n])
    && (forall n :: n in aliases && n !in init ==> !hasAuthorConfigFile && aliases[n] == Author(n))
  }

  /** The loop throws exactly when some group is unsplittable. */
  lemma {:induction false} ScanThrows(
    ms: seq<NameMatch>, init: map<string, Author>, hasAuthorConfigFile: bool,
    filePath: string, ignores: (Author, string) -> bool)
    ensures GroupScan(ms, init, hasAuthorConfigFile, filePath, ignores).thrown <==>
      exists k :: 0 <= k < |ms| && ms[k].Unsplittable()
    decreases |ms|
  {
    if ms != [] {
      var prefix := ms[..|ms| - 1];
      assert forall k :: 0 <= k < |prefix| ==> prefix[k] == ms[k];
      ScanThrows(prefix, init, hasAuthorConfigFile, filePath, ignores);
      if exists k :: 0 <= k < |ms| && ms[k].Unsplittable() {
        var k :| 0 <= k < |ms| && ms[k].Unsplittable();
        if k < |prefix| { assert prefix[k].Unsplittable(); }
      }
    }
  }

  /** Regrouping a concatenation of three sequences. */
  lemma ConcatAssoc<T>(a: seq<T>, b: seq<T>, c: seq<T>)
    ensures a + (b + c) == (a + b) + c
  {
  }

  /** Once the loop has thrown, further matches change nothing. */
  lemma {:induction false} StaysThrown(
    ms: seq<NameMatch>, more: seq<NameMatch>, init: map<string, Author>, hasAuthorConfigFile: bool,
    filePath: string, ignores: (Author, string) -> bool)
    requires GroupScan(ms, init, hasAuthorConfigFile, filePath, ignores).thrown
    ensures GroupScan(ms + more, init, hasAuthorConfigFile, filePath, ignores)
      == GroupScan(ms, init, hasAuthorConfigFile, filePath, ignores)
    decreases |more|
  {
    if more != [] {
      var shorter := more[..|more| - 1];
      StaysThrown(ms, shorter, init, hasAuthorConfigFile, filePath, ignores);
      assert more == shorter + [more[|more| - 1]];
      assert ms + more == (ms + shorter) + [more[|more| - 1]];
      GroupScanSnoc(ms + shorter, more[|more| - 1], init, hasAuthorConfigFile, filePath, ignores);
    } else {
      assert ms + more == ms;
    }
  }

  /**
   * The alias map only grows: every entry of `init` survives unchanged, and a
   * new entry maps a name to a new author of that name, and only when there
   * is no configuration file.
   */
  lemma {:induction false} ScanAliasesExtend(
    ms: seq<NameMatch>, init: map<string, Author>, hasAuthorConfigFile: bool,
    filePath: string, ignores: (Author, string) -> bool)
    ensures ExtendsAliases(init, GroupScan(ms, init, hasAuthorConfigFile, filePath, ignores).aliases, hasAuthorConfigFile)
    ensures hasAuthorConfigFile ==> GroupScan(ms, init, hasAuthorConfigFile, filePath, ignores).aliases == init
    decreases |ms|
  {
    if ms != [] {
      ScanAliasesExtend(ms[..|ms| - 1], init, hasAuthorConfigFile, filePath, ignores);
    }
  }

  /** `n` is the name of one of the groups `ms`. */
  predicate IsGroupName(n: string, ms: seq<NameMatch>) {
    exists k :: 0 <= k < |ms| && ms[k].name == n
  }

  /** A name the loop adds to the alias map is the name of one of its groups. */
  lemma {:induction false} ScanAliasesFromGroups(
    ms: seq<NameMatch>, init: map<string, Author>, hasAuthorConfigFile: bool,
    filePath: string, ignores: (Author, string) -> bool)
    ensures var r := GroupScan(ms, init, hasAuthorConfigFile, filePath, ignores);
      forall n :: n in r.aliases && n !in init ==> IsGroupName(n, ms)
    decreases |ms|
  {
    if ms != [] {
      var prefix := ms[..|ms| - 1];
      var m := ms[|ms| - 1];
      ScanAliasesFromGroups(prefix, init, hasAuthorConfigFile, filePath, ignores);
      var st := GroupScan(prefix, init, hasAuthorConfigFile, filePath, ignores);
      var r := GroupScan(ms, init, hasAuthorConfigFile, filePath, ignores);
      forall n | n in r.aliases && n !in init ensures IsGroupName(n, ms) {
        if n in st.aliases {
          var k :| 0 <= k < |prefix| && prefix[k].name == n;
          assert ms[k] == prefix[k];
        } else {
          assert ms[|ms| - 1].name == n;
        }
      }
    }
  }

  /** Without a configuration file, every name the loop got to is registered. */
  lemma {:induction false} ScanAliasesRegistered(
    ms: seq<NameMatch>, init: map<string, Author>, hasAuthorConfigFile: bool,
    filePath: string, ignores: (Author, string) -> bool)
    requires !hasAuthorConfigFile
    ensures var r := GroupScan(ms, init, hasAuthorConfigFile, filePath, ignores);
      forall k :: 0 <= k < |ms| && GoodThrough(ms, k) ==> ms[k].name in r.aliases
    decreases |ms|
  {
    if ms != [] {
      var prefix := ms[..|ms| - 1];
      assert forall k :: 0 <= k < |prefix| ==> prefix[k] == ms[k];
      ScanAliasesRegistered(prefix, init, hasAuthorConfigFile, filePath, ignores);
      ScanThrows(prefix, init, hasAuthorConfigFile, filePath, ignores);
      var r := GroupScan(ms, init, hasAuthorConfigFile, filePath, ignores);
      forall k | 0 <= k < |ms| && GoodThrough(ms, k) ensures ms[k].name in r.aliases {
        if k < |prefix| {
          assert GoodThrough(prefix, k);
        }
      }
    }
  }

  /** Registering names never changes what a name resolves to. */
  lemma ResolveStable(name: string, init: map<string, Author>, aliases: map<string, Author>, hasAuthorConfigFile: bool)
    requires ExtendsAliases(init, aliases, hasAuthorConfigFile)
    ensures Resolve(name, aliases, hasAuthorConfigFile) == Resolve(name, init, hasAuthorConfigFile)
  {
  }

  /** Every author in the loop's map is the resolved author of a group, and does not ignore the file. */
  lemma {:induction false} ScanKeysFromGroups(
    ms: seq<NameMatch>, a: Author, init: map<string, Author>, hasAuthorConfigFile: bool,
    filePath: string, ignores: (Author, string) -> bool)
    requires a in GroupScan(ms, init, hasAuthorConfigFile, filePath, ignores).authors
    ensures !ignores(a, filePath)
    ensures exists k :: 0 <= k < |ms| && Resolve(ms[k].name, init, hasAuthorConfigFile) == a
    decreases |ms|
  {
    var prefix := ms[..|ms| - 1];
    var m := ms[|ms| - 1];
    ScanAliasesExtend(prefix, init, hasAuthorConfigFile, filePath, ignores);
    var st := GroupScan(prefix, init, hasAuthorConfigFile, filePath, ignores);
    ResolveStable(m.name, init, st.aliases, hasAuthorConfigFile);
    if a in st.authors {
      ScanKeysFromGroups(prefix, a, init, hasAuthorConfigFile, filePath, ignores);
      var k :| 0 <= k < |prefix| && Resolve(prefix[k].name, init, hasAuthorConfigFile) == a;
      assert ms[k] == prefix[k];
    } else {
      assert Resolve(ms[|ms| - 1].name, init, hasAuthorConfigFile) == a;
    }
  }

  /**
   * When no group up to `k` is unsplittable, the resolved author of group `k`
   * is in the loop's map unless it ignores the file.
   */
  lemma {:induction false} ScanKeysOfGroup(
    ms: seq<NameMatch>, k: nat, init: map<string, Author>, hasAuthorConfigFile: bool,
    filePath: string, ignores: (Author, string) -> bool)
    requires forall j :: 0 <= j < |ms| ==> !ms[j].Unsplittable()
    requires k < |ms| && !ignores(Resolve(ms[k].name, init, hasAuthorConfigFile), filePath)
    ensures Resolve(ms[k].name, init, hasAuthorConfigFile) in GroupScan(ms, init, hasAuthorConfigFile, filePath, ignores).authors
    decreases |ms|
  {
    var prefix := ms[..|ms| - 1];
    var m := ms[|ms| - 1];
    assert forall j :: 0 <= j < |prefix| ==> prefix[j] == ms[j];
    ScanAliasesExtend(prefix, init, hasAuthorConfigFile, filePath, ignores);
    ScanThrows(prefix, init, hasAuthorConfigFile, filePath, ignores);
    var st := GroupScan(prefix, init, hasAuthorConfigFile, filePath, ignores);
    ResolveStable(m.name, init, st.aliases, hasAuthorConfigFile);
    if k < |prefix| {
      ScanKeysOfGroup(prefix, k, init, hasAuthorConfigFile, filePath, ignores);
    }
  }

  /** Author `a` is the resolved author of some group that does not ignore the file. */
  predicate Attributed(
    a: Author, ms: seq<NameMatch>, aliases: map<string, Author>, hasAuthorConfigFile: bool,
    filePath: string, ignores: (Author, string) -> bool)
  {
    exists k :: 0 <= k < |ms| && Resolve(ms[k].name, aliases, hasAuthorConfigFile) == a && !ignores(a, filePath)
  }

  /**
   * When no group is unsplittable, the loop runs to the end and the map's keys
   * are exactly the resolved authors of the groups that do not ignore the file.
   */
  lemma ScanKeys(
    ms: seq<NameMatch>, init: map<string, Author>, hasAuthorConfigFile: bool,
    filePath: string, ignores: (Author, string) -> bool)
    requires forall k :: 0 <= k < |ms| ==> !ms[k].Unsplittable()
    ensures var r := GroupScan(ms, init, hasAuthorConfigFile, filePath, ignores);
      && !r.thrown
      && forall a :: a in r.authors <==> Attributed(a, ms, init, hasAuthorConfigFile, filePath, ignores)
  {
    ScanThrows(ms, init, hasAuthorConfigFile, filePath, ignores);
    var r := GroupScan(ms, init, hasAuthorConfigFile, filePath, ignores);
    forall a ensures a in r.authors <==> Attributed(a, ms, init, hasAuthorConfigFile, filePath, ignores) {
      if a in r.authors {
        ScanKeysFromGroups(ms, a, init, hasAuthorConfigFile, filePath, ignores);
      }
      if Attributed(a, ms, init, hasAuthorConfigFile, filePath, ignores) {
        var k :| 0 <= k < |ms| && Resolve(ms[k].name, init, hasAuthorConfigFile) == a && !ignores(a, filePath);
        ScanKeysOfGroup(ms, k, init, hasAuthorConfigFile, filePath, ignores);
      }
    }
  }

  /**
   * When no group is unsplittable, an author in the map carries the decimal
   * value of the digits of the last group that resolves to it (`HashMap.put`
   * overwrites).
   */
  lemma {:induction false} ScanWeights(
    ms: seq<NameMatch>, k: nat, init: map<string, Author>, hasAuthorConfigFile: bool,
    filePath: string, ignores: (Author, string) -> bool)
    requires forall j :: 0 <= j < |ms| ==> !ms[j].Unsplittable()
    requires k < |ms| && LastFor(ms, k, init, hasAuthorConfigFile)
    requires !ignores(Resolve(ms[k].name, init, hasAuthorConfigFile), filePath)
    ensures var r := GroupScan(ms, init, hasAuthorConfigFile, filePath, ignores);
      && Resolve(ms[k].name, init, hasAuthorConfigFile) in r.authors
      && r.authors[Resolve(ms[k].name, init, hasAuthorConfigFile)] == ParseInt(ms[k].digits)
    decreases |ms|
  {
    var prefix := ms[..|ms| - 1];
    var m := ms[|ms| - 1];
    assert forall j :: 0 <= j < |prefix| ==> prefix[j] == ms[j];
    ScanAliasesExtend(prefix, init, hasAuthorConfigFile, filePath, ignores);
    ScanThrows(prefix, init, hasAuthorConfigFile, filePath, ignores);
    var st := GroupScan(prefix, init, hasAuthorConfigFile, filePath, ignores);
    assert !st.thrown;
    ResolveStable(m.name, init, st.aliases, hasAuthorConfigFile);
    var a := Resolve(m.name, init, hasAuthorConfigFile);
    assert GroupScan(ms, init, hasAuthorConfigFile, filePath, ignores)
      == GroupStep(st, m, hasAuthorConfigFile, filePath, ignores);
    var authors := GroupScan(ms, init, hasAuthorConfigFile, filePath, ignores).authors;
    assert authors == if !ignores(a, filePath) then st.authors[a := ParseInt(m.digits)] else st.authors;
    var ak := Resolve(ms[k].name, init, hasAuthorConfigFile);
    if k < |prefix| {
      assert LastFor(prefix, k, init, hasAuthorConfigFile);
      ScanWeights(prefix, k, init, hasAuthorConfigFile, filePath, ignores);
      assert a != ak;
      assert ak in st.authors && st.authors[ak] == ParseInt(ms[k].digits);
      assert ak in authors && authors[ak] == st.authors[ak];
    } else {
      assert ms[k] == m && ak == a;
      assert authors == st.authors[a := ParseInt(m.digits)];
    }
  }

  /** What `findAuthorsInLine` returns, with the alias map it leaves behind. */
  datatype FoundAuthors = FoundAuthors(authors: Option<map<Author, int>>, aliases: map<string, Author>)

  /** The map holding only the unknown author with weight 1. */
  function UnknownOnly(): map<Author, int> {
    map[UnknownAuthor := 1]
  }

  /**
   * `findAuthorsInLine` as a function of what `extractAuthorsParameters`
   * returned for the line, the alias map before the call,
   * `hasAuthorConfigFile()`, whether a block is open, and `isIgnoringFile`
   * on the file's path.
   */
  function FindAuthors(
    authorsParameters: Option<string>, aliases: map<string, Author>, hasAuthorConfigFile: bool,
    foundStartAnnotation: bool, filePath: string, ignores: (Author, string) -> bool): FoundAuthors
  {
    match authorsParameters
    case None =>
      FoundAuthors(if !foundStartAnnotation then Some(UnknownOnly()) else None, aliases)
    case Some(p) =>
      var st := GroupScan(Matches(p, 0), aliases, hasAuthorConfigFile, filePath, ignores);
      if st.thrown then
        FoundAuthors(if !foundStartAnnotation then Some(UnknownOnly()) else None, st.aliases)
      else
        FoundAuthors(Some(if |st.authors| == 0 then UnknownOnly() else st.authors), st.aliases)
  }

  /**
   * The tag line reads as the end of a block: its parameters are `null`, or
   * one of its groups is unsplittable.
   */
  predicate SignalsEnd(authorsParameters: Option<string>) {
    match authorsParameters
    case None => true
    case Some(p) => exists k :: 0 <= k < |Matches(p, 0)| && Matches(p, 0)[k].Unsplittable()
  }

  /**
   * The line names an author that gets into the map: parameters exist, no
   * group is unsplittable, and some group resolves to an author that does not
   * ignore the file.
   */
  predicate NamesAttributedAuthor(
    authorsParameters: Option<string>, aliases: map<string, Author>, hasAuthorConfigFile: bool,
    filePath: string, ignores: (Author, string) -> bool)
  {
    match authorsParameters
    case None => false
    case Some(p) =>
      var ms := Matches(p, 0);
      && (forall k :: 0 <= k < |ms| ==> !ms[k].Unsplittable())
      && exists k :: 0 <= k < |ms| && !ignores(Resolve(ms[k].name, aliases, hasAuthorConfigFile), filePath)
  }

  /**
   * The close signal and the fallbacks: with no block open a map is always
   * returned; every returned map is non-empty; `Optional.empty()` comes back
   * exactly when a block is open and the line signals an end; and a returned
   * map that attributes no named author is `{UNKNOWN_AUTHOR: 1}`.
   */
  lemma FindAuthorsOutcome(
    authorsParameters: Option<string>, aliases: map<string, Author>, hasAuthorConfigFile: bool,
    foundStartAnnotation: bool, filePath: string, ignores: (Author, string) -> bool)
    ensures var r := FindAuthors(authorsParameters, aliases, hasAuthorConfigFile, foundStartAnnotation, filePath, ignores);
      && (!foundStartAnnotation ==> r.authors.Some?)
      && (r.authors.Some? ==> |r.authors.value| > 0)
      && (r.authors.None? <==> foundStartAnnotation && SignalsEnd(authorsParameters))
      && ((r.authors.Some? && !NamesAttributedAuthor(authorsParameters, aliases, hasAuthorConfigFile, filePath, ignores))
            ==> r.authors.value == UnknownOnly())
  {
    match authorsParameters
    case None =>
    case Some(p) =>
      var ms := Matches(p, 0);
      ScanThrows(ms, aliases, hasAuthorConfigFile, filePath, ignores);
      var st := GroupScan(ms, aliases, hasAuthorConfigFile, filePath, ignores);
      if !st.thrown {
        ScanKeys(ms, aliases, hasAuthorConfigFile, filePath, ignores);
        if NamesAttributedAuthor(authorsParameters, aliases, hasAuthorConfigFile, filePath, ignores) {
          var k :| 0 <= k < |ms| && !ignores(Resolve(ms[k].name, aliases, hasAuthorConfigFile), filePath);
          ScanKeysOfGroup(ms, k, aliases, hasAuthorConfigFile, filePath, ignores);
        } else {
          assert forall a :: !Attributed(a, ms, aliases, hasAuthorConfigFile, filePath, ignores);
          assert st.authors == map[];
        }
      }
  }

  /**
   * When the line names an author that gets into the map, the result's keys
   * are exactly the resolved authors of its groups that do not ignore the
   * file.
   */
  lemma FindAuthorsKeys(
    authorsParameters: Option<string>, aliases: map<string, Author>, hasAuthorConfigFile: bool,
    foundStartAnnotation: bool, filePath: string, ignores: (Author, string) -> bool)
    requires NamesAttributedAuthor(authorsParameters, aliases, hasAuthorConfigFile, filePath, ignores)
    ensures var r := FindAuthors(authorsParameters, aliases, hasAuthorConfigFile, foundStartAnnotation, filePath, ignores);
      var ms := Matches(authorsParameters.value, 0);
      && r.authors.Some?
      && forall a :: a in r.authors.value <==> Attributed(a, ms, aliases, hasAuthorConfigFile, filePath, ignores)
  {
    var ms := Matches(authorsParameters.value, 0);
    ScanKeys(ms, aliases, hasAuthorConfigFile, filePath, ignores);
    var k :| 0 <= k < |ms| && !ignores(Resolve(ms[k].name, aliases, hasAuthorConfigFile), filePath);
    ScanKeysOfGroup(ms, k, aliases, hasAuthorConfigFile, filePath, ignores);
  }

  /**
   * When the line names an author that gets into the map, the author of its
   * group `k` (if it does not ignore the file) gets the decimal value of the
   * digits of the last group that resolves to that author.
   */
  lemma FindAuthorsWeight(
    authorsParameters: Option<string>, k: nat, aliases: map<string, Author>, hasAuthorConfigFile: bool,
    foundStartAnnotation: bool, filePath: string, ignores: (Author, string) -> bool)
    requires NamesAttributedAuthor(authorsParameters, aliases, hasAuthorConfigFile, filePath, ignores)
    requires authorsParameters.Some?
    requires var ms := Matches(authorsParameters.value, 0);
      && k < |ms| && LastFor(ms, k, aliases, hasAuthorConfigFile)
      && !ignores(Resolve(ms[k].name, aliases, hasAuthorConfigFile), filePath)
    ensures var r := FindAuthors(authorsParameters, aliases, hasAuthorConfigFile, foundStartAnnotation, filePath, ignores);
      var ms := Matches(authorsParameters.value, 0);
      && r.authors.Some?
      && Resolve(ms[k].name, aliases, hasAuthorConfigFile) in r.authors.value
      && r.authors.value[Resolve(ms[k].name, aliases, hasAuthorConfigFile)] == ParseInt(ms[k].digits)
  {
    var ms := Matches(authorsParameters.value, 0);
    ScanKeys(ms, aliases, hasAuthorConfigFile, filePath, ignores);
    ScanWeights(ms, k, aliases, hasAuthorConfigFile, filePath, ignores);
  }

  /**
   * `addAuthor` only adds: the alias map after the call extends the one
   * before, a new entry is a name of one of the line's groups, nothing is
   * added when there is a configuration file or no parameters, and without a
   * configuration file every name the loop reached is registered.
   */
  lemma FindAuthorsAliases(
    authorsParameters: Option<string>, aliases: map<string, Author>, hasAuthorConfigFile: bool,
    foundStartAnnotation: bool, filePath: string, ignores: (Author, string) -> bool)
    ensures var r := FindAuthors(authorsParameters, aliases, hasAuthorConfigFile, foundStartAnnotation, filePath, ignores);
      && ExtendsAliases(aliases, r.aliases, hasAuthorConfigFile)
      && (hasAuthorConfigFile ==> r.aliases == aliases)
      && (authorsParameters.None? ==> r.aliases == aliases)
      && (authorsParameters.Some? ==>
            var ms := Matches(authorsParameters.value, 0);
            && (forall n :: n in r.aliases && n !in aliases ==> IsGroupName(n, ms))
            && (!hasAuthorConfigFile ==> forall k :: 0 <= k < |ms| && GoodThrough(ms, k) ==> ms[k].name in r.aliases))
  {
    if authorsParameters.Some? {
      var ms := Matches(authorsParameters.value, 0);
      assert FindAuthors(authorsParameters, aliases, hasAuthorConfigFile, foundStartAnnotation, filePath, ignores).aliases
        == GroupScan(ms, aliases, hasAuthorConfigFile, filePath, ignores).aliases;
      ScanAliasesExtend(ms, aliases, hasAuthorConfigFile, filePath, ignores);
      ScanAliasesFromGroups(ms, aliases, hasAuthorConfigFile, filePath, ignores);
      if !hasAuthorConfigFile {
        ScanAliasesRegistered(ms, aliases, hasAuthorConfigFile, filePath, ignores);
      }
    }
  }

  /**
   * `findAuthorsInLine`. The alias map is read from the configuration at each
   * use, so a name registered by `addAuthor` resolves to its new author at
   * line 140.
   */
  method FindAuthorsInLine(
    line: string, authorConfig: AuthorConfiguration, foundStartAnnotation: bool,
    formatIndex: nat, filePath: string, ignores: (Author, string) -> bool)
    returns (r: Option<map<Author, int>>)
    requires formatIndex < |Formats|
    modifies authorConfig
    ensures var spec := FindAuthors(ExtractAuthorsParameters(line, formatIndex), old(authorConfig.authorDetailsToAuthorMap),
                                    authorConfig.hasAuthorConfigFile, foundStartAnnotation, filePath, ignores);
      r == spec.authors && authorConfig.authorDetailsToAuthorMap == spec.aliases
  {
    var authorsParameters := ExtractAuthorsParameters(line, formatIndex);
    if authorsParameters.None? {
      if !foundStartAnnotation {
        return Some(UnknownOnly());
      }
      return None;
    }
    var params := authorsParameters.value;
    ghost var init := authorConfig.authorDetailsToAuthorMap;
    ghost var all := Matches(params, 0);
    ghost var done: seq<NameMatch> := [];
    var newAnnotatedAuthors: map<Author, int> := map[];
    var pos := 0;
    var foundMatch := Find(params, pos);
    while foundMatch.Some?
      invariant pos <= |params|
      invariant foundMatch == Find(params, pos)
      invariant done + Matches(params, pos) == all
      invariant GroupScan(done, init, authorConfig.hasAuthorConfigFile, filePath, ignores)
        == MatchScan(newAnnotatedAuthors, authorConfig.authorDetailsToAuthorMap, false)
      decreases |params| - pos
    {
      var p := foundMatch.value;
      var m := MatchAt(params, p);
      ghost var rest := Matches(params, MatchEnd(params, p));
      assert Matches(params, pos) == [m] + rest;
      GroupScanSnoc(done, m, init, authorConfig.hasAuthorConfigFile, filePath, ignores);
      var splitParameters := JavaSplit(m.Group(), " ");
      GroupSplit(m);
      if |splitParameters| < 2 {
        // ArrayIndexOutOfBoundsException at line 134, caught at line 156
        StaysThrown(done + [m], rest, init, authorConfig.hasAuthorConfigFile, filePath, ignores);
        ConcatAssoc(done, [m], rest);
        if !foundStartAnnotation {
          return Some(UnknownOnly());
        }
        return None;
      }
      var author := splitParameters[0];
      var weight := ParseInt(if splitParameters[1] == [] then "100" else splitParameters[1]);
      if author !in authorConfig.authorDetailsToAuthorMap && !authorConfig.hasAuthorConfigFile {
        authorConfig.AddAuthor(author);
      }
      var annotatedAuthor :=
        if author in authorConfig.authorDetailsToAuthorMap then authorConfig.authorDetailsToAuthorMap[author]
        else UnknownAuthor;
      if !ignores(annotatedAuthor, filePath) {
        newAnnotatedAuthors := newAnnotatedAuthors[annotatedAuthor := weight];
      }
      ConcatAssoc(done, [m], rest);
      done := done + [m];
      pos := MatchEnd(params, p);
      foundMatch := Find(params, pos);
    }
    assert done == all;
    if |newAnnotatedAuthors| == 0 {
      newAnnotatedAuthors := UnknownOnly();
    }
    return Some(newAnnotatedAuthors);
  }
}
