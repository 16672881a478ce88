/** Java's nullable references and `Optional`, as one value type. */
module Wrappers {
  datatype Option<+T> = None | Some(value: T)
}

/**
 * The pieces of `java.lang.String` the annotation scanner relies on:
 * `contains`, `trim` and `split` on a literal separator (with Java's rule
 * that trailing empty pieces are dropped), and the regular-expression
 * character classes `\s`, `\d` and `[a-zA-Z0-9]`.
 */
module Strings {
  import opened Wrappers

  /** Java's `\s`: space, tab, newline, vertical tab, form feed, carriage return. */
  predicate IsSpace(c: char) {
    c == ' ' || c == '\t' || c == '\n' || c == '\U{0B}' || c == '\U{0C}' || c == '\r'
  }

  /** Java's `\d` (without UNICODE_CHARACTER_CLASS). */
  predicate IsDigit(c: char) {
    '0' <= c <= '9'
  }

  /** The character class `[a-zA-Z0-9]`. */
  predicate IsAlnum(c: char) {
    'a' <= c <= 'z' || 'A' <= c <= 'Z' || IsDigit(c)
  }

  predicate AllSpace(s: string) {
    forall i :: 0 <= i < |s| ==> IsSpace(s[i])
  }

  predicate AllDigits(s: string) {
    forall i :: 0 <= i < |s| ==> IsDigit(s[i])
  }

  /** What `String.trim()` removes: every character up to and including U+0020. */
  predicate IsTrimChar(c: char) {
    c <= ' '
  }

  /** Neither end of `s` is a character `trim()` removes. */
  predicate IsTrimmed(s: string) {
    s == [] || (!IsTrimChar(s[0]) && !IsTrimChar(s[|s| - 1]))
  }

  /** `s` without its leading characters up to U+0020. */
  function TrimLeading(s: string): (r: string)
    ensures |r| <= |s| && r == s[|s| - |r|..]
    ensures forall i :: 0 <= i < |s| - |r| ==> IsTrimChar(s[i])
    ensures r == [] || !IsTrimChar(r[0])
  {
    if s != [] && IsTrimChar(s[0]) then TrimLeading(s[1..]) else s
  }

  /** `s` without its trailing characters up to U+0020. */
  function TrimTrailing(s: string): (r: string)
    ensures |r| <= |s| && r == s[..|r|]
    ensures forall i :: |r| <= i < |s| ==> IsTrimChar(s[i])
    ensures r == [] || !IsTrimChar(r[|r| - 1])
  {
    if s != [] && IsTrimChar(s[|s| - 1]) then TrimTrailing(s[..|s| - 1]) else s
  }

  /**
   * `String.trim()`: the segment of `s` left once the characters up to U+0020
   * are removed from both ends.
   */
  function Trim(s: string): (r: string)
    ensures IsTrimmed(r)
    ensures |r| <= |s|
  {
    var t := TrimLeading(s);
    var r := TrimTrailing(t);
    assert r == [] || !IsTrimChar(r[0]) by {
      if r != [] { assert r[0] == t[0]; }
    }
    r
  }

  /**
   * `Trim(s)` is the segment of `s` that starts where `TrimLeading` stops;
   * everything before it is a character up to U+0020 (`TrimLeading`'s
   * contract).
   */
  lemma TrimIsSegment(s: string)
    ensures var a := |s| - |TrimLeading(s)|;
      a + |Trim(s)| <= |s| && Trim(s) == s[a..a + |Trim(s)|]
  {
    var t := TrimLeading(s);
    var r := TrimTrailing(t);
    var a := |s| - |t|;
    assert Trim(s) == r;
    assert t == s[a..];
    assert r == t[..|r|];
  }

  /**
   * Everything after the segment `Trim(s)` is a character up to U+0020 too:
   * `Trim` removes such characters only, and only at the ends.
   */
  lemma TrimTrailingChars(s: string)
    ensures var a := |s| - |TrimLeading(s)|;
      forall j :: a + |Trim(s)| <= j < |s| ==> IsTrimChar(s[j])
  {
    var t := TrimLeading(s);
    var r := TrimTrailing(t);
    var a := |s| - |t|;
    assert Trim(s) == r;
    forall j | a + |r| <= j < |s| ensures IsTrimChar(s[j]) {
      assert s[j] == t[j - a];
    }
  }

  /** `sep` occurs in `s` at index `i`. */
  predicate OccursAt(s: string, sep: string, i: nat) {
    i + |sep| <= |s| && s[i..i + |sep|] == sep
  }

  /** An occurrence in a suffix of `s` is an occurrence in `s`, shifted. */
  lemma OccursInSuffix(s: string, sep: string, d: nat, k: nat)
    requires d <= |s| && OccursAt(s[d..], sep, k)
    ensures OccursAt(s, sep, d + k)
  {
    assert s[d + k..d + k + |sep|] == s[d..][k..k + |sep|];
  }

  /** `s.indexOf(sep, from)`: the first occurrence of `sep` at or after `from`. */
  function IndexOf(s: string, sep: string, from: nat): (r: Option<nat>)
    requires |sep| > 0
    ensures r.Some? ==> from <= r.value && OccursAt(s, sep, r.value)
    ensures r.Some? ==> forall j :: from <= j < r.value ==> !OccursAt(s, sep, j)
    ensures r.None? ==> forall j :: from <= j ==> !OccursAt(s, sep, j)
    decreases |s| - from
  {
    if from + |sep| > |s| then None
    else if OccursAt(s, sep, from) then Some(from)
    else IndexOf(s, sep, from + 1)
  }

  /** `s.contains(sep)`. */
  predicate Contains(s: string, sep: string)
    requires |sep| > 0
  {
    IndexOf(s, sep, 0).Some?
  }

  /** `s.contains(sep)` holds exactly when `sep` occurs somewhere in `s`. */
  lemma ContainsMeaning(s: string, sep: string)
    requires |sep| > 0
    ensures Contains(s, sep) <==> exists j :: OccursAt(s, sep, j)
  {
  }

  /** The text of `s` before the first occurrence of `sep`, or all of `s`. */
  function UpTo(s: string, sep: string): (r: string)
    requires |sep| > 0
  {
    match IndexOf(s, sep, 0)
    case None => s
    case Some(i) => s[..i]
  }

  /** The text of `s` after the first occurrence of `sep`. */
  function After(s: string, sep: string): (r: string)
    requires |sep| > 0 && Contains(s, sep)
  {
    s[IndexOf(s, sep, 0).value + |sep|..]
  }

  /** `s` is zero or more copies of `sep` written one after another. */
  predicate Repeats(s: string, sep: string)
    requires |sep| > 0
    decreases |s|
  {
    s == [] || (|sep| <= |s| && s[..|sep|] == sep && Repeats(s[|sep|..], sep))
  }

  /**
   * The pieces of `s` around every occurrence of `sep`, found left to right
   * without overlap, before Java drops trailing empty pieces.
   */
  function RawSplit(s: string, sep: string): (r: seq<string>)
    requires |sep| > 0
    ensures |r| >= 1
    decreases |s|
  {
    match IndexOf(s, sep, 0)
    case None => [s]
    case Some(i) => [s[..i]] + RawSplit(s[i + |sep|..], sep)
  }

  /** The longest prefix of `ps` that does not end in an empty piece. */
  function DropTrailingEmpty(ps: seq<string>): (r: seq<string>)
    ensures |r| <= |ps| && r == ps[..|r|]
    ensures r == [] || r[|r| - 1] != []
    ensures forall k :: |r| <= k < |ps| ==> ps[k] == []
  {
    if ps != [] && ps[|ps| - 1] == [] then DropTrailingEmpty(ps[..|ps| - 1]) else ps
  }

  /**
   * `s.split(sep)` for a separator with no regular-expression metacharacters
   * and a limit of zero: with no occurrence the result is `[s]` (even when `s`
   * is empty); otherwise the pieces, with trailing empty ones dropped.
   */
  function JavaSplit(s: string, sep: string): (r: seq<string>)
    requires |sep| > 0
    ensures |r| <= |RawSplit(s, sep)| && forall k :: 0 <= k < |r| ==> r[k] == RawSplit(s, sep)[k]
    ensures forall k :: |r| <= k < |RawSplit(s, sep)| ==> RawSplit(s, sep)[k] == []
    ensures IndexOf(s, sep, 0).None? ==> r == [s]
  {
    var raw := RawSplit(s, sep);
    if |raw| == 1 then raw else DropTrailingEmpty(raw)
  }

  /** The pieces written one after another with `sep` between them. */
  function Join(ps: seq<string>, sep: string): string
    decreases |ps|
  {
    if ps == [] then [] else if |ps| == 1 then ps[0] else ps[0] + sep + Join(ps[1..], sep)
  }

  /** `s` is the text around an occurrence of `sep`, with `sep` in between. */
  lemma AroundOccurrence(s: string, sep: string, i: nat)
    requires OccursAt(s, sep, i)
    ensures s == s[..i] + sep + s[i + |sep|..]
  {
    assert s == s[..i] + s[i..i + |sep|] + s[i + |sep|..];
  }

  /** The raw pieces joined back with `sep` give `s`. */
  lemma {:induction false} RawSplitJoin(s: string, sep: string)
    requires |sep| > 0
    ensures Join(RawSplit(s, sep), sep) == s
    decreases |s|
  {
    var raw := RawSplit(s, sep);
    match IndexOf(s, sep, 0)
    case None =>
      assert raw == [s];
    case Some(i) =>
      var rest := s[i + |sep|..];
      var tail := RawSplit(rest, sep);
      RawSplitJoin(rest, sep);
      AroundOccurrence(s, sep, i);
      assert raw == [s[..i]] + tail && |raw| >= 2;
      assert raw[0] == s[..i] && raw[1..] == tail;
  }

  /** The text before the first occurrence of `sep` does not contain `sep`. */
  lemma UpToLacksSeparator(s: string, sep: string)
    requires |sep| > 0
    ensures !Contains(UpTo(s, sep), sep)
  {
    match IndexOf(s, sep, 0)
    case None =>
    case Some(i) =>
      var head := s[..i];
      forall j: nat ensures !OccursAt(head, sep, j) {
        if j + |sep| <= |head| {
          assert head[j..j + |sep|] == s[j..j + |sep|];
          assert j < i && !OccursAt(s, sep, j);
        }
      }
  }

  /** No raw piece contains `sep`: the pieces are exactly what lies between the separators. */
  lemma {:induction false} RawSplitPiecesLackSeparator(s: string, sep: string)
    requires |sep| > 0
    ensures forall k :: 0 <= k < |RawSplit(s, sep)| ==> !Contains(RawSplit(s, sep)[k], sep)
    decreases |s|
  {
    var raw := RawSplit(s, sep);
    UpToLacksSeparator(s, sep);
    RawSplitHead(s, sep);
    if IndexOf(s, sep, 0).Some? {
      var rest := s[IndexOf(s, sep, 0).value + |sep|..];
      var tail := RawSplit(rest, sep);
      RawSplitPiecesLackSeparator(rest, sep);
      assert raw[1..] == tail;
      assert forall k :: 1 <= k < |raw| ==> raw[k] == tail[k - 1];
    }
  }

  /**
   * When `a` does not contain the first character of `sep`, the first
   * occurrence of `sep` in `a + sep + b` is right after `a`, and the split
   * cuts `a` off there.
   */
  lemma SplitAtFirst(a: string, sep: string, b: string)
    requires |sep| > 0 && forall k :: 0 <= k < |a| ==> a[k] != sep[0]
    ensures IndexOf(a + sep + b, sep, 0) == Some(|a|)
    ensures RawSplit(a + sep + b, sep) == [a] + RawSplit(b, sep)
  {
    var s := a + sep + b;
    assert OccursAt(s, sep, |a|) by { assert s[|a|..|a| + |sep|] == sep; }
    forall j | 0 <= j < |a| ensures !OccursAt(s, sep, j) {
      if j + |sep| <= |s| {
        assert s[j..j + |sep|][0] == s[j] == a[j];
      }
    }
    assert IndexOf(s, sep, 0) == Some(|a|);
    assert s[..|a|] == a;
    assert s[|a| + |sep|..] == b;
  }

  lemma RawSplitHead(s: string, sep: string)
    requires |sep| > 0
    ensures RawSplit(s, sep)[0] == UpTo(s, sep)
  {
  }

  /** Starting with `sep` is the same as `sep`'s first occurrence being at 0. */
  lemma StartsWithSeparator(s: string, sep: string)
    requires |sep| > 0
    ensures (|sep| <= |s| && s[..|sep|] == sep) <==> IndexOf(s, sep, 0) == Some(0)
  {
    if |sep| <= |s| && s[..|sep|] == sep {
      assert OccursAt(s, sep, 0);
    }
  }

  /** Every raw piece is empty exactly when `s` is a run of separators. */
  lemma {:induction false} RawSplitAllEmpty(s: string, sep: string)
    requires |sep| > 0
    ensures (forall k :: 0 <= k < |RawSplit(s, sep)| ==> RawSplit(s, sep)[k] == []) <==> Repeats(s, sep)
    decreases |s|
  {
    StartsWithSeparator(s, sep);
    match IndexOf(s, sep, 0)
    case None =>
      assert RawSplit(s, sep) == [s];
      assert RawSplit(s, sep)[0] == s;
      if s != [] {
        assert !(|sep| <= |s| && s[..|sep|] == sep);
        assert !Repeats(s, sep);
      }
    case Some(i) =>
      var rest := s[i + |sep|..];
      var raw := RawSplit(s, sep);
      assert raw == [s[..i]] + RawSplit(rest, sep);
      RawSplitAllEmpty(rest, sep);
      if i == 0 {
        assert s[|sep|..] == rest;
        if forall k :: 0 <= k < |RawSplit(rest, sep)| ==> RawSplit(rest, sep)[k] == [] {
          forall k | 0 <= k < |raw| ensures raw[k] == [] {
            if k > 0 { assert raw[k] == RawSplit(rest, sep)[k - 1]; }
          }
        } else {
          var k :| 0 <= k < |RawSplit(rest, sep)| && RawSplit(rest, sep)[k] != [];
          assert raw[k + 1] != [];
        }
      } else {
        assert raw[0] != [];
      }
  }

  /**
   * `s.split(sep)` has at least two pieces exactly when `sep` occurs in `s`
   * and something other than further separators follows its first occurrence;
   * the second piece is then the text between the first and second occurrence.
   */
  lemma SplitHasSecondPiece(s: string, sep: string)
    requires |sep| > 0
    ensures |JavaSplit(s, sep)| >= 2 <==> Contains(s, sep) && !Repeats(After(s, sep), sep)
    ensures |JavaSplit(s, sep)| >= 2 ==> JavaSplit(s, sep)[1] == UpTo(After(s, sep), sep)
  {
    match IndexOf(s, sep, 0)
    case None =>
    case Some(i) =>
      var rest := After(s, sep);
      var tail := RawSplit(rest, sep);
      var raw := RawSplit(s, sep);
      assert raw == [s[..i]] + tail;
      var r := DropTrailingEmpty(raw);
      assert JavaSplit(s, sep) == r;
      RawSplitAllEmpty(rest, sep);
      RawSplitHead(rest, sep);
      if |r| >= 2 {
        assert raw[|r| - 1] != [];
        assert tail[|r| - 2] != [];
        assert r[1] == raw[1] == tail[0];
      } else {
        forall k | 0 <= k < |tail| ensures tail[k] == [] {
          assert raw[k + 1] == tail[k];
        }
      }
  }

  /**
   * `s.split(sep)` has no piece at all exactly when `s` is a non-empty run of
   * separators; otherwise its first piece is the text before the first `sep`.
   */
  lemma SplitFirstPiece(s: string, sep: string)
    requires |sep| > 0
    ensures |JavaSplit(s, sep)| == 0 <==> s != [] && Repeats(s, sep)
    ensures |JavaSplit(s, sep)| > 0 ==> JavaSplit(s, sep)[0] == UpTo(s, sep)
  {
    RawSplitAllEmpty(s, sep);
    RawSplitHead(s, sep);
    StartsWithSeparator(s, sep);
    var raw := RawSplit(s, sep);
    match IndexOf(s, sep, 0)
    case None =>
      assert raw == [s];
    case Some(i) =>
      assert raw == [s[..i]] + RawSplit(s[i + |sep|..], sep);
      var r := DropTrailingEmpty(raw);
      if |r| > 0 {
        assert raw[|r| - 1] != [];
      }
  }

  /** A separator of one character absent from `s` leaves `s` in one piece. */
  lemma SplitWithoutSeparator(s: string, c: char)
    requires forall k :: 0 <= k < |s| ==> s[k] != c
    ensures IndexOf(s, [c], 0).None?
    ensures JavaSplit(s, [c]) == [s]
  {
    forall j: nat ensures !OccursAt(s, [c], j) {
      if j + 1 <= |s| {
        assert s[j..j + 1][0] == s[j];
      }
    }
    assert IndexOf(s, [c], 0).None?;
    assert RawSplit(s, [c]) == [s];
  }

  /**
   * Splitting `a + [c] + b` on `c`, where `c` occurs in neither part, gives the
   * two parts, except that an empty `b` is dropped as a trailing empty piece.
   */
  lemma SplitOnce(a: string, b: string, c: char)
    requires a != []
    requires forall k :: 0 <= k < |a| ==> a[k] != c
    requires forall k :: 0 <= k < |b| ==> b[k] != c
    ensures JavaSplit(a + [c] + b, [c]) == if b == [] then [a] else [a, b]
  {
    var g := a + [c] + b;
    var n := |a|;
    assert OccursAt(g, [c], n) by { assert g[n..n + 1] == [c]; }
    assert g[..n] == a;
    forall j | 0 <= j < n ensures !OccursAt(g, [c], j) {
      assert g[j] == a[j];
      assert g[j..j + 1][0] == g[j];
    }
    assert IndexOf(g, [c], 0) == Some(n);
    assert g[..n] == a && g[n + 1..] == b;
    SplitWithoutSeparator(b, c);
    assert RawSplit(g, [c]) == [a] + RawSplit(b, [c]);
    var raw := [a, b];
    assert RawSplit(g, [c]) == raw;
    var r := DropTrailingEmpty(raw);
    if b == [] {
      assert raw[..1] == [a];
      assert DropTrailingEmpty([a]) == [a];
    } else {
      assert r == raw;
    }
  }
}
