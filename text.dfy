/** The handful of JavaScript string operations the generator relies on
    (`indexOf`, `includes`, `split`, `replace` with a string pattern, `trim`
    and `toLowerCase`), written out over `seq<char>`. */
module Text {

  datatype Option<T> = None | Some(value: T)

  /** `pat` occurs in `s` starting at index `i`. */
  predicate OccursAt(s: string, pat: string, i: nat)
  {
    i + |pat| <= |s| && s[i..i + |pat|] == pat
  }

  /** `i` is the leftmost occurrence of `pat` in `s`. */
  ghost predicate LeftmostAt(s: string, pat: string, i: nat)
  {
    OccursAt(s, pat, i) && forall j: nat :: j < i ==> !OccursAt(s, pat, j)
  }

  /** The first occurrence of `pat` in `s` at or after `from`. */
  function IndexFrom(s: string, pat: string, from: nat): Option<nat>
    decreases |s| - from
  {
    if from + |pat| > |s| then None
    else if s[from..from + |pat|] == pat then Some(from)
    else IndexFrom(s, pat, from + 1)
  }

  /** The search finds an occurrence at or after `from`, and nothing between
      `from` and that occurrence (or the end of `s`). */
  lemma {:induction false} IndexFromSpec(s: string, pat: string, from: nat)
    ensures var r := IndexFrom(s, pat, from);
      && (r.Some? ==> from <= r.value && OccursAt(s, pat, r.value))
      && (forall j: nat :: from <= j && (r.None? || j < r.value) ==> !OccursAt(s, pat, j))
    decreases |s| - from
  {
    if from + |pat| <= |s| && s[from..from + |pat|] != pat {
      IndexFromSpec(s, pat, from + 1);
    }
  }

  /** `String.prototype.indexOf`: the leftmost occurrence, if any. */
  function IndexOf(s: string, pat: string): Option<nat>
  {
    IndexFrom(s, pat, 0)
  }

  /** `IndexOf` finds the leftmost occurrence, and finds none only when
      there is none. */
  lemma IndexOfSpec(s: string, pat: string)
    ensures IndexOf(s, pat).Some? ==> LeftmostAt(s, pat, IndexOf(s, pat).value)
    ensures IndexOf(s, pat).None? ==> forall j: nat :: !OccursAt(s, pat, j)
  {
    IndexFromSpec(s, pat, 0);
  }

  /** `String.prototype.includes`. */
  predicate Includes(s: string, pat: string)
  {
    IndexOf(s, pat).Some?
  }

  lemma OccursInPrefix(s: string, pat: string, n: nat, j: nat)
    requires n <= |s| && OccursAt(s[..n], pat, j)
    ensures OccursAt(s, pat, j)
  {
    assert s[..n][j..j + |pat|] == s[j..j + |pat|];
  }

  /** Nothing before the leftmost occurrence contains the pattern. */
  lemma PrefixBeforeFirst(s: string, pat: string, i: nat)
    requires |pat| > 0 && i <= |s|
    requires forall j: nat :: j < i ==> !OccursAt(s, pat, j)
    ensures !Includes(s[..i], pat)
  {
    if Includes(s[..i], pat) {
      IndexOfSpec(s[..i], pat);
      OccursInPrefix(s, pat, i, IndexOf(s[..i], pat).value);
    }
  }

  /** The inverse of `Split`: the parts glued back together with `sep`. */
  function Join(parts: seq<string>, sep: string): string
  {
    if |parts| == 0 then ""
    else if |parts| == 1 then parts[0]
    else parts[0] + sep + Join(parts[1..], sep)
  }

  /** `String.prototype.split` with a non-empty string separator: `s` is cut
      at EVERY occurrence of `sep`, scanning left to right. */
  function Split(s: string, sep: string): (parts: seq<string>)
    requires |sep| > 0
    ensures |parts| >= 1
    decreases |s|
  {
    match IndexOf(s, sep)
    case None => [s]
    case Some(i) =>
      IndexOfSpec(s, sep);
      [s[..i]] + Split(s[i + |sep|..], sep)
  }

  /** A text cut at least once splits into at least two parts; an uncut
      one into itself alone. */
  lemma SplitCount(s: string, sep: string)
    requires |sep| > 0
    ensures Includes(s, sep) ==> |Split(s, sep)| >= 2
    ensures !Includes(s, sep) ==> Split(s, sep) == [s]
  {
  }

  /** Joining the parts of a split with the separator gives back the text. */
  lemma {:induction false} SplitJoin(s: string, sep: string)
    requires |sep| > 0
    ensures Join(Split(s, sep), sep) == s
    decreases |s|
  {
    match IndexOf(s, sep)
    case None =>
    case Some(i) =>
      IndexOfSpec(s, sep);
      var rest := s[i + |sep|..];
      var parts := Split(s, sep);
      assert parts == [s[..i]] + Split(rest, sep);
      SplitJoin(rest, sep);
      assert parts[1..] == Split(rest, sep);
      assert Join(parts, sep) == s[..i] + sep + rest;
      assert s[i..i + |sep|] == sep;
      assert s == s[..i] + s[i..i + |sep|] + rest;
  }

  /** No part of a split contains the separator. */
  lemma {:induction false} SplitPartsClean(s: string, sep: string)
    requires |sep| > 0
    ensures forall k :: 0 <= k < |Split(s, sep)| ==> !Includes(Split(s, sep)[k], sep)
    decreases |s|
  {
    match IndexOf(s, sep)
    case None =>
    case Some(i) =>
      IndexOfSpec(s, sep);
      var rest := s[i + |sep|..];
      SplitPartsClean(rest, sep);
      PrefixBeforeFirst(s, sep, i);
      assert Split(s, sep) == [s[..i]] + Split(rest, sep);
  }

  /** When `sep` occurs, the first part and `sep` open `s`, and the other
      parts are the split of what follows. */
  lemma SplitHead(s: string, sep: string)
    requires |sep| > 0 && Includes(s, sep)
    ensures var parts := Split(s, sep); var n := |parts[0]|;
      n + |sep| <= |s| && s[..n + |sep|] == parts[0] + sep &&
      parts[1..] == Split(s[n + |sep|..], sep)
  {
    IndexOfSpec(s, sep);
    var i := IndexOf(s, sep).value;
    var rest := Split(s[i + |sep|..], sep);
    assert Split(s, sep) == [s[..i]] + rest;
    ConsParts(s[..i], rest);
    TakeSplit(s, i, i + |sep|);
  }

  lemma ConsParts(head: string, rest: seq<string>)
    ensures ([head] + rest)[0] == head && ([head] + rest)[1..] == rest
  {
  }

  lemma TakeSplit(s: string, i: nat, j: nat)
    requires i <= j <= |s|
    ensures s[..j] == s[..i] + s[i..j]
  {
  }

  /** When `sep` occurs, `s` opens with the first part and `sep`; the
      second part follows, and after it comes the end of `s` or another
      `sep`. */
  lemma SplitSecond(s: string, sep: string)
    requires |sep| > 0 && Includes(s, sep)
    ensures |Split(s, sep)| >= 2
    ensures var parts := Split(s, sep); |parts[0]| + |sep| + |parts[1]| <= |s|
    ensures var parts := Split(s, sep); s[..|parts[0]| + |sep|] == parts[0] + sep
    ensures var parts := Split(s, sep); s[|parts[0]| + |sep|..|parts[0]| + |sep| + |parts[1]|] == parts[1]
    ensures var parts := Split(s, sep); var n := |parts[0]| + |sep|;
      n + |parts[1]| == |s| || OccursAt(s, sep, n + |parts[1]|)
  {
    SplitCount(s, sep);
    SplitJoin(s, sep);
    JoinedSecond(s, sep, Split(s, sep));
  }

  /** The same for any parts that join back into `s`. */
  lemma JoinedSecond(s: string, sep: string, parts: seq<string>)
    requires |parts| >= 2 && Join(parts, sep) == s
    ensures |parts[0]| + |sep| + |parts[1]| <= |s|
    ensures s[..|parts[0]| + |sep|] == parts[0] + sep
    ensures s[|parts[0]| + |sep|..|parts[0]| + |sep| + |parts[1]|] == parts[1]
    ensures |parts[0]| + |sep| + |parts[1]| == |s| || OccursAt(s, sep, |parts[0]| + |sep| + |parts[1]|)
  {
    JoinSecond(parts, sep);
    var r := if |parts| == 2 then [] else sep + Join(parts[2..], sep);
    Pieces(s, parts[0], sep, parts[1], r);
  }

  /** Joining at least two parts: the first two parts with a separator
      between them, then either nothing or a separator and the rest. */
  lemma JoinSecond(parts: seq<string>, sep: string)
    requires |parts| >= 2
    ensures Join(parts, sep) == parts[0] + sep + parts[1] +
      (if |parts| == 2 then [] else sep + Join(parts[2..], sep))
  {
    assert parts[1..][0] == parts[1];
    assert parts[1..][1..] == parts[2..];
  }

  /** Where the pieces of `a + sep + b + r` sit. */
  lemma Pieces(s: string, a: string, sep: string, b: string, r: string)
    requires s == a + sep + b + r
    requires r == [] || sep <= r
    ensures var n := |a| + |sep|;
      && n + |b| <= |s|
      && s[..n] == a + sep
      && s[n..n + |b|] == b
      && (n + |b| == |s| || OccursAt(s, sep, n + |b|))
  {
    var n := |a| + |sep|;
    assert s[..n] == a + sep;
    assert s[n..n + |b|] == b;
    if r != [] {
      assert s[n + |b|..n + |b| + |sep|] == r[..|sep|];
    }
  }

  /** `String.prototype.replace` with a string pattern. */
  function ReplaceFirst(s: string, pat: string, rep: string): string
  {
    match IndexOf(s, pat)
    case None => s
    case Some(i) =>
      IndexOfSpec(s, pat);
      s[..i] + rep + s[i + |pat|..]
  }

  /** Only the leftmost occurrence of `pat` is replaced, and the text on
      either side of it is kept; without one, `s` comes back as it is. */
  lemma ReplaceFirstSpec(s: string, pat: string, rep: string)
    ensures !Includes(s, pat) ==> ReplaceFirst(s, pat, rep) == s
    ensures Includes(s, pat) ==>
      exists i: nat :: LeftmostAt(s, pat, i) && ReplaceFirst(s, pat, rep) == s[..i] + rep + s[i + |pat|..]
  {
    IndexOfSpec(s, pat);
    if Includes(s, pat) {
      var i := IndexOf(s, pat).value;
      assert LeftmostAt(s, pat, i);
    }
  }

  /** The characters JavaScript's `trim` removes: WhiteSpace and LineTerminator
      of ECMAScript (tab, vertical tab, form feed, the space separators, the
      byte order mark, line feed, carriage return and the two Unicode line and
      paragraph separators). */
  predicate IsSpace(c: char)
  {
    c == '\t' || c == '\n' || c == '\U{000B}' || c == '\U{000C}' || c == '\r' ||
    c == ' ' || c == '\U{00A0}' || c == '\U{1680}' || ('\U{2000}' <= c <= '\U{200A}') ||
    c == '\U{2028}' || c == '\U{2029}' || c == '\U{202F}' || c == '\U{205F}' ||
    c == '\U{3000}' || c == '\U{FEFF}'
  }

  ghost predicate AllSpace(s: string)
  {
    forall k :: 0 <= k < |s| ==> IsSpace(s[k])
  }

  /** `s` without its leading spaces. */
  function TrimStart(s: string): string
  {
    if s != [] && IsSpace(s[0]) then TrimStart(s[1..]) else s
  }

  /** `s` without its trailing spaces. */
  function TrimEnd(s: string): string
  {
    if s != [] && IsSpace(s[|s| - 1]) then TrimEnd(s[..|s| - 1]) else s
  }

  /** `TrimStart` keeps a suffix of `s` that does not start with a space and
      drops only spaces. */
  lemma {:induction false} TrimStartSpec(s: string)
    ensures var r := TrimStart(s);
      && |r| <= |s| && r == s[|s| - |r|..]
      && AllSpace(s[..|s| - |r|])
      && (r == [] || !IsSpace(r[0]))
  {
    if s != [] && IsSpace(s[0]) {
      TrimStartSpec(s[1..]);
      var r := TrimStart(s[1..]);
      assert s[1..][|s| - 1 - |r|..] == s[|s| - |r|..];
      assert s[..|s| - |r|] == [s[0]] + s[1..][..|s| - 1 - |r|];
    }
  }

  /** `TrimEnd` keeps a prefix of `s` that does not end with a space and
      drops only spaces. */
  lemma {:induction false} TrimEndSpec(s: string)
    ensures var r := TrimEnd(s);
      && |r| <= |s| && r == s[..|r|]
      && AllSpace(s[|r|..])
      && (r == [] || !IsSpace(r[|r| - 1]))
  {
    if s != [] && IsSpace(s[|s| - 1]) {
      TrimEndSpec(s[..|s| - 1]);
      var r := TrimEnd(s[..|s| - 1]);
      assert s[..|s| - 1][..|r|] == s[..|r|];
      assert s[|r|..] == s[..|s| - 1][|r|..] + [s[|s| - 1]];
    }
  }

  /** `String.prototype.trim`. */
  function Trim(s: string): string
  {
    TrimEnd(TrimStart(s))
  }

  /** The trimmed text is the slice of `s` that neither starts nor ends
      with a space and is surrounded only by spaces. */
  lemma TrimSpec(s: string)
    ensures var r := Trim(s);
      && (r == [] || (!IsSpace(r[0]) && !IsSpace(r[|r| - 1])))
      && exists a: nat :: a + |r| <= |s| && s[a..a + |r|] == r && AllSpace(s[..a]) && AllSpace(s[a + |r|..])
  {
    var t := TrimStart(s);
    var r := TrimEnd(t);
    TrimStartSpec(s);
    TrimEndSpec(t);
    TrimSlice(s, t, r);
    var a := |s| - |t|;
    assert a + |r| <= |s| && s[a..a + |r|] == r && AllSpace(s[..a]) && AllSpace(s[a + |r|..]);
  }

  lemma TrimSlice(s: string, t: string, r: string)
    requires |t| <= |s| && t == s[|s| - |t|..] && AllSpace(s[..|s| - |t|])
    requires |r| <= |t| && r == t[..|r|] && AllSpace(t[|r|..])
    ensures var a := |s| - |t|; s[a..a + |r|] == r && AllSpace(s[..a]) && AllSpace(s[a + |r|..])
  {
    var a := |s| - |t|;
    assert s[a + |r|..] == t[|r|..];
  }

  /** ASCII lower-casing of one character. */
  function LowerChar(c: char): char
  {
    if 'A' <= c <= 'Z' then (c as int + 32) as char else c
  }

  /** `String.prototype.toLowerCase`, restricted to ASCII letters. */
  function Lower(s: string): (r: string)
    ensures |r| == |s|
    ensures forall k :: 0 <= k < |s| ==> r[k] == LowerChar(s[k])
  {
    if s == [] then [] else [LowerChar(s[0])] + Lower(s[1..])
  }

  /** `y` is the lower-casing of `x` when it is so character by character. */
  lemma LowerIs(x: string, y: string)
    requires |x| == |y| && forall k :: 0 <= k < |x| ==> LowerChar(x[k]) == y[k]
    ensures Lower(x) == y
  {
    assert forall k :: 0 <= k < |x| ==> Lower(x)[k] == y[k];
  }
}
