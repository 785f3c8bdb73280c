/**
 * The Python string operations the transcript extractors are written with, stated on
 * `seq<char>`: `strip`, `lower`, `isdigit`, `in`, `startswith`, `split`, `join`,
 * `splitlines`, `replace`, `sorted`, and the few fixed regular expressions the
 * extractors use (a leftmost search for one of several literals, a split on such a
 * search, and a lazy `A(.*?)(?:B|C)` span). Character classes are restricted to ASCII
 * (plus the non-ASCII line boundaries of `splitlines`).
 */
module Text {
  import opened Wrappers

  // ------------------------------------------------------------------ characters

  /** `str.isspace()` on one ASCII character; also what `strip()` and `\s` remove. */
  predicate IsSpace(c: char) {
    c == ' ' || c == '\t' || c == '\n' || c == '\r' || c == '\U{000B}' || c == '\U{000C}'
    || ('\U{001C}' <= c <= '\U{001F}')
  }

  predicate IsDigit(c: char) {
    '0' <= c <= '9'
  }

  /** `str.isdigit()`: at least one character, and all of them digits. */
  predicate IsDigits(s: string) {
    |s| > 0 && forall i :: 0 <= i < |s| ==> IsDigit(s[i])
  }

  function LowerChar(c: char): char {
    if 'A' <= c <= 'Z' then (c as int + 32) as char else c
  }

  /** `str.lower()` on ASCII text. */
  function Lower(s: string): (r: string)
    ensures |r| == |s|
  {
    seq(|s|, i requires 0 <= i < |s| => LowerChar(s[i]))
  }

  // ------------------------------------------------------------------ strip

  /** `str.lstrip()`: drops the longest all-whitespace prefix. */
  function TrimLeft(s: string): (r: string)
    ensures |r| <= |s|
    ensures forall i :: 0 <= i < |s| - |r| ==> IsSpace(s[i])
    ensures r == [] || !IsSpace(r[0])
    decreases |s|
  {
    if s != [] && IsSpace(s[0]) then TrimLeft(s[1..]) else s
  }

  /** `str.rstrip()`: drops the longest all-whitespace suffix. */
  function TrimRight(s: string): (r: string)
    ensures |r| <= |s|
    ensures forall i :: |r| <= i < |s| ==> IsSpace(s[i])
    ensures r == [] || !IsSpace(r[|r| - 1])
    decreases |s|
  {
    if s != [] && IsSpace(s[|s| - 1]) then TrimRight(s[..|s| - 1]) else s
  }

  /** What `lstrip()` keeps is a suffix of the text. */
  lemma {:induction false} TrimLeftIsSuffix(s: string)
    ensures TrimLeft(s) == s[|s| - |TrimLeft(s)|..]
    decreases |s|
  {
    if s != [] && IsSpace(s[0]) {
      TrimLeftIsSuffix(s[1..]);
      assert s[1..][|s| - 1 - |TrimLeft(s)|..] == s[|s| - |TrimLeft(s)|..];
    }
  }

  /** What `rstrip()` keeps is a prefix of the text. */
  lemma {:induction false} TrimRightIsPrefix(s: string)
    ensures TrimRight(s) == s[..|TrimRight(s)|]
    decreases |s|
  {
    if s != [] && IsSpace(s[|s| - 1]) {
      TrimRightIsPrefix(s[..|s| - 1]);
      assert s[..|s| - 1][..|TrimRight(s)|] == s[..|TrimRight(s)|];
    }
  }

  /** `str.strip()`. */
  function Strip(s: string): string {
    TrimRight(TrimLeft(s))
  }

  /** Neither end of the text is whitespace. */
  predicate IsStripped(s: string) {
    s == [] || (!IsSpace(s[0]) && !IsSpace(s[|s| - 1]))
  }

  lemma StripIsStripped(s: string)
    ensures IsStripped(Strip(s))
  {
    var t := TrimLeft(s);
    var r := TrimRight(t);
    if r != [] {
      TrimRightIsPrefix(t);
      assert r[0] == t[0];
    }
  }

  lemma StripOfStripped(s: string)
    requires IsStripped(s)
    ensures Strip(s) == s
  {
  }

  lemma StripIdempotent(s: string)
    ensures Strip(Strip(s)) == Strip(s)
  {
    StripIsStripped(s);
    StripOfStripped(Strip(s));
  }

  /** What `strip()` keeps is a contiguous piece of the text, with only whitespace around it. */
  lemma StripIsInner(s: string) returns (a: nat)
    ensures a + |Strip(s)| <= |s| && Strip(s) == s[a..a + |Strip(s)|]
    ensures forall i :: 0 <= i < a ==> IsSpace(s[i])
    ensures forall i :: a + |Strip(s)| <= i < |s| ==> IsSpace(s[i])
  {
    var t := TrimLeft(s);
    a := |s| - |t|;
    assert t == s[a..] by {
      TrimLeftIsSuffix(s);
    }
    var r := TrimRight(t);
    assert r == t[..|r|] by {
      TrimRightIsPrefix(t);
    }
    PrefixOfSuffix(s, a, t, r);
  }

  /** A prefix `r` of the suffix `t` of `s` from `a` is the slice of `s` from `a`, with `t`'s tail behind it. */
  lemma PrefixOfSuffix(s: string, a: nat, t: string, r: string)
    requires a <= |s| && t == s[a..] && |r| <= |t| && r == t[..|r|]
    ensures a + |r| <= |s| && r == s[a..a + |r|]
    ensures forall i :: a + |r| <= i < |s| ==> s[i] == t[i - a]
  {
  }

  // ------------------------------------------------------------------ substrings

  /** The literal `p` occurs in `s` starting at position `i`. */
  predicate At(s: string, i: nat, p: string) {
    i + |p| <= |s| && s[i..i + |p|] == p
  }

  /** `s.find(p, from)`: the leftmost occurrence of `p` at or after `from`. */
  function IndexOf(s: string, p: string, from: nat): (r: Option<nat>)
    ensures r.Some? ==> from <= r.value && At(s, r.value, p)
    ensures r.Some? ==> forall j :: from <= j < r.value ==> !At(s, j, p)
    ensures r.None? ==> forall j :: from <= j ==> !At(s, j, p)
    decreases |s| - from
  {
    if from + |p| > |s| then None
    else if At(s, from, p) then Some(from)
    else IndexOf(s, p, from + 1)
  }

  /** Python's `p in s`. */
  predicate Contains(s: string, p: string) {
    IndexOf(s, p, 0).Some?
  }

  /** `s.startswith(p)`. */
  predicate StartsWith(s: string, p: string) {
    At(s, 0, p)
  }

  lemma AtContains(s: string, i: nat, p: string)
    requires At(s, i, p)
    ensures Contains(s, p)
  {
  }

  /** An occurrence inside a slice is an occurrence in the whole text. */
  lemma AtSlice(s: string, a: nat, b: nat, j: nat, p: string)
    requires a <= b <= |s|
    requires At(s[a..b], j, p)
    ensures At(s, a + j, p)
  {
    forall t | 0 <= t < |p|
      ensures s[a + j + t] == p[t]
    {
      assert s[a..b][j..j + |p|][t] == p[t];
    }
    assert s[a + j..a + j + |p|] == p;
  }

  /** An occurrence inside `s[..i]` is one in `s`. */
  lemma AtSliceStart(s: string, i: nat, j: nat, p: string)
    requires i <= |s| && At(s[..i], j, p)
    ensures At(s, j, p) && j + |p| <= i
  {
    AtSlice(s, 0, i, j, p);
  }

  lemma AtChar(s: string, j: nat, p: string, t: nat)
    requires At(s, j, p) && t < |p|
    ensures s[j + t] == p[t]
  {
    assert s[j..j + |p|][t] == p[t];
  }

  /** An occurrence that ends by `n` is one in `s[..n]`. */
  lemma AtInPrefix(s: string, n: nat, j: nat, p: string)
    requires j + |p| <= n <= |s| && At(s, j, p)
    ensures Contains(s[..n], p)
  {
    AtInSlice(s, 0, n, j, p);
    assert s[0..n] == s[..n];
    AtContains(s[..n], j, p);
  }

  /** An occurrence that lies within a slice is an occurrence in the slice. */
  lemma AtInSlice(s: string, a: nat, b: nat, j: nat, p: string)
    requires a <= j && j + |p| <= b <= |s|
    requires At(s, j, p)
    ensures At(s[a..b], j - a, p)
  {
    forall t | 0 <= t < |p|
      ensures s[a..b][j - a + t] == p[t]
    {
      assert s[j..j + |p|][t] == p[t];
    }
    assert s[a..b][j - a..j - a + |p|] == p;
  }

  /** A slice of a text without `p` has no `p` either. */
  lemma NotContainsSlice(s: string, a: nat, b: nat, p: string)
    requires a <= b <= |s|
    requires !Contains(s, p)
    ensures !Contains(s[a..b], p)
  {
    if Contains(s[a..b], p) {
      ContainsSlice(s, a, b, p);
    }
  }

  /** What a slice contains, the whole text contains. */
  lemma ContainsSlice(s: string, a: nat, b: nat, p: string)
    requires a <= b <= |s| && Contains(s[a..b], p)
    ensures Contains(s, p)
  {
    var j := IndexOf(s[a..b], p, 0).value;
    AtSlice(s, a, b, j, p);
    AtContains(s, a + j, p);
  }

  /** Nothing before the first occurrence of `p` contains `p`. */
  lemma BeforeFirst(s: string, p: string, i: nat)
    requires |p| > 0
    requires IndexOf(s, p, 0) == Some(i)
    ensures !Contains(s[..i], p)
  {
    if Contains(s[..i], p) {
      var j := ContainsBefore(s, i, p);
    }
  }

  /** An occurrence within `s[..i]` is an occurrence in `s` that ends by `i`. */
  lemma ContainsBefore(s: string, i: nat, p: string) returns (j: nat)
    requires i <= |s| && Contains(s[..i], p)
    ensures At(s, j, p) && j + |p| <= i
  {
    j := IndexOf(s[..i], p, 0).value;
    AtSlice(s, 0, i, j, p);
  }

  /** Two texts without `p` joined by one character that `p` does not contain have no `p`. */
  lemma NotContainsAcross(a: string, c: char, b: string, p: string)
    requires !Contains(a, p) && !Contains(b, p)
    requires forall k :: 0 <= k < |p| ==> p[k] != c
    ensures !Contains(a + [c] + b, p)
  {
    var s := a + [c] + b;
    forall j | 0 <= j <= |s|
      ensures !At(s, j, p)
    {
      if At(s, j, p) {
        AtAcross(a, c, b, p, j);
      }
    }
  }

  /** An occurrence in `a + [c] + b` lies in `a`, lies in `b`, or covers the `c` between them. */
  lemma AtAcross(a: string, c: char, b: string, p: string, j: nat)
    requires At(a + [c] + b, j, p)
    ensures Contains(a, p) || Contains(b, p) || c in p
  {
    var s := a + [c] + b;
    if j + |p| <= |a| {
      AtInSlice(s, 0, |a|, j, p);
      assert s[0..|a|] == a;
      AtContains(a, j, p);
    } else if j > |a| {
      AtInSlice(s, |a| + 1, |s|, j, p);
      assert s[|a| + 1..|s|] == b;
      AtContains(b, j - |a| - 1, p);
    } else {
      var t := |a| - j;
      assert t < |p| && s[j + t] == c;
      AtChar(s, j, p, t);
    }
  }

  // ------------------------------------------------------------------ split and join

  /** `sep.join(parts)`. */
  function Join(parts: seq<string>, sep: string): string {
    if |parts| == 0 then ""
    else if |parts| == 1 then parts[0]
    else parts[0] + sep + Join(parts[1..], sep)
  }

  /** `s.split(sep)` for a non-empty literal separator (leftmost, non-overlapping). */
  function Split(s: string, sep: string): (r: seq<string>)
    requires |sep| > 0
    ensures |r| >= 1
    ensures forall k :: 0 <= k < |r| ==> !Contains(r[k], sep)
    decreases |s|
  {
    match IndexOf(s, sep, 0)
    case None => [s]
    case Some(i) =>
      BeforeFirst(s, sep, i);
      [s[..i]] + Split(s[i + |sep|..], sep)
  }

  /** Joining the pieces of a split on the same separator gives back the text. */
  lemma {:induction false} JoinSplit(s: string, sep: string)
    requires |sep| > 0
    ensures Join(Split(s, sep), sep) == s
    decreases |s|
  {
    match IndexOf(s, sep, 0)
    case None =>
    case Some(i) =>
      var rest := Split(s[i + |sep|..], sep);
      JoinSplit(s[i + |sep|..], sep);
      assert Split(s, sep) == [s[..i]] + rest;
      assert ([s[..i]] + rest)[1..] == rest;
      assert s == s[..i] + sep + s[i + |sep|..] by {
        assert s[i..i + |sep|] == sep;
      }
  }

  /** `s.split(sep)[-1]`: the text after the last separator, which holds no separator. */
  function LastPiece(s: string, sep: string): (r: string)
    requires |sep| > 0
    ensures !Contains(r, sep)
  {
    SuffixLacks(s, sep, LastPieceStart(s, sep, 0));
    s[LastPieceStart(s, sep, 0)..]
  }

  /**
   * Where the text after the last separator at or after `from` starts: at `from` when
   * there is none, otherwise just after an occurrence, with no occurrence from there on.
   */
  function LastPieceStart(s: string, sep: string, from: nat): (j: nat)
    requires |sep| > 0 && from <= |s|
    ensures from <= j <= |s| && IndexOf(s, sep, j).None?
    ensures j == from || (j >= from + |sep| && At(s, j - |sep|, sep))
    decreases |s| - from
  {
    match IndexOf(s, sep, from)
    case None => from
    case Some(i) => LastPieceStart(s, sep, i + |sep|)
  }

  /** The last piece of a split is the text after an occurrence of the separator, or the whole text. */
  lemma LastPieceIsTail(s: string, sep: string) returns (j: nat)
    requires |sep| > 0
    ensures j <= |s| && LastPiece(s, sep) == s[j..]
    ensures j == 0 || (j >= |sep| && At(s, j - |sep|, sep))
  {
    j := LastPieceStart(s, sep, 0);
  }

  /** When the separator does not occur from `j` on, the suffix from `j` does not contain it. */
  lemma SuffixLacks(s: string, p: string, j: nat)
    requires j <= |s| && IndexOf(s, p, j).None?
    ensures !Contains(s[j..], p)
  {
    if Contains(s[j..], p) {
      var k := IndexOf(s[j..], p, 0).value;
      AtSuffix(s, j, k, p);
    }
  }

  /** An occurrence in a suffix is an occurrence in the whole text. */
  lemma AtSuffix(s: string, a: nat, k: nat, p: string)
    requires a <= |s| && At(s[a..], k, p)
    ensures At(s, a + k, p)
  {
    assert s[a..] == s[a..|s|];
    AtSlice(s, a, |s|, k, p);
  }

  /** Joining on a one-character separator that no part contains is undone by splitting. */
  lemma {:induction false} SplitJoin(parts: seq<string>, c: char)
    requires |parts| >= 1
    requires forall k :: 0 <= k < |parts| ==> !Contains(parts[k], [c])
    ensures Split(Join(parts, [c]), [c]) == parts
    decreases |parts|
  {
    var s := Join(parts, [c]);
    if |parts| == 1 {
      assert IndexOf(s, [c], 0).None?;
    } else {
      JoinFirstSeparator(parts, c);
      assert Split(s, [c]) == [parts[0]] + Split(Join(parts[1..], [c]), [c]);
      SplitJoin(parts[1..], c);
      assert parts == [parts[0]] + parts[1..];
    }
  }

  /** The first separator of a join is the one after the first part, when that part lacks it. */
  lemma JoinFirstSeparator(parts: seq<string>, c: char)
    requires |parts| >= 2 && !Contains(parts[0], [c])
    ensures IndexOf(Join(parts, [c]), [c], 0) == Some(|parts[0]|)
    ensures Join(parts, [c])[..|parts[0]|] == parts[0]
    ensures Join(parts, [c])[|parts[0]| + 1..] == Join(parts[1..], [c])
  {
    var s := Join(parts, [c]);
    var rest := Join(parts[1..], [c]);
    assert s == parts[0] + [c] + rest;
    var n := |parts[0]|;
    assert At(s, n, [c]) by { assert s[n..n + 1] == [c]; }
    assert s[..n] == parts[0];
    forall j | 0 <= j < n
      ensures !At(s, j, [c])
    {
      if At(s, j, [c]) {
        AtInPrefix(s, n, j, [c]);
      }
    }
    assert s[n + 1..] == rest;
  }

  /** A separator given as a choice of literals, as in the regular expression `a|b`. */
  predicate NonEmptyAll(alts: seq<string>) {
    forall k :: 0 <= k < |alts| ==> |alts[k]| > 0
  }

  /** No alternative occurs anywhere in `s`. */
  predicate NoneOf(s: string, alts: seq<string>) {
    forall j, k :: 0 <= j <= |s| && 0 <= k < |alts| ==> !At(s, j, alts[k])
  }

  /** The regular-expression alternation `alts[0]|alts[1]|...` tried at position `i`: the first one that matches. */
  function AltAt(s: string, i: nat, alts: seq<string>): (r: Option<nat>)
    ensures r.Some? ==> r.value < |alts| && At(s, i, alts[r.value])
    ensures r.Some? ==> forall k :: 0 <= k < r.value ==> !At(s, i, alts[k])
    ensures r.None? ==> forall k :: 0 <= k < |alts| ==> !At(s, i, alts[k])
    decreases |alts|
  {
    if alts == [] then None
    else if At(s, i, alts[0]) then Some(0)
    else
      match AltAt(s, i, alts[1..])
      case None => None
      case Some(k) => Some(k + 1)
  }

  /** `re.search` for an alternation of literals from position `from`: leftmost position, then the first alternative there. */
  function FindAlt(s: string, alts: seq<string>, from: nat): (r: Option<(nat, nat)>)
    ensures r.Some? ==> from <= r.value.0 && r.value.1 < |alts| && At(s, r.value.0, alts[r.value.1])
    ensures r.Some? ==> forall k :: 0 <= k < r.value.1 ==> !At(s, r.value.0, alts[k])
    ensures r.Some? ==> forall j: nat, k :: from <= j < r.value.0 && 0 <= k < |alts| ==> !At(s, j, alts[k])
    ensures r.None? ==> forall j: nat, k :: from <= j && 0 <= k < |alts| ==> !At(s, j, alts[k])
    decreases |s| + 1 - from
  {
    if from > |s| then None
    else
      match AltAt(s, from, alts)
      case Some(k) => Some((from, k))
      case None => FindAlt(s, alts, from + 1)
  }

  /** Re-assembles the list `re.split` returns when the pattern is a capturing group: piece, separator, piece, ... */
  function Interleave(pieces: seq<string>, seps: seq<string>): string
    requires |pieces| == |seps| + 1
  {
    if seps == [] then pieces[0]
    else pieces[0] + seps[0] + Interleave(pieces[1..], seps[1..])
  }

  /** `re.split` on an alternation of literals: the pieces between matches and the literal each match was. */
  function SplitAlt(s: string, alts: seq<string>): (r: (seq<string>, seq<string>))
    requires NonEmptyAll(alts)
    ensures |r.0| == |r.1| + 1
    ensures Interleave(r.0, r.1) == s
    ensures forall m :: 0 <= m < |r.0| ==> NoneOf(r.0[m], alts)
    ensures forall m :: 0 <= m < |r.1| ==> r.1[m] in alts
    decreases |s|
  {
    match FindAlt(s, alts, 0)
    case None => ([s], [])
    case Some((i, k)) =>
      var rest := SplitAlt(s[i + |alts[k]|..], alts);
      PrefixNoneOf(s, alts, i);
      Decompose(s, i, alts[k]);
      assert ([s[..i]] + rest.0)[1..] == rest.0;
      assert ([alts[k]] + rest.1)[1..] == rest.1;
      ([s[..i]] + rest.0, [alts[k]] + rest.1)
  }

  /** Each separator `SplitAlt` reports occurs in the text. */
  lemma {:induction false} SplitAltSeps(s: string, alts: seq<string>)
    requires NonEmptyAll(alts)
    ensures forall m :: 0 <= m < |SplitAlt(s, alts).1| ==> Contains(s, SplitAlt(s, alts).1[m])
    decreases |s|
  {
    match FindAlt(s, alts, 0)
    case None =>
    case Some((i, k)) =>
      var a := i + |alts[k]|;
      var t := s[a..];
      SplitAltSeps(t, alts);
      var rest := SplitAlt(t, alts);
      assert SplitAlt(s, alts) == ([s[..i]] + rest.0, [alts[k]] + rest.1);
      var seps := [alts[k]] + rest.1;
      forall m | 0 <= m < |seps|
        ensures Contains(s, seps[m])
      {
        if m == 0 {
          AtContains(s, i, alts[k]);
        } else {
          assert seps[m] == rest.1[m - 1];
          ContainsInSuffix(s, a, rest.1[m - 1]);
        }
      }
  }

  /** What a suffix contains, the whole text contains. */
  lemma ContainsInSuffix(s: string, a: nat, p: string)
    requires a <= |s| && Contains(s[a..], p)
    ensures Contains(s, p)
  {
    var j := IndexOf(s[a..], p, 0).value;
    AtSuffix(s, a, j, p);
    AtContains(s, a + j, p);
  }

  /** A text in which no alternative occurs does not contain any one of them. */
  lemma NoneOfNotContains(s: string, alts: seq<string>, k: nat)
    requires k < |alts| && NoneOf(s, alts)
    ensures !Contains(s, alts[k])
  {
  }

  lemma PrefixNoneOf(s: string, alts: seq<string>, i: nat)
    requires NonEmptyAll(alts) && i <= |s|
    requires forall j: nat, k :: j < i && 0 <= k < |alts| ==> !At(s, j, alts[k])
    ensures NoneOf(s[..i], alts)
  {
    forall j, k | 0 <= j <= i && 0 <= k < |alts|
      ensures !At(s[..i], j, alts[k])
    {
      if At(s[..i], j, alts[k]) {
        AtSliceStart(s, i, j, alts[k]);
      }
    }
  }

  lemma Decompose(s: string, i: nat, p: string)
    requires At(s, i, p)
    ensures s == s[..i] + p + s[i + |p|..]
  {
    assert s[i..i + |p|] == p;
  }

  /**
   * Group 1 of `re.search(marker + "(.*?)(?:" + ends[0] + "|" + ends[1] + ...)", s, re.DOTALL)`:
   * missing exactly when the marker is absent or no terminator follows its first occurrence;
   * otherwise the text from the marker up to the nearest terminator.
   */
  function LazySpan(s: string, marker: string, ends: seq<string>): (r: Option<string>)
    ensures IndexOf(s, marker, 0).None? ==> r.None?
    ensures IndexOf(s, marker, 0).Some? ==>
              (r.None? <==> forall j: nat :: IndexOf(s, marker, 0).value + |marker| <= j ==> !AnyAt(s, j, ends))
    ensures r.Some? ==>
              && IndexOf(s, marker, 0).Some?
              && var q := IndexOf(s, marker, 0).value + |marker|;
                 && q + |r.value| <= |s|
                 && r.value == s[q..q + |r.value|]
                 && AnyAt(s, q + |r.value|, ends)
                 && forall j :: q <= j < q + |r.value| ==> !AnyAt(s, j, ends)
  {
    match IndexOf(s, marker, 0)
    case None => None
    case Some(p) =>
      match FindAlt(s, ends, p + |marker|)
      case None => None
      case Some((e, k)) =>
        assert AnyAt(s, e, ends);
        Some(s[p + |marker|..e])
  }

  /** Some alternative occurs at position `i`. */
  predicate AnyAt(s: string, i: nat, alts: seq<string>) {
    exists k :: 0 <= k < |alts| && At(s, i, alts[k])
  }

  // ------------------------------------------------------------------ line lists

  /** The comprehension `[x.strip() for x in xs if x.strip()]`. */
  function StrippedNonEmpty(xs: seq<string>): (r: seq<string>)
    ensures |r| <= |xs|
    ensures forall k :: 0 <= k < |r| ==> r[k] != [] && IsStripped(r[k])
  {
    if xs == [] then []
    else
      StripIsStripped(xs[0]);
      (if Strip(xs[0]) != [] then [Strip(xs[0])] else []) + StrippedNonEmpty(xs[1..])
  }

  /** `idx` lists positions below `n` in strictly increasing order. */
  predicate Ascending(idx: seq<nat>, n: nat) {
    && (forall k :: 0 <= k < |idx| ==> idx[k] < n)
    && (forall a, b :: 0 <= a < b < |idx| ==> idx[a] < idx[b])
  }

  /** Every position one further: the positions of a tail seen from the whole sequence. */
  function Shifted(idx: seq<nat>): (r: seq<nat>)
    ensures |r| == |idx| && forall k :: 0 <= k < |idx| ==> r[k] == idx[k] + 1
  {
    seq(|idx|, k requires 0 <= k < |idx| => idx[k] + 1)
  }

  /** The positions of a tail seen from the whole sequence, with position 0 in front when `head` holds. */
  function ConsShift(head: bool, idx: seq<nat>): (r: seq<nat>) {
    if head then [0] + Shifted(idx) else Shifted(idx)
  }

  /** Shifting keeps the positions ascending, and position `j` is listed exactly when `j - 1` was (or `head`, for 0). */
  lemma ConsShiftAscending(head: bool, idx: seq<nat>, n: nat)
    requires Ascending(idx, n)
    ensures Ascending(ConsShift(head, idx), n + 1)
    ensures head <==> 0 in ConsShift(head, idx)
    ensures forall j :: 0 < j <= n ==> (j in ConsShift(head, idx) <==> j - 1 in idx)
  {
    var t := Shifted(idx);
    ShiftedAscending(idx, n);
    ShiftedMembers(idx);
    if head {
      ZeroCons(t, n + 1);
    }
  }

  lemma ShiftedAscending(idx: seq<nat>, n: nat)
    requires Ascending(idx, n)
    ensures Ascending(Shifted(idx), n + 1)
  {
  }

  lemma ShiftedMembers(idx: seq<nat>)
    ensures 0 !in Shifted(idx)
    ensures forall j :: 0 < j ==> (j in Shifted(idx) <==> j - 1 in idx)
  {
    var t := Shifted(idx);
    forall j | 0 < j
      ensures j in t <==> j - 1 in idx
    {
      if j in t {
        var k :| 0 <= k < |t| && t[k] == j;
        assert idx[k] == j - 1;
      }
      if j - 1 in idx {
        var k :| 0 <= k < |idx| && idx[k] == j - 1;
        assert t[k] == j;
      }
    }
  }

  lemma ZeroCons(t: seq<nat>, n: nat)
    requires Ascending(t, n) && 0 !in t && n > 0
    ensures Ascending([0] + t, n)
    ensures forall j :: j in [0] + t <==> j == 0 || j in t
  {
    var r := [0] + t;
    forall a, b | 0 <= a < b < |r|
      ensures r[a] < r[b]
    {
      assert r[b] == t[b - 1] && t[b - 1] != 0;
      if a > 0 {
        assert r[a] == t[a - 1];
      }
    }
  }

  /**
   * `r` is the elements of `xs` whose flag is set, in order: `idx` lists, in increasing
   * order, exactly the flagged positions, and the `k`-th element of `r` is `xs[idx[k]]`.
   */
  predicate PicksAt<T(==)>(xs: seq<T>, r: seq<T>, idx: seq<nat>, flags: seq<bool>) {
    && |flags| == |xs|
    && |idx| == |r|
    && Ascending(idx, |xs|)
    && (forall k :: 0 <= k < |idx| ==> r[k] == xs[idx[k]])
    && (forall j :: 0 <= j < |xs| ==> (j in idx <==> flags[j]))
  }

  /** One more element in front, kept when its flag is set: every later position shifts by one. */
  lemma PicksAtCons<T>(x: T, xs: seq<T>, r: seq<T>, idx: seq<nat>, keep: bool, flags: seq<bool>)
    requires PicksAt(xs, r, idx, flags)
    ensures PicksAt([x] + xs, (if keep then [x] else []) + r, ConsShift(keep, idx), [keep] + flags)
  {
    ConsShiftAscending(keep, idx, |xs|);
    PicksAtConsValues(x, xs, r, idx, keep);
    PicksAtConsFlags(xs, idx, keep, flags);
  }

  /** The values half of `PicksAtCons`: each picked position still holds its value. */
  lemma PicksAtConsValues<T>(x: T, xs: seq<T>, r: seq<T>, idx: seq<nat>, keep: bool)
    requires |idx| == |r| && (forall k :: 0 <= k < |idx| ==> idx[k] < |xs| && r[k] == xs[idx[k]])
    ensures |ConsShift(keep, idx)| == |(if keep then [x] else []) + r|
    ensures forall k :: 0 <= k < |ConsShift(keep, idx)| ==>
              ConsShift(keep, idx)[k] < |[x] + xs| && ((if keep then [x] else []) + r)[k] == ([x] + xs)[ConsShift(keep, idx)[k]]
  {
    var all := [x] + xs;
    var head := if keep then [x] else [];
    var r2 := head + r;
    var idx2 := ConsShift(keep, idx);
    var h := |head|;
    forall k | 0 <= k < |idx2|
      ensures idx2[k] < |all| && r2[k] == all[idx2[k]]
    {
      if k >= h {
        var m := k - h;
        assert idx2[m + h] == idx[m] + 1;
        assert r2[k] == r[m];
        assert all[idx[m] + 1] == xs[idx[m]];
      }
    }
  }

  /** The flags half of `PicksAtCons`: a position is picked exactly when its flag is set. */
  lemma PicksAtConsFlags<T>(xs: seq<T>, idx: seq<nat>, keep: bool, flags: seq<bool>)
    requires |flags| == |xs| && Ascending(idx, |xs|)
    requires forall j :: 0 <= j < |xs| ==> (j in idx <==> flags[j])
    ensures forall j :: 0 <= j < |xs| + 1 ==> (j in ConsShift(keep, idx) <==> ([keep] + flags)[j])
  {
    ConsShiftAscending(keep, idx, |xs|);
    forall j | 0 <= j < |xs| + 1
      ensures j in ConsShift(keep, idx) <==> ([keep] + flags)[j]
    {
      if j > 0 {
        assert ([keep] + flags)[j] == flags[j - 1];
      }
    }
  }

  /** Each line stripped. */
  function StrippedLines(lines: seq<string>): (r: seq<string>)
    ensures |r| == |lines| && forall i :: 0 <= i < |r| ==> r[i] == Strip(lines[i])
  {
    seq(|lines|, i requires 0 <= i < |lines| => Strip(lines[i]))
  }

  /** Which lines are not blank once stripped. */
  function NonBlank(lines: seq<string>): (f: seq<bool>)
    ensures |f| == |lines| && forall i :: 0 <= i < |lines| ==> (f[i] <==> Strip(lines[i]) != [])
  {
    seq(|lines|, i requires 0 <= i < |lines| => Strip(lines[i]) != [])
  }

  /**
   * `r` is `[x.strip() for x in xs if x.strip()]` position by position: `idx` lists, in
   * increasing order, exactly the inputs whose stripped text is non-empty, and the
   * `k`-th kept string is the stripped input `idx[k]`.
   */
  predicate PicksNonBlank(xs: seq<string>, r: seq<string>, idx: seq<nat>) {
    PicksAt(StrippedLines(xs), r, idx, NonBlank(xs))
  }

  /** The comprehension keeps every non-blank input, stripped, in input order, and nothing else. */
  lemma {:induction false} StrippedNonEmptyPicks(xs: seq<string>) returns (idx: seq<nat>)
    ensures PicksNonBlank(xs, StrippedNonEmpty(xs), idx)
  {
    if xs == [] {
      idx := [];
    } else {
      var keep := Strip(xs[0]) != [];
      var idx' := StrippedNonEmptyPicks(xs[1..]);
      idx := ConsShift(keep, idx');
      PicksAtCons(Strip(xs[0]), StrippedLines(xs[1..]), StrippedNonEmpty(xs[1..]), idx', keep, NonBlank(xs[1..]));
      LinesCons(xs);
    }
  }

  /** Stripping and the blank flags of a list are those of its head, then those of its tail. */
  lemma LinesCons(xs: seq<string>)
    requires xs != []
    ensures StrippedLines(xs) == [Strip(xs[0])] + StrippedLines(xs[1..])
    ensures NonBlank(xs) == [Strip(xs[0]) != []] + NonBlank(xs[1..])
  {
  }

  /** Each string the comprehension keeps is a stripped input: the `k`-th one comes from input `j`. */
  lemma {:induction false} StrippedNonEmptyFrom(xs: seq<string>, k: nat) returns (j: nat)
    requires k < |StrippedNonEmpty(xs)|
    ensures j < |xs| && StrippedNonEmpty(xs)[k] == Strip(xs[j])
  {
    var head := if Strip(xs[0]) != [] then [Strip(xs[0])] else [];
    var tail := StrippedNonEmpty(xs[1..]);
    assert StrippedNonEmpty(xs) == head + tail;
    if k < |head| {
      j := 0;
      assert StrippedNonEmpty(xs)[k] == head[0];
    } else {
      var j' := StrippedNonEmptyFrom(xs[1..], k - |head|);
      j := j' + 1;
      assert StrippedNonEmpty(xs)[k] == tail[k - |head|] == Strip(xs[1..][j']);
      assert xs[1..][j'] == xs[j];
    }
  }

  /** On a list that is already stripped and free of empty strings the comprehension changes nothing. */
  lemma {:induction false} StrippedNonEmptyOfClean(xs: seq<string>)
    requires forall k :: 0 <= k < |xs| ==> xs[k] != [] && IsStripped(xs[k])
    ensures StrippedNonEmpty(xs) == xs
  {
    if xs != [] {
      StripOfStripped(xs[0]);
      StrippedNonEmptyOfClean(xs[1..]);
      assert xs == [xs[0]] + xs[1..];
    }
  }

  lemma StripNoContains(s: string, p: string)
    requires !Contains(s, p)
    ensures !Contains(Strip(s), p)
  {
    var a := StripIsInner(s);
    NotContainsSlice(s, a, a + |Strip(s)|, p);
  }

  /** Stripping and dropping empty strings cannot create an occurrence of `p`. */
  lemma {:induction false} StrippedNonEmptyNoContains(xs: seq<string>, p: string)
    requires forall k :: 0 <= k < |xs| ==> !Contains(xs[k], p)
    ensures forall k :: 0 <= k < |StrippedNonEmpty(xs)| ==> !Contains(StrippedNonEmpty(xs)[k], p)
  {
    if xs != [] {
      StripNoContains(xs[0], p);
      var rest := xs[1..];
      assert forall k :: 0 <= k < |rest| ==> rest[k] == xs[k + 1];
      StrippedNonEmptyNoContains(rest, p);
      var head := if Strip(xs[0]) != [] then [Strip(xs[0])] else [];
      var tail := StrippedNonEmpty(rest);
      assert StrippedNonEmpty(xs) == head + tail;
      forall k | 0 <= k < |head + tail|
        ensures !Contains((head + tail)[k], p)
      {
        if k >= |head| {
          assert (head + tail)[k] == tail[k - |head|];
        }
      }
    }
  }

  /** The parts of a joined text are pieces of it, so they inherit the absence of `p`. */
  lemma {:induction false} JoinPartsNoContains(parts: seq<string>, sep: string, p: string)
    requires !Contains(Join(parts, sep), p)
    ensures forall k :: 0 <= k < |parts| ==> !Contains(parts[k], p)
  {
    if |parts| >= 2 {
      var s := Join(parts, sep);
      var rest := Join(parts[1..], sep);
      assert s == parts[0] + sep + rest;
      assert s[..|parts[0]|] == parts[0];
      assert s[|parts[0]| + |sep|..|s|] == rest;
      NotContainsSlice(s, 0, |parts[0]|, p);
      NotContainsSlice(s, |parts[0]| + |sep|, |s|, p);
      JoinPartsNoContains(parts[1..], sep, p);
      forall k | 0 <= k < |parts|
        ensures !Contains(parts[k], p)
      {
        if k > 0 {
          assert parts[k] == parts[1..][k - 1];
        }
      }
    }
  }

  /** Parts without `p` joined by a character that `p` does not contain give a text without `p`. */
  lemma {:induction false} JoinNoContains(parts: seq<string>, c: char, p: string)
    requires forall k :: 0 <= k < |parts| ==> !Contains(parts[k], p)
    requires forall k :: 0 <= k < |p| ==> p[k] != c
    requires |p| > 0
    ensures !Contains(Join(parts, [c]), p)
  {
    if |parts| == 0 {
    } else if |parts| >= 2 {
      JoinNoContains(parts[1..], c, p);
      assert !Contains(parts[0], p);
      assert !Contains(Join(parts[1..], [c]), p);
      NotContainsAcross(parts[0], c, Join(parts[1..], [c]), p);
      assert Join(parts, [c]) == parts[0] + [c] + Join(parts[1..], [c]);
    }
  }

  // ------------------------------------------------------------------ splitlines

  /** The line boundaries of `str.splitlines()` (`\r\n` counts as one). */
  predicate IsLineBreak(c: char) {
    c == '\n' || c == '\r' || c == '\U{000B}' || c == '\U{000C}' || ('\U{001C}' <= c <= '\U{001E}')
    || c == '\U{0085}' || c == '\U{2028}' || c == '\U{2029}'
  }

  predicate NoLineBreak(s: string) {
    forall j :: 0 <= j < |s| ==> !IsLineBreak(s[j])
  }

  /** The first line boundary at or after `from`, or `|s|`. */
  function BreakIndex(s: string, from: nat): (r: nat)
    requires from <= |s|
    ensures from <= r <= |s|
    ensures r < |s| ==> IsLineBreak(s[r])
    ensures forall j :: from <= j < r ==> !IsLineBreak(s[j])
    decreases |s| - from
  {
    if from == |s| || IsLineBreak(s[from]) then from else BreakIndex(s, from + 1)
  }

  /** `str.splitlines()`: the lines without their boundaries; no empty line for a final boundary. */
  function SplitLines(s: string): (r: seq<string>)
    ensures forall k :: 0 <= k < |r| ==> NoLineBreak(r[k])
    ensures s == [] <==> r == []
    decreases |s|
  {
    if s == [] then []
    else
      var i := BreakIndex(s, 0);
      assert NoLineBreak(s[..i]);
      if i == |s| then [s]
      else
        var next := if s[i] == '\r' && i + 1 < |s| && s[i + 1] == '\n' then i + 2 else i + 1;
        [s[..i]] + SplitLines(s[next..])
  }

  /** Only `\n` breaks lines in `s`. */
  predicate OnlyNewlineBreaks(s: string) {
    forall j :: 0 <= j < |s| && IsLineBreak(s[j]) ==> s[j] == '\n'
  }

  /**
   * On text whose only line boundaries are `\n`, `splitlines()` is `split("\n")` without
   * the empty piece a final newline leaves, and without the one empty piece of `""`.
   */
  lemma {:induction false} SplitLinesSplit(s: string)
    requires OnlyNewlineBreaks(s)
    ensures SplitLines(s) == if s == [] then []
                             else if s[|s| - 1] == '\n' then Split(s, "\n")[..|Split(s, "\n")| - 1]
                             else Split(s, "\n")
    decreases |s|
  {
    if s != [] {
      var i := BreakIndex(s, 0);
      BreakIsNewline(s, 0);
      if i < |s| {
        var t := s[i + 1..];
        OnlyNewlineBreaksTail(s, i + 1);
        SplitLinesSplit(t);
        SplitLinesStep(s, i);
        var x := s[..i];
        var a := Split(t, "\n");
        assert |a| >= 1;
        if t == [] {
          assert a == [[]];
        } else {
          assert t[|t| - 1] == s[|s| - 1];
          DropLastCons(x, a);
        }
      }
    }
  }

  lemma DropLastCons<T>(x: T, a: seq<T>)
    requires |a| >= 1
    ensures ([x] + a)[..|a|] == [x] + a[..|a| - 1]
  {
  }

  lemma OnlyNewlineBreaksTail(s: string, a: nat)
    requires a <= |s| && OnlyNewlineBreaks(s)
    ensures OnlyNewlineBreaks(s[a..])
  {
    var t := s[a..];
    forall j | 0 <= j < |t| && IsLineBreak(t[j])
      ensures t[j] == '\n'
    {
      assert t[j] == s[a + j];
    }
  }

  /** At a first line boundary that is a newline, both splits cut the same first line. */
  lemma SplitLinesStep(s: string, i: nat)
    requires s != [] && i == BreakIndex(s, 0) && i < |s| && s[i] == '\n'
    requires IndexOf(s, "\n", 0) == Some(i)
    ensures SplitLines(s) == [s[..i]] + SplitLines(s[i + 1..])
    ensures Split(s, "\n") == [s[..i]] + Split(s[i + 1..], "\n")
  {
  }

  /** With only `\n` as a boundary, the next boundary is the next newline. */
  lemma {:induction false} BreakIsNewline(s: string, from: nat)
    requires from <= |s| && OnlyNewlineBreaks(s)
    ensures IndexOf(s, "\n", from) == if BreakIndex(s, from) < |s| then Some(BreakIndex(s, from)) else None
    decreases |s| - from
  {
    if from < |s| {
      assert At(s, from, "\n") <==> s[from] == '\n' by {
        assert s[from..from + 1] == [s[from]];
      }
      if s[from] != '\n' {
        BreakIsNewline(s, from + 1);
      }
    }
  }

  // ------------------------------------------------------------------ replace

  /** `s.replace(pat, rep)`: every occurrence, leftmost first and without overlap. */
  function ReplaceAll(s: string, pat: string, rep: string): (r: string)
    requires |pat| > 0
    ensures !Contains(s, pat) ==> r == s
    decreases |s|
  {
    if |s| < |pat| then s
    else if At(s, 0, pat) then rep + ReplaceAll(s[|pat|..], pat, rep)
    else
      NotContainsTail(s, pat);
      [s[0]] + ReplaceAll(s[1..], pat, rep)
  }

  /** `str.replace` agrees with splitting on the pattern and joining with the replacement. */
  lemma {:induction false} ReplaceAllSplitJoin(s: string, pat: string, rep: string)
    requires |pat| > 0
    ensures ReplaceAll(s, pat, rep) == Join(Split(s, pat), rep)
    decreases |s|
  {
    if |s| < |pat| {
      assert IndexOf(s, pat, 0).None?;
    } else if At(s, 0, pat) {
      ReplaceAllSplitJoin(s[|pat|..], pat, rep);
      SplitFront(s, pat, rep);
    } else {
      ReplaceAllSplitJoin(s[1..], pat, rep);
      SplitTail(s, pat, rep);
    }
  }

  /** An occurrence at the front gives an empty first piece, so the join opens with the separator. */
  lemma SplitFront(s: string, pat: string, rep: string)
    requires |pat| > 0 && At(s, 0, pat)
    ensures Join(Split(s, pat), rep) == rep + Join(Split(s[|pat|..], pat), rep)
  {
    assert IndexOf(s, pat, 0) == Some(0);
    var tail := Split(s[|pat|..], pat);
    assert Split(s, pat) == [s[..0]] + tail;
    JoinCons(s[..0], tail, rep);
    assert s[..0] == [];
  }

  /** Without an occurrence at the front, the first character stays in front of the first piece. */
  lemma SplitTail(s: string, pat: string, rep: string)
    requires |pat| > 0 && s != [] && !At(s, 0, pat)
    ensures Join(Split(s, pat), rep) == [s[0]] + Join(Split(s[1..], pat), rep)
  {
    var t := s[1..];
    IndexOfTail(s, pat);
    var m := IndexOf(t, pat, 0);
    if m.None? {
      assert IndexOf(s, pat, 0).None?;
      assert s == [s[0]] + t;
    } else {
      var i := m.value;
      assert IndexOf(s, pat, 0) == Some(i + 1);
      SplitTailAt(s, pat, rep, i);
    }
  }

  lemma SplitTailAt(s: string, pat: string, rep: string, i: nat)
    requires |pat| > 0 && s != [] && IndexOf(s, pat, 0) == Some(i + 1) && IndexOf(s[1..], pat, 0) == Some(i)
    ensures Join(Split(s, pat), rep) == [s[0]] + Join(Split(s[1..], pat), rep)
  {
    var t := s[1..];
    assert t[i + |pat|..] == s[i + 1 + |pat|..];
    assert s[..i + 1] == [s[0]] + t[..i];
    var x, u := t[..i], t[i + |pat|..];
    SplitFirst(s, pat, i + 1, [s[0]] + x, u);
    SplitFirst(t, pat, i, x, u);
    JoinConsPrefix(s[0], x, Split(u, pat), rep);
  }

  /** A character in front of the first part of a list is in front of its join. */
  lemma JoinConsPrefix(c: char, x: string, rest: seq<string>, sep: string)
    requires |rest| >= 1
    ensures Join([[c] + x] + rest, sep) == [c] + Join([x] + rest, sep)
  {
    JoinCons([c] + x, rest, sep);
    JoinCons(x, rest, sep);
  }

  /** Splitting at the first occurrence of the separator. */
  lemma SplitFirst(s: string, sep: string, i: nat, x: string, u: string)
    requires |sep| > 0 && IndexOf(s, sep, 0) == Some(i)
    requires i <= |s| && x == s[..i] && i + |sep| <= |s| && u == s[i + |sep|..]
    ensures Split(s, sep) == [x] + Split(u, sep)
  {
  }

  /** Joining a list with a first part in front. */
  lemma JoinCons(x: string, rest: seq<string>, sep: string)
    requires |rest| >= 1
    ensures Join([x] + rest, sep) == x + sep + Join(rest, sep)
  {
    assert ([x] + rest)[1..] == rest;
  }

  /** Searching from the front of `s` when `p` is not at 0 is searching its tail, shifted by one. */
  lemma IndexOfTail(s: string, p: string)
    requires |p| > 0 && s != [] && !At(s, 0, p)
    ensures IndexOf(s, p, 0) == match IndexOf(s[1..], p, 0) case None => None case Some(i) => Some(i + 1)
  {
    IndexOfShift(s, p, 1);
  }

  /** Searching `s` from `from >= 1` is searching its tail from `from - 1`, shifted by one. */
  lemma {:induction false} IndexOfShift(s: string, p: string, from: nat)
    requires s != [] && 1 <= from
    ensures IndexOf(s, p, from) == match IndexOf(s[1..], p, from - 1) case None => None case Some(i) => Some(i + 1)
    decreases |s| - from
  {
    var t := s[1..];
    if from + |p| > |s| {
      assert IndexOf(s, p, from).None? && IndexOf(t, p, from - 1).None?;
    } else if At(s, from, p) {
      AtShift(s, from - 1, p);
      assert IndexOf(s, p, from) == Some(from) && IndexOf(t, p, from - 1) == Some(from - 1);
    } else {
      if At(t, from - 1, p) {
        AtSuffix(s, 1, from - 1, p);
      }
      assert IndexOf(s, p, from) == IndexOf(s, p, from + 1);
      assert IndexOf(t, p, from - 1) == IndexOf(t, p, from);
      IndexOfShift(s, p, from + 1);
    }
  }

  lemma AppendAssoc(a: string, b: string, c: string)
    ensures a + (b + c) == (a + b) + c
  {
  }

  /** A text is its three consecutive slices. */
  lemma SliceThree(s: string, i: nat, j: nat)
    requires i <= j <= |s|
    ensures s == s[..i] + s[i..j] + s[j..]
  {
  }

  /** A slice is its first character followed by the rest of it. */
  lemma SliceCons(s: string, i: nat, p: nat)
    requires i < p <= |s|
    ensures s[i..p] == [s[i]] + s[i + 1..p]
    ensures p == |s| ==> s[i..] == [s[i]] + s[i + 1..]
  {
  }

  /** An occurrence past the first character is one in the tail. */
  lemma AtShift(s: string, j: nat, p: string)
    requires s != [] && At(s, j + 1, p)
    ensures At(s[1..], j, p)
  {
    assert s[1..][j..j + |p|] == s[j + 1..j + 1 + |p|];
  }

  lemma NotContainsTail(s: string, p: string)
    requires s != []
    ensures !Contains(s, p) ==> !Contains(s[1..], p) && s == [s[0]] + s[1..]
  {
    if !Contains(s, p) {
      NotContainsSlice(s, 1, |s|, p);
      assert s[1..|s|] == s[1..];
    }
  }

  // ------------------------------------------------------------------ sorted

  /** Python's `<=` on strings: lexicographic by code point. */
  predicate LexLe(a: string, b: string)
    decreases |a|
  {
    a == [] || (b != [] && (a[0] < b[0] || (a[0] == b[0] && LexLe(a[1..], b[1..]))))
  }

  lemma {:induction false} LexTotal(a: string, b: string)
    ensures LexLe(a, b) || LexLe(b, a)
    decreases |a|
  {
    if a != [] && b != [] && a[0] == b[0] {
      LexTotal(a[1..], b[1..]);
    }
  }

  predicate Sorted(s: seq<string>) {
    forall i :: 0 <= i < |s| - 1 ==> LexLe(s[i], s[i + 1])
  }

  lemma MultisetHead(s: seq<string>)
    requires s != []
    ensures multiset(s) == multiset{s[0]} + multiset(s[1..])
  {
    assert s == [s[0]] + s[1..];
  }

  function Insert(x: string, s: seq<string>): (r: seq<string>)
    requires Sorted(s)
    ensures Sorted(r)
    ensures multiset(r) == multiset(s) + multiset{x}
    ensures |r| > 0 && (r[0] == x || (s != [] && r[0] == s[0]))
  {
    if s == [] then [x]
    else if LexLe(x, s[0]) then
      SortedCons(x, s);
      [x] + s
    else
      LexTotal(x, s[0]);
      SortedTail(s);
      var t := Insert(x, s[1..]);
      MultisetHead(s);
      SortedCons(s[0], t);
      [s[0]] + t
  }

  lemma SortedTail(s: seq<string>)
    requires Sorted(s) && s != []
    ensures Sorted(s[1..]) && (|s| > 1 ==> LexLe(s[0], s[1]))
  {
    var t := s[1..];
    forall i | 0 <= i < |t| - 1
      ensures LexLe(t[i], t[i + 1])
    {
      assert t[i] == s[i + 1] && t[i + 1] == s[i + 2];
    }
  }

  lemma SortedCons(h: string, t: seq<string>)
    requires Sorted(t) && (t == [] || LexLe(h, t[0]))
    ensures Sorted([h] + t)
  {
    var r := [h] + t;
    forall i | 0 <= i < |r| - 1
      ensures LexLe(r[i], r[i + 1])
    {
      if i > 0 {
        assert r[i] == t[i - 1] && r[i + 1] == t[i];
      }
    }
  }

  /** `sorted(s)`. */
  function Sort(s: seq<string>): (r: seq<string>)
    ensures Sorted(r)
    ensures multiset(r) == multiset(s)
  {
    if s == [] then []
    else
      assert s == [s[0]] + s[1..];
      Insert(s[0], Sort(s[1..]))
  }
}
