/**
 The fnmatch of source/imports.c: a backtracking matcher over the pattern text, proved against a
 declarative reading of the pattern as a list of tokens (POSIX.1-2017 XCU section 2.13, with this
 implementation's rules for brackets).  A C string is a sequence; its end plays the terminating NUL.
 */
module Glob {
  import opened Common

  datatype Flags = Flags(pathname: bool, noescape: bool, period: bool, leadingDir: bool, casefold: bool)

  // ---------------------------------------------------------------- what a pattern says

  datatype Item = Single(c: char) | Range(lo: char, hi: char)

  datatype Token = Star | Any | Lit(c: char) | Class(negated: bool, items: seq<Item>)

  // One character of a bracket, possibly escaped, and the place after it.
  function Unit(pat: string, p: nat, f: Flags): (r: (char, nat))
    requires p < |pat|
    ensures p < r.1 <= |pat|
  {
    if pat[p] == '\\' && !f.noescape && p + 1 < |pat| then (pat[p + 1], p + 2) else (pat[p], p + 1)
  }

  // The item at p, a range if a '-' follows that is not the last character of the bracket.
  function ItemAt(pat: string, p: nat, f: Flags): (r: (Item, nat))
    requires p < |pat|
    ensures p < r.1 <= |pat|
  {
    var (a, q) := Unit(pat, p, f);
    if q + 1 < |pat| && pat[q] == '-' && pat[q + 1] != ']' then
      var (b, end) := Unit(pat, q + 1, f);
      (Range(a, b), end)
    else (Single(a), q)
  }

  function WithItem(i: Item, rest: Option<(seq<Item>, nat)>): Option<(seq<Item>, nat)> {
    if rest.None? then None else Some(([i] + rest.value.0, rest.value.1))
  }

  // The items of a bracket up to its ']' and the place after that, if the bracket is terminated.
  function Items(pat: string, p: nat, f: Flags): (r: Option<(seq<Item>, nat)>)
    requires p <= |pat|
    ensures r.Some? ==> p < r.value.1 <= |pat|
    decreases |pat| - p
  {
    if p == |pat| then None
    else if pat[p] == ']' then Some(([], p + 1))
    else WithItem(ItemAt(pat, p, f).0, Items(pat, ItemAt(pat, p, f).1, f))
  }

  predicate Negates(pat: string, p: nat) { p < |pat| && (pat[p] == '!' || pat[p] == '^') }

  // The bracket whose text starts at p: a ']' that comes first stands for itself.
  function Bracket(pat: string, p: nat, f: Flags): (r: Option<(Token, nat)>)
    requires p <= |pat|
    ensures r.Some? ==> r.value.0.Class? && p < r.value.1 <= |pat|
  {
    var q := if Negates(pat, p) then p + 1 else p;
    var items := if q < |pat| && pat[q] == ']' then WithItem(Single(']'), Items(pat, q + 1, f)) else Items(pat, q, f);
    if items.None? then None else Some((Class(Negates(pat, p), items.value.0), items.value.1))
  }

  // The token at p and the place after it; a bracket that never ends is an ordinary '['.
  function TokenAt(pat: string, p: nat, f: Flags): (r: (Token, nat))
    requires p < |pat|
    ensures p < r.1 <= |pat| && (r.0.Star? <==> pat[p] == '*')
  {
    if pat[p] == '*' then (Star, p + 1)
    else if pat[p] == '?' then (Any, p + 1)
    else if pat[p] == '[' && Bracket(pat, p + 1, f).Some? then Bracket(pat, p + 1, f).value
    else (Lit(Unit(pat, p, f).0), Unit(pat, p, f).1)
  }

  function Tokens(pat: string, p: nat, f: Flags): seq<Token>
    requires p <= |pat|
    decreases |pat| - p
  {
    if p == |pat| then [] else [TokenAt(pat, p, f).0] + Tokens(pat, TokenAt(pat, p, f).1, f)
  }

  // ---------------------------------------------------------------- what a token matches

  function Lower(c: char): char { if 'A' <= c <= 'Z' then c + 32 as char else c }

  function Fold(c: char, f: Flags): char { if f.casefold then Lower(c) else c }

  predicate Same(a: char, b: char, f: Flags) { Fold(a, f) == Fold(b, f) }

  predicate ItemHas(i: Item, c: char, f: Flags) {
    match i
    case Single(a) => Same(a, c, f)
    case Range(a, b) => Fold(a, f) <= Fold(c, f) <= Fold(b, f)
  }

  predicate AnyItemHas(items: seq<Item>, c: char, f: Flags) { exists k | 0 <= k < |items| :: ItemHas(items[k], c, f) }

  // A period that only an explicit period may match.
  predicate LeadingPeriod(s: string, i: nat, f: Flags) {
    i < |s| && f.period && s[i] == '.' && (i == 0 || (f.pathname && s[i - 1] == '/'))
  }

  predicate Barred(s: string, i: nat, f: Flags)
    requires i < |s|
  {
    (f.pathname && s[i] == '/') || LeadingPeriod(s, i, f)
  }

  predicate NoSlash(s: string, i: nat, j: nat)
    requires j <= |s|
  {
    forall k | i <= k < j :: s[k] != '/'
  }

  // The token matches the characters from i up to j.
  predicate TokenMatches(t: Token, s: string, i: nat, j: nat, f: Flags) {
    match t
    case Star => i <= j <= |s| && !LeadingPeriod(s, i, f) && (f.pathname ==> NoSlash(s, i, j))
    case Any => i < |s| && j == i + 1 && !Barred(s, i, f)
    case Lit(c) => i < |s| && j == i + 1 && Same(c, s[i], f)
    case Class(negated, items) => i < |s| && j == i + 1 && !Barred(s, i, f) && AnyItemHas(items, s[i], f) != negated
  }

  predicate AtEnd(s: string, i: nat, f: Flags) { i == |s| || (f.leadingDir && i < |s| && s[i] == '/') }

  // Cut points that split the string from i on into one stretch for each token.
  predicate Splits(ts: seq<Token>, s: string, i: nat, cuts: seq<nat>, f: Flags) {
    && |cuts| == |ts| + 1 && cuts[0] == i && AtEnd(s, cuts[|ts|], f)
    && forall k | 0 <= k < |ts| :: TokenMatches(ts[k], s, cuts[k], cuts[k + 1], f)
  }

  ghost predicate Matches(ts: seq<Token>, s: string, i: nat, f: Flags) {
    exists cuts: seq<nat> :: Splits(ts, s, i, cuts, f)
  }

  lemma NothingLeft(s: string, i: nat, f: Flags)
    ensures Matches([], s, i, f) <==> AtEnd(s, i, f)
  {
    if AtEnd(s, i, f) { assert Splits([], s, i, [i], f); }
  }

  lemma FirstThenRest(t: Token, ts: seq<Token>, s: string, i: nat, f: Flags)
    ensures Matches([t] + ts, s, i, f) <==> exists j: nat :: TokenMatches(t, s, i, j, f) && Matches(ts, s, j, f)
  {
    if Matches([t] + ts, s, i, f) {
      var cuts: seq<nat> :| Splits([t] + ts, s, i, cuts, f);
      assert ([t] + ts)[0] == t && TokenMatches(t, s, i, cuts[1], f);
      forall k | 0 <= k < |ts| ensures TokenMatches(ts[k], s, cuts[1..][k], cuts[1..][k + 1], f) {
        assert ([t] + ts)[k + 1] == ts[k];
      }
      assert Splits(ts, s, cuts[1], cuts[1..], f);
    }
    if exists j: nat :: TokenMatches(t, s, i, j, f) && Matches(ts, s, j, f) {
      var j: nat :| TokenMatches(t, s, i, j, f) && Matches(ts, s, j, f);
      var cuts: seq<nat> :| Splits(ts, s, j, cuts, f);
      var all := [i] + cuts;
      forall k | 0 <= k < |ts| + 1 ensures TokenMatches(([t] + ts)[k], s, all[k], all[k + 1], f) {
        if k > 0 { assert ([t] + ts)[k] == ts[k - 1]; }
      }
      assert Splits([t] + ts, s, i, all, f);
    }
  }

  /** Stars in a row match what one star matches. */
  lemma StarsCollapse(ts: seq<Token>, s: string, i: nat, f: Flags)
    ensures Matches([Star] + ([Star] + ts), s, i, f) <==> Matches([Star] + ts, s, i, f)
  {
    FirstThenRest(Star, [Star] + ts, s, i, f);
    FirstThenRest(Star, ts, s, i, f);
    if Matches([Star] + ([Star] + ts), s, i, f) {
      var j: nat :| TokenMatches(Star, s, i, j, f) && Matches([Star] + ts, s, j, f);
      FirstThenRest(Star, ts, s, j, f);
      var k: nat :| TokenMatches(Star, s, j, k, f) && Matches(ts, s, k, f);
      assert TokenMatches(Star, s, i, k, f);
    }
    if Matches([Star] + ts, s, i, f) {
      var j: nat :| TokenMatches(Star, s, i, j, f) && Matches(ts, s, j, f);
      assert TokenMatches(Star, s, i, i, f);
    }
  }

  // ---------------------------------------------------------------- the matcher

  // What is left to find in a bracket: a hit so far, or one among the items from p on.
  function Verdict(pat: string, p: nat, hit: bool, c: char, f: Flags): Option<(bool, nat)>
    requires p <= |pat|
  {
    var rest := Items(pat, p, f);
    if rest.None? then None else Some((hit || AnyItemHas(rest.value.0, c, f), rest.value.1))
  }

  lemma ItemFirst(i: Item, rest: seq<Item>, c: char, f: Flags)
    ensures AnyItemHas([i] + rest, c, f) <==> ItemHas(i, c, f) || AnyItemHas(rest, c, f)
  {
    var all := [i] + rest;
    if ItemHas(i, c, f) { assert ItemHas(all[0], c, f); }
    if AnyItemHas(rest, c, f) {
      var k: nat :| k < |rest| && ItemHas(rest[k], c, f);
      assert all[k + 1] == rest[k];
    }
    if AnyItemHas(all, c, f) {
      var k: nat :| k < |all| && ItemHas(all[k], c, f);
      if k > 0 { assert rest[k - 1] == all[k]; }
    }
  }

  lemma VerdictStep(pat: string, p: nat, hit: bool, c: char, f: Flags)
    requires p < |pat| && pat[p] != ']'
    ensures var (item, q) := ItemAt(pat, p, f);
      Verdict(pat, p, hit, c, f) == Verdict(pat, q, hit || ItemHas(item, c, f), c, f)
  {
    var (item, q) := ItemAt(pat, p, f);
    if Items(pat, q, f).Some? { ItemFirst(item, Items(pat, q, f).value.0, c, f); }
  }

  method ReadUnit(pat: string, start: nat, f: Flags) returns (c: char, p: nat)
    requires start < |pat|
    ensures (c, p) == Unit(pat, start, f)
  {
    c, p := pat[start], start + 1;
    if c == '\\' && !f.noescape && p < |pat| { c := pat[p]; p := p + 1; }
  }

  // The loop of fnm_class: it stops at the ']' or at the end of the pattern.
  method ClassItems(pat: string, start: nat, before: bool, c: char, f: Flags) returns (hit: bool, p: nat)
    requires start <= |pat|
    ensures p <= |pat|
    ensures Verdict(pat, start, before, c, f) == if p == |pat| then None else Some((hit, p + 1))
  {
    hit, p := before, start;
    while p < |pat| && pat[p] != ']'
      invariant p <= |pat| && Verdict(pat, p, hit, c, f) == Verdict(pat, start, before, c, f)
      decreases |pat| - p
    {
      VerdictStep(pat, p, hit, c, f);
      var a, q := ReadUnit(pat, p, f);
      if q < |pat| && pat[q] == '-' && q + 1 < |pat| && pat[q + 1] != ']' {
        var b, end := ReadUnit(pat, q + 1, f);
        if Fold(a, f) <= Fold(c, f) && Fold(c, f) <= Fold(b, f) { hit := true; }
        p := end;
      } else {
        if Same(a, c, f) { hit := true; }
        p := q;
      }
    }
  }

  // fnm_class: -1 for a bracket that never ends, else whether c is in it, and where it ends.
  method FnmClass(pat: string, start: nat, c: char, f: Flags) returns (r: int, end: nat)
    requires start <= |pat|
    ensures match Bracket(pat, start, f)
      case None => r == -1
      case Some(bracket) =>
        && end == bracket.1
        && r == if AnyItemHas(bracket.0.items, c, f) != bracket.0.negated then 1 else 0
  {
    var p, neg, hit := start, false, false;
    if p < |pat| && (pat[p] == '!' || pat[p] == '^') { neg := true; p := p + 1; }
    if p < |pat| && pat[p] == ']' {
      if Same(']', c, f) { hit := true; }
      p := p + 1;
      if Items(pat, p, f).Some? { ItemFirst(Single(']'), Items(pat, p, f).value.0, c, f); }
    }
    hit, p := ClassItems(pat, p, hit, c, f);
    if p == |pat| { return -1, p; }
    end := p + 1;
    r := if neg != hit then 1 else 0;
  }

  // Rest of a match whose last token was a star that began at `from` and has reached i.
  ghost predicate StarReaches(ts: seq<Token>, s: string, i: nat, f: Flags) {
    exists j: nat :: i <= j <= |s| && (f.pathname ==> NoSlash(s, i, j)) && Matches(ts, s, j, f)
  }

  lemma StarStarts(ts: seq<Token>, s: string, i: nat, f: Flags)
    ensures Matches([Star] + ts, s, i, f) <==> !LeadingPeriod(s, i, f) && StarReaches(ts, s, i, f)
  {
    FirstThenRest(Star, ts, s, i, f);
    if Matches([Star] + ts, s, i, f) {
      var j: nat :| TokenMatches(Star, s, i, j, f) && Matches(ts, s, j, f);
      assert i <= j <= |s| && (f.pathname ==> NoSlash(s, i, j)) && Matches(ts, s, j, f);
    }
    if !LeadingPeriod(s, i, f) && StarReaches(ts, s, i, f) {
      var j: nat :| i <= j <= |s| && (f.pathname ==> NoSlash(s, i, j)) && Matches(ts, s, j, f);
      assert TokenMatches(Star, s, i, j, f);
    }
  }

  lemma StarSteps(ts: seq<Token>, s: string, i: nat, f: Flags)
    requires i <= |s|
    ensures StarReaches(ts, s, i, f) <==>
      Matches(ts, s, i, f) || (i < |s| && !(f.pathname && s[i] == '/') && StarReaches(ts, s, i + 1, f))
  {
    if StarReaches(ts, s, i, f) && !Matches(ts, s, i, f) {
      var j: nat :| i <= j <= |s| && (f.pathname ==> NoSlash(s, i, j)) && Matches(ts, s, j, f);
      assert i < j && (f.pathname ==> NoSlash(s, i + 1, j));
    }
    if Matches(ts, s, i, f) { assert NoSlash(s, i, i); }
    if i < |s| && !(f.pathname && s[i] == '/') && StarReaches(ts, s, i + 1, f) {
      var j: nat :| i + 1 <= j <= |s| && (f.pathname ==> NoSlash(s, i + 1, j)) && Matches(ts, s, j, f);
      assert f.pathname ==> NoSlash(s, i, j);
    }
  }

  lemma {:induction false} FirstSlash(s: string, i: nat) returns (j: nat)
    requires i <= |s| && !NoSlash(s, i, |s|)
    ensures i <= j < |s| && s[j] == '/' && NoSlash(s, i, j)
    decreases |s| - i
  {
    if s[i] == '/' { j := i; } else { j := FirstSlash(s, i + 1); }
  }

  // A star at the end of the pattern.
  lemma StarEnds(s: string, i: nat, f: Flags)
    requires i <= |s|
    ensures StarReaches([], s, i, f) <==> !f.pathname || NoSlash(s, i, |s|) || f.leadingDir
  {
    if StarReaches([], s, i, f) {
      var j: nat :| i <= j <= |s| && (f.pathname ==> NoSlash(s, i, j)) && Matches([], s, j, f);
      NothingLeft(s, j, f);
    }
    if !f.pathname || NoSlash(s, i, |s|) {
      NothingLeft(s, |s|, f);
      assert i <= |s| && (f.pathname ==> NoSlash(s, i, |s|)) && Matches([], s, |s|, f);
    } else if f.leadingDir {
      var j := FirstSlash(s, i);
      NothingLeft(s, j, f);
      assert NoSlash(s, i, j) && Matches([], s, j, f);
    }
  }

  method HasSlash(s: string, i: nat) returns (r: bool)
    requires i <= |s|
    ensures r <==> !NoSlash(s, i, |s|)
  {
    for j := i to |s|
      invariant NoSlash(s, i, j)
    {
      if s[j] == '/' { return true; }
    }
    return false;
  }

  // Tokens other than a star, one character each.
  lemma OneCharacter(pat: string, p: nat, s: string, i: nat, f: Flags)
    requires p < |pat| && pat[p] != '*'
    ensures Matches(Tokens(pat, p, f), s, i, f) <==>
      TokenMatches(TokenAt(pat, p, f).0, s, i, i + 1, f) && Matches(Tokens(pat, TokenAt(pat, p, f).1, f), s, i + 1, f)
  {
    FirstThenRest(TokenAt(pat, p, f).0, Tokens(pat, TokenAt(pat, p, f).1, f), s, i, f);
  }

  // The part of nx_fnmatch_impl after a star.
  method MatchStar(pat: string, from: nat, s: string, at: nat, f: Flags) returns (matched: bool)
    requires from <= |pat| && at <= |s|
    ensures matched <==> Matches([Star] + Tokens(pat, from, f), s, at, f)
    decreases |pat| - from, 1
  {
    var p: nat, i: nat := from, at;
    ghost var goal := Matches([Star] + Tokens(pat, p, f), s, at, f);
    while p < |pat| && pat[p] == '*'
      invariant from <= p <= |pat|
      invariant Matches([Star] + Tokens(pat, p, f), s, i, f) <==> goal
      decreases |pat| - p
    {
      StarsCollapse(Tokens(pat, p + 1, f), s, i, f);
      p := p + 1;
    }
    ghost var rest := Tokens(pat, p, f);
    StarStarts(rest, s, i, f);
    if LeadingPeriod(s, i, f) { return false; }
    if p == |pat| {
      StarEnds(s, i, f);
      if !f.pathname { return true; }
      var slash := HasSlash(s, i);
      if !slash { return true; }
      return f.leadingDir;
    }
    while true
      invariant i <= |s| && (goal <==> StarReaches(rest, s, i, f))
      decreases |s| - i
    {
      StarSteps(rest, s, i, f);
      var found := Fnmatch(pat, p, s, i, f);
      if found { return true; }
      if i == |s| || (f.pathname && s[i] == '/') { break; }
      i := i + 1;
    }
    return false;
  }

  // One turn of nx_fnmatch_impl's loop for a token that is not a star: whether it fits, and the places after it.
  method OneToken(pat: string, from: nat, s: string, at: nat, f: Flags) returns (fits: bool, p: nat, i: nat)
    requires from < |pat| && pat[from] != '*' && at <= |s|
    ensures from < p <= |pat| && i <= |s|
    ensures if fits then Matches(Tokens(pat, from, f), s, at, f) <==> Matches(Tokens(pat, p, f), s, i, f)
            else !Matches(Tokens(pat, from, f), s, at, f)
  {
    var pc := pat[from];
    p, i := from + 1, at;
    OneCharacter(pat, from, s, at, f);
    if i == |s| { return false, p, i; }
    if pc == '?' {
      if (f.pathname && s[i] == '/') || LeadingPeriod(s, i, f) { return false, p, i; }
      return true, p, i + 1;
    }
    if pc == '[' {
      if (f.pathname && s[i] == '/') || LeadingPeriod(s, i, f) { return false, p, i; }
      var r, q := FnmClass(pat, p, s[i], f);
      if r >= 0 {
        if r == 0 { return false, p, i; }
        return true, q, i + 1;
      }
    }
    if pc == '\\' && !f.noescape && p < |pat| { pc := pat[p]; p := p + 1; }
    if f.pathname && pc == '/' && s[i] != '/' { return false, p, i; }
    if !Same(pc, s[i], f) { return false, p, i; }
    return true, p, i + 1;
  }

  /**
   nx_fnmatch_impl from a place in the pattern and a place in the string: it ends on every input,
   and reports a match exactly when cut points for the pattern's tokens exist.
   */
  method Fnmatch(pat: string, from: nat, s: string, at: nat, f: Flags) returns (matched: bool)
    requires from <= |pat| && at <= |s|
    ensures matched <==> Matches(Tokens(pat, from, f), s, at, f)
    decreases |pat| - from, 0
  {
    var p: nat, i: nat := from, at;
    ghost var goal := Matches(Tokens(pat, from, f), s, at, f);
    while p < |pat|
      invariant from <= p <= |pat| && i <= |s|
      invariant Matches(Tokens(pat, p, f), s, i, f) <==> goal
      decreases |pat| - p
    {
      if pat[p] == '*' {
        matched := MatchStar(pat, p + 1, s, i, f);
        return;
      }
      var fits, q, j := OneToken(pat, p, s, i, f);
      if !fits { return false; }
      p, i := q, j;
    }
    NothingLeft(s, i, f);
    if i == |s| { return true; }
    return f.leadingDir && s[i] == '/';
  }

  // ---------------------------------------------------------------- what callers rely on

  // A pattern with a backslash before every character.
  function Escaped(text: string): (r: string)
    ensures |r| == 2 * |text|
  {
    if text == "" then "" else ['\\', text[0]] + Escaped(text[1..])
  }

  lemma {:induction false} EscapedAt(text: string, k: nat)
    requires k < |text|
    ensures Escaped(text)[2 * k] == '\\' && Escaped(text)[2 * k + 1] == text[k]
  {
    if k > 0 { EscapedAt(text[1..], k - 1); }
  }

  // Equal character by character, up to case if case is folded.
  predicate SameText(a: string, b: string, f: Flags) {
    |a| == |b| && (a == "" || (Same(a[0], b[0], f) && SameText(a[1..], b[1..], f)))
  }

  lemma {:induction false} EscapedFrom(text: string, k: nat, s: string, i: nat, f: Flags)
    requires !f.noescape && !f.leadingDir && k <= |text| && i <= |s|
    ensures Matches(Tokens(Escaped(text), 2 * k, f), s, i, f) <==> SameText(text[k..], s[i..], f)
    decreases |text| - k
  {
    if k == |text| {
      NothingLeft(s, i, f);
    } else {
      EscapedAt(text, k);
      assert TokenAt(Escaped(text), 2 * k, f) == (Lit(text[k]), 2 * (k + 1));
      OneCharacter(Escaped(text), 2 * k, s, i, f);
      if i < |s| {
        EscapedFrom(text, k + 1, s, i + 1, f);
        assert text[k..][1..] == text[k + 1..] && s[i..][1..] == s[i + 1..];
      }
    }
  }

  lemma {:induction false} SameTextIsEqual(a: string, b: string, f: Flags)
    requires !f.casefold
    ensures SameText(a, b, f) <==> a == b
  {
    if |a| == |b| && a != "" {
      SameTextIsEqual(a[1..], b[1..], f);
      assert a == [a[0]] + a[1..] && b == [b[0]] + b[1..];
    }
  }

  /** An escaped text matches exactly the strings that equal it. */
  lemma EscapedMatchesItself(text: string, s: string, f: Flags)
    requires !f.noescape && !f.leadingDir
    ensures Matches(Tokens(Escaped(text), 0, f), s, 0, f) <==> SameText(text, s, f)
    ensures !f.casefold ==> (Matches(Tokens(Escaped(text), 0, f), s, 0, f) <==> text == s)
  {
    EscapedFrom(text, 0, s, 0, f);
    assert text[0..] == text && s[0..] == s;
    if !f.casefold { SameTextIsEqual(text, s, f); }
  }

  /** Under PATHNAME only a literal slash matches a slash, so a match aligns the slashes of pattern and string. */
  lemma SlashesAreLiteral(ts: seq<Token>, s: string, i: nat, cuts: seq<nat>, f: Flags, k: nat, at: nat)
    requires f.pathname && Splits(ts, s, i, cuts, f) && k < |ts| && cuts[k] <= at < cuts[k + 1] <= |s| && s[at] == '/'
    ensures ts[k].Lit? && Same(ts[k].c, '/', f)
  {
    assert TokenMatches(ts[k], s, cuts[k], cuts[k + 1], f);
  }
}
