/**
 What patterns mean to callers of the fnmatch of source/imports.c: how token lists are written down,
 what each flag changes, and the simple recursive reading when no flag is set.
 */
module GlobLaws {
  import opened Common
  import opened Glob

  // ---------------------------------------------------------------- writing patterns

  // A character that has no meaning of its own inside a bracket.
  predicate Plain(c: char) { c !in {']', '!', '^', '\\', '-'} }

  predicate PlainItem(i: Item) {
    match i
    case Single(c) => Plain(c)
    case Range(lo, hi) => Plain(lo) && Plain(hi)
  }

  predicate AllPlain(items: seq<Item>) { forall k | 0 <= k < |items| :: PlainItem(items[k]) }

  function ItemText(i: Item): string {
    match i
    case Single(c) => [c]
    case Range(lo, hi) => [lo, '-', hi]
  }

  function ItemsText(items: seq<Item>): string {
    if items == [] then "" else ItemText(items[0]) + ItemsText(items[1..])
  }

  predicate Writable(t: Token) { t.Class? ==> t.items != [] && AllPlain(t.items) }

  // What opens a bracket.
  function Opening(negated: bool): (r: string)
    ensures r != ""
  {
    if negated then "[^" else "["
  }

  function TokenText(t: Token): (r: string)
    ensures r != ""
  {
    match t
    case Star => "*"
    case Any => "?"
    case Lit(c) => ['\\', c]
    case Class(negated, items) => Opening(negated) + ItemsText(items) + "]"
  }

  function PatternText(ts: seq<Token>): string {
    if ts == [] then "" else TokenText(ts[0]) + PatternText(ts[1..])
  }

  // pat says `text` at p, and `rest` follows.
  predicate Says(pat: string, p: nat, text: string, rest: nat) {
    p + |text| == rest <= |pat| && pat[p..rest] == text
  }

  lemma SaysParts(pat: string, p: nat, a: string, b: string, rest: nat)
    requires Says(pat, p, a + b, rest)
    ensures Says(pat, p, a, p + |a|) && Says(pat, p + |a|, b, rest)
  {
    assert pat[p..p + |a|] == (a + b)[..|a|] == a;
    assert pat[p + |a|..rest] == (a + b)[|a|..] == b;
  }

  lemma SaysAt(pat: string, p: nat, text: string, rest: nat, k: nat)
    requires Says(pat, p, text, rest) && k < |text|
    ensures p + k < |pat| && pat[p + k] == text[k]
  {
    assert pat[p..rest][k] == pat[p + k];
  }

  // One item, written before another or before the ']'.
  lemma {:induction false} ItemReads(pat: string, p: nat, i: Item, rest: nat, f: Flags)
    requires PlainItem(i) && Says(pat, p, ItemText(i), rest) && rest < |pat| && pat[rest] != '-'
    ensures p < |pat| && pat[p] != ']' && ItemAt(pat, p, f) == (i, rest)
  {
    SaysAt(pat, p, ItemText(i), rest, 0);
    if i.Range? {
      SaysAt(pat, p, ItemText(i), rest, 1);
      SaysAt(pat, p, ItemText(i), rest, 2);
    }
  }

  lemma {:induction false} ItemsRead(pat: string, p: nat, items: seq<Item>, end: nat, f: Flags)
    requires AllPlain(items) && Says(pat, p, ItemsText(items), end) && end < |pat| && pat[end] == ']'
    ensures Items(pat, p, f) == Some((items, end + 1))
    ensures items != [] ==> p < |pat| && !Negates(pat, p) && pat[p] != ']' && pat[p] != '-'
    decreases |items|
  {
    if items != [] {
      var mid := p + |ItemText(items[0])|;
      SaysParts(pat, p, ItemText(items[0]), ItemsText(items[1..]), end);
      ItemsRead(pat, mid, items[1..], end, f);
      if items[1..] == [] { assert mid == end; }
      ItemReads(pat, p, items[0], mid, f);
      SaysAt(pat, p, ItemText(items[0]), mid, 0);
      assert [items[0]] + items[1..] == items;
    }
  }

  lemma OpeningReads(pat: string, p: nat, negated: bool, next: nat)
    requires Says(pat, p, Opening(negated), next) && (!negated ==> !Negates(pat, next))
    ensures p < |pat| && pat[p] == '[' && (Negates(pat, p + 1) <==> negated)
    ensures next == if negated then p + 2 else p + 1
  {
    SaysAt(pat, p, Opening(negated), next, 0);
    if negated { SaysAt(pat, p, Opening(negated), next, 1); }
  }

  lemma ItemsClose(pat: string, p: nat, items: seq<Item>, rest: nat, f: Flags)
    requires items != [] && AllPlain(items) && Says(pat, p, ItemsText(items) + "]", rest)
    ensures p < |pat| && pat[p] != ']' && !Negates(pat, p) && Items(pat, p, f) == Some((items, rest))
  {
    SaysParts(pat, p, ItemsText(items), "]", rest);
    SaysAt(pat, rest - 1, "]", rest, 0);
    ItemsRead(pat, p, items, rest - 1, f);
  }

  lemma BracketIs(pat: string, p: nat, t: Token, next: nat, rest: nat, f: Flags)
    requires t.Class? && p < |pat| && pat[p] == '[' && (Negates(pat, p + 1) <==> t.negated)
    requires next == (if t.negated then p + 2 else p + 1) && next < |pat| && pat[next] != ']'
    requires Items(pat, next, f) == Some((t.items, rest))
    ensures TokenAt(pat, p, f) == (t, rest)
  {
    assert Bracket(pat, p + 1, f) == Some((t, rest));
  }

  lemma {:induction false} ClassReads(pat: string, p: nat, t: Token, rest: nat, f: Flags)
    requires t.Class? && Writable(t) && Says(pat, p, TokenText(t), rest)
    ensures p < |pat| && TokenAt(pat, p, f) == (t, rest)
  {
    var next := p + |Opening(t.negated)|;
    assert TokenText(t) == Opening(t.negated) + (ItemsText(t.items) + "]");
    SaysParts(pat, p, Opening(t.negated), ItemsText(t.items) + "]", rest);
    ItemsClose(pat, next, t.items, rest, f);
    OpeningReads(pat, p, t.negated, next);
    BracketIs(pat, p, t, next, rest, f);
  }

  lemma {:induction false} TokenReads(pat: string, p: nat, t: Token, rest: nat, f: Flags)
    requires !f.noescape && Writable(t) && Says(pat, p, TokenText(t), rest)
    ensures p < |pat| && TokenAt(pat, p, f) == (t, rest)
  {
    if t.Class? {
      ClassReads(pat, p, t, rest, f);
    } else {
      SaysAt(pat, p, TokenText(t), rest, 0);
      if t.Lit? { SaysAt(pat, p, TokenText(t), rest, 1); }
    }
  }

  predicate AllWritable(ts: seq<Token>) { forall k | 0 <= k < |ts| :: Writable(ts[k]) }

  lemma TokensFrom(pat: string, p: nat, t: Token, mid: nat, rest: seq<Token>, f: Flags)
    requires p < |pat| && TokenAt(pat, p, f) == (t, mid) && Tokens(pat, mid, f) == rest
    ensures Tokens(pat, p, f) == [t] + rest
  {
  }

  lemma PatternParts(pat: string, p: nat, ts: seq<Token>, mid: nat)
    requires ts != [] && Says(pat, p, PatternText(ts), |pat|) && mid == p + |TokenText(ts[0])|
    ensures Says(pat, p, TokenText(ts[0]), mid) && Says(pat, mid, PatternText(ts[1..]), |pat|)
  {
    SaysParts(pat, p, TokenText(ts[0]), PatternText(ts[1..]), |pat|);
  }

  /** Reading a written pattern gives back the tokens, brackets with ranges and negations included. */
  lemma {:induction false} TextReadsBack(pat: string, p: nat, ts: seq<Token>, f: Flags)
    requires !f.noescape && AllWritable(ts) && Says(pat, p, PatternText(ts), |pat|)
    ensures Tokens(pat, p, f) == ts
    decreases |ts|
  {
    if ts != [] {
      var mid := p + |TokenText(ts[0])|;
      PatternParts(pat, p, ts, mid);
      TokenReads(pat, p, ts[0], mid, f);
      TextReadsBack(pat, mid, ts[1..], f);
      TokensFrom(pat, p, ts[0], mid, ts[1..], f);
      assert [ts[0]] + ts[1..] == ts;
    }
  }

  // ---------------------------------------------------------------- brackets

  lemma {:induction false} OneToken(t: Token, s: string, f: Flags)
    requires !t.Star? && !f.leadingDir
    ensures Matches([t], s, 0, f) <==> |s| == 1 && TokenMatches(t, s, 0, 1, f)
  {
    FirstThenRest(t, [], s, 0, f);
    assert [t] + [] == [t];
    NothingLeft(s, 1, f);
    assert forall j: nat | TokenMatches(t, s, 0, j, f) :: j == 1;
  }

  // The characters that a bracket item stands for, case not folded.
  predicate Covers(i: Item, c: char) {
    match i
    case Single(a) => c == a
    case Range(lo, hi) => lo <= c <= hi
  }

  /**
   A bracket of plain characters and ranges, such as [a-cx], matches exactly the strings of one character
   that one of its items covers; with a ^ in front, exactly those of one that none covers.
   */
  lemma {:induction false} BracketMatches(items: seq<Item>, negated: bool, s: string, f: Flags)
    requires items != [] && AllPlain(items) && !f.leadingDir && !f.casefold
    ensures
      var pat := Opening(negated) + ItemsText(items) + "]";
      Matches(Tokens(pat, 0, f), s, 0, f) <==>
        && |s| == 1 && !(f.pathname && s[0] == '/') && !(f.period && s[0] == '.')
        && ((exists k | 0 <= k < |items| :: Covers(items[k], s[0])) <==> !negated)
  {
    var t := Class(negated, items);
    var pat := TokenText(t);
    assert pat[0..|pat|] == pat;
    ClassReads(pat, 0, t, |pat|, f);
    assert Tokens(pat, |pat|, f) == [];
    assert Tokens(pat, 0, f) == [t];
    OneToken(t, s, f);
    if |s| == 1 {
      assert forall k | 0 <= k < |items| :: ItemHas(items[k], s[0], f) <==> Covers(items[k], s[0]);
    }
  }

  /** The bracket [a-b] and its negation, written out. */
  lemma {:induction false} RangeMatches(a: char, b: char, s: string, f: Flags)
    requires Plain(a) && Plain(b) && !f.leadingDir && !f.casefold && !f.pathname && !f.period
    ensures Matches(Tokens(['[', a, '-', b, ']'], 0, f), s, 0, f) <==> |s| == 1 && a <= s[0] <= b
    ensures Matches(Tokens(['[', '^', a, '-', b, ']'], 0, f), s, 0, f) <==> |s| == 1 && !(a <= s[0] <= b)
  {
    var items := [Range(a, b)];
    assert ItemsText(items[1..]) == "";
    assert "[" + ItemsText(items) + "]" == ['[', a, '-', b, ']'];
    assert "[^" + ItemsText(items) + "]" == ['[', '^', a, '-', b, ']'];
    BracketMatches(items, false, s, f);
    BracketMatches(items, true, s, f);
    if |s| == 1 { assert Covers(items[0], s[0]) <==> a <= s[0] <= b; }
  }

  lemma {:induction false} OneClass(pat: string, t: Token, s: string, f: Flags)
    requires t.Class? && pat != "" && !f.leadingDir && TokenAt(pat, 0, f) == (t, |pat|)
    ensures Matches(Tokens(pat, 0, f), s, 0, f) <==> |s| == 1 && TokenMatches(t, s, 0, 1, f)
  {
    assert Tokens(pat, |pat|, f) == [];
    assert Tokens(pat, 0, f) == [t];
    OneToken(t, s, f);
  }

  /** A ] that comes first and a - that comes last stand for themselves. */
  lemma {:induction false} EdgesOfBrackets(a: char, s: string, f: Flags)
    requires Plain(a) && !f.leadingDir && !f.casefold && !f.pathname && !f.period
    ensures Matches(Tokens(['[', ']', a, ']'], 0, f), s, 0, f) <==> s == "]" || s == [a]
    ensures Matches(Tokens(['[', a, '-', ']'], 0, f), s, 0, f) <==> s == "-" || s == [a]
  {
    var first, last := ['[', ']', a, ']'], ['[', a, '-', ']'];
    assert [Single(a)] + [] == [Single(a)];
    assert [Single(']')] + [Single(a)] == [Single(']'), Single(a)];
    assert Items(first, 3, f) == Some(([], 4));
    assert Items(first, 2, f) == Some(([Single(a)], 4));
    OneClass(first, Class(false, [Single(']'), Single(a)]), s, f);
    assert [Single('-')] + [] == [Single('-')];
    assert [Single(a)] + [Single('-')] == [Single(a), Single('-')];
    assert Items(last, 3, f) == Some(([], 4));
    assert Items(last, 2, f) == Some(([Single('-')], 4));
    assert Items(last, 1, f) == Some(([Single(a), Single('-')], 4));
    OneClass(last, Class(false, [Single(a), Single('-')]), s, f);
    if |s| == 1 {
      var x, y := [Single(']'), Single(a)], [Single(a), Single('-')];
      assert ItemHas(x[0], s[0], f) <==> s[0] == ']';
      assert ItemHas(x[1], s[0], f) <==> s[0] == a;
      assert ItemHas(y[0], s[0], f) <==> s[0] == a;
      assert ItemHas(y[1], s[0], f) <==> s[0] == '-';
    }
  }

  // ---------------------------------------------------------------- flags

  // Cut points never go back.
  lemma {:induction false} CutsIncrease(ts: seq<Token>, s: string, i: nat, cuts: seq<nat>, f: Flags, k: nat)
    requires Splits(ts, s, i, cuts, f) && k <= |ts|
    ensures cuts[k] <= cuts[|ts|] <= |s|
    decreases |ts| - k
  {
    if k < |ts| {
      CutsIncrease(ts, s, i, cuts, f, k + 1);
      assert TokenMatches(ts[k], s, cuts[k], cuts[k + 1], f);
    }
  }

  lemma {:induction false} TokenInPrefix(t: Token, s: string, i: nat, j: nat, end: nat, f: Flags)
    requires i <= j <= end <= |s| && (end == |s| || s[end] == '/')
    ensures TokenMatches(t, s, i, j, f) <==> TokenMatches(t, s[..end], i, j, f.(leadingDir := false))
  {
    var p := s[..end];
    assert forall k | 0 <= k < end :: p[k] == s[k];
    assert LeadingPeriod(s, i, f) <==> LeadingPeriod(p, i, f.(leadingDir := false));
    assert NoSlash(s, i, j) <==> NoSlash(p, i, j);
    if t.Class? && i < end {
      assert AnyItemHas(t.items, s[i], f) <==> AnyItemHas(t.items, p[i], f.(leadingDir := false)) by {
        assert forall k | 0 <= k < |t.items| :: ItemHas(t.items[k], s[i], f) <==>
          ItemHas(t.items[k], p[i], f.(leadingDir := false));
      }
    }
  }

  /** LEADING_DIR matches the string or any of its leading directories, which end before a slash. */
  lemma {:induction false} LeadingDirMeans(ts: seq<Token>, s: string, i: nat, f: Flags)
    requires f.leadingDir
    ensures
      var strict := f.(leadingDir := false);
      Matches(ts, s, i, f) <==>
        exists end | 0 <= end <= |s| :: (end == |s| || s[end] == '/') && Matches(ts, s[..end], i, strict)
  {
    var strict := f.(leadingDir := false);
    if Matches(ts, s, i, f) {
      var cuts: seq<nat> :| Splits(ts, s, i, cuts, f);
      var end := cuts[|ts|];
      forall k | 0 <= k < |ts| ensures TokenMatches(ts[k], s[..end], cuts[k], cuts[k + 1], strict) {
        CutsIncrease(ts, s, i, cuts, f, k + 1);
        assert TokenMatches(ts[k], s, cuts[k], cuts[k + 1], f);
        TokenInPrefix(ts[k], s, cuts[k], cuts[k + 1], end, f);
      }
      assert Splits(ts, s[..end], i, cuts, strict);
    }
    if exists end | 0 <= end <= |s| :: (end == |s| || s[end] == '/') && Matches(ts, s[..end], i, strict) {
      var end: nat :| end <= |s| && (end == |s| || s[end] == '/') && Matches(ts, s[..end], i, strict);
      var cuts: seq<nat> :| Splits(ts, s[..end], i, cuts, strict);
      forall k | 0 <= k < |ts| ensures TokenMatches(ts[k], s, cuts[k], cuts[k + 1], f) {
        CutsIncrease(ts, s[..end], i, cuts, strict, k + 1);
        assert TokenMatches(ts[k], s[..end], cuts[k], cuts[k + 1], strict);
        TokenInPrefix(ts[k], s, cuts[k], cuts[k + 1], end, f);
      }
      assert Splits(ts, s, i, cuts, f);
    }
  }

  function WithoutLimits(f: Flags): Flags { f.(pathname := false, period := false) }

  // No slash under PATHNAME, and no leading period under PERIOD, among the characters from i up to j.
  predicate NothingSpecial(s: string, i: nat, j: nat, f: Flags)
    requires j <= |s|
  {
    forall at | i <= at < j :: !(f.pathname && s[at] == '/') && !LeadingPeriod(s, at, f)
  }

  // What PATHNAME and PERIOD ask of the stretch of one token.
  predicate WithinLimits(t: Token, s: string, i: nat, j: nat, f: Flags)
    requires j <= |s|
  {
    t.Lit? || (NothingSpecial(s, i, j, f) && (t.Star? ==> !LeadingPeriod(s, i, f)))
  }

  lemma {:induction false} TokenLimited(t: Token, s: string, i: nat, j: nat, f: Flags)
    requires j <= |s|
    ensures TokenMatches(t, s, i, j, f)
      <==> TokenMatches(t, s, i, j, WithoutLimits(f)) && WithinLimits(t, s, i, j, f)
  {
    var bare := WithoutLimits(f);
    if t.Star? && i <= j {
      assert !LeadingPeriod(s, i, bare);
      if f.pathname ==> NoSlash(s, i, j) {
        forall at | i < at < j ensures !LeadingPeriod(s, at, f) { assert f.pathname ==> s[at - 1] != '/'; }
      }
      if NothingSpecial(s, i, j, f) { assert f.pathname ==> NoSlash(s, i, j); }
    }
    if t.Class? && i < |s| {
      assert forall k | 0 <= k < |t.items| :: ItemHas(t.items[k], s[i], f) <==> ItemHas(t.items[k], s[i], bare);
      assert AnyItemHas(t.items, s[i], f) <==> AnyItemHas(t.items, s[i], bare);
    }
  }

  /**
   PATHNAME and PERIOD take away exactly the matches in which something other than a literal covers a slash
   or a leading period, or in which a star begins at a leading period.
   */
  lemma {:induction false} LimitsMean(ts: seq<Token>, s: string, i: nat, f: Flags)
    ensures Matches(ts, s, i, f) <==>
      exists cuts: seq<nat> ::
        && Splits(ts, s, i, cuts, WithoutLimits(f)) && (forall k | 0 <= k <= |ts| :: cuts[k] <= |s|)
        && forall k | 0 <= k < |ts| :: WithinLimits(ts[k], s, cuts[k], cuts[k + 1], f)
  {
    var bare := WithoutLimits(f);
    forall cuts: seq<nat> | Splits(ts, s, i, cuts, f) || Splits(ts, s, i, cuts, bare)
      ensures forall k | 0 <= k <= |ts| :: cuts[k] <= |s|
      ensures Splits(ts, s, i, cuts, f) <==>
        && Splits(ts, s, i, cuts, bare)
        && forall k | 0 <= k < |ts| :: WithinLimits(ts[k], s, cuts[k], cuts[k + 1], f)
    {
      var g := if Splits(ts, s, i, cuts, f) then f else bare;
      forall k | 0 <= k <= |ts| ensures cuts[k] <= |s| { CutsIncrease(ts, s, i, cuts, g, k); }
      forall k | 0 <= k < |ts| ensures
        TokenMatches(ts[k], s, cuts[k], cuts[k + 1], f) <==>
        TokenMatches(ts[k], s, cuts[k], cuts[k + 1], bare) && WithinLimits(ts[k], s, cuts[k], cuts[k + 1], f)
      {
        TokenLimited(ts[k], s, cuts[k], cuts[k + 1], f);
      }
    }
  }

  // A token, and a text, in lower case.
  function LowItem(i: Item): Item {
    match i
    case Single(c) => Single(Lower(c))
    case Range(lo, hi) => Range(Lower(lo), Lower(hi))
  }

  function LowToken(t: Token): Token {
    match t
    case Lit(c) => Lit(Lower(c))
    case Class(negated, items) => Class(negated, seq(|items|, k requires 0 <= k < |items| => LowItem(items[k])))
    case _ => t
  }

  function LowTokens(ts: seq<Token>): (r: seq<Token>) { seq(|ts|, k requires 0 <= k < |ts| => LowToken(ts[k])) }

  function LowText(s: string): string { seq(|s|, k requires 0 <= k < |s| => Lower(s[k])) }

  lemma {:induction false} LowItems(items: seq<Item>, c: char, f: Flags)
    requires f.casefold
    ensures AnyItemHas(items, c, f)
      <==> AnyItemHas(LowToken(Class(false, items)).items, Lower(c), f.(casefold := false))
  {
    var low, exact := LowToken(Class(false, items)).items, f.(casefold := false);
    assert forall k | 0 <= k < |items| :: ItemHas(items[k], c, f) <==> ItemHas(low[k], Lower(c), exact);
  }

  lemma {:induction false} TokenLowered(t: Token, s: string, i: nat, j: nat, f: Flags)
    requires f.casefold
    ensures TokenMatches(t, s, i, j, f) <==> TokenMatches(LowToken(t), LowText(s), i, j, f.(casefold := false))
  {
    var low, exact := LowText(s), f.(casefold := false);
    assert forall k | 0 <= k < |s| :: (low[k] == '/' <==> s[k] == '/') && (low[k] == '.' <==> s[k] == '.');
    assert LeadingPeriod(s, i, f) <==> LeadingPeriod(low, i, exact);
    if t.Star? && i <= j <= |s| { assert NoSlash(s, i, j) <==> NoSlash(low, i, j); }
    if t.Class? && i < |s| { LowItems(t.items, s[i], f); }
  }

  /** CASEFOLD matches as if pattern and string were written in lower case. */
  lemma {:induction false} CaseFoldMeans(ts: seq<Token>, s: string, i: nat, f: Flags)
    requires f.casefold
    ensures Matches(ts, s, i, f) <==> Matches(LowTokens(ts), LowText(s), i, f.(casefold := false))
  {
    var exact := f.(casefold := false);
    forall cuts: seq<nat> ensures Splits(ts, s, i, cuts, f) <==> Splits(LowTokens(ts), LowText(s), i, cuts, exact) {
      if |cuts| == |ts| + 1 {
        assert AtEnd(s, cuts[|ts|], f) <==> AtEnd(LowText(s), cuts[|ts|], exact);
        forall k | 0 <= k < |ts| ensures
          TokenMatches(ts[k], s, cuts[k], cuts[k + 1], f)
          <==> TokenMatches(LowTokens(ts)[k], LowText(s), cuts[k], cuts[k + 1], exact)
        {
          TokenLowered(ts[k], s, cuts[k], cuts[k + 1], f);
        }
      }
    }
  }

  // ---------------------------------------------------------------- ordinary text

  // Text in which no character has a meaning of its own.
  predicate Ordinary(text: string, f: Flags) {
    forall k | 0 <= k < |text| :: text[k] !in {'*', '?', '['} && (text[k] == '\\' ==> f.noescape)
  }

  lemma {:induction false} OrdinaryFrom(text: string, k: nat, s: string, i: nat, f: Flags)
    requires Ordinary(text, f) && !f.leadingDir && !f.casefold && k <= |text| && i <= |s|
    ensures Matches(Tokens(text, k, f), s, i, f) <==> text[k..] == s[i..]
    decreases |text| - k
  {
    if k == |text| {
      NothingLeft(s, i, f);
    } else {
      OneCharacter(text, k, s, i, f);
      assert TokenAt(text, k, f) == (Lit(text[k]), k + 1);
      assert text[k..] == [text[k]] + text[k + 1..];
      if i < |s| {
        assert s[i..] == [s[i]] + s[i + 1..];
        OrdinaryFrom(text, k + 1, s, i + 1, f);
      }
    }
  }

  /** Ordinary text matches exactly itself; under NOESCAPE a backslash is ordinary. */
  lemma {:induction false} OrdinaryMatchesItself(text: string, s: string, f: Flags)
    requires Ordinary(text, f) && !f.leadingDir && !f.casefold
    ensures Matches(Tokens(text, 0, f), s, 0, f) <==> text == s
  {
    OrdinaryFrom(text, 0, s, 0, f);
    assert text[0..] == text && s[0..] == s;
  }

  lemma {:induction false} NoEnd(pat: string, p: nat, f: Flags)
    requires p <= |pat| && forall k | p <= k < |pat| :: pat[k] != ']'
    ensures Items(pat, p, f).None?
    decreases |pat| - p
  {
    if p < |pat| { NoEnd(pat, ItemAt(pat, p, f).1, f); }
  }

  /** A [ with no ] after it stands for itself. */
  lemma {:induction false} UnendedIsLiteral(pat: string, p: nat, f: Flags)
    requires p < |pat| && pat[p] == '[' && forall k | p < k < |pat| :: pat[k] != ']'
    ensures TokenAt(pat, p, f) == (Lit('['), p + 1)
  {
    NoEnd(pat, if Negates(pat, p + 1) then p + 2 else p + 1, f);
  }

  // ---------------------------------------------------------------- no flags

  const NONE: Flags := Flags(false, false, false, false, false)

  // The usual recursive reading: a star matches nothing, or one more character.
  predicate Accepts(ts: seq<Token>, s: string)
    decreases |ts| + |s|
  {
    if ts == [] then s == ""
    else if ts[0].Star? then Accepts(ts[1..], s) || (s != "" && Accepts(ts, s[1..]))
    else
      && s != "" && Accepts(ts[1..], s[1..])
      && match ts[0]
         case Lit(c) => s[0] == c
         case Class(negated, items) => (exists k | 0 <= k < |items| :: Covers(items[k], s[0])) <==> !negated
         case _ => true
  }

  lemma {:induction false} AcceptsFrom(ts: seq<Token>, s: string, i: nat)
    requires i <= |s|
    ensures Matches(ts, s, i, NONE) <==> Accepts(ts, s[i..])
    decreases |ts| + |s| - i
  {
    if ts == [] {
      NothingLeft(s, i, NONE);
    } else {
      assert ts == [ts[0]] + ts[1..];
      if i < |s| { assert s[i..][1..] == s[i + 1..]; }
      if ts[0].Star? {
        StarStarts(ts[1..], s, i, NONE);
        StarSteps(ts[1..], s, i, NONE);
        AcceptsFrom(ts[1..], s, i);
        if i < |s| {
          StarStarts(ts[1..], s, i + 1, NONE);
          AcceptsFrom(ts, s, i + 1);
        }
      } else {
        FirstThenRest(ts[0], ts[1..], s, i, NONE);
        if i < |s| {
          AcceptsFrom(ts[1..], s, i + 1);
          if ts[0].Class? {
            assert forall k | 0 <= k < |ts[0].items| ::
              ItemHas(ts[0].items[k], s[i], NONE) <==> Covers(ts[0].items[k], s[i]);
          }
        }
      }
    }
  }

  /** Without flags, a written pattern matches exactly the strings that its tokens accept in the usual reading. */
  lemma {:induction false} NoFlagsMeans(ts: seq<Token>, s: string)
    requires AllWritable(ts)
    ensures Matches(Tokens(PatternText(ts), 0, NONE), s, 0, NONE) <==> Accepts(ts, s)
  {
    var pat := PatternText(ts);
    assert pat[0..|pat|] == pat && s[0..] == s;
    TextReadsBack(pat, 0, ts, NONE);
    AcceptsFrom(ts, s, 0);
  }
}
