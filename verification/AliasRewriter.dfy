/**
  The table-alias rewriter of the SQL validator, on ASCII text: for each alias in turn, a regular
  expression substitution of the whole word, not preceded by a dot, in any case.
 */
module AliasRewriter {
  import opened Prelude

  /** \w on ASCII */
  predicate Word(c: char) {
    'a' <= c <= 'z' || 'A' <= c <= 'Z' || '0' <= c <= '9' || c == '_'
  }

  function Lower(c: char): char {
    if 'A' <= c <= 'Z' then (c as int + 32) as char else c
  }

  /** s starts with the alias, in any case. */
  predicate Spells(s: string, alias: string) {
    |alias| <= |s| && forall i :: 0 <= i < |alias| ==> Lower(s[i]) == alias[i]
  }

  type Alias = a: string | a != [] witness "x"

  const TARGET: Alias := "raw.oltp_employees"

  /** The keys of TABLE_ALIASES, in their order; each stands for TARGET. */
  const ALIASES: seq<Alias> := [
    "oltp_employees", "public.oltp_employees", "employees", "public.employees", "hr_employees", "public.hr_employees"]

  /** The last part of each allowed table, with the table. */
  const SHORT_NAMES: seq<(Alias, string)> := [("oltp_employees", TARGET)]

  /** The character before a place rules out a match: it is a word character or a dot. */
  predicate Blocks(prev: Option<char>) {
    prev.Some? && (Word(prev.value) || prev.value == '.')
  }

  /** (?<!\.)\bALIAS\b at the start of s, which follows the character prev; an alias starts and ends
      with a word character. */
  predicate MatchHere(prev: Option<char>, s: string, alias: string) {
    && !Blocks(prev)
    && Spells(s, alias)
    && (|alias| < |s| ==> !Word(s[|alias|]))
  }

  /** re.sub on s, which follows the character prev. */
  function Sub(prev: Option<char>, s: string, alias: Alias, target: string): string
    decreases |s|
  {
    if s == [] then []
    else if MatchHere(prev, s, alias) then
      target + Sub(Some(s[|alias| - 1]), s[|alias|..], alias, target)
    else [s[0]] + Sub(Some(s[0]), s[1..], alias, target)
  }

  /** No place of s, which follows the character prev, matches. */
  predicate NoMatch(prev: Option<char>, s: string, alias: string)
    decreases |s|
  {
    s == [] || (!MatchHere(prev, s, alias) && NoMatch(Some(s[0]), s[1..], alias))
  }

  // ----- One substitution -----

  /** Words and dots, in lower case, beginning and ending with a word character. */
  predicate Name(a: string) {
    && a != [] && Word(a[0]) && Word(a[|a| - 1])
    && forall i :: 0 <= i < |a| ==> (Word(a[i]) || a[i] == '.') && Lower(a[i]) == a[i]
  }

  lemma SpellsTail(c: char, s: string, u: string)
    requires u != []
    ensures Spells([c] + s, u) <==> Lower(c) == u[0] && Spells(s, u[1..])
  {
    if Lower(c) == u[0] && Spells(s, u[1..]) {
      forall i | 0 <= i < |u| ensures Lower(([c] + s)[i]) == u[i] {
        assert i > 0 ==> u[i] == u[1..][i - 1];
      }
    }
    if Spells([c] + s, u) {
      forall i | 0 <= i < |u| - 1 ensures Lower(s[i]) == u[1..][i] {
        assert Lower(([c] + s)[i + 1]) == u[i + 1];
      }
    }
  }

  lemma FirstLetterDiffers(s: string, u: string)
    requires s != [] && u != [] && Lower(s[0]) != u[0]
    ensures !Spells(s, u)
  {
    if |u| <= |s| {
      assert Lower(s[0]) != u[0];
    }
  }

  /** While the text is words and dots, the substitution copies it. */
  lemma {:induction false} Copies(prev: Option<char>, s: string, a: Alias, target: string, u: string)
    requires Blocks(prev)
    requires forall i :: 0 <= i < |u| ==> Word(u[i]) || u[i] == '.'
    requires Spells(Sub(prev, s, a, target), u)
    ensures var out := Sub(prev, s, a, target);
            && Spells(s, u)
            && (|u| < |s| ==> |u| < |out| && s[|u|] == out[|u|])
    decreases |u|
  {
    if u != [] {
      var rest := Sub(Some(s[0]), s[1..], a, target);
      SpellsTail(s[0], rest, u);
      assert Word(u[0]) || u[0] == '.';
      Copies(Some(s[0]), s[1..], a, target, u[1..]);
      SpellsTail(s[0], s[1..], u);
      assert s == [s[0]] + s[1..];
    }
  }

  /** A place that the substitution copies and that matches after it matched before. */
  lemma MatchReflected(prev: Option<char>, s: string, a: Alias, target: string, b: string)
    requires Name(b) && s != [] && !MatchHere(prev, s, a)
    requires MatchHere(prev, Sub(prev, s, a, target), b)
    ensures MatchHere(prev, s, b)
  {
    var rest := Sub(Some(s[0]), s[1..], a, target);
    SpellsTail(s[0], rest, b);
    Copies(Some(s[0]), s[1..], a, target, b[1..]);
    SpellsTail(s[0], s[1..], b);
    assert s == [s[0]] + s[1..];
  }

  lemma SameContext(p: Option<char>, q: Option<char>, s: string, b: string)
    requires Blocks(p) == Blocks(q)
    ensures NoMatch(p, s, b) <==> NoMatch(q, s, b)
  {
  }

  lemma {:induction false} NoMatchAfter(prev: Option<char>, s: string, k: nat, b: string)
    requires NoMatch(prev, s, b) && 0 < k <= |s|
    ensures NoMatch(Some(s[k - 1]), s[k..], b)
    decreases k
  {
    if k > 1 {
      NoMatchAfter(Some(s[0]), s[1..], k - 1, b);
      assert s[1..][k - 1..] == s[k..];
    }
  }

  /** Words and dots in front of a text without matches add none, when the first place does not match. */
  lemma {:induction false} NoMatchBehind(prev: Option<char>, x: string, rest: string, b: string)
    requires x != [] && forall i :: 0 <= i < |x| ==> Word(x[i]) || x[i] == '.'
    requires Blocks(prev) || !MatchHere(prev, x + rest, b)
    requires NoMatch(Some(x[|x| - 1]), rest, b)
    ensures NoMatch(prev, x + rest, b)
    decreases |x|
  {
    assert (x + rest)[1..] == x[1..] + rest;
    if |x| == 1 {
      assert x[1..] + rest == rest;
    } else {
      NoMatchBehind(Some(x[0]), x[1..], rest, b);
    }
  }

  /** Substituting one alias removes its matches and adds none of another. */
  lemma {:induction false} SubLeavesNoMatch(prev: Option<char>, s: string, a: Alias, target: string, b: string)
    requires Name(a) && Name(b) && Name(target) && target[0] != b[0]
    requires a == b || NoMatch(prev, s, b)
    ensures NoMatch(prev, Sub(prev, s, a, target), b)
    decreases |s|
  {
    if s != [] {
      if MatchHere(prev, s, a) {
        var p, s' := Some(s[|a| - 1]), s[|a|..];
        assert Lower(s[|a| - 1]) == a[|a| - 1];
        if a != b {
          NoMatchAfter(prev, s, |a|, b);
        }
        SubLeavesNoMatch(p, s', a, target, b);
        var rest := Sub(p, s', a, target);
        SameContext(p, Some(target[|target| - 1]), rest, b);
        FirstLetterDiffers(target + rest, b);
        NoMatchBehind(prev, target, rest, b);
      } else {
        SubLeavesNoMatch(Some(s[0]), s[1..], a, target, b);
        if MatchHere(prev, Sub(prev, s, a, target), b) {
          MatchReflected(prev, s, a, target, b);
        }
      }
    }
  }

  lemma {:induction false} SubOfNoMatch(prev: Option<char>, s: string, a: Alias, target: string)
    requires NoMatch(prev, s, a)
    ensures Sub(prev, s, a, target) == s
    decreases |s|
  {
    if s != [] {
      SubOfNoMatch(Some(s[0]), s[1..], a, target);
    }
  }

  // ----- All of them -----

  function Rewritten(s: string, aliases: seq<Alias>): string {
    if aliases == [] then s
    else Sub(None, Rewritten(s, aliases[..|aliases| - 1]), aliases[|aliases| - 1], TARGET)
  }

  /** No alias is left as a whole word that no dot precedes. */
  predicate Clean(s: string) {
    forall i :: 0 <= i < |ALIASES| ==> NoMatch(None, s, ALIASES[i])
  }

  /** The replacement cannot hold an alias: it begins with another letter. */
  predicate Apart(aliases: seq<Alias>) {
    forall i :: 0 <= i < |aliases| ==> Name(aliases[i]) && aliases[i][0] != TARGET[0]
  }

  lemma TargetIsName()
    ensures Name(TARGET)
  {
  }

  lemma ShortAliasesAreNames()
    ensures Name(ALIASES[0]) && Name(ALIASES[2]) && Name(ALIASES[4])
  {
  }

  lemma SchemaAliasIsName(a: Alias, b: string)
    requires Name(b) && a == "public." + b
    ensures Name(a)
  {
    forall i | 0 <= i < |a| ensures (Word(a[i]) || a[i] == '.') && Lower(a[i]) == a[i] {
      if i >= 7 {
        assert a[i] == b[i - 7];
      }
    }
    assert a[|a| - 1] == b[|b| - 1];
  }

  lemma AliasesAreApart()
    ensures |ALIASES| == 6 && Apart(ALIASES) && Name(TARGET)
  {
    TargetIsName();
    ShortAliasesAreNames();
    SchemaAliasIsName(ALIASES[1], ALIASES[0]);
    SchemaAliasIsName(ALIASES[3], ALIASES[2]);
    SchemaAliasIsName(ALIASES[5], ALIASES[4]);
  }

  lemma {:induction false} RewrittenHasNoMatch(s: string, aliases: seq<Alias>, i: nat)
    requires Apart(aliases) && Name(TARGET) && i < |aliases|
    ensures NoMatch(None, Rewritten(s, aliases), aliases[i])
    decreases |aliases|
  {
    var n := |aliases| - 1;
    if i < n {
      RewrittenHasNoMatch(s, aliases[..n], i);
    }
    SubLeavesNoMatch(None, Rewritten(s, aliases[..n]), aliases[n], TARGET, aliases[i]);
  }

  lemma {:induction false} RewrittenOfClean(s: string, aliases: seq<Alias>)
    requires forall i :: 0 <= i < |aliases| ==> NoMatch(None, s, aliases[i])
    ensures Rewritten(s, aliases) == s
  {
    if aliases != [] {
      RewrittenOfClean(s, aliases[..|aliases| - 1]);
      SubOfNoMatch(None, s, aliases[|aliases| - 1], TARGET);
    }
  }

  /** The rewriting leaves no alias, changes exactly the texts that hold one, and so is idempotent. */
  lemma QualifiedIsClean(s: string)
    ensures Clean(Rewritten(s, ALIASES))
    ensures Rewritten(s, ALIASES) == s <==> Clean(s)
    ensures Rewritten(Rewritten(s, ALIASES), ALIASES) == Rewritten(s, ALIASES)
  {
    AliasesAreApart();
    forall i | 0 <= i < |ALIASES| ensures NoMatch(None, Rewritten(s, ALIASES), ALIASES[i]) {
      RewrittenHasNoMatch(s, ALIASES, i);
    }
    if Clean(s) {
      RewrittenOfClean(s, ALIASES);
    }
    RewrittenOfClean(Rewritten(s, ALIASES), ALIASES);
  }

  /** The pass over the allowed tables finds nothing to do after the pass over the aliases. */
  lemma SecondPassChangesNothing(s: string, n: nat)
    requires Clean(s) && n < |SHORT_NAMES|
    ensures Sub(None, s, SHORT_NAMES[n].0, SHORT_NAMES[n].1) == s
  {
    assert SHORT_NAMES[n].0 == ALIASES[0];
    SubOfNoMatch(None, s, ALIASES[0], SHORT_NAMES[n].1);
  }

  // ----- All aliases at once -----

  /** The first of the aliases that matches here. */
  function Hit(prev: Option<char>, s: string, aliases: seq<Alias>): (h: Option<Alias>)
    ensures h.Some? ==> h.value in aliases && MatchHere(prev, s, h.value)
    ensures h.None? ==> forall a :: a in aliases ==> !MatchHere(prev, s, a)
  {
    if aliases == [] then None
    else
      var n := |aliases| - 1;
      assert aliases == aliases[..n] + [aliases[n]];
      var h := Hit(prev, s, aliases[..n]);
      if h.None? && MatchHere(prev, s, aliases[n]) then Some(aliases[n]) else h
  }

  /** One pass that replaces whatever alias matches. */
  function ReplaceAny(prev: Option<char>, s: string, aliases: seq<Alias>, target: string): string
    decreases |s|
  {
    if s == [] then []
    else
      var h := Hit(prev, s, aliases);
      if h.Some? then
        target + ReplaceAny(Some(s[|h.value| - 1]), s[|h.value|..], aliases, target)
      else [s[0]] + ReplaceAny(Some(s[0]), s[1..], aliases, target)
  }

  predicate WordOrDot(c: char) {
    Word(c) || c == '.'
  }

  /** How many characters of words and dots s begins with. */
  function RunLength(s: string): (n: nat)
    ensures n <= |s|
    ensures forall i :: 0 <= i < n ==> WordOrDot(s[i])
    ensures n < |s| ==> !WordOrDot(s[n])
  {
    if s != [] && WordOrDot(s[0]) then 1 + RunLength(s[1..]) else 0
  }

  /** Behind a word character or a dot, the pass copies the words and dots that follow, and the character
      behind those. */
  lemma {:induction false} CopiesRun(prev: Option<char>, s: string, aliases: seq<Alias>, target: string)
    requires Blocks(prev)
    ensures SameRun(s, ReplaceAny(prev, s, aliases, target))
    decreases |s|
  {
    if s != [] && WordOrDot(s[0]) {
      CopiesRun(Some(s[0]), s[1..], aliases, target);
      SameRunBehind(s[0], s[1..], ReplaceAny(Some(s[0]), s[1..], aliases, target));
      assert s == [s[0]] + s[1..];
    }
  }

  lemma SameRunBehind(c: char, x: string, y: string)
    requires WordOrDot(c) && SameRun(x, y)
    ensures SameRun([c] + x, [c] + y)
  {
    var n := RunLength(x);
    assert ([c] + x)[1..] == x;
    assert ([c] + x)[..n + 1] == [c] + x[..n] && ([c] + y)[..n + 1] == [c] + y[..n];
  }

  /** When a name is a whole word at the start of x, it ends within the words and dots x begins with. */
  lemma SpelledInRun(x: string, b: string)
    requires Name(b)
    ensures Spells(x, b) ==> |b| <= RunLength(x)
  {
    if Spells(x, b) {
      forall i | 0 <= i < |b| ensures WordOrDot(x[i]) {
        assert Lower(x[i]) == b[i];
      }
      RunAtLeast(x, |b|);
    }
  }

  lemma {:induction false} RunAtLeast(x: string, k: nat)
    requires k <= |x| && forall i :: 0 <= i < k ==> WordOrDot(x[i])
    ensures k <= RunLength(x)
  {
    if k > 0 {
      RunAtLeast(x[1..], k - 1);
    }
  }

  /** Two texts agree on the words and dots that they begin with, and on what is behind those. */
  ghost predicate SameRun(x: string, y: string) {
    var n := RunLength(x);
    && n <= |y| && x[..n] == y[..n]
    && (n < |x| <==> n < |y|) && (n < |x| ==> y[n] == x[n])
  }

  lemma SameSpelling(x: string, y: string, n: nat, b: string)
    requires n <= |x| && n <= |y| && x[..n] == y[..n] && |b| <= n
    ensures Spells(x, b) <==> Spells(y, b)
    ensures forall i :: 0 <= i < n ==> x[i] == y[i]
  {
    forall i | 0 <= i < n ensures x[i] == y[i] {
      assert x[..n][i] == y[..n][i];
    }
  }

  lemma SameMatch(prev: Option<char>, x: string, y: string, b: string)
    requires Name(b) && SameRun(x, y)
    ensures MatchHere(prev, x, b) <==> MatchHere(prev, y, b)
  {
    var n := RunLength(x);
    SameRunLength(x, y);
    SpelledInRun(x, b);
    SpelledInRun(y, b);
    if |b| <= n {
      SameSpelling(x, y, n, b);
    }
  }

  lemma SameRunLength(x: string, y: string)
    requires SameRun(x, y)
    ensures RunLength(y) == RunLength(x)
  {
    var n := RunLength(x);
    forall i | 0 <= i < n ensures WordOrDot(y[i]) {
      assert x[..n][i] == y[..n][i];
    }
    RunOf(y, n);
  }

  lemma {:induction false} RunOf(y: string, n: nat)
    requires n <= |y| && (forall i :: 0 <= i < n ==> WordOrDot(y[i])) && (n < |y| ==> !WordOrDot(y[n]))
    ensures RunLength(y) == n
  {
    if n > 0 {
      RunOf(y[1..], n - 1);
    }
  }

  /** Where no alias matches, the pass neither adds nor removes a match of another. */
  lemma MatchStays(prev: Option<char>, s: string, aliases: seq<Alias>, target: string, b: string)
    requires s != [] && Name(b) && Hit(prev, s, aliases).None?
    ensures MatchHere(prev, ReplaceAny(prev, s, aliases, target), b) <==> MatchHere(prev, s, b)
  {
    var out := ReplaceAny(prev, s, aliases, target);
    if WordOrDot(s[0]) {
      CopiesRun(Some(s[0]), s[1..], aliases, target);
      SameRunBehind(s[0], s[1..], ReplaceAny(Some(s[0]), s[1..], aliases, target));
      assert s == [s[0]] + s[1..];
      SameMatch(prev, s, out, b);
    } else {
      assert Lower(s[0]) == s[0] && Lower(out[0]) == s[0];
      FirstLetterDiffers(s, b);
      FirstLetterDiffers(out, b);
    }
  }

  /** The pass goes on behind words and dots as if it started there. */
  lemma {:induction false} PassesRun(prev: Option<char>, s: string, k: nat, aliases: seq<Alias>, target: string)
    requires Blocks(prev) && k <= |s| && forall i :: 0 <= i < k ==> WordOrDot(s[i])
    ensures ReplaceAny(prev, s, aliases, target) ==
            s[..k] + ReplaceAny(if k == 0 then prev else Some(s[k - 1]), s[k..], aliases, target)
    decreases k
  {
    if k > 0 {
      PassesRun(Some(s[0]), s[1..], k - 1, aliases, target);
      assert s[1..][k - 1..] == s[k..] && [s[0]] + s[1..][..k - 1] == s[..k];
    } else {
      assert s[k..] == s;
    }
  }

  lemma {:induction false} SubCopies(prev: Option<char>, x: string, rest: string, b: Alias, target: string)
    requires x != [] && forall i :: 0 <= i < |x| ==> WordOrDot(x[i])
    requires Blocks(prev) || !MatchHere(prev, x + rest, b)
    ensures Sub(prev, x + rest, b, target) == x + Sub(Some(x[|x| - 1]), rest, b, target)
    decreases |x|
  {
    assert (x + rest)[1..] == x[1..] + rest;
    if |x| == 1 {
      assert x[1..] + rest == rest;
    } else {
      SubCopies(Some(x[0]), x[1..], rest, b, target);
      assert x == [x[0]] + x[1..];
    }
  }

  lemma SubInContext(p: Option<char>, q: Option<char>, s: string, b: Alias, target: string)
    requires Blocks(p) == Blocks(q)
    ensures Sub(p, s, b, target) == Sub(q, s, b, target)
  {
  }

  lemma HitOfMore(prev: Option<char>, s: string, aliases: seq<Alias>, b: Alias)
    ensures Hit(prev, s, aliases + [b]) ==
            if Hit(prev, s, aliases).None? && MatchHere(prev, s, b) then Some(b) else Hit(prev, s, aliases)
  {
    assert (aliases + [b])[..|aliases|] == aliases;
  }

  /** Substituting one more alias after a pass is a pass for one more alias. */
  lemma {:induction false} OneMore(prev: Option<char>, s: string, aliases: seq<Alias>, b: Alias, target: string)
    requires (forall a :: a in aliases ==> Name(a)) && Name(b) && Name(target) && target[0] != b[0]
    ensures Sub(prev, ReplaceAny(prev, s, aliases, target), b, target) == ReplaceAny(prev, s, aliases + [b], target)
    decreases |s|
  {
    if s != [] {
      var h := Hit(prev, s, aliases);
      if h.Some? {
        OneMore(Some(s[|h.value| - 1]), s[|h.value|..], aliases, b, target);
        OneMoreBehind(prev, s, aliases, b, target, h.value);
      } else if MatchHere(prev, s, b) {
        OneMore(Some(s[|b| - 1]), s[|b|..], aliases, b, target);
        OneMoreMatches(prev, s, aliases, b, target);
      } else {
        OneMore(Some(s[0]), s[1..], aliases, b, target);
        OneMoreCopies(prev, s, aliases, b, target);
      }
    }
  }

  /** Behind k characters of s, substituting one more alias is a pass for one more. */
  ghost predicate MoreBehind(s: string, k: nat, aliases: seq<Alias>, b: Alias, target: string)
    requires 0 < k <= |s|
  {
    var p := Some(s[k - 1]);
    Sub(p, ReplaceAny(p, s[k..], aliases, target), b, target) == ReplaceAny(p, s[k..], aliases + [b], target)
  }

  lemma OneMoreCopies(prev: Option<char>, s: string, aliases: seq<Alias>, b: Alias, target: string)
    requires s != [] && Name(b) && Hit(prev, s, aliases).None? && !MatchHere(prev, s, b)
    requires MoreBehind(s, 1, aliases, b, target)
    ensures Sub(prev, ReplaceAny(prev, s, aliases, target), b, target) == ReplaceAny(prev, s, aliases + [b], target)
  {
    HitOfMore(prev, s, aliases, b);
    MatchStays(prev, s, aliases, target, b);
    SubCopiesFirst(prev, s[0], ReplaceAny(Some(s[0]), s[1..], aliases, target), b, target);
  }

  lemma SubCopiesFirst(prev: Option<char>, c: char, rest: string, b: Alias, target: string)
    requires !MatchHere(prev, [c] + rest, b)
    ensures Sub(prev, [c] + rest, b, target) == [c] + Sub(Some(c), rest, b, target)
  {
    assert ([c] + rest)[1..] == rest;
  }

  /** Behind a replaced alias the substitution goes on. */
  lemma OneMoreBehind(prev: Option<char>, s: string, aliases: seq<Alias>, b: Alias, target: string, a: Alias)
    requires s != [] && Name(a) && Name(b) && Name(target) && target[0] != b[0] && Hit(prev, s, aliases) == Some(a)
    requires MoreBehind(s, |a|, aliases, b, target)
    ensures Sub(prev, ReplaceAny(prev, s, aliases, target), b, target) == ReplaceAny(prev, s, aliases + [b], target)
  {
    HitOfMore(prev, s, aliases, b);
    var p := Some(s[|a| - 1]);
    var rest := ReplaceAny(p, s[|a|..], aliases, target);
    assert Lower(s[|a| - 1]) == a[|a| - 1];
    FirstLetterDiffers(target + rest, b);
    SubCopies(prev, target, rest, b, target);
    SubInContext(p, Some(target[|target| - 1]), rest, b, target);
  }

  /** Where the new alias matches, the pass before has copied it. */
  lemma OneMoreMatches(prev: Option<char>, s: string, aliases: seq<Alias>, b: Alias, target: string)
    requires s != [] && Name(b) && Hit(prev, s, aliases).None? && MatchHere(prev, s, b)
    requires MoreBehind(s, |b|, aliases, b, target)
    ensures Sub(prev, ReplaceAny(prev, s, aliases, target), b, target) == ReplaceAny(prev, s, aliases + [b], target)
  {
    HitOfMore(prev, s, aliases, b);
    MatchStays(prev, s, aliases, target, b);
    PassesName(prev, s, aliases, b, target);
    SubAtMatch(prev, s[..|b|], ReplaceAny(Some(s[|b| - 1]), s[|b|..], aliases, target), b, target);
  }

  lemma PassesName(prev: Option<char>, s: string, aliases: seq<Alias>, b: Alias, target: string)
    requires s != [] && Name(b) && Hit(prev, s, aliases).None? && Spells(s, b)
    ensures ReplaceAny(prev, s, aliases, target) ==
            s[..|b|] + ReplaceAny(Some(s[|b| - 1]), s[|b|..], aliases, target)
  {
    var n := |b|;
    forall i | 0 <= i < n ensures WordOrDot(s[i]) {
      assert Lower(s[i]) == b[i];
    }
    PassesRun(Some(s[0]), s[1..], n - 1, aliases, target);
    assert s[1..][n - 1..] == s[n..];
    FirstOf(s, n, ReplaceAny(Some(s[n - 1]), s[n..], aliases, target));
  }

  lemma FirstOf(s: string, n: nat, rest: string)
    requires 0 < n <= |s|
    ensures [s[0]] + (s[1..][..n - 1] + rest) == s[..n] + rest
  {
    assert [s[0]] + s[1..][..n - 1] == s[..n];
  }

  lemma SubAtMatch(prev: Option<char>, front: string, rest: string, b: Alias, target: string)
    requires |front| == |b| && MatchHere(prev, front + rest, b)
    ensures Sub(prev, front + rest, b, target) == target + Sub(Some(front[|b| - 1]), rest, b, target)
  {
    assert (front + rest)[|b|..] == rest && (front + rest)[|b| - 1] == front[|b| - 1];
  }

  lemma {:induction false} ReplaceNone(prev: Option<char>, s: string, target: string)
    ensures ReplaceAny(prev, s, [], target) == s
    decreases |s|
  {
    if s != [] {
      ReplaceNone(Some(s[0]), s[1..], target);
    }
  }

  /** The substitutions one after the other are one pass for all of them. */
  lemma {:induction false} RewrittenIsOnePass(s: string, aliases: seq<Alias>)
    requires Apart(aliases) && Name(TARGET)
    ensures Rewritten(s, aliases) == ReplaceAny(None, s, aliases, TARGET)
  {
    if aliases == [] {
      ReplaceNone(None, s, TARGET);
    } else {
      var n := |aliases| - 1;
      RewrittenIsOnePass(s, aliases[..n]);
      OneMore(None, s, aliases[..n], aliases[n], TARGET);
      assert aliases[..n] + [aliases[n]] == aliases;
    }
  }

  // ----- What is replaced and what stays -----

  /** xs[0] + ys[0] + xs[1] + ... + xs[|ys|] */
  function Woven(xs: seq<string>, ys: seq<string>): string
    requires |xs| == |ys| + 1
  {
    if ys == [] then xs[0] else xs[0] + ys[0] + Woven(xs[1..], ys[1..])
  }

  /** One of the ys starts at position p of the woven text. */
  predicate Starts(xs: seq<string>, ys: seq<string>, p: int)
    requires |xs| == |ys| + 1
  {
    ys != [] && (p == |xs[0]| || Starts(xs[1..], ys[1..], p - |xs[0]| - |ys[0]|))
  }

  /** The alias stands at position p of s, which follows the character prev, in any case, as a whole word
      that no dot precedes. */
  predicate WholeWordAt(prev: Option<char>, s: string, p: nat, alias: string) {
    && p + |alias| <= |s|
    && (forall i :: 0 <= i < |alias| ==> Lower(s[p + i]) == alias[i])
    && (p == 0 ==> prev.None? || (!Word(prev.value) && prev.value != '.'))
    && (p > 0 ==> !Word(s[p - 1]) && s[p - 1] != '.')
    && (p + |alias| < |s| ==> !Word(s[p + |alias|]))
  }

  predicate AnyAt(prev: Option<char>, s: string, p: nat, aliases: seq<Alias>) {
    exists a :: a in aliases && WholeWordAt(prev, s, p, a)
  }

  /** Each of the texts spells an alias. */
  ghost predicate Spelled(ys: seq<string>, aliases: seq<Alias>) {
    forall y :: y in ys ==> SpelledOne(y, aliases)
  }

  predicate SpelledOne(y: string, aliases: seq<Alias>) {
    exists a :: a in aliases && |y| == |a| && Spells(y, a)
  }

  /** s is cut into what stays, xs, and the aliases as they are spelled in it, ys, which are all those that
      stand in it as whole words; `out` has the target in the place of each. */
  ghost predicate Replaced(prev: Option<char>, s: string, aliases: seq<Alias>, target: string, out: string,
                           xs: seq<string>, ys: seq<string>) {
    && |xs| == |ys| + 1
    && s == Woven(xs, ys)
    && out == Woven(xs, seq(|ys|, _ => target))
    && Spelled(ys, aliases)
    && forall p: nat :: Starts(xs, ys, p) <==> AnyAt(prev, s, p, aliases)
  }

  lemma {:induction false} NoEarlyStart(xs: seq<string>, ys: seq<string>, p: int)
    requires |xs| == |ys| + 1 && p < 0
    ensures !Starts(xs, ys, p)
  {
    if ys != [] {
      NoEarlyStart(xs[1..], ys[1..], p - |xs[0]| - |ys[0]|);
    }
  }

  lemma WovenPrepend(c: char, xs: seq<string>, ys: seq<string>)
    requires |xs| == |ys| + 1
    ensures var xs' := [[c] + xs[0]] + xs[1..];
            Woven(xs', ys) == [c] + Woven(xs, ys) && forall p :: Starts(xs', ys, p) <==> Starts(xs, ys, p - 1)
  {
    assert ([[c] + xs[0]] + xs[1..])[1..] == xs[1..];
    if ys != [] {
      assert ([c] + xs[0]) + ys[0] + Woven(xs[1..], ys[1..]) == [c] + (xs[0] + ys[0] + Woven(xs[1..], ys[1..]));
    }
  }

  lemma WovenFirst(y: string, xs: seq<string>, ys: seq<string>)
    requires |xs| == |ys| + 1
    ensures Woven([[]] + xs, [y] + ys) == y + Woven(xs, ys)
    ensures forall p :: Starts([[]] + xs, [y] + ys, p) <==> p == 0 || Starts(xs, ys, p - |y|)
  {
    FirstAndRest([], xs);
    FirstAndRest(y, ys);
    NothingBefore(y, Woven(xs, ys));
  }

  lemma FirstAndRest(x: string, xs: seq<string>)
    ensures ([x] + xs)[0] == x && ([x] + xs)[1..] == xs
  {
  }

  lemma NothingBefore(y: string, rest: string)
    ensures [] + y + rest == y + rest
  {
  }

  lemma MatchIsWholeWord(prev: Option<char>, s: string, a: string)
    ensures MatchHere(prev, s, a) <==> WholeWordAt(prev, s, 0, a)
  {
  }

  lemma WholeWordBehind(prev: Option<char>, s: string, k: nat, p: nat, a: string)
    requires 0 < k <= |s| && k <= p && a != []
    ensures WholeWordAt(prev, s, p, a) <==> WholeWordAt(Some(s[k - 1]), s[k..], p - k, a)
  {
    var u := s[k..];
    assert forall j :: 0 <= j < |u| ==> u[j] == s[k + j];
  }

  lemma AnyBehind(prev: Option<char>, s: string, k: nat, p: nat, aliases: seq<Alias>)
    requires 0 < k <= |s| && k <= p
    ensures AnyAt(prev, s, p, aliases) <==> AnyAt(Some(s[k - 1]), s[k..], p - k, aliases)
  {
    forall a | a in aliases
      ensures WholeWordAt(prev, s, p, a) <==> WholeWordAt(Some(s[k - 1]), s[k..], p - k, a)
    {
      WholeWordBehind(prev, s, k, p, a);
    }
  }

  /** No alias starts inside another. */
  lemma NoneInside(prev: Option<char>, s: string, a: Alias, p: nat, aliases: seq<Alias>)
    requires Name(a) && MatchHere(prev, s, a) && 0 < p < |a|
    ensures !AnyAt(prev, s, p, aliases)
  {
    assert Lower(s[p - 1]) == a[p - 1];
  }

  lemma ReplacedFirst(prev: Option<char>, s: string, aliases: seq<Alias>, target: string, a: Alias, out: string,
                      xs: seq<string>, ys: seq<string>)
    requires Name(a) && a in aliases && MatchHere(prev, s, a)
    requires Replaced(Some(s[|a| - 1]), s[|a|..], aliases, target, out, xs, ys)
    ensures Replaced(prev, s, aliases, target, target + out, [[]] + xs, [s[..|a|]] + ys)
  {
    var k, y := |a|, s[..|a|];
    WovenFirst(y, xs, ys);
    WovenFirst(target, xs, seq(|ys|, _ => target));
    assert seq(|ys| + 1, _ => target) == [target] + seq(|ys|, _ => target);
    assert s == y + s[k..];
    assert SpelledOne(y, aliases);
    forall p: nat ensures Starts([[]] + xs, [y] + ys, p) <==> AnyAt(prev, s, p, aliases) {
      if p == 0 {
        MatchIsWholeWord(prev, s, a);
      } else if p < k {
        NoneInside(prev, s, a, p, aliases);
        NoEarlyStart(xs, ys, p - k);
      } else {
        AnyBehind(prev, s, k, p, aliases);
      }
    }
  }

  lemma ReplacedCopy(prev: Option<char>, s: string, aliases: seq<Alias>, target: string, out: string,
                     xs: seq<string>, ys: seq<string>)
    requires s != [] && Hit(prev, s, aliases).None?
    requires Replaced(Some(s[0]), s[1..], aliases, target, out, xs, ys)
    ensures Replaced(prev, s, aliases, target, [s[0]] + out, [[s[0]] + xs[0]] + xs[1..], ys)
  {
    var xs' := [[s[0]] + xs[0]] + xs[1..];
    WovenPrepend(s[0], xs, ys);
    WovenPrepend(s[0], xs, seq(|ys|, _ => target));
    assert s == [s[0]] + s[1..];
    forall p: nat ensures Starts(xs', ys, p) <==> AnyAt(prev, s, p, aliases) {
      if p == 0 {
        NoEarlyStart(xs, ys, -1);
        forall a | a in aliases ensures !WholeWordAt(prev, s, 0, a) {
          MatchIsWholeWord(prev, s, a);
        }
      } else {
        AnyBehind(prev, s, 1, p, aliases);
      }
    }
  }

  /** One pass replaces every alias that stands in the text as a whole word, and keeps all else. */
  lemma {:induction false} PassReplaces(prev: Option<char>, s: string, aliases: seq<Alias>, target: string)
    returns (xs: seq<string>, ys: seq<string>)
    requires forall a :: a in aliases ==> Name(a)
    ensures Replaced(prev, s, aliases, target, ReplaceAny(prev, s, aliases, target), xs, ys)
    decreases |s|
  {
    if s == [] {
      xs, ys := [[]], [];
      ReplacedNothing(prev, aliases, target);
    } else {
      var h := Hit(prev, s, aliases);
      var k := if h.Some? then |h.value| else 1;
      xs, ys := PassReplaces(Some(s[k - 1]), s[k..], aliases, target);
      var out := ReplaceAny(Some(s[k - 1]), s[k..], aliases, target);
      if h.Some? {
        ReplacedFirst(prev, s, aliases, target, h.value, out, xs, ys);
        xs, ys := [[]] + xs, [s[..k]] + ys;
      } else {
        ReplacedCopy(prev, s, aliases, target, out, xs, ys);
        xs := [[s[0]] + xs[0]] + xs[1..];
      }
    }
  }

  lemma ReplacedNothing(prev: Option<char>, aliases: seq<Alias>, target: string)
    ensures Replaced(prev, [], aliases, target, [], [[]], [])
  {
    var ts: seq<string> := seq(0, _ => target);
    assert ts == [] && Woven([[]], ts) == [];
  }

  lemma {:induction false} SubIsOnePass(prev: Option<char>, s: string, a: Alias, target: string)
    ensures Sub(prev, s, a, target) == ReplaceAny(prev, s, [a], target)
    decreases |s|
  {
    if s != [] {
      HitOfMore(prev, s, [], a);
      assert [] + [a] == [a];
      if MatchHere(prev, s, a) {
        SubIsOnePass(Some(s[|a| - 1]), s[|a|..], a, target);
      } else {
        SubIsOnePass(Some(s[0]), s[1..], a, target);
      }
    }
  }

  /** One substitution. */
  lemma SubReplaces(prev: Option<char>, s: string, a: Alias, target: string)
    returns (xs: seq<string>, ys: seq<string>)
    requires Name(a)
    ensures Replaced(prev, s, [a], target, Sub(prev, s, a, target), xs, ys)
  {
    SubIsOnePass(prev, s, a, target);
    xs, ys := PassReplaces(prev, s, [a], target);
  }

  /** All substitutions: although they run one after the other, each on what the last one left, they replace
      the aliases of the given text and nothing else. */
  lemma RewritingReplaces(s: string) returns (xs: seq<string>, ys: seq<string>)
    ensures Replaced(None, s, ALIASES, TARGET, Rewritten(s, ALIASES), xs, ys)
  {
    AliasesAreApart();
    RewrittenIsOnePass(s, ALIASES);
    xs, ys := PassReplaces(None, s, ALIASES, TARGET);
  }

  // ----- The method -----

  /** Both loops of the rewriter. */
  method QualifyAllowedTables(sqlText: string)
    returns (normalized: string, ghost xs: seq<string>, ghost ys: seq<string>)
    ensures normalized == Rewritten(sqlText, ALIASES) && Clean(normalized)
    ensures Replaced(None, sqlText, ALIASES, TARGET, normalized, xs, ys)
  {
    normalized := sqlText;
    for n := 0 to |ALIASES|
      invariant normalized == Rewritten(sqlText, ALIASES[..n])
    {
      assert ALIASES[..n + 1][..n] == ALIASES[..n];
      normalized := Sub(None, normalized, ALIASES[n], TARGET);
    }
    assert ALIASES[..|ALIASES|] == ALIASES;
    QualifiedIsClean(sqlText);
    for n := 0 to |SHORT_NAMES|
      invariant normalized == Rewritten(sqlText, ALIASES)
    {
      SecondPassChangesNothing(normalized, n);
      normalized := Sub(None, normalized, SHORT_NAMES[n].0, SHORT_NAMES[n].1);
    }
    xs, ys := RewritingReplaces(sqlText);
  }
}
