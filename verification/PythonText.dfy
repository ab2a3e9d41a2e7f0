/** Trimming of Python strings. */
module PythonText {

  /** str.isspace */
  predicate IsSpace(c: char) {
    var n := c as int;
    || 9 <= n <= 13 || 28 <= n <= 32 || n == 0x85 || n == 0xa0 || n == 0x1680 || 0x2000 <= n <= 0x200a
    || n == 0x2028 || n == 0x2029 || n == 0x202f || n == 0x205f || n == 0x3000
  }

  /** How many characters of white space stand at position i. */
  function Leading(s: string, i: nat): nat
    decreases |s| - i
  {
    if i < |s| && IsSpace(s[i]) then 1 + Leading(s, i + 1) else 0
  }

  /** How many characters of white space stand before position n. */
  function Trailing(s: string, n: nat): nat {
    if 0 < n <= |s| && IsSpace(s[n - 1]) then 1 + Trailing(s, n - 1) else 0
  }

  lemma {:induction false} LeadingFacts(s: string, i: nat)
    requires i <= |s|
    ensures var r := i + Leading(s, i);
            && r <= |s| && (r < |s| ==> !IsSpace(s[r]))
            && forall j :: i <= j < r ==> IsSpace(s[j])
    decreases |s| - i
  {
    if i < |s| && IsSpace(s[i]) {
      LeadingFacts(s, i + 1);
    }
  }

  lemma {:induction false} TrailingFacts(s: string, n: nat)
    requires n <= |s|
    ensures var r := n - Trailing(s, n);
            && 0 <= r && (r > 0 ==> !IsSpace(s[r - 1]))
            && forall j :: r <= j < n ==> IsSpace(s[j])
  {
    if n > 0 && IsSpace(s[n - 1]) {
      TrailingFacts(s, n - 1);
    }
  }

  function TrimLeft(s: string): string {
    LeadingFacts(s, 0);
    s[Leading(s, 0)..]
  }

  function TrimRight(s: string): string {
    TrailingFacts(s, |s|);
    s[..|s| - Trailing(s, |s|)]
  }

  function Strip(s: string): string {
    TrimRight(TrimLeft(s))
  }

  predicate Spaces(s: string) {
    forall i :: 0 <= i < |s| ==> IsSpace(s[i])
  }

  lemma TrimLeftKeeps(s: string) returns (a: string)
    ensures s == a + TrimLeft(s) && Spaces(a)
    ensures TrimLeft(s) != [] ==> !IsSpace(TrimLeft(s)[0])
  {
    LeadingFacts(s, 0);
    a := s[..Leading(s, 0)];
  }

  lemma TrimRightKeeps(s: string) returns (b: string)
    ensures s == TrimRight(s) + b && Spaces(b)
    ensures TrimRight(s) != [] ==> TrimRight(s)[0] == s[0] && !IsSpace(TrimRight(s)[|TrimRight(s)| - 1])
  {
    TrailingFacts(s, |s|);
    b := s[|s| - Trailing(s, |s|)..];
  }

  /** Trimming takes white space off the two ends, and all of it. */
  lemma StripKeepsCore(s: string) returns (a: string, b: string)
    ensures s == a + Strip(s) + b && Spaces(a) && Spaces(b)
    ensures Strip(s) != [] ==> !IsSpace(Strip(s)[0]) && !IsSpace(Strip(s)[|Strip(s)| - 1])
  {
    var t := TrimLeft(s);
    a := TrimLeftKeeps(s);
    b := TrimRightKeeps(t);
    assert a + (Strip(s) + b) == a + Strip(s) + b;
  }

  lemma TrimmedEnds(t: string)
    requires t != [] && Strip(t) == t
    ensures !IsSpace(t[0]) && !IsSpace(t[|t| - 1])
  {
    LeadingFacts(t, 0);
    TrailingFacts(TrimLeft(t), |TrimLeft(t)|);
    assert |Strip(t)| == |t| - Leading(t, 0) - Trailing(TrimLeft(t), |TrimLeft(t)|);
  }

  lemma TrimLeftIs(s: string, k: nat)
    requires k <= |s| && (forall j :: 0 <= j < k ==> IsSpace(s[j])) && (k < |s| ==> !IsSpace(s[k]))
    ensures TrimLeft(s) == s[k..]
  {
    LeadingFacts(s, 0);
    var r := Leading(s, 0);
    assert r < |s| ==> !IsSpace(s[r]);
  }

  lemma TrimLeftAppend(s: string, c: char)
    requires !IsSpace(c)
    ensures TrimLeft(s + [c]) == TrimLeft(s) + [c]
  {
    LeadingFacts(s, 0);
    TrimLeftIs(s + [c], Leading(s, 0));
  }

  lemma TrimRightIs(s: string, k: nat)
    requires k <= |s| && (forall j :: k <= j < |s| ==> IsSpace(s[j])) && (k > 0 ==> !IsSpace(s[k - 1]))
    ensures TrimRight(s) == s[..k]
  {
    TrailingFacts(s, |s|);
    var r := |s| - Trailing(s, |s|);
    assert r > 0 ==> !IsSpace(s[r - 1]);
  }

  /** Trimming gives the text between the white space at the ends. */
  lemma StripOfPadded(a: string, q: string, b: string)
    requires Spaces(a) && Spaces(b) && q != [] && !IsSpace(q[0]) && !IsSpace(q[|q| - 1])
    ensures Strip(a + q + b) == q
  {
    var s := a + q + b;
    assert s[|a|..] == q + b && s[|a|] == q[0];
    TrimLeftIs(s, |a|);
    TrimRightIs(q + b, |q|);
  }

  lemma StripsToNothing(s: string)
    ensures Strip(s) == [] <==> Spaces(s)
  {
    var a, b := StripKeepsCore(s);
    if Strip(s) != [] {
      assert s[|a|] == Strip(s)[0];
    }
  }

  /** A line break in front of a trimmed text is trimmed away. */
  lemma StripBehindBreak(t: string)
    requires t != [] && Strip(t) == t
    ensures Strip("\n" + t) == t
  {
    TrimmedEnds(t);
    TrimLeftIs("\n" + t, 1);
    TrimLeftIs(t, 0);
    assert ("\n" + t)[1..] == t;
  }
}
