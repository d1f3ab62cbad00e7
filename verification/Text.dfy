/**
  Characters and trimming. A C++ `char` is modelled by a Dafny `char`; the character classes
  are those of the C locale.
 */
module Text {

  datatype Option<+T> = None | Some(value: T)

  predicate IsSpace(c: char) { c == ' ' || '\t' <= c <= '\r' }

  predicate IsPrint(c: char) { ' ' <= c <= '~' }

  function LTrim(s: string): string
  {
    if s != [] && IsSpace(s[0]) then LTrim(s[1..]) else s
  }

  function RTrim(s: string): string
  {
    if s != [] && IsSpace(s[|s| - 1]) then RTrim(s[..|s| - 1]) else s
  }

  function Trim(s: string): (t: string)
    ensures |t| <= |s|
  {
    LTrimShrinks(s);
    RTrimShrinks(LTrim(s));
    RTrim(LTrim(s))
  }

  lemma LTrimShrinks(s: string)
    ensures |LTrim(s)| <= |s|
  {}

  lemma RTrimShrinks(s: string)
    ensures |RTrim(s)| <= |s|
  {}

  const SPACES := [' ', '\t', '\n', '\U{B}', '\U{C}', '\r']

  lemma {:induction false} LTrimIs(s: string) returns (a: string)
    ensures s == a + LTrim(s) && (forall c <- a :: c in SPACES)
    ensures LTrim(s) == [] || LTrim(s)[0] !in SPACES
  {
    if s != [] && IsSpace(s[0]) {
      var rest := LTrimIs(s[1..]);
      a := [s[0]] + rest;
    } else {
      a := [];
    }
  }

  lemma {:induction false} RTrimIs(s: string) returns (b: string)
    ensures s == RTrim(s) + b && (forall c <- b :: c in SPACES)
    ensures RTrim(s) == [] || (RTrim(s)[|RTrim(s)| - 1] !in SPACES && RTrim(s)[0] == s[0])
    decreases |s|
  {
    if s != [] && IsSpace(s[|s| - 1]) {
      var rest := RTrimIs(s[..|s| - 1]);
      b := rest + [s[|s| - 1]];
    } else {
      b := [];
    }
  }

  /** Trimming takes the six white-space characters off both ends, and nothing else. */
  lemma TrimIs(s: string) returns (a: string, b: string)
    ensures s == a + Trim(s) + b && (forall c <- a + b :: c in SPACES)
    ensures Trim(s) != [] ==> Trim(s)[0] !in SPACES && Trim(s)[|Trim(s)| - 1] !in SPACES
  {
    hide LTrim, RTrim;
    a := LTrimIs(s);
    b := RTrimIs(LTrim(s));
  }

  predicate Blank(w: string) { forall i :: 0 <= i < |w| ==> IsSpace(w[i]) }

  lemma {:induction false} LTrimBlank(w: string, s: string)
    requires Blank(w) && (s == [] || !IsSpace(s[0]))
    ensures LTrim(w + s) == s
  {
    if w == [] {
      assert w + s == s;
    } else {
      LTrimBlank(w[1..], s);
      assert (w + s)[1..] == w[1..] + s;
    }
  }

  /** Starts and ends with a character that trimming keeps. */
  predicate Tight(s: string) { s != [] && !IsSpace(s[0]) && !IsSpace(s[|s| - 1]) }

  lemma TrimTight(s: string)
    requires Tight(s)
    ensures Trim(s) == s && Trim([' '] + s) == s
  {
    assert ([' '] + s)[1..] == s;
    assert LTrim([' '] + s) == LTrim(s) == s;
  }

  /** The character `c` does not occur. */
  predicate Free(s: string, c: char) { forall i :: 0 <= i < |s| ==> s[i] != c }

  /** Index of the first occurrence of `c`, or the length of the text. */
  function Find(s: string, c: char): (i: nat)
    ensures i <= |s| && (i < |s| ==> s[i] == c)
    ensures forall k :: 0 <= k < i ==> s[k] != c
  {
    if s == [] || s[0] == c then 0
    else
      var i := Find(s[1..], c);
      assert forall k :: 1 <= k < i + 1 ==> s[k] == s[1..][k - 1];
      i + 1
  }

  // ----- concatenation -----

  lemma AppendDrop(a: string, b: string, k: nat)
    requires k <= |b|
    ensures (a + b)[|a| + k..] == b[k..]
  {}

  lemma AppendTake(a: string, b: string, k: nat)
    requires k <= |b|
    ensures (a + b)[..|a| + k] == a + b[..k]
  {}

  lemma AppendAssoc(a: string, b: string, c: string)
    ensures a + b + c == a + (b + c)
  {}
}
