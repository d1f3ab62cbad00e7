/**
  Single quotes in binary strings. The replacement of a quote at position `q` removes `q + 1`
  characters. Nothing but the quote is lost when it is the first or the last character; every other
  quote, and every literal code, loses information for good. A weight of the decoded text shows it:
  two for a printable character, seven for any other byte. Cutting through a coded byte leaves at
  most three characters of its code, and reading a literal code turns four characters into one byte.
 */
module BinaryQuotes {
  import opened Text
  import opened Escapes
  import opened BinaryText
  import opened BinaryRoundTrip

  /** No quote but possibly the first and the last character. */
  predicate QuotesOutermost(s: string) { forall i :: 0 < i < |s| - 1 ==> s[i] != '\'' }

  // ----- decoding around a coded quote -----

  predicate ContinuesCode(b: string) { b != [] && (IsHex(b[0]) || b[0] == 'x' || b[0] == 'X') }

  lemma CodeDoesNotStraddle(a: string, b: string)
    requires a != [] && !ContinuesCode(b)
    ensures CodeAtStart(a + b) <==> CodeAtStart(a)
  {
    if 1 <= |a| < 4 && b != [] {
      assert (a + b)[|a|] == b[0];
    }
  }

  /** No code straddles the border when the second text cannot continue one. */
  lemma {:induction false} UnhexSplit(a: string, b: string)
    requires !ContinuesCode(b)
    ensures Unhex(a + b) == Unhex(a) + Unhex(b)
  {
    hide Unhex;
    if a == [] {
      UnhexNothing();
      NothingBefore(b);
      NothingBefore(Unhex(b));
    } else {
      CodeDoesNotStraddle(a, b);
      var k := if CodeAtStart(a) then 4 else 1;
      UnhexSplit(a[k..], b);
      UnhexSplitStep(a, b, k);
    }
  }

  lemma UnhexSplitStep(a: string, b: string, k: nat)
    requires a != [] && (CodeAtStart(a + b) <==> CodeAtStart(a)) && k == (if CodeAtStart(a) then 4 else 1)
    requires Unhex(a[k..] + b) == Unhex(a[k..]) + Unhex(b)
    ensures Unhex(a + b) == Unhex(a) + Unhex(b)
  {
    hide Unhex;
    UnhexStep(a);
    UnhexStep(a + b);
    assert (a + b)[k..] == a[k..] + b;
    AppendAssoc(Unhex(a)[..1], Unhex(a[k..]), Unhex(b));
  }

  lemma UnhexQuoteCode(a: string, b: string)
    ensures Unhex(a + (QUOTE_CODE + b)) == Unhex(a) + (['\''] + Unhex(b))
  {
    var c := QUOTE_CODE + b;
    UnhexSplit(a, c);
    assert CodeAtStart(c) && c[4..] == b;
  }

  // ----- weight -----

  function Weight(s: string): (w: nat)
  {
    if s == [] then 0 else (if IsPrint(s[0]) then 2 else 7) + Weight(s[1..])
  }

  lemma WeightStep(c: char, s: string)
    ensures Weight([c] + s) == (if IsPrint(c) then 2 else 7) + Weight(s)
  {
    assert ([c] + s)[1..] == s;
  }

  lemma {:induction false} WeightAppend(a: string, b: string)
    ensures Weight(a + b) == Weight(a) + Weight(b)
  {
    if a == [] {
      assert a + b == b;
    } else {
      WeightAppend(a[1..], b);
      assert (a + b)[1..] == a[1..] + b;
    }
  }

  lemma WeightAtStart(s: string)
    requires CodeAtStart(s)
    ensures Weight(s) == 8 + Weight(s[4..])
  {
    WeightAppend(s[..4], s[4..]);
    assert s == s[..4] + s[4..];
    AllPrintWeight(s[..4]);
  }

  lemma {:induction false} AllPrintWeight(s: string)
    requires forall i :: 0 <= i < |s| ==> IsPrint(s[i])
    ensures Weight(s) == 2 * |s|
  {
    if s != [] {
      AllPrintWeight(s[1..]);
    }
  }

  lemma NothingHexed()
    ensures Unhex(Hexed([])) == [] && !HasCode([])
  {}

  /** Decoding escaped text never adds weight; reading a literal code takes some away. */
  lemma {:induction false} DecodingLowersWeight(u: string)
    requires IsBytes(u)
    ensures Weight(Unhex(Hexed(u))) <= Weight(u)
    ensures HasCode(u) ==> Weight(Unhex(Hexed(u))) < Weight(u)
  {
    hide Unhex, Hexed, HasCode;
    if u == [] {
      NothingHexed();
    } else {
      HasCodeStep(u);
      if CodeAtStart(u) {
        UnhexCode(u);
        DecodingLowersWeight(u[4..]);
        WeightAtStart(u);
        WeightStep(Unhex(u)[0], Unhex(Hexed(u[4..])));
      } else {
        UnhexOne(u);
        DecodingLowersWeight(u[1..]);
        WeightStep(u[0], Unhex(Hexed(u[1..])));
      }
    }
  }

  // ----- cut pieces of escaped text -----

  /** What a cut may leave of a code: letters and digits without a backslash. */
  predicate Debris(d: string) { forall i :: 0 <= i < |d| ==> IsPrint(d[i]) && d[i] != '\\' && d[i] != '\'' }

  /** Bytes that escaping and decoding give back. */
  predicate Plainly(u: string) { IsBytes(u) && !HasCode(u) }

  lemma {:induction false} UnhexDebris(d: string, t: string)
    requires Debris(d)
    ensures Unhex(d + t) == d + Unhex(t)
  {
    if d == [] {
      assert d + t == t;
    } else {
      UnhexDebris(d[1..], t);
      UnhexStep(d + t);
      hide Unhex;
      assert (d + t)[1..] == d[1..] + t && d == [d[0]] + d[1..];
      AppendAssoc([d[0]], d[1..], Unhex(t));
    }
  }

  lemma DebrisWeight(d: string, u: string)
    requires Debris(d)
    ensures Weight(d + u) == 2 * |d| + Weight(u)
  {
    AllPrintWeight(d);
    WeightAppend(d, u);
  }

  lemma PlainlyTail(u: string, k: nat)
    requires Plainly(u) && k <= |u|
    ensures Plainly(u[k..]) && Plainly(u[..k])
  {
    if HasCode(u[k..]) {
      HasCodeTail(u, k);
    }
    if HasCode(u[..k]) {
      HasCodeHead(u, k);
    }
  }

  /** Cutting `k` characters off the escaped form of `u` leaves debris and the escaped form of a lighter text. */
  lemma {:induction false} Cut(u: string, k: nat) returns (d: string, v: string)
    requires IsBytes(u)
    ensures Hexed(u)[Min(k, |Hexed(u)|)..] == d + Hexed(v)
    ensures Debris(d) && IsBytes(v)
    ensures if k > 0 && u != [] then 2 * |d| + Weight(v) < Weight(u) else d == [] && v == u
    decreases |u|
  {
    hide Hexed, HasCode;
    if k == 0 || u == [] {
      d, v := [], u;
      NothingCut(Hexed(u), k, u);
      return;
    }
    var head, e := HexedChar(u[0]), Hexed(u);
    HexedUnfold(u);
    if k < |head| {
      d, v := head[k..], u[1..];
      assert e[k..] == d + Hexed(v);
    } else {
      d, v := Cut(u[1..], k - |head|);
      AppendDrop(head, Hexed(u[1..]), Min(k - |head|, |e| - |head|));
    }
  }

  lemma HexedUnfold(u: string)
    requires u != []
    ensures Hexed(u) == HexedChar(u[0]) + Hexed(u[1..])
  {}

  lemma NothingCut(e: string, k: nat, u: string)
    requires (k == 0 || u == []) && e == Hexed(u)
    ensures e[Min(k, |e|)..] == [] + e
  {}

  // ----- one turn -----

  lemma HexedAtQuote(u: string, i: nat)
    requires i < |u| && u[i] == '\''
    ensures Hexed(u) == Hexed(u[..i]) + (['\''] + Hexed(u[i + 1..]))
  {
    hide Hexed;
    QuoteHead(u[i..]);
    assert u[i..][1..] == u[i + 1..];
    HexedAppend(u[..i], u[i..]);
    assert u[..i] + u[i..] == u;
  }

  lemma SplitAtQuote(d: string, u: string, i: nat)
    requires Debris(d) && i == Find(u, '\'') < |u|
    ensures
      var t, j := d + Hexed(u), |d| + |Hexed(u[..i])|;
      && j == Find(t, '\'') < |t| && t[..j] == d + Hexed(u[..i]) && t[j + 1..] == Hexed(u[i + 1..])
  {
    hide Hexed;
    var before, after := Hexed(u[..i]), Hexed(u[i + 1..]);
    HexedAtQuote(u, i);
    HexedQuoteFree(u[..i]);
    AppendAssoc(d, before, ['\''] + after);
    QuoteFoundBetween(d + before, after);
  }

  lemma QuoteFoundBetween(a: string, b: string)
    requires Free(a, '\'')
    ensures
      var t := a + (['\''] + b);
      |a| == Find(t, '\'') && t[..|a|] == a && t[|a| + 1..] == b
  {
    FindSkips(a, ['\''] + b);
  }

  lemma RestAfterQuote(n: nat, t: string, j: nat, after: string)
    requires j < |t| && t[j + 1..] == after
    ensures Rest(n, t, j) == after[Min(n + j, |after|)..]
  {}

  lemma UnhexTurn(n: nat, t: string, j: nat, head: string, rest: string)
    requires j == Find(t, '\'') < |t| && head == t[..j] && rest == Rest(n, t, j)
    ensures Unhex(CodedFrom(n, t)) == Unhex(head) + (['\''] + Unhex(CodedFrom(n + j + 4, rest)))
  {
    var tail := CodedFrom(n + j + 4, rest);
    assert CodedFrom(n, t) == head + QUOTE_CODE + tail;
    AppendAssoc(head, QUOTE_CODE, tail);
    UnhexQuoteCode(head, tail);
  }

  /** A quote at position `k` of the whole text: what is before it, and what is left behind it. */
  lemma OneTurn(n: nat, d: string, u: string, i: nat, t: string) returns (k: nat, rest: string)
    requires Debris(d) && i == Find(u, '\'') < |u| && t == d + Hexed(u)
    ensures k >= n + |d| + i && |rest| < |t|
    ensures rest == Hexed(u[i + 1..])[Min(k, |Hexed(u[i + 1..])|)..]
    ensures Unhex(CodedFrom(n, t)) == d + Unhex(Hexed(u[..i])) + (['\''] + Unhex(CodedFrom(k + 4, rest)))
  {
    hide Unhex, CodedFrom, Hexed;
    var head := d + Hexed(u[..i]);
    var j := |head|;
    assert j == Find(t, '\'') < |t| && t[..j] == head && t[j + 1..] == Hexed(u[i + 1..]) by {
      SplitAtQuote(d, u, i);
    }
    k, rest := n + j, Rest(n, t, j);
    assert k >= n + |d| + i by { HexedGrows(u[..i]); }
    RestAfterQuote(n, t, j, Hexed(u[i + 1..]));
    UnhexDebris(d, Hexed(u[..i]));
    UnhexTurn(n, t, j, head, rest);
  }

  /** A quote that has characters on both sides, counting the `n` characters in front. */
  predicate Lossy(n: nat, d: string, u: string)
  {
    var i := Find(u, '\'');
    i < |u| - 1 && n + |d| + i > 0
  }

  lemma AroundQuote(u: string, i: nat)
    requires i < |u| && u[i] == '\''
    ensures u == u[..i] + (['\''] + u[i + 1..])
  {}

  /** A code holds no quote, so it lies on one side of it. */
  lemma CodeBesideQuote(u: string, i: nat)
    requires i < |u| && u[i] == '\'' && HasCode(u)
    ensures HasCode(u[..i]) || HasCode(u[i + 1..])
  {
    var k :| 0 <= k < |u| && CodeAtStart(u[k..]);
    if k > i {
      assert u[i + 1..][k - i - 1..] == u[k..];
    } else {
      assert forall j :: 0 <= j < 4 ==> u[k + j] == u[k..][j] != '\'';
      assert forall j :: 0 <= j < 4 ==> u[..i][k..][j] == u[k..][j];
    }
  }

  /** Both sides of a quote, decoded: nothing gains weight. */
  lemma WeightOfTurn(d: string, before: string, x: string, after: string, y: string)
    requires Debris(d) && Weight(x) <= Weight(before) && Weight(y) <= Weight(after)
    ensures
      var read, text := d + x + (['\''] + y), d + (before + (['\''] + after));
      && Weight(read) <= Weight(text)
      && (Weight(x) < Weight(before) || Weight(y) < Weight(after) ==> Weight(read) < Weight(text))
  {
    hide Weight;
    WeightAppend(d + x, ['\''] + y);
    WeightAppend(d, x);
    WeightStep('\'', y);
    WeightAppend(d, before + (['\''] + after));
    WeightAppend(before, ['\''] + after);
    WeightStep('\'', after);
  }

  /** Replacing the quotes of escaped text and decoding it never adds weight; a quote inside or a code takes some away. */
  lemma {:induction false} CodingLowersWeight(n: nat, d: string, u: string, t: string)
    requires Debris(d) && IsBytes(u) && t == d + Hexed(u)
    ensures Weight(Unhex(CodedFrom(n, t))) <= Weight(d + u)
    ensures Lossy(n, d, u) || HasCode(u) ==> Weight(Unhex(CodedFrom(n, t))) < Weight(d + u)
    decreases |t|
  {
    hide Unhex, CodedFrom, Hexed, Find, Weight, HasCode;
    var i := Find(u, '\'');
    if i == |u| {
      QuoteFreeLowersWeight(n, d, u, t);
    } else {
      TurnLowersWeight(n, d, u, i, t);
    }
  }

  lemma QuoteFreeLowersWeight(n: nat, d: string, u: string, t: string)
    requires Debris(d) && IsBytes(u) && t == d + Hexed(u) && Find(u, '\'') == |u|
    ensures Weight(Unhex(CodedFrom(n, t))) <= Weight(d + u)
    ensures HasCode(u) ==> Weight(Unhex(CodedFrom(n, t))) < Weight(d + u)
  {
    hide Unhex, CodedFrom, Hexed, Weight, HasCode;
    HexedQuoteFree(u);
    CodedFree(n, t);
    UnhexDebris(d, Hexed(u));
    DecodingLowersWeight(u);
    WeightAppend(d, u);
    WeightAppend(d, Unhex(Hexed(u)));
  }

  lemma {:induction false} TurnLowersWeight(n: nat, d: string, u: string, i: nat, t: string)
    requires Debris(d) && IsBytes(u) && t == d + Hexed(u)
    requires i == Find(u, '\'') < |u|
    ensures Weight(Unhex(CodedFrom(n, t))) <= Weight(d + u)
    ensures (i + 1 < |u| && n + |d| + i > 0) || HasCode(u) ==> Weight(Unhex(CodedFrom(n, t))) < Weight(d + u)
    decreases |t|, 0
  {
    hide Unhex, CodedFrom, Hexed, Find, Weight, HasCode;
    var before, after := u[..i], u[i + 1..];
    var k, rest := OneTurn(n, d, u, i, t);
    var d', v := Cut(after, k);
    DebrisWeight(d', v);
    CodingLowersWeight(k + 4, d', v, rest);
    DecodingLowersWeight(before);
    if HasCode(u) {
      CodeBesideQuote(u, i);
    }
    assert d' == [] ==> d' + v == v;
    WeightOfTurn(d, before, Unhex(Hexed(before)), after, Unhex(CodedFrom(k + 4, rest)));
    AroundQuote(u, i);
  }

  lemma CodingKeepsLastQuote(n: nat, u: string)
    requires Plainly(u) && (u == [] || Free(u[..|u| - 1], '\''))
    ensures Unhex(CodedFrom(n, Hexed(u))) == u
  {
    hide Unhex, CodedFrom, Hexed, HasCode;
    var i := Find(u, '\'');
    if i == |u| {
      HexedQuoteFree(u);
      CodedFree(n, Hexed(u));
      UnhexHexed(u);
    } else {
      assert i == |u| - 1;
      LastQuoteKept(n, u, i);
    }
  }

  lemma LastQuoteKept(n: nat, u: string, i: nat)
    requires Plainly(u) && i == Find(u, '\'') == |u| - 1
    ensures Unhex(CodedFrom(n, Hexed(u))) == u
  {
    hide Unhex, CodedFrom, Hexed, Find, HasCode;
    NothingBefore(Hexed(u));
    var k, rest := OneTurn(n, [], u, i, Hexed(u));
    assert u[i + 1..] == [];
    assert Hexed([]) == [] && Unhex(CodedFrom(k + 4, [])) == [] by { NothingCoded(k + 4); }
    PlainlyTail(u, i);
    UnhexHexed(u[..i]);
    AroundQuote(u, i);
    NothingBefore(u[..i]);
  }

  lemma NothingCoded(n: nat)
    ensures Hexed([]) == [] && Unhex(CodedFrom(n, [])) == []
  {}

  /** The first character may be a quote: nothing precedes it, so the count is right. */
  lemma LeadingQuote(s: string)
    requires s != [] && s[0] == '\''
    ensures Unhex(CodedFrom(0, Hexed(s))) == ['\''] + Unhex(CodedFrom(4, Hexed(s[1..])))
  {
    hide Unhex, CodedFrom, Hexed, Find, Rest;
    QuoteHead(s);
    RestOfHead(s);
    UnhexTurn(0, Hexed(s), 0, [], Hexed(s[1..]));
    UnhexNothing();
    NothingBefore(['\''] + Unhex(CodedFrom(4, Hexed(s[1..]))));
  }

  lemma QuoteHead(s: string)
    requires s != [] && s[0] == '\''
    ensures Hexed(s) == ['\''] + Hexed(s[1..]) && Find(Hexed(s), '\'') == 0
  {}

  lemma RestOfHead(s: string)
    requires s != [] && s[0] == '\''
    ensures Rest(0, Hexed(s), 0) == Hexed(s[1..]) && Hexed(s)[..0] == []
  {
    hide Hexed;
    QuoteHead(s);
  }

  lemma UnhexNothing()
    ensures Unhex([]) == []
  {}

  lemma NothingBefore(s: string)
    ensures [] + s == s
  {}

  lemma QuoteOrCodeLost(s: string)
    requires IsBytes(s) && (HasCode(s) || !QuotesOutermost(s))
    ensures Unhex(CodedFrom(0, Hexed(s))) != s
  {
    hide Unhex, CodedFrom, Hexed, Find, Weight, HasCode;
    NothingBefore(Hexed(s));
    NothingBefore(s);
    CodingLowersWeight(0, [], s, Hexed(s));
    if !HasCode(s) {
      InteriorQuoteLost(s);
    }
  }

  lemma InteriorQuoteLost(s: string)
    requires IsBytes(s) && !QuotesOutermost(s)
    ensures Unhex(CodedFrom(0, Hexed(s))) != s
  {
    var i :| 0 < i < |s| - 1 && s[i] == '\'';
    if s[0] == '\'' {
      assert s[1..][i - 1] == '\'';
      LeadingQuoteLost(s, s[1..]);
    } else {
      assert Lossy(0, [], s);
      hide Unhex, CodedFrom, Hexed, Find, Weight, HasCode;
      NothingBefore(Hexed(s));
      NothingBefore(s);
      CodingLowersWeight(0, [], s, Hexed(s));
    }
  }

  lemma LeadingQuoteLost(s: string, tail: string)
    requires IsBytes(s) && s != [] && s[0] == '\'' && tail == s[1..] && Lossy(4, [], tail)
    ensures Unhex(CodedFrom(0, Hexed(s))) != s
  {
    hide Unhex, CodedFrom, Hexed, Find, Weight, HasCode;
    LeadingQuote(s);
    NothingBefore(Hexed(tail));
    NothingBefore(tail);
    CodingLowersWeight(4, [], tail, Hexed(tail));
    assert s == ['\''] + tail;
  }

  lemma OutermostQuotesKept(s: string)
    requires Plainly(s) && QuotesOutermost(s)
    ensures Unhex(CodedFrom(0, Hexed(s))) == s
  {
    hide Unhex, CodedFrom, Hexed, HasCode;
    if s != [] && s[0] == '\'' {
      LeadingQuote(s);
      PlainlyTail(s, 1);
      CodingKeepsLastQuote(4, s[1..]);
      assert s == ['\''] + s[1..];
    } else {
      CodingKeepsLastQuote(0, s);
    }
  }

  /**
    A byte string survives writing and reading exactly when, if it is printable, it does not look like
    a binary string itself, and otherwise it holds no literal code and no single quote stands inside it.
   */
  lemma RoundTripIffQuotesOutermost(s: string)
    requires IsBytes(s)
    ensures Extract(BinaryEscape(s)) == s
            <==> if AllPrint(s) then !IsBinaryEscaped(s) else !HasCode(s) && QuotesOutermost(s)
  {
    hide HasCode;
    if AllPrint(s) {
      RoundTripPrintable(s);
    } else {
      HexedNotPlain(s);
      ExtractFramed(CodedFrom(0, Hexed(s)));
      if !HasCode(s) && QuotesOutermost(s) {
        OutermostQuotesKept(s);
      } else {
        QuoteOrCodeLost(s);
      }
    }
  }

  /** A text that a quote damages: `a'` followed by the byte 1 comes back as `a'x01`. */
  lemma QuoteLossExample()
    ensures Extract(BinaryEscape(['a', '\'', '\U{1}'])) != ['a', '\'', '\U{1}']
  {
    var s := ['a', '\'', '\U{1}'];
    assert !IsPrint(s[2]) && s[1] == '\'';
    RoundTripIffQuotesOutermost(s);
  }
}
