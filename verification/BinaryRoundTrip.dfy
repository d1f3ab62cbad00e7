/**
  When does reading a binary string give back what was written? Two things can go wrong: a literal
  `\x41` in the text is read as a code, and a single quote inside the text takes other characters
  with it. Each is characterised exactly.
 */
module BinaryRoundTrip {
  import opened Text
  import opened Escapes
  import opened BinaryText

  /** Somewhere the text itself reads `\x` and two digits. */
  predicate HasCode(s: string) { exists i :: 0 <= i < |s| && CodeAtStart(s[i..]) }

  lemma HasCodeTail(s: string, k: nat)
    requires k <= |s| && HasCode(s[k..])
    ensures HasCode(s)
  {
    var i :| 0 <= i < |s[k..]| && CodeAtStart(s[k..][i..]);
    assert s[k..][i..] == s[k + i..];
  }

  lemma HasCodeHead(s: string, k: nat)
    requires k <= |s| && HasCode(s[..k])
    ensures HasCode(s)
  {
    var i :| 0 <= i < |s[..k]| && CodeAtStart(s[..k][i..]);
    assert forall d :: 0 <= d < 4 ==> s[..k][i..][d] == s[i..][d];
  }

  // ----- decoding what Hexed produces -----

  lemma HexedHead(s: string)
    requires s != []
    ensures Hexed(s) != [] && Hexed(s)[0] == if IsPrint(s[0]) then s[0] else '\\'
    ensures IsPrint(s[0]) ==> Hexed(s)[1..] == Hexed(s[1..])
  {}

  lemma CodeStays(s: string)
    requires s != [] && IsPrint(s[0])
    ensures CodeAtStart(Hexed(s)) <==> CodeAtStart(s)
  {
    assert Hexed([]) == [];
    hide Hexed;
    HexedHead(s);
    if s[0] == '\\' && |s| > 1 {
      HexedHead(s[1..]);
      if IsPrint(s[1]) && |s| > 2 {
        assert s[1..][1..] == s[2..];
        HexedHead(s[2..]);
        if IsPrint(s[2]) && |s| > 3 {
          assert s[2..][1..] == s[3..];
          HexedHead(s[3..]);
        }
      }
    }
  }

  lemma HasCodeStep(s: string)
    requires s != []
    ensures HasCode(s) <==> CodeAtStart(s) || HasCode(s[1..])
  {
    assert s[0..] == s;
    if HasCode(s[1..]) {
      HasCodeTail(s, 1);
    }
    if HasCode(s) && !CodeAtStart(s) {
      var i :| 0 <= i < |s| && CodeAtStart(s[i..]);
      assert s[i..] == s[1..][i - 1..];
    }
  }

  lemma UnhexHexedChar(c: char, t: string)
    requires !IsPrint(c) && c as int < 256
    ensures Unhex(HexedChar(c) + t) == [c] + Unhex(t)
  {
    hide Unhex;
    var e := HexedChar(c) + t;
    UnhexStep(e);
    assert e[4..] == t && CodeAtStart(e);
    assert HexConvert(e[2]) * 16 + HexConvert(e[3]) == c as int;
  }

  lemma UnhexOne(s: string)
    requires s != [] && s[0] as int < 256 && !CodeAtStart(s)
    ensures Unhex(Hexed(s)) == [s[0]] + Unhex(Hexed(s[1..]))
  {
    if IsPrint(s[0]) {
      CodeStays(s);
      assert Hexed(s)[1..] == Hexed(s[1..]) && Hexed(s)[..1] == [s[0]];
    } else {
      UnhexHexedChar(s[0], Hexed(s[1..]));
    }
  }

  lemma UnhexCode(s: string)
    requires CodeAtStart(s)
    ensures Unhex(s) != [] && Unhex(Hexed(s)) == Unhex(s)[..1] + Unhex(Hexed(s[4..]))
  {
    HexedAppend(s[..4], s[4..]);
    assert s[..4] + s[4..] == s;
    HexedPlain(s[..4]);
    var e := Hexed(s);
    assert e[..4] == s[..4] && e[4..] == Hexed(s[4..]);
    assert forall i :: 0 <= i < 4 ==> e[i] == e[..4][i] == s[i];
  }

  lemma {:induction false} UnhexHexed(s: string)
    requires IsBytes(s)
    ensures |Unhex(Hexed(s))| <= |s|
    ensures HasCode(s) ==> |Unhex(Hexed(s))| < |s|
    ensures !HasCode(s) ==> Unhex(Hexed(s)) == s
  {
    if s != [] {
      assert s == [s[0]] + s[1..];
      HasCodeStep(s);
      if CodeAtStart(s) {
        UnhexCode(s);
        UnhexHexed(s[4..]);
      } else {
        UnhexOne(s);
        UnhexHexed(s[1..]);
      }
    }
  }

  lemma {:induction false} HexedPlain(s: string)
    requires AllPrint(s)
    ensures Hexed(s) == s
  {
    if s != [] {
      assert s[0] in s && s == [s[0]] + s[1..];
      HexedPlain(s[1..]);
    }
  }

  lemma {:induction false} HexedAppend(a: string, b: string)
    ensures Hexed(a + b) == Hexed(a) + Hexed(b)
  {
    if a == [] {
      assert a + b == b;
    } else {
      HexedAppend(a[1..], b);
      assert Hexed(a + b) == HexedChar(a[0]) + Hexed((a + b)[1..]);
      hide Hexed;
      assert (a + b)[1..] == a[1..] + b;
      AppendAssoc(HexedChar(a[0]), Hexed(a[1..]), Hexed(b));
    }
  }

  lemma {:induction false} HexedNotPlain(s: string)
    requires !AllPrint(s)
    ensures |Hexed(s)| > |s|
  {
    assert s == [s[0]] + s[1..];
    if IsPrint(s[0]) {
      HexedNotPlain(s[1..]);
    } else {
      HexedGrows(s[1..]);
    }
  }

  lemma {:induction false} HexedGrows(s: string)
    ensures |Hexed(s)| >= |s|
  {
    if s != [] {
      HexedGrows(s[1..]);
    }
  }

  lemma {:induction false} HexedQuoteFree(s: string)
    requires Free(s, '\'')
    ensures Free(Hexed(s), '\'')
  {
    if s != [] {
      HexedQuoteFree(s[1..]);
    }
  }

  lemma ExtractFramed(content: string)
    ensures Extract(Framed(content)) == Unhex(content)
  {
    var f := Framed(content);
    assert f[4..|f| - 3] == content;
  }

  // ----- texts without single quotes -----

  /** Without single quotes, a text that needs escaping survives exactly when it holds no literal code. */
  lemma RoundTripWithoutQuotes(s: string)
    requires IsBytes(s) && !AllPrint(s) && Free(s, '\'')
    ensures Extract(BinaryEscape(s)) == s <==> !HasCode(s)
  {
    HexedNotPlain(s);
    HexedQuoteFree(s);
    ExtractFramed(Hexed(s));
    UnhexHexed(s);
  }

  /** A printable text is written as it is; it survives exactly when it does not look like a binary string. */
  lemma RoundTripPrintable(s: string)
    requires AllPrint(s)
    ensures BinaryEscape(s) == s
    ensures Extract(BinaryEscape(s)) == s <==> !IsBinaryEscaped(s)
  {
    HexedPlain(s);
    if BareFrame(s) {
      UnhexShrinks(s[3..|s| - 2]);
    } else if QuotedFrame(s) {
      UnhexShrinks(s[4..|s| - 3]);
    }
  }

  lemma {:induction false} UnhexShrinks(t: string)
    ensures |Unhex(t)| <= |t|
  {
    if CodeAtStart(t) {
      UnhexShrinks(t[4..]);
    } else if t != [] {
      UnhexShrinks(t[1..]);
    }
  }
}
