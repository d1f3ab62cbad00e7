/**
  How an argument is printed, in plain terms: when it is written as it is, as a binary string, between
  triple quotes, and which characters the codes of a binary string consist of.
 */
module PrintedForms {
  import opened Text
  import opened Escapes
  import opened BinaryText
  import opened BinaryRoundTrip
  import opened IniText
  import opened IniRoundTrip
  import opened FileRoundTrip

  /** Digits behind `0x`, `0o` or `0b`. */
  predicate Radix(s: string)
  {
    |s| >= 2 && s[0] == '0' &&
    match s[1]
    case 'x' => forall c <- s[2..] :: c in LOWER_DIGITS || c in UPPER_DIGITS
    case 'o' => forall c <- s[2..] :: c in "01234567"
    case 'b' => forall c <- s[2..] :: c in "01"
    case _ => false
  }

  /** Keywords and numbers are written as they are. */
  predicate Bare(s: string, parsesAsDouble: string -> bool)
  {
    || s in {"true", "false", "nan", "inf"}
    || Radix(s)
    || (parsesAsDouble(s) && (forall c <- s :: c in "0123456789.-+eE"))
  }

  lemma BareIsPlainWord(s: string, parsesAsDouble: string -> bool)
    requires s != []
    ensures Bare(s, parsesAsDouble) <==> IsPlainWord(s, parsesAsDouble)
  {
    RadixIs(s);
    NumberCharsAre(s);
    hide IsRadixNumber, Radix;
    assert IsNumber(s, parsesAsDouble) ==> parsesAsDouble(s) && All(s, NumberChar);
    if parsesAsDouble(s) && All(s, NumberChar) && |s| >= 2 && (s[1] == 'x' || s[1] == 'X') {
      assert NumberChar(s[1]);
    }
  }

  lemma NumberCharsAre(s: string)
    ensures All(s, NumberChar) <==> forall c <- s :: c in "0123456789.-+eE"
  {
    assert forall c :: NumberChar(c) <==> c in "0123456789.-+eE";
    assert forall i :: 0 <= i < |s| ==> s[i] in s;
  }

  lemma RadixIs(s: string)
    requires s != []
    ensures Radix(s) <==> |s| > 1 && IsRadixNumber(s)
  {
    if |s| >= 2 {
      var t := s[2..];
      assert forall i :: 0 <= i < |t| ==> t[i] in t;
      forall c
        ensures IsHex(c) <==> c in LOWER_DIGITS || c in UPPER_DIGITS
      {
        DigitValues(c);
      }
    }
  }

  /** Exactly keywords and numbers are written without quotes around them. */
  lemma BareIff(s: string, parsesAsDouble: string -> bool, disableMultiLine: bool)
    requires s != []
    ensures ConvertArg(s, parsesAsDouble, disableMultiLine) == s <==> Bare(s, parsesAsDouble)
  {
    hide IsKeyword, IsNumber, IsRadixNumber, BinaryEscape, Escape, Bare;
    BareIsPlainWord(s, parsesAsDouble);
    if PrintedAsBinary(s, parsesAsDouble) {
      NonPrintableCharacter(s);
      BinaryPrints(s);
    } else {
      EscapeLength(s);
    }
  }

  lemma {:induction false} EscapeLength(s: string)
    ensures |Escape(s)| >= |s|
  {
    if s != [] {
      EscapeLength(s[1..]);
    }
  }

  /** What is written as a binary string is printable. */
  lemma BinaryPrints(s: string)
    requires !AllPrint(s)
    ensures AllPrint(BinaryEscape(s))
  {
    hide Hexed, CodedFrom;
    HexedNotPlain(s);
    HexedPrints(s);
    CodedPrints(0, Hexed(s));
  }

  lemma {:induction false} HexedPrints(s: string)
    ensures AllPrint(Hexed(s))
  {
    if s != [] {
      HexedPrints(s[1..]);
      assert AllPrint(HexedChar(s[0]));
    }
  }

  lemma {:induction false} CodedPrints(n: nat, t: string)
    requires AllPrint(t)
    ensures AllPrint(CodedFrom(n, t))
    decreases |t|
  {
    hide CodedFrom;
    var j := Find(t, '\'');
    if j < |t| {
      CodedUnfold(n, t);
      CodedPrints(n + j + 4, Rest(n, t, j));
    } else {
      CodedFree(n, t);
    }
  }

  /** Binary strings are for what is not bare and holds more than printable characters, tabs and line breaks. */
  lemma BinaryIff(s: string, parsesAsDouble: string -> bool)
    requires s != []
    ensures PrintedAsBinary(s, parsesAsDouble)
            <==> !Bare(s, parsesAsDouble)
                 && exists c <- s :: !(' ' <= c <= '~') && (|s| == 1 || (c != '\n' && c != '\t'))
  {
    hide Bare, IsPlainWord;
    BareIsPlainWord(s, parsesAsDouble);
    if |s| == 1 {
      assert s[0] in s && forall c <- s :: c == s[0];
    } else if !IsPrintable(s) {
      var i :| 0 <= i < |s| && !(IsPrint(s[i]) || s[i] == '\n' || s[i] == '\t');
      assert s[i] in s;
    } else {
      forall c <- s
        ensures ' ' <= c <= '~' || c == '\n' || c == '\t'
      {
        var i :| 0 <= i < |s| && s[i] == c;
      }
    }
  }

  /** A single argument stands between triple quotes if it is long and holds something to escape. */
  lemma MultiLineIff(s: string, parsesAsDouble: string -> bool)
    requires s != []
    ensures PrintedMultiLine([s], parsesAsDouble)
            <==> |s| > 100 && (exists c <- s :: c in ESCAPABLE) && !PrintedAsBinary(s, parsesAsDouble)
  {
    forall c
      ensures EscapeCode(c).Some? <==> c in ESCAPABLE
    {
      EscapeTable(c, []);
    }
  }

  /** Printable characters stand for themselves; any other byte is `\x` and two lower-case digits. */
  lemma HexedByte(c: char)
    requires c as int < 256
    ensures HexedChar(c) ==
            if ' ' <= c <= '~' then [c] else ['\\', 'x', LOWER_DIGITS[c as int / 16], LOWER_DIGITS[c as int % 16]]
  {
    DigitOf(c as int / 16);
    DigitOf(c as int % 16);
    hide HexDigit;
    var b := c as int;
    assert b % 256 == b;
  }

  lemma DigitOf(n: nat)
    requires n < 16
    ensures HexDigit(n) == LOWER_DIGITS[n]
  {
    assert LOWER_DIGITS == ['0', '1', '2', '3', '4', '5', '6', '7', '8', '9'] + ['a', 'b', 'c', 'd', 'e', 'f'];
  }

  /** Without quotes, what is written is the frame around the codes. */
  lemma BinaryForm(s: string)
    requires !AllPrint(s) && Free(s, '\'')
    ensures BinaryEscape(s) == "'B\"(" + Hexed(s) + ")\"'"
  {
    hide Hexed, CodedFrom;
    HexedNotPlain(s);
    HexedQuoteFree(s);
    CodedFree(0, Hexed(s));
  }

  /** `\x` or `\X` and two digits, of either case, are read as one byte. */
  lemma CodeReads(x: char, i: nat, j: nat, high: string, low: string, tail: string)
    requires x == 'x' || x == 'X'
    requires i < 16 && j < 16 && (high == LOWER_DIGITS || high == UPPER_DIGITS) && (low == LOWER_DIGITS || low == UPPER_DIGITS)
    ensures Unhex(['\\', x, high[i], low[j]] + tail) == [(16 * i + j) as char] + Unhex(tail)
  {
    DigitAt(high, i);
    DigitAt(low, j);
    hide *;
    var t := ['\\', x, high[i], low[j]] + tail;
    assert t[0] == '\\' && t[1] == x && t[2] == high[i] && t[3] == low[j] && t[4..] == tail;
    CodeUnfold(t);
  }

  lemma CodeUnfold(t: string)
    requires |t| >= 4 && t[0] == '\\' && (t[1] == 'x' || t[1] == 'X') && IsHex(t[2]) && IsHex(t[3])
    ensures Unhex(t) == [(16 * HexConvert(t[2]) + HexConvert(t[3])) as char] + Unhex(t[4..])
  {}

  /** Any other character stands for itself. */
  lemma CharReads(c: char, tail: string)
    requires c != '\\' || tail == [] || (tail[0] != 'x' && tail[0] != 'X')
    ensures Unhex([c] + tail) == [c] + Unhex(tail)
  {
    assert ([c] + tail)[1..] == tail;
    UnhexStep([c] + tail);
  }

  /** Only the two frames are taken off, and only then are codes read. */
  lemma FramesRead(s: string, t: string)
    ensures Extract("B\"(" + t + ")\"") == Extract("'B\"(" + t + ")\"'") == Unhex(t)
    ensures Extract(s) == s
            || (exists inner :: s == "B\"(" + inner + ")\"" || s == "'B\"(" + inner + ")\"'")
  {
    hide Unhex;
    BareRead(t);
    QuotedRead(t);
    if BareFrame(s) {
      BareShape(s);
    } else if QuotedFrame(s) {
      QuotedShape(s);
    }
  }

  lemma BareShape(s: string)
    requires BareFrame(s)
    ensures s == "B\"(" + s[3..|s| - 2] + ")\""
  {}

  lemma QuotedShape(s: string)
    requires QuotedFrame(s)
    ensures s == "'B\"(" + s[4..|s| - 3] + ")\"'"
  {}

  lemma BareRead(t: string)
    ensures Extract("B\"(" + t + ")\"") == Unhex(t)
  {
    hide Unhex;
    var s := "B\"(" + t + ")\"";
    assert s[3..|s| - 2] == t;
  }

  lemma QuotedRead(t: string)
    ensures Extract("'B\"(" + t + ")\"'") == Unhex(t)
  {
    hide Unhex;
    var s := "'B\"(" + t + ")\"'";
    assert s[4..|s| - 3] == t;
  }
}
