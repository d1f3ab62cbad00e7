/**
  From arguments to file lines and back: the printed value, cut into the lines a file holds, followed
  by whatever comes after it. This joins the array round trip and the multi-line literals.
 */
module FileRoundTrip {
  import opened Text
  import opened Escapes
  import opened BinaryText
  import opened BinaryRoundTrip
  import opened IniText
  import opened IniRoundTrip
  import opened ArrayLines
  import opened Comments
  import opened MultiLine

  /** A single argument printed between triple quotes. */
  predicate PrintedMultiLine(args: seq<string>, parsesAsDouble: string -> bool) { args != [] && !OnOneLine(args, parsesAsDouble) }

  const TRIPLE_STRING := ['\"', '\"', '\"']

  predicate StartsTriple(item: string) { |item| >= 3 && (item[..3] == TRIPLE || item[..3] == TRIPLE_STRING) }

  /** The value read from the text behind `=` and the lines that follow. */
  function ReadEntry(item: string, following: seq<string>): Option<seq<string>>
  {
    if !StartsTriple(item) then ReadItem(item, following)
    else
      match MultiLineValue(item, following)
      case None => None
      case Some(value) => ProcessAll([value])
  }

  function ReadPrinted(text: string, after: seq<string>): Option<seq<string>>
  {
    ReadEntry(Lines(text)[0], Lines(text)[1..] + after)
  }

  // ----- lines of a printed value -----

  lemma LinesOfFree(s: string)
    requires Free(s, '\n')
    ensures Lines(s) == [s]
  {
    hide Find;
  }

  lemma FindBehind(t: string, s: string)
    requires Free(t, '\n')
    ensures Find(t + s, '\n') == |t| + Find(s, '\n')
  {
    assert forall i :: 0 <= i < |s| ==> (t + s)[|t| + i] == s[i];
  }

  lemma LinesPrefix(t: string, s: string)
    requires Free(t, '\n')
    ensures Lines(t + s) == [t + Lines(s)[0]] + Lines(s)[1..]
  {
    hide Find, Lines;
    FindBehind(t, s);
    var i := Find(s, '\n');
    if i < |s| {
      AppendTake(t, s, i);
      AppendDrop(t, s, i + 1);
      LinesUnfold(t + s);
      LinesUnfold(s);
    } else {
      LinesOfFree(s);
      LinesOfFree(t + s);
    }
  }

  lemma {:induction false} LinesSuffix(s: string, t: string)
    requires Free(t, '\n')
    ensures Lines(s + t) == Lines(s)[..|Lines(s)| - 1] + [Lines(s)[|Lines(s)| - 1] + t]
  {
    hide Lines;
    var i := Find(s, '\n');
    if i == |s| {
      LinesOfFree(s);
      LinesOfFree(s + t);
    } else {
      var tail := s[i + 1..];
      LinesSuffix(tail, t);
      FindBefore(s, t, i);
      LinesUnfold(s + t);
      LinesUnfold(s);
    }
  }

  lemma LinesUnfold(s: string)
    requires Find(s, '\n') < |s|
    ensures Lines(s) == [s[..Find(s, '\n')]] + Lines(s[Find(s, '\n') + 1..])
  {
    hide Find;
  }

  lemma FindBefore(s: string, t: string, i: nat)
    requires i == Find(s, '\n') < |s|
    ensures Find(s + t, '\n') == i && (s + t)[..i] == s[..i] && (s + t)[i + 1..] == s[i + 1..] + t
  {
    assert (s + t)[i] == '\n' && forall k :: 0 <= k < i ==> (s + t)[k] == s[k];
  }

  lemma PhysicalLines(arg: string)
    ensures Lines(TRIPLE + arg + TRIPLE) == [FirstLine(arg)] + LaterLines(arg)
  {
    hide Lines;
    var lines := Lines(arg);
    var n := |lines| - 1;
    LinesPrefix(TRIPLE, arg);
    LinesSuffix(TRIPLE + arg, TRIPLE);
    var shown := [TRIPLE + lines[0]] + lines[1..];
    if n > 0 {
      assert FirstLine(arg) == TRIPLE + lines[0];
      assert lines[1..][..n - 1] == shown[1..n] && lines[1..][n - 1] == shown[n];
    }
  }

  // ----- one-line values hold no line break -----

  lemma {:induction false} EscapeFree(s: string)
    ensures Free(Escape(s), '\n')
  {
    if s != [] {
      EscapeFree(s[1..]);
    }
  }

  lemma {:induction false} HexedFree(s: string)
    ensures Free(Hexed(s), '\n')
  {
    if s != [] {
      HexedFree(s[1..]);
    }
  }

  lemma {:induction false} CodedKeepsFree(n: nat, t: string)
    requires Free(t, '\n')
    ensures Free(CodedFrom(n, t), '\n')
    decreases |t|
  {
    hide CodedFrom;
    var j := Find(t, '\'');
    if j < |t| {
      CodedUnfold(n, t);
      CodedKeepsFree(n + j + 4, Rest(n, t, j));
    } else {
      CodedFree(n, t);
    }
  }

  lemma BinaryFree(arg: string)
    requires !AllPrint(arg)
    ensures Free(BinaryEscape(arg), '\n')
  {
    hide Hexed, CodedFrom;
    HexedNotPlain(arg);
    HexedFree(arg);
    CodedKeepsFree(0, Hexed(arg));
  }

  lemma NoEscapableNoBreak(arg: string)
    requires !HasEscapable(arg)
    ensures Free(arg, '\n')
  {
    forall i | 0 <= i < |arg|
      ensures arg[i] != '\n'
    {
      assert arg[i] in arg;
    }
  }

  lemma ArgFree(arg: string, parsesAsDouble: string -> bool, disableMultiLine: bool)
    requires disableMultiLine || !HasEscapable(arg) || |arg| <= 100 || PrintedAsBinary(arg, parsesAsDouble)
    ensures
      var p := ConvertArg(arg, parsesAsDouble, disableMultiLine);
      Free(p, '\n') && !StartsTriple(p)
  {
    hide IsKeyword, IsNumber, IsRadixNumber, BinaryEscape, Escape;
    ArgReads(arg, parsesAsDouble, disableMultiLine);
    AtomIsNotTriple(ConvertArg(arg, parsesAsDouble, disableMultiLine));
    if IsPlainWord(arg, parsesAsDouble) {
      PlainWordIsWord(arg, parsesAsDouble);
    } else if PrintedAsBinary(arg, parsesAsDouble) {
      NonPrintableCharacter(arg);
      BinaryFree(arg);
    } else {
      EscapeFree(arg);
      if !HasEscapable(arg) {
        NoEscapableNoBreak(arg);
      }
    }
  }

  lemma AtomIsNotTriple(p: string)
    requires IsAtom(p)
    ensures !StartsTriple(p)
  {
    if |p| >= 3 {
      assert p[0] == p[..3][0] && p[1] == p[..3][1] && Inner(p)[0] == p[1];
    }
  }

  lemma {:induction false} JoinedFree(args: seq<string>, parsesAsDouble: string -> bool)
    ensures Free(JoinedFrom(args, parsesAsDouble), '\n')
  {
    hide ConvertArg;
    if args != [] {
      ArgFree(args[0], parsesAsDouble, true);
      JoinedFree(args[1..], parsesAsDouble);
    }
  }

  lemma OneLineValue(args: seq<string>, parsesAsDouble: string -> bool, after: seq<string>)
    requires args != [] && OnOneLine(args, parsesAsDouble)
    ensures ReadPrinted(Joined(args, parsesAsDouble), after) == ReadValue(Joined(args, parsesAsDouble))
  {
    hide ConvertArg, JoinedFrom, Lines, ReadMultiLine, PrintedAsBinary, WithoutComment, IniText.Pieces, ProcessAll, IsAtom;
    var text := Joined(args, parsesAsDouble);
    if |args| == 1 {
      ArgFree(args[0], parsesAsDouble, false);
      ArgReads(args[0], parsesAsDouble, false);
      AtomIsTight(text);
      AtomWithComment(text, [], []);
    } else {
      JoinedFree(args, parsesAsDouble);
      ArrayWithoutComment(args, parsesAsDouble);
      assert text[0] == '[' && text[|text| - 1] == ']';
    }
    LinesOfFree(text);
  }

  // ----- the theorem -----

  lemma MultiLinePrinted(args: seq<string>, parsesAsDouble: string -> bool)
    requires PrintedMultiLine(args, parsesAsDouble)
    ensures |args| == 1 && Joined(args, parsesAsDouble) == TRIPLE + args[0] + TRIPLE
  {
    hide IsKeyword, IsNumber, IsRadixNumber, BinaryEscape, Escape, HasEscapable;
    var arg := args[0];
    if IsPlainWord(arg, parsesAsDouble) {
      PlainWordIsWord(arg, parsesAsDouble);
      WordNotEscapable(arg);
    }
  }

  lemma WordNotEscapable(p: string)
    requires IsWord(p)
    ensures !HasEscapable(p)
  {
    forall c | c in p
      ensures EscapeCode(c).None?
    {
      assert WordChar(c);
    }
  }

  /**
    Every list of at least one byte string, printed into a file before any other lines, is read back as
    it was if and only if: printed as a multi-line literal, it has the shape that survives and does not
    itself look quoted; otherwise, no argument that needs binary escaping holds a literal code or has a
    single quote inside.
   */
  lemma PrintedListReadsBack(args: seq<string>, parsesAsDouble: string -> bool, after: seq<string>)
    requires args != [] && forall i :: 0 <= i < |args| ==> IsBytes(args[i])
    ensures
      ReadPrinted(Joined(args, parsesAsDouble), after) == Some(args)
      <==>
      if PrintedMultiLine(args, parsesAsDouble) then Survives(args[0]) && !LooksQuoted(args[0])
      else forall i :: 0 <= i < |args| ==> ReadsBack(args[i], parsesAsDouble)
  {
    hide ReadValue, Joined, ReadsBack, ReadPrinted, HasEscapable, Survives, LooksQuoted;
    if PrintedMultiLine(args, parsesAsDouble) {
      MultiLinePrinted(args, parsesAsDouble);
      LiteralReadsBack(args[0], after);
      assert args == [args[0]];
    } else {
      OneLineValue(args, parsesAsDouble, after);
      RoundTrip(args, parsesAsDouble);
    }
  }

  lemma LiteralReadsBack(arg: string, after: seq<string>)
    ensures ReadPrinted(TRIPLE + arg + TRIPLE, after) == Some([arg]) <==> Survives(arg) && !LooksQuoted(arg)
  {
    hide Lines, ReadMultiLine, Survives, LaterLines, Following, ProcessQuoted, LooksQuoted, Closes, Unescape;
    PhysicalLines(arg);
    var lines := Lines(TRIPLE + arg + TRIPLE);
    assert lines[0] == FirstLine(arg) && lines[1..] == LaterLines(arg);
    assert FirstLine(arg)[..3] == TRIPLE && FirstLine(arg)[0] == '\'';
    var read := ReadMultiLine(FirstLine(arg), LaterLines(arg) + after);
    ProcessOne(read);
    MultiLineRead(arg, after);
    ProcessedLiteral(arg, read);
  }

  lemma ProcessOne(read: string)
    ensures ProcessAll([read]) == match ProcessQuoted(read) case Some(p) => Some([p]) case None => None
  {
    hide ProcessQuoted;
    assert [read][1..] == [] && ProcessAll([]) == Some([]);
    assert forall p: string :: [p] + [] == [p];
  }

  /** Unquoting a value that was read with a loss cannot repair it by accident. */
  lemma ProcessedLiteral(arg: string, read: string)
    requires
      if Survives(arg) then read == arg
      else if Free(arg, '\n') then read == arg + TRIPLE || arg + TRIPLE + ['\n'] <= read
      else |read| < |arg|
    ensures ProcessQuoted(read) == Some(arg) <==> Survives(arg) && !LooksQuoted(arg)
  {
    hide Survives, ProcessQuoted;
    ProcessFixed(read);
    ProcessShrinks(read);
    if !Survives(arg) && Free(arg, '\n') {
      if read == arg + TRIPLE {
        QuotesStay(arg);
      } else if ProcessQuoted(read).Some? {
        BreakStays(read, |arg| + 3);
      }
    }
  }

  // ----- what unquoting does to a value -----

  predicate SameEnds(s: string, c: char) { |s| >= 2 && s[0] == c && s[|s| - 1] == c }

  /** `process_quoted_string` would change the text. */
  predicate LooksQuoted(s: string)
  {
    |s| >= 2 && (IsBinaryEscaped(s) || SameEnds(s, '\"') || SameEnds(s, '\'') || SameEnds(s, '`'))
  }

  lemma {:induction false} UnescapeShrinks(s: string)
    ensures Unescape(s).Some? ==> |Unescape(s).value| <= |s|
  {
    if s != [] {
      if s[0] != '\\' {
        UnescapeShrinks(s[1..]);
      } else if |s| >= 2 {
        UnescapeShrinks(s[2..]);
        if s[1] == 'u' || s[1] == 'U' {
          var n := 2 + DigitCount(s[1]);
          if |s| >= n {
            UnescapeShrinks(s[n..]);
          }
        }
      }
    }
  }

  lemma ProcessShrinks(s: string)
    ensures ProcessQuoted(s).Some? ==> |ProcessQuoted(s).value| <= |s|
    ensures ProcessQuoted(s).Some? && LooksQuoted(s) ==> |ProcessQuoted(s).value| < |s|
  {
    hide Unescape, Unhex;
    if |s| >= 2 {
      UnescapeShrinks(Inner(s));
      if BareFrame(s) {
        UnhexShrinks(s[3..|s| - 2]);
      } else if QuotedFrame(s) {
        UnhexShrinks(s[4..|s| - 3]);
      }
    }
  }

  lemma ProcessFixed(s: string)
    ensures ProcessQuoted(s) == Some(s) <==> !LooksQuoted(s)
  {
    hide Unescape, Unhex;
    ProcessShrinks(s);
  }

  /** Stripping one quote at each end of `arg` and its closing quotes does not give `arg`. */
  lemma QuotesStay(arg: string)
    ensures ProcessQuoted(arg + TRIPLE) != Some(arg)
  {
    hide Unescape, Unhex;
    var s := arg + TRIPLE;
    assert s[|s| - 1] == '\'' && s[|s| - 2] == '\'';
  }

  lemma {:induction false} UnescapeKeepsBreak(s: string, i: nat)
    requires i < |s| && s[i] == '\n' && Unescape(s).Some?
    ensures !Free(Unescape(s).value, '\n')
  {
    if s[0] != '\\' {
      if i > 0 {
        UnescapeKeepsBreak(s[1..], i - 1);
      }
      BreakInPart(s[..1], Unescape(s[1..]).value, s[0] == '\n');
    } else {
      var n := if s[1] == 'u' || s[1] == 'U' then 2 + DigitCount(s[1]) else 2;
      BreakIsBehind(s, i, n);
      UnescapeKeepsBreak(s[n..], i - n);
      assert exists head :: Unescape(s).value == head + Unescape(s[n..]).value;
      var head :| Unescape(s).value == head + Unescape(s[n..]).value;
      BreakInPart(head, Unescape(s[n..]).value, false);
    }
  }

  /** A line break cannot be part of an escape that is accepted. */
  lemma BreakIsBehind(s: string, i: nat, n: nat)
    requires i < |s| && s[i] == '\n' && Unescape(s).Some? && s[0] == '\\' && |s| >= 2
    requires n == if s[1] == 'u' || s[1] == 'U' then 2 + DigitCount(s[1]) else 2
    ensures n <= i
    ensures Unescape(s[n..]).Some? && exists head :: Unescape(s).value == head + Unescape(s[n..]).value
  {
    if s[1] == 'u' || s[1] == 'U' {
      assert CodeMeaning(s[1]).None?;
      HexDigitsNoBreak(s, n);
    }
  }

  lemma HexDigitsNoBreak(s: string, n: nat)
    requires 2 <= n <= |s| && AllHex(s[2..n])
    ensures forall i :: 2 <= i < n ==> s[i] != '\n'
  {
    assert forall i :: 2 <= i < n ==> s[i] == s[2..n][i - 2];
  }

  lemma BreakInPart(a: string, b: string, inFirst: bool)
    requires if inFirst then !Free(a, '\n') else !Free(b, '\n')
    ensures !Free(a + b, '\n')
  {
    if inFirst {
      var i :| 0 <= i < |a| && a[i] == '\n';
      assert (a + b)[i] == '\n';
    } else {
      var i :| 0 <= i < |b| && b[i] == '\n';
      assert (a + b)[|a| + i] == '\n';
    }
  }

  lemma {:induction false} UnhexKeepsBreak(t: string, i: nat)
    requires i < |t| && t[i] == '\n'
    ensures !Free(Unhex(t), '\n')
  {
    hide Unhex;
    UnhexStep(t);
    var k := if CodeAtStart(t) then 4 else 1;
    if i >= k {
      UnhexKeepsBreak(t[k..], i - k);
      BreakInPart(Unhex(t)[..1], Unhex(t[k..]), false);
    } else {
      assert Unhex(t)[0] == '\n';
    }
  }

  /** A line break inside a value stays in it. */
  lemma BreakStays(s: string, i: nat)
    requires i < |s| && s[i] == '\n' && ProcessQuoted(s).Some?
    ensures !Free(ProcessQuoted(s).value, '\n')
  {
    hide Unescape, Unhex;
    if |s| >= 2 {
      var inner := Inner(s);
      if BareFrame(s) {
        assert s[3..|s| - 2][i - 3] == '\n';
        UnhexKeepsBreak(s[3..|s| - 2], i - 3);
      } else if QuotedFrame(s) {
        assert s[4..|s| - 3][i - 4] == '\n';
        UnhexKeepsBreak(s[4..|s| - 3], i - 4);
      } else if LooksQuoted(s) {
        assert inner[i - 1] == '\n';
        if !Free(inner, '\\') && s[0] == '\"' {
          UnescapeKeepsBreak(inner, i - 1);
        }
      }
    }
  }
}
