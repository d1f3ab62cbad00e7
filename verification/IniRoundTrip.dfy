/**
  Printing a list of arguments and reading it back. Whatever the arguments hold (commas, quotes,
  brackets, spaces, backslashes, newlines, comment signs), every argument comes back at its own
  place; the printed array closes at its last bracket.
 */
module IniRoundTrip {
  import opened Text
  import opened Escapes
  import opened Brackets
  import opened BinaryText
  import opened BinaryRoundTrip
  import opened BinaryQuotes
  import opened IniText

  // ----- the three shapes of a printed argument -----

  predicate WordChar(c: char)
  {
    '0' <= c <= '9' || 'a' <= c <= 'z' || 'A' <= c <= 'Z' || c == '.' || c == '-' || c == '+'
  }

  predicate IsWord(p: string) { p != [] && forall i :: 0 <= i < |p| ==> WordChar(p[i]) }

  predicate IsString(p: string)
  {
    |p| >= 2 && p[0] == '\"' && p[|p| - 1] == '\"' && StringBody(Inner(p))
  }

  predicate IsLiteral(p: string)
  {
    |p| >= 2 && p[0] == '\'' && p[|p| - 1] == '\'' && Free(Inner(p), '\'')
  }

  predicate IsAtom(p: string) { IsWord(p) || IsString(p) || IsLiteral(p) }

  /** What a printed argument reads as: the argument, or for binary strings what extraction makes of it. */
  function Survivor(arg: string, parsesAsDouble: string -> bool): string
  {
    if PrintedAsBinary(arg, parsesAsDouble) then Extract(BinaryEscape(arg)) else arg
  }

  predicate IsPlainWord(arg: string, parsesAsDouble: string -> bool)
  {
    arg != [] && (IsKeyword(arg) || IsNumber(arg, parsesAsDouble) || (|arg| > 1 && IsRadixNumber(arg)))
  }

  predicate PrintedAsBinary(arg: string, parsesAsDouble: string -> bool)
  {
    && arg != [] && !IsPlainWord(arg, parsesAsDouble)
    && if |arg| == 1 then !IsPrint(arg[0]) else !IsPrintable(arg)
  }

  lemma PlainWordIsWord(arg: string, parsesAsDouble: string -> bool)
    requires IsPlainWord(arg, parsesAsDouble)
    ensures IsWord(arg)
  {
    if |arg| > 1 && IsRadixNumber(arg) {
      assert forall i :: 2 <= i < |arg| ==> arg[i] == arg[2..][i - 2];
    }
  }

  lemma {:induction false} EscapeIsBody(s: string)
    ensures StringBody(Escape(s))
  {
    if s != [] {
      EscapeIsBody(s[1..]);
      var head, tail := EscapeChar(s[0]), Escape(s[1..]);
      assert (head + tail)[|head|..] == tail;
    }
  }

  lemma QuotedShape(quote: char, body: string)
    ensures Inner(Quoted(quote, body)) == body
    ensures quote == '\"' && StringBody(body) ==> IsString(Quoted(quote, body))
    ensures quote == '\'' && Free(body, quote) ==> IsLiteral(Quoted(quote, body))
  {}

  lemma NotBinary(body: string)
    ensures !IsBinaryEscaped(Quoted('\"', body))
  {}

  /** Binary strings are literals: no quote is left inside. */
  lemma BinaryIsLiteral(arg: string)
    requires !AllPrint(arg)
    ensures IsLiteral(BinaryEscape(arg)) && ProcessQuoted(BinaryEscape(arg)) == Some(Extract(BinaryEscape(arg)))
  {
    hide Hexed, CodedFrom, Unhex;
    HexedNotPlain(arg);
    var content := CodedFrom(0, Hexed(arg));
    CodedIsFree(0, Hexed(arg));
    var p := BinaryEscape(arg);
    assert p == Framed(content);
    assert Inner(p) == ['B', '\"', '('] + content + [')', '\"'];
  }

  lemma StringReads(arg: string)
    ensures IsString(Quoted('\"', Escape(arg))) && ProcessQuoted(Quoted('\"', Escape(arg))) == Some(arg)
  {
    hide StringBody, Escape, Unescape;
    EscapeIsBody(arg);
    QuotedShape('\"', Escape(arg));
    NotBinary(Escape(arg));
    UnescapeEscape(arg);
    if Free(Escape(arg), '\\') {
      UnescapePlainText(Escape(arg));
    }
  }

  lemma {:induction false} UnescapePlainText(s: string)
    requires Free(s, '\\')
    ensures Unescape(s) == Some(s)
  {
    if s != [] {
      UnescapePlainText(s[1..]);
      UnescapePlain(s[0], s[1..]);
      assert s == [s[0]] + s[1..];
    }
  }

  lemma SingleCharReads(c: char)
    requires IsPrint(c) && c != '\''
    ensures IsLiteral(Quoted('\'', [c])) && ProcessQuoted(Quoted('\'', [c])) == Some([c])
  {
    QuotedShape('\'', [c]);
  }

  lemma WordReads(p: string)
    requires IsWord(p)
    ensures ProcessQuoted(p) == Some(p)
  {}

  /** Each argument is printed as an atom that reads as its survivor. */
  lemma ArgReads(arg: string, parsesAsDouble: string -> bool, disableMultiLine: bool)
    requires disableMultiLine || !HasEscapable(arg) || |arg| <= 100 || PrintedAsBinary(arg, parsesAsDouble)
    ensures
      var p := ConvertArg(arg, parsesAsDouble, disableMultiLine);
      IsAtom(p) && ProcessQuoted(p) == Some(Survivor(arg, parsesAsDouble))
  {
    hide IsKeyword, IsNumber, IsRadixNumber, BinaryEscape, Escape, Unescape, StringBody, Extract, IsBinaryEscaped;
    if arg == [] {
      StringReads([]);
      EscapeIdentity([]);
    } else if IsPlainWord(arg, parsesAsDouble) {
      PlainWordIsWord(arg, parsesAsDouble);
      WordReads(arg);
    } else if PrintedAsBinary(arg, parsesAsDouble) {
      NonPrintableCharacter(arg);
      BinaryIsLiteral(arg);
    } else if |arg| == 1 && arg[0] != '\'' {
      SingleCharReads(arg[0]);
      assert arg == [arg[0]];
    } else {
      StringReads(arg);
      if !HasEscapable(arg) {
        EscapeIdentity(arg);
      }
    }
  }

  lemma NonPrintableCharacter(arg: string)
    requires arg != [] && if |arg| == 1 then !IsPrint(arg[0]) else !IsPrintable(arg)
    ensures !AllPrint(arg)
  {
    var i :| 0 <= i < |arg| && !IsPrint(arg[i]);
    assert arg[i] in arg;
  }

  // ----- splitting -----

  /** The delimiters that reading a value uses: array separator, comment sign, white space. */
  predicate IsPlainDelimiter(d: char) { d == ',' || d == '#' || d == '\0' }

  lemma {:induction false} WordLength(p: string, delimiter: char, rest: string)
    requires (p == [] || IsWord(p)) && IsPlainDelimiter(delimiter)
    requires rest == [] || IsDelimiter(rest[0], delimiter)
    ensures FindDelimiter(p + rest, delimiter) == |p|
  {
    if p == [] {
      assert p + rest == rest;
    } else {
      WordLength(p[1..], delimiter, rest);
      assert (p + rest)[1..] == p[1..] + rest;
    }
  }

  lemma QuotedEnd(p: string, rest: string)
    requires IsString(p) || IsLiteral(p)
    ensures SequenceEnd(p + rest, 0, Match(p[0])) == |p| - 1
  {
    hide StringEnd, StringBody, Find;
    var body := Inner(p);
    assert (p + rest)[1..] == body + ([p[0]] + rest);
    if p[0] == '\"' {
      StringEndOfBody(body, rest);
    } else {
      FindAfter(body, p[0], rest);
    }
  }

  lemma AtomLength(p: string, delimiter: char, rest: string)
    requires IsAtom(p) && IsPlainDelimiter(delimiter)
    requires rest == [] || IsDelimiter(rest[0], delimiter)
    ensures p + rest != [] && PieceLength(p + rest, delimiter) == |p|
  {
    hide FindDelimiter, SequenceEnd;
    assert (p + rest)[0] == p[0];
    if IsWord(p) {
      WordLength(p, delimiter, rest);
    } else {
      QuotedEnd(p, rest);
    }
  }

  /** An atom on its own is one piece for every delimiter used in reading. */
  lemma AtomIsOnePiece(p: string, delimiter: char)
    requires IsAtom(p) && IsPlainDelimiter(delimiter)
    ensures Split(p, delimiter) == [p]
  {
    hide PieceLength, StringBody, Trim;
    AtomLength(p, delimiter, []);
    assert p + [] == p && AfterPiece(p, |p|) == [] && p[..|p|] == p;
    AtomIsTight(p);
    TrimTight(p);
    TrimNothing();
    SplitNothing(delimiter);
  }

  lemma TrimNothing()
    ensures Trim([]) == []
  {}

  lemma AtomIsTight(p: string)
    requires IsAtom(p)
    ensures Tight(p) && p[0] != '['
  {}

  lemma SplitAtom(p: string, rest: string)
    requires IsAtom(p) && Tight(rest)
    ensures SplitTrimmed(p + (COMMA + rest), ',') == [p] + SplitTrimmed(rest, ',')
  {
    hide PieceLength, IsAtom, SplitTrimmed, Trim, Tight;
    var t := p + (COMMA + rest);
    AtomLength(p, ',', COMMA + rest);
    SplitStep([], t, ',');
    assert t[..|p|] == p && AfterPiece(t, |p|) == [' '] + rest;
    TrimTight(rest);
    assert [] + SplitTrimmed(t, ',') == SplitTrimmed(t, ',') && [] + [p] == [p];
  }

  function Converted(args: seq<string>, parsesAsDouble: string -> bool): (r: seq<string>)
    ensures |r| == |args|
  {
    if args == [] then [] else [ConvertArg(args[0], parsesAsDouble, true)] + Converted(args[1..], parsesAsDouble)
  }

  lemma {:induction false} SplitJoined(args: seq<string>, parsesAsDouble: string -> bool)
    requires args != []
    ensures Tight(JoinedFrom(args, parsesAsDouble))
    ensures SplitTrimmed(JoinedFrom(args, parsesAsDouble), ',') == Converted(args, parsesAsDouble)
  {
    hide ConvertArg, SplitTrimmed, IsAtom, Trim;
    var p := ConvertArg(args[0], parsesAsDouble, true);
    ArgReads(args[0], parsesAsDouble, true);
    AtomIsTight(p);
    if |args| == 1 {
      AtomIsOnePiece(p, ',');
      TrimTight(p);
      assert Converted(args, parsesAsDouble) == [p] + Converted(args[1..], parsesAsDouble) == [p];
    } else {
      SplitJoined(args[1..], parsesAsDouble);
      SplitAtom(p, JoinedFrom(args[1..], parsesAsDouble));
    }
  }

  // ----- the printed array as bracketed content -----

  function PlainContent(p: string, rest: Content): Content
  {
    if p == [] then rest else Plain(p[0], PlainContent(p[1..], rest))
  }

  function AtomContent(p: string, rest: Content): Content
  {
    if |p| >= 2 && p[0] == '\"' then Str(Inner(p), rest)
    else if |p| >= 2 && p[0] == '\'' then Lit(p[0], Inner(p), rest)
    else PlainContent(p, rest)
  }

  lemma {:induction false} PlainContentText(p: string, rest: Content, tail: string)
    requires forall i :: 0 <= i < |p| ==> p[i] != ']' && !IsBracket(p[i])
    requires WellFormed(rest, ']')
    ensures WellFormed(PlainContent(p, rest), ']') && Onto(PlainContent(p, rest), tail) == p + Onto(rest, tail)
  {
    if p != [] {
      PlainContentText(p[1..], rest, tail);
      assert p == [p[0]] + p[1..];
      AppendAssoc([p[0]], p[1..], Onto(rest, tail));
    }
  }

  lemma AtomContentText(p: string, rest: Content, tail: string)
    requires IsAtom(p) && WellFormed(rest, ']')
    ensures WellFormed(AtomContent(p, rest), ']') && Onto(AtomContent(p, rest), tail) == p + Onto(rest, tail)
  {
    hide PlainContent;
    if IsWord(p) {
      PlainContentText(p, rest, tail);
    } else {
      QuotedOnto(p[0], Inner(p), Onto(rest, tail));
      assert p == [p[0]] + (Inner(p) + [p[0]]);
      hide Onto;
    }
  }

  lemma QuotedOnto(quote: char, body: string, tail: string)
    ensures [quote] + (body + ([quote] + tail)) == [quote] + (body + [quote]) + tail
  {}

  function ArrayContent(pieces: seq<string>): Content
  {
    if pieces == [] then End
    else if |pieces| == 1 then AtomContent(pieces[0], End)
    else AtomContent(pieces[0], PlainContent(COMMA, ArrayContent(pieces[1..])))
  }

  lemma {:induction false} ArrayContentText(args: seq<string>, parsesAsDouble: string -> bool, tail: string)
    requires args != []
    ensures
      var w := ArrayContent(Converted(args, parsesAsDouble));
      WellFormed(w, ']') && Onto(w, tail) == JoinedFrom(args, parsesAsDouble) + tail
  {
    hide ConvertArg, IsAtom, AtomContent, PlainContent, WellFormed, Onto;
    var p := ConvertArg(args[0], parsesAsDouble, true);
    var pieces := Converted(args, parsesAsDouble);
    ArgReads(args[0], parsesAsDouble, true);
    assert pieces[0] == p && pieces[1..] == Converted(args[1..], parsesAsDouble);
    if |args| == 1 {
      EndText(tail);
      AtomContentText(p, End, tail);
    } else {
      var w := ArrayContent(pieces[1..]);
      ArrayContentText(args[1..], parsesAsDouble, tail);
      PlainContentText(COMMA, w, tail);
      AtomContentText(p, PlainContent(COMMA, w), tail);
      var rest := JoinedFrom(args[1..], parsesAsDouble);
      AppendAssoc(COMMA, rest, tail);
      AppendAssoc(p, COMMA + rest, tail);
    }
  }

  lemma EndText(tail: string)
    ensures WellFormed(End, ']') && Onto(End, tail) == tail
  {}

  /** `close_sequence` on a printed array lands on its last bracket. */
  lemma ArrayClosesAtEnd(args: seq<string>, parsesAsDouble: string -> bool)
    requires |args| >= 2
    ensures
      var text := Joined(args, parsesAsDouble);
      SequenceEnd(text, 0, ']') == |text| - 1
  {
    hide JoinedFrom, ArrayContent, WellFormed, Onto, ClosingOffset;
    var inner := JoinedFrom(args, parsesAsDouble);
    var text := Joined(args, parsesAsDouble);
    var w := ArrayContent(Converted(args, parsesAsDouble));
    ArrayContentText(args, parsesAsDouble, []);
    assert inner + [] == inner && text[1..] == inner + [']'];
    assert text[1..][..|inner|] == inner;
    ContentHasMatch(text[1..], ']', |inner|, w);
  }

  // ----- main theorem -----

  function Survivors(args: seq<string>, parsesAsDouble: string -> bool): (r: seq<string>)
    ensures |r| == |args|
  {
    if args == [] then [] else [Survivor(args[0], parsesAsDouble)] + Survivors(args[1..], parsesAsDouble)
  }

  lemma {:induction false} ProcessConverted(args: seq<string>, parsesAsDouble: string -> bool)
    ensures ProcessAll(Converted(args, parsesAsDouble)) == Some(Survivors(args, parsesAsDouble))
  {
    hide ConvertArg, IsAtom, Survivor, ProcessQuoted;
    if args != [] {
      ArgReads(args[0], parsesAsDouble, true);
      ProcessConverted(args[1..], parsesAsDouble);
      var pieces := Converted(args, parsesAsDouble);
      assert pieces[0] == ConvertArg(args[0], parsesAsDouble, true);
      assert pieces[1..] == Converted(args[1..], parsesAsDouble);
    }
  }

  lemma ArrayWithoutComment(args: seq<string>, parsesAsDouble: string -> bool)
    requires |args| >= 2
    ensures WithoutComment(Joined(args, parsesAsDouble)) == Joined(args, parsesAsDouble)
  {
    hide JoinedFrom, SequenceEnd, SplitTrimmed, Trim, FindDelimiter;
    var text := Joined(args, parsesAsDouble);
    ArrayClosesAtEnd(args, parsesAsDouble);
    TrimTight(text);
    SplitStep([], text, '#');
    assert PieceLength(text, '#') == |text| && text[..|text|] == text;
    assert ([] + SplitTrimmed(text, '#'))[0] == text;
  }

  lemma ReadArray(args: seq<string>, parsesAsDouble: string -> bool)
    requires |args| >= 2
    ensures ReadValue(Joined(args, parsesAsDouble)) == Some(Survivors(args, parsesAsDouble))
  {
    hide JoinedFrom, SplitTrimmed, Trim, ProcessAll, WithoutComment;
    var inner, text := JoinedFrom(args, parsesAsDouble), Joined(args, parsesAsDouble);
    ArrayWithoutComment(args, parsesAsDouble);
    assert text[1..|text| - 1] == inner;
    SplitJoined(args, parsesAsDouble);
    TrimTight(inner);
    ProcessConverted(args, parsesAsDouble);
  }

  lemma ReadSingle(arg: string, parsesAsDouble: string -> bool)
    requires !HasEscapable(arg) || |arg| <= 100 || PrintedAsBinary(arg, parsesAsDouble)
    ensures ReadValue(Joined([arg], parsesAsDouble)) == Some([Survivor(arg, parsesAsDouble)])
  {
    hide ConvertArg, IsAtom, Split, ProcessQuoted, Survivor, Trim, PrintedAsBinary;
    var p := ConvertArg(arg, parsesAsDouble, false);
    ArgReads(arg, parsesAsDouble, false);
    AtomIsTight(p);
    TrimTight(p);
    AtomIsOnePiece(p, '#');
    AtomIsOnePiece(p, ',');
    AtomIsOnePiece(p, '\0');
    assert [p][0] == p;
    assert WithoutComment(p) == p;
    assert Pieces(p) == [p];
    assert ProcessAll([p]) == Some([Survivor(arg, parsesAsDouble)]) by {
      assert [p][1..] == [] && ProcessAll([]) == Some([]);
      assert [Survivor(arg, parsesAsDouble)] + [] == [Survivor(arg, parsesAsDouble)];
    }
  }

  /** The argument alone on a line is not written as a multi-line literal. */
  predicate OnOneLine(args: seq<string>, parsesAsDouble: string -> bool)
  {
    |args| == 1 ==> !HasEscapable(args[0]) || |args[0]| <= 100 || PrintedAsBinary(args[0], parsesAsDouble)
  }

  /** Every list with at least one argument reads back, place by place, as the survivors of its arguments. */
  lemma PrintThenRead(args: seq<string>, parsesAsDouble: string -> bool)
    requires args != [] && OnOneLine(args, parsesAsDouble)
    ensures ReadValue(Joined(args, parsesAsDouble)) == Some(Survivors(args, parsesAsDouble))
  {
    hide ReadValue, Joined, Survivor;
    if |args| == 1 {
      assert args == [args[0]] && Survivors(args[1..], parsesAsDouble) == [];
      assert Survivors(args, parsesAsDouble) == [Survivor(args[0], parsesAsDouble)];
      ReadSingle(args[0], parsesAsDouble);
    } else {
      ReadArray(args, parsesAsDouble);
    }
  }

  /** Printing and reading are inverse for the argument at every place. */
  predicate ReadsBack(arg: string, parsesAsDouble: string -> bool)
  {
    PrintedAsBinary(arg, parsesAsDouble) ==> !HasCode(arg) && QuotesOutermost(arg)
  }

  lemma SurvivorIsArg(arg: string, parsesAsDouble: string -> bool)
    requires IsBytes(arg)
    ensures Survivor(arg, parsesAsDouble) == arg <==> ReadsBack(arg, parsesAsDouble)
  {
    hide BinaryEscape, Extract, HasCode;
    if PrintedAsBinary(arg, parsesAsDouble) {
      NonPrintableCharacter(arg);
      RoundTripIffQuotesOutermost(arg);
    }
  }

  lemma {:induction false} SurvivorsAreArgs(args: seq<string>, parsesAsDouble: string -> bool)
    requires forall i :: 0 <= i < |args| ==> IsBytes(args[i])
    ensures Survivors(args, parsesAsDouble) == args
            <==> forall i :: 0 <= i < |args| ==> ReadsBack(args[i], parsesAsDouble)
  {
    hide Survivor, ReadsBack;
    if args != [] {
      SurvivorIsArg(args[0], parsesAsDouble);
      SurvivorsAreArgs(args[1..], parsesAsDouble);
      var rest := args[1..];
      assert args == [args[0]] + rest && forall i :: 1 <= i < |args| ==> args[i] == rest[i - 1];
    }
  }

  /**
    The array round trip: a list of byte strings reads back as it was written if and only if no argument
    that needs binary escaping holds a literal code or has a single quote inside.
   */
  lemma RoundTrip(args: seq<string>, parsesAsDouble: string -> bool)
    requires args != [] && OnOneLine(args, parsesAsDouble)
    requires forall i :: 0 <= i < |args| ==> IsBytes(args[i])
    ensures ReadValue(Joined(args, parsesAsDouble)) == Some(args)
            <==> forall i :: 0 <= i < |args| ==> ReadsBack(args[i], parsesAsDouble)
  {
    hide ReadValue, Joined, Survivors, ReadsBack;
    PrintThenRead(args, parsesAsDouble);
    SurvivorsAreArgs(args, parsesAsDouble);
  }

  /** Scanning a quoted string stops at the quote that was added, and reading it returns the text. */
  lemma QuotedStringRoundTrip(s: string, rest: string)
    ensures
      var p := Quoted('\"', Escape(s));
      SequenceEnd(p + rest, 0, '\"') == |p| - 1 && ProcessQuoted(p) == Some(s)
  {
    hide Escape, ProcessQuoted, SequenceEnd, StringBody;
    StringReads(s);
    QuotedEnd(Quoted('\"', Escape(s)), rest);
  }
}
