/**
  Comments behind a value, and lists without brackets. A `#` ends a value unless it stands inside the
  quotes or brackets the value starts with.
 */
module Comments {
  import opened Text
  import opened Brackets
  import opened BinaryText
  import opened IniText
  import opened IniRoundTrip

  /** A piece that starts with a quote or bracket and ends with the one that closes it. */
  ghost predicate Enclosed(p: string)
  {
    |p| >= 2 &&
    var open, close := p[0], p[|p| - 1];
    || (open == '\"' && close == '\"' && StringBody(Inner(p)))
    || ((open == '\'' || open == '`') && close == open && Free(Inner(p), open))
    || (Pair(open, close) && exists w :: WellFormed(w, close) && Render(w) == Inner(p))
  }

  /** Cutting takes an enclosed piece as a whole, whatever follows and whatever the delimiter. */
  lemma EnclosedPiece(p: string, rest: string, delimiter: char)
    requires Enclosed(p)
    ensures p + rest != [] && PieceLength(p + rest, delimiter) == |p|
  {
    hide SequenceEnd, StringBody, WellFormed, Render;
    var str, r := p + rest, |p| - 1;
    assert str[0] == p[0] && str[r] == p[r] && str[1..r] == Inner(p);
    if p[0] == '\"' {
      StringQuoteMatching(str, 0, r);
    } else if p[0] == '\'' || p[0] == '`' {
      LiteralQuoteMatching(str, 0, p[0], r);
    } else {
      BracketMatching(str, 0, p[r], r);
      PairIsMatch(p[0], p[r]);
    }
  }

  // ----- trimming -----

  lemma {:induction false} RTrimBehind(p: string, rest: string)
    requires p != [] && !IsSpace(p[|p| - 1])
    ensures RTrim(p + rest) == p + RTrim(rest)
    decreases |rest|
  {
    if rest == [] {
      assert p + [] == p;
    } else if IsSpace(rest[|rest| - 1]) {
      RTrimBehind(p, rest[..|rest| - 1]);
      assert (p + rest)[..|p + rest| - 1] == p + rest[..|rest| - 1];
    }
  }

  lemma TrimBehind(p: string, rest: string)
    requires Tight(p)
    ensures Trim(p + rest) == p + RTrim(rest)
  {
    RTrimBehind(p, rest);
    assert (p + rest)[0] == p[0];
  }

  lemma {:induction false} RTrimBlank(w: string)
    requires Blank(w)
    ensures RTrim(w) == []
    decreases |w|
  {
    if w != [] {
      RTrimBlank(w[..|w| - 1]);
    }
  }

  // ----- one value -----

  lemma FirstPiece(t: string, n: nat, delimiter: char)
    requires t != [] && n == PieceLength(t, delimiter)
    ensures SplitTrimmed(t, delimiter) != [] && SplitTrimmed(t, delimiter)[0] == t[..n]
  {
    hide PieceLength;
  }

  /** Nothing behind an enclosed value counts once the text holds a `#` anywhere. */
  lemma EnclosedValue(p: string, rest: string)
    requires Enclosed(p)
    ensures WithoutComment(p + rest) == if Free(p + rest, '#') then p + rest else p
  {
    hide Enclosed, PieceLength, SplitTrimmed, Trim;
    assert Tight(p) by { EnclosedIsTight(p); }
    TrimBehind(p, rest);
    EnclosedPiece(p, RTrim(rest), '#');
    FirstPiece(p + RTrim(rest), |p|, '#');
    assert (p + RTrim(rest))[..|p|] == p;
    TrimTight(p);
  }

  lemma EnclosedIsTight(p: string)
    requires Enclosed(p)
    ensures Tight(p)
  {}

  lemma {:induction false} DelimiterBehind(t: string, d: char, rest: string)
    requires Free(t, d) && d != '\0'
    ensures FindDelimiter(t + ([d] + rest), d) == |t|
  {
    if t != [] {
      DelimiterBehind(t[1..], d, rest);
      assert (t + ([d] + rest))[1..] == t[1..] + ([d] + rest);
    }
  }

  /** A value that starts with no quote or bracket ends at the first `#`. */
  lemma PlainValue(t: string, c: string)
    requires Free(t, '#') && (t == [] || (!IsSpace(t[0]) && PlainChar(t[0])))
    ensures WithoutComment(t + ['#'] + c) == Trim(t)
  {
    hide SplitTrimmed, Trim, FindDelimiter;
    var head, s := t + ['#'], t + (['#'] + RTrim(c));
    TrimBehind(head, c);
    assert head + RTrim(c) == s;
    DelimiterBehind(t, '#', RTrim(c));
    FirstPiece(s, |t|, '#');
    assert s[..|t|] == t;
    assert (head + c)[|t|] == '#';
  }

  // ----- printed lists -----

  lemma ArrayIsEnclosed(args: seq<string>, parsesAsDouble: string -> bool)
    requires |args| >= 2
    ensures Enclosed(Joined(args, parsesAsDouble))
  {
    hide JoinedFrom, ArrayContent, WellFormed, Onto;
    var inner, text := JoinedFrom(args, parsesAsDouble), Joined(args, parsesAsDouble);
    var w := ArrayContent(Converted(args, parsesAsDouble));
    ArrayContentText(args, parsesAsDouble, []);
    assert inner + [] == inner && Inner(text) == inner;
  }

  lemma AtomWithComment(p: string, w: string, c: string)
    requires IsAtom(p) && Blank(w)
    ensures WithoutComment(p + w + ['#'] + c) == p && WithoutComment(p) == p
  {
    hide WithoutComment, StringBody, Trim;
    if IsWord(p) {
      PlainValue(p + w, c);
      AtomIsTight(p);
      RTrimBlank(w);
      TrimBehind(p, w);
      assert p + [] == p;
      WordHasNoComment(p);
    } else {
      assert Enclosed(p);
      EnclosedValue(p, w + ['#'] + c);
      assert p + (w + ['#'] + c) == p + w + ['#'] + c;
      assert (p + w + ['#'] + c)[|p| + |w|] == '#';
      EnclosedValue(p, []);
      assert p + [] == p;
    }
  }

  lemma WordHasNoComment(p: string)
    requires IsWord(p)
    ensures WithoutComment(p) == p
  {}

  lemma CommentBehindJoined(args: seq<string>, parsesAsDouble: string -> bool, w: string, c: string)
    requires OnOneLine(args, parsesAsDouble) && Blank(w)
    ensures WithoutComment(Joined(args, parsesAsDouble) + w + ['#'] + c) == WithoutComment(Joined(args, parsesAsDouble))
  {
    hide WithoutComment, ConvertArg, JoinedFrom, IsAtom, Enclosed;
    var text := Joined(args, parsesAsDouble);
    if args == [] {
      BlankBeforeComment(w, c);
      assert text + w == w;
    } else if |args| == 1 {
      ArgReads(args[0], parsesAsDouble, false);
      AtomWithComment(text, w, c);
    } else {
      ArrayIsEnclosed(args, parsesAsDouble);
      EnclosedValue(text, w + ['#'] + c);
      assert text + (w + ['#'] + c) == text + w + ['#'] + c;
      assert (text + w + ['#'] + c)[|text| + |w|] == '#';
      EnclosedValue(text, []);
      assert text + [] == text;
    }
  }

  /** Only a comment: the value is empty. */
  lemma BlankBeforeComment(w: string, c: string)
    requires Blank(w)
    ensures WithoutComment(w + ['#'] + c) == WithoutComment([]) == []
    decreases |w|
  {
    hide SplitTrimmed, FindDelimiter, RTrim;
    assert (w + ['#'] + c)[|w|] == '#';
    LTrimBlank(w, ['#'] + c);
    assert w + (['#'] + c) == w + ['#'] + c;
    RTrimBehind(['#'], c);
    var s := ['#'] + RTrim(c);
    DelimiterBehind([], '#', RTrim(c));
    assert [] + s == s;
    FirstPiece(s, 0, '#');
    assert s[..0] == [];
    TrimNothing();
  }

  /** A comment behind a printed value, with or without blanks before it, changes nothing. */
  lemma CommentIgnored(args: seq<string>, parsesAsDouble: string -> bool, w: string, c: string)
    requires OnOneLine(args, parsesAsDouble) && Blank(w)
    ensures ReadValue(Joined(args, parsesAsDouble) + w + ['#'] + c) == ReadValue(Joined(args, parsesAsDouble))
  {
    hide WithoutComment, Joined, IniText.Pieces, ProcessAll;
    CommentBehindJoined(args, parsesAsDouble, w, c);
  }

  // ----- lists without brackets -----

  /** The printed arguments with the same gap between them. */
  function SpacedFrom(args: seq<string>, parsesAsDouble: string -> bool, gap: string): string
  {
    if args == [] then []
    else if |args| == 1 then ConvertArg(args[0], parsesAsDouble, true)
    else ConvertArg(args[0], parsesAsDouble, true) + (gap + SpacedFrom(args[1..], parsesAsDouble, gap))
  }

  lemma {:induction false} SplitSpaced(args: seq<string>, parsesAsDouble: string -> bool, gap: string)
    requires args != [] && gap != [] && Blank(gap)
    ensures Tight(SpacedFrom(args, parsesAsDouble, gap)) && SpacedFrom(args, parsesAsDouble, gap)[0] != '['
    ensures SplitTrimmed(SpacedFrom(args, parsesAsDouble, gap), '\0') == Converted(args, parsesAsDouble)
  {
    hide ConvertArg, SplitTrimmed, IsAtom, Trim;
    var p := ConvertArg(args[0], parsesAsDouble, true);
    ArgReads(args[0], parsesAsDouble, true);
    AtomIsTight(p);
    if |args| == 1 {
      AtomIsOnePiece(p, '\0');
      TrimTight(p);
      assert Converted(args, parsesAsDouble) == [p] + Converted(args[1..], parsesAsDouble) == [p];
    } else {
      SplitSpaced(args[1..], parsesAsDouble, gap);
      SpacedAtom(p, gap, SpacedFrom(args[1..], parsesAsDouble, gap));
    }
  }

  lemma SpacedAtom(p: string, gap: string, rest: string)
    requires IsAtom(p) && gap != [] && Blank(gap) && Tight(rest)
    ensures SplitTrimmed(p + (gap + rest), '\0') == [p] + SplitTrimmed(rest, '\0')
  {
    hide PieceLength, IsAtom, SplitTrimmed, Trim;
    var t := p + (gap + rest);
    AtomLength(p, '\0', gap + rest);
    SplitStep([], t, '\0');
    assert t[..|p|] == p && AfterPiece(t, |p|) == gap[1..] + rest;
    TrimGap(gap[1..], rest);
    assert [] + SplitTrimmed(t, '\0') == SplitTrimmed(t, '\0') && [] + [p] == [p];
  }

  lemma TrimGap(gap: string, rest: string)
    requires Blank(gap) && Tight(rest)
    ensures Trim(gap + rest) == rest
  {
    LTrimBlank(gap, rest);
  }

  lemma JoinedStart(args: seq<string>, parsesAsDouble: string -> bool)
    requires |args| >= 2
    ensures
      var text := JoinedFrom(args, parsesAsDouble);
      text != [] && text[0] != '[' && !Free(text, ',')
  {
    hide ConvertArg;
    var p := ConvertArg(args[0], parsesAsDouble, true);
    ArgReads(args[0], parsesAsDouble, true);
    AtomIsTight(p);
    assert JoinedFrom(args, parsesAsDouble)[|p|] == ',';
  }

  /** A printed list without its brackets reads the same, if no comment sign stands in it. */
  lemma CommaListReads(args: seq<string>, parsesAsDouble: string -> bool)
    requires |args| >= 2 && Free(JoinedFrom(args, parsesAsDouble), '#')
    ensures ReadValue(JoinedFrom(args, parsesAsDouble)) == Some(Survivors(args, parsesAsDouble))
  {
    hide JoinedFrom, SplitTrimmed, Trim, ProcessAll;
    JoinedStart(args, parsesAsDouble);
    SplitJoined(args, parsesAsDouble);
    TrimTight(JoinedFrom(args, parsesAsDouble));
    ProcessConverted(args, parsesAsDouble);
  }

  /** White space separates as well where no comma stands, if a blank is among it. */
  lemma BlankListReads(args: seq<string>, parsesAsDouble: string -> bool, gap: string)
    requires |args| >= 2 && Blank(gap) && ' ' in gap
    requires Free(SpacedFrom(args, parsesAsDouble, gap), '#') && Free(SpacedFrom(args, parsesAsDouble, gap), ',')
    ensures ReadValue(SpacedFrom(args, parsesAsDouble, gap)) == Some(Survivors(args, parsesAsDouble))
  {
    var text := SpacedFrom(args, parsesAsDouble, gap);
    assert !Free(text, ' ') by {
      hide ConvertArg;
      var i :| 0 <= i < |gap| && gap[i] == ' ';
      assert text[|ConvertArg(args[0], parsesAsDouble, true)| + i] == ' ';
    }
    hide SpacedFrom, SplitTrimmed, Trim, ProcessAll;
    SplitSpaced(args, parsesAsDouble, gap);
    TrimTight(text);
    ProcessConverted(args, parsesAsDouble);
  }

  /** A list that opens a bracket reads the same with and without the bracket that closes it. */
  lemma OpenListReads(args: seq<string>, parsesAsDouble: string -> bool)
    requires args != [] && Free(JoinedFrom(args, parsesAsDouble), '#')
    ensures
      var text := ['['] + JoinedFrom(args, parsesAsDouble);
      ReadValue(text) == ReadValue(text + [']']) == Some(Survivors(args, parsesAsDouble))
  {
    hide JoinedFrom, SplitTrimmed, Trim, ProcessAll;
    var inner := JoinedFrom(args, parsesAsDouble);
    JoinedEnd(args, parsesAsDouble);
    SplitJoined(args, parsesAsDouble);
    TrimTight(inner);
    ProcessConverted(args, parsesAsDouble);
    OpenPieces(inner);
  }

  lemma OpenPieces(inner: string)
    requires inner != [] && inner[|inner| - 1] != ']' && Free(inner, '#')
    ensures
      var text := ['['] + inner;
      && WithoutComment(text) == text && IniText.Pieces(text) == Split(inner, ',')
      && WithoutComment(text + [']']) == text + [']'] && IniText.Pieces(text + [']']) == Split(inner, ',')
  {
    hide SplitTrimmed, Trim;
    var text := ['['] + inner;
    assert text[1..] == inner && (text + [']'])[1..|text|] == inner;
  }

  lemma {:induction false} JoinedEnd(args: seq<string>, parsesAsDouble: string -> bool)
    requires args != []
    ensures
      var text := JoinedFrom(args, parsesAsDouble);
      text != [] && text[|text| - 1] != ']'
  {
    hide ConvertArg;
    ArgReads(args[0], parsesAsDouble, true);
    if |args| > 1 {
      JoinedEnd(args[1..], parsesAsDouble);
    }
  }
}
