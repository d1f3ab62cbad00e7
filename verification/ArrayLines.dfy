/**
  Arrays over several lines: a value that starts with `[` goes on, line by line, until it ends with `]`.
 */
module ArrayLines {
  import opened Text
  import opened Brackets
  import opened IniText
  import opened IniRoundTrip

  predicate Unclosed(item: string) { item == [] || item[|item| - 1] != ']' }

  /** The item with the trimmed lines that follow it, up to the first that ends with `]`. */
  function Gather(item: string, lines: seq<string>): string
    decreases lines
  {
    if Unclosed(item) && lines != [] then Gather(item + Trim(lines[0]), lines[1..]) else item
  }

  method GatherLines(text: string, lines: seq<string>) returns (item: string)
    ensures item == Gather(text, lines)
  {
    hide Trim;
    item := text;
    var i := 0;
    assert lines[0..] == lines;
    while Unclosed(item) && i < |lines|
      invariant i <= |lines| && Gather(text, lines) == Gather(item, lines[i..])
    {
      assert lines[i..][1..] == lines[i + 1..];
      item := item + Trim(lines[i]);
      i := i + 1;
    }
  }

  /** What the text behind `=` and the lines that follow yield, for a value without triple quotes. */
  function ReadItem(item: string, following: seq<string>): Option<seq<string>>
  {
    var value := WithoutComment(item);
    ProcessAll(Pieces(if |value| > 1 && value[0] == '[' then Gather(value, following) else value))
  }

  // ----- a printed array, one argument on a line -----

  /** The printed arguments, each but the last with a comma, and the last with the bracket. */
  function ArrayLinesOf(args: seq<string>, parsesAsDouble: string -> bool, indent: string): seq<string>
    requires args != []
  {
    var p := ConvertArg(args[0], parsesAsDouble, true);
    if |args| == 1 then [indent + p + [']']]
    else [indent + p + [',']] + ArrayLinesOf(args[1..], parsesAsDouble, indent)
  }

  function CommaFrom(args: seq<string>, parsesAsDouble: string -> bool): string
    requires args != []
  {
    var p := ConvertArg(args[0], parsesAsDouble, true);
    if |args| == 1 then p else p + ([','] + CommaFrom(args[1..], parsesAsDouble))
  }

  lemma LineTrimmed(indent: string, p: string, c: char)
    requires Blank(indent) && Tight(p) && !IsSpace(c)
    ensures Trim(indent + p + [c]) == p + [c]
  {
    assert indent + p + [c] == indent + (p + [c]);
    LTrimBlank(indent, p + [c]);
  }

  lemma {:induction false} GatherArray(
    item: string, args: seq<string>, parsesAsDouble: string -> bool, indent: string, after: seq<string>)
    requires args != [] && Blank(indent) && Unclosed(item)
    ensures Gather(item, ArrayLinesOf(args, parsesAsDouble, indent) + after)
            == item + CommaFrom(args, parsesAsDouble) + [']']
    decreases |args|
  {
    hide ConvertArg, IsAtom, Trim;
    var p := ConvertArg(args[0], parsesAsDouble, true);
    var lines := ArrayLinesOf(args, parsesAsDouble, indent) + after;
    ArgReads(args[0], parsesAsDouble, true);
    AtomIsTight(p);
    if |args| == 1 {
      LineTrimmed(indent, p, ']');
      assert lines[0] == indent + p + [']'];
      assert item + (p + [']']) == item + p + [']'];
    } else {
      LineTrimmed(indent, p, ',');
      var rest := ArrayLinesOf(args[1..], parsesAsDouble, indent);
      assert lines[0] == indent + p + [','] && lines[1..] == rest + after;
      hide ArrayLinesOf, Tight;
      GatherArray(item + (p + [',']), args[1..], parsesAsDouble, indent, after);
      CommaAssoc(item, p, CommaFrom(args[1..], parsesAsDouble));
    }
  }

  lemma CommaAssoc(item: string, p: string, rest: string)
    ensures item + (p + [',']) + rest == item + (p + ([','] + rest))
  {}

  lemma SplitCommaAtom(p: string, rest: string)
    requires IsAtom(p) && Tight(rest)
    ensures SplitTrimmed(p + ([','] + rest), ',') == [p] + SplitTrimmed(rest, ',')
  {
    hide PieceLength, IsAtom, SplitTrimmed, Trim, Tight;
    var t := p + ([','] + rest);
    AtomLength(p, ',', [','] + rest);
    SplitStep([], t, ',');
    assert t[..|p|] == p && AfterPiece(t, |p|) == rest;
    TrimTight(rest);
    assert [] + SplitTrimmed(t, ',') == SplitTrimmed(t, ',') && [] + [p] == [p];
  }

  lemma {:induction false} SplitCommas(args: seq<string>, parsesAsDouble: string -> bool)
    requires args != []
    ensures Tight(CommaFrom(args, parsesAsDouble))
    ensures SplitTrimmed(CommaFrom(args, parsesAsDouble), ',') == Converted(args, parsesAsDouble)
  {
    hide ConvertArg, SplitTrimmed, IsAtom, Trim;
    var p := ConvertArg(args[0], parsesAsDouble, true);
    ArgReads(args[0], parsesAsDouble, true);
    AtomIsTight(p);
    if |args| == 1 {
      AtomIsOnePiece(p, ',');
      TrimTight(p);
      assert Converted(args, parsesAsDouble) == [p] + Converted(args[1..], parsesAsDouble) == [p];
    } else {
      SplitCommas(args[1..], parsesAsDouble);
      SplitCommaAtom(p, CommaFrom(args[1..], parsesAsDouble));
    }
  }

  /**
    An array opened on the first line, with one printed argument on each of the indented lines that
    follow, reads like the array on one line. It needs one character behind the bracket, or it is no array.
   */
  lemma ArrayOverLines(
    args: seq<string>, parsesAsDouble: string -> bool, indent: string, after: seq<string>, first: string)
    requires args != [] && Blank(indent)
    requires Free(ConvertArg(first, parsesAsDouble, true), '#')
    ensures
      ReadItem(['['] + ConvertArg(first, parsesAsDouble, true) + [','], ArrayLinesOf(args, parsesAsDouble, indent) + after)
      == Some(Survivors([first] + args, parsesAsDouble))
  {
    hide ConvertArg, IsAtom, Trim, SplitTrimmed, Gather, ProcessAll;
    var p := ConvertArg(first, parsesAsDouble, true);
    var item, all := ['['] + p + [','], [first] + args;
    assert all[1..] == args;
    assert Free(item, '#');
    GatherArray(item, args, parsesAsDouble, indent, after);
    var inner := CommaFrom(all, parsesAsDouble);
    var text := item + CommaFrom(args, parsesAsDouble) + [']'];
    assert text == ['['] + inner + [']'];
    assert text[1..|text| - 1] == inner;
    SplitCommas(all, parsesAsDouble);
    TrimTight(inner);
    ProcessConverted(all, parsesAsDouble);
  }
}
