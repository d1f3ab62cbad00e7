/**
  Values in configuration files: `split_up`, `process_quoted_string`, `convert_arg_for_ini`,
  `ini_join` and the choice `from_config` makes when it reads the text behind a `=`. Quote,
  bracket and separator characters are the defaults of `ConfigBase`.
 */
module IniText {
  import opened Text
  import opened Escapes
  import opened Brackets
  import opened BinaryText

  // ----- split_up -----

  /** The delimiter `'\0'` stands for any white space. */
  predicate IsDelimiter(c: char, delimiter: char) { if delimiter == '\0' then IsSpace(c) else c == delimiter }

  function FindDelimiter(t: string, delimiter: char): (i: nat)
    ensures i <= |t|
  {
    if t == [] || IsDelimiter(t[0], delimiter) then 0 else 1 + FindDelimiter(t[1..], delimiter)
  }

  /** Length of the first piece of a non-empty text. */
  function PieceLength(t: string, delimiter: char): (n: nat)
    requires t != []
    ensures n <= |t|
  {
    if IsBracket(t[0]) then Min(SequenceEnd(t, 0, Match(t[0])) + 1, |t|) else FindDelimiter(t, delimiter)
  }

  /** One character behind the piece is dropped, whatever it is. */
  function AfterPiece(t: string, n: nat): string
    requires n <= |t|
  {
    if n + 1 < |t| then t[n + 1..] else []
  }

  function SplitTrimmed(t: string, delimiter: char): seq<string>
    decreases |t|
  {
    if t == [] then []
    else
      var n := PieceLength(t, delimiter);
      [t[..n]] + SplitTrimmed(Trim(AfterPiece(t, n)), delimiter)
  }

  function Split(s: string, delimiter: char): seq<string> { SplitTrimmed(Trim(s), delimiter) }

  method ScanToDelimiter(str: string, delimiter: char) returns (it: nat)
    ensures it == FindDelimiter(str, delimiter)
  {
    it := 0;
    while it < |str| && !IsDelimiter(str[it], delimiter)
      invariant it <= |str|
      invariant FindDelimiter(str, delimiter) == it + FindDelimiter(str[it..], delimiter)
    {
      assert str[it..][1..] == str[it + 1..];
      it := it + 1;
    }
  }

  method TakePiece(str: string, delimiter: char) returns (piece: string, rest: string)
    requires str != []
    ensures piece == str[..PieceLength(str, delimiter)]
    ensures rest == AfterPiece(str, PieceLength(str, delimiter))
  {
    hide FindDelimiter, SequenceEnd;
    if IsBracket(str[0]) {
      var end := CloseSequence(str, 0, Match(str[0]));
      if end >= |str| {
        piece, rest := str, [];
      } else {
        piece := str[..end + 1];
        rest := if end + 2 < |str| then str[end + 2..] else [];
      }
    } else {
      var it := ScanToDelimiter(str, delimiter);
      if it < |str| {
        piece, rest := str[..it], str[it + 1..];
      } else {
        piece, rest := str, [];
      }
    }
  }

  method SplitUp(text: string, delimiter: char) returns (output: seq<string>)
    ensures output == Split(text, delimiter)
  {
    hide SplitTrimmed, PieceLength, Trim;
    output := [];
    var str := Trim(text);
    while str != []
      invariant output + SplitTrimmed(str, delimiter) == Split(text, delimiter)
      decreases |str|
    {
      var piece, rest := TakePiece(str, delimiter);
      SplitStep(output, str, delimiter);
      output := output + [piece];
      str := Trim(rest);
    }
    SplitNothing(delimiter);
    assert output + [] == output;
  }

  lemma SplitNothing(delimiter: char)
    ensures SplitTrimmed([], delimiter) == []
  {}

  lemma SplitStep(output: seq<string>, t: string, delimiter: char)
    requires t != []
    ensures
      var n := PieceLength(t, delimiter);
      && |Trim(AfterPiece(t, n))| < |t|
      && output + SplitTrimmed(t, delimiter) == output + [t[..n]] + SplitTrimmed(Trim(AfterPiece(t, n)), delimiter)
  {
    hide PieceLength, Trim;
    var n := PieceLength(t, delimiter);
    var rest := SplitTrimmed(Trim(AfterPiece(t, n)), delimiter);
    assert output + ([t[..n]] + rest) == output + [t[..n]] + rest;
  }

  // ----- process_quoted_string -----

  function Inner(s: string): string
    requires |s| >= 2
  {
    s[1..|s| - 1]
  }

  /** The new value of the string; `None` where an invalid escape throws. */
  function ProcessQuoted(s: string): Option<string>
  {
    if |s| <= 1 then Some(s)
    else if IsBinaryEscaped(s) then Some(Extract(s))
    else if s[0] == '\"' && s[|s| - 1] == '\"' then
      if Free(Inner(s), '\\') then Some(Inner(s)) else Unescape(Inner(s))
    else if IsLiteralQuote(s[0]) && s[|s| - 1] == s[0] then Some(Inner(s))
    else Some(s)
  }

  // ----- convert_arg_for_ini -----

  predicate IsPrintable(s: string) { forall i :: 0 <= i < |s| ==> IsPrint(s[i]) || s[i] == '\n' || s[i] == '\t' }

  predicate NumberChar(c: char) { '0' <= c <= '9' || c == '.' || c == '-' || c == '+' || c == 'e' || c == 'E' }

  predicate All(s: string, p: char -> bool) { forall i :: 0 <= i < |s| ==> p(s[i]) }

  /** Hexadecimal, octal or binary digits behind their prefix. */
  predicate IsRadixNumber(s: string)
  {
    && |s| >= 2 && s[0] == '0'
    && (|| (s[1] == 'x' && All(s[2..], IsHex))
        || (s[1] == 'o' && All(s[2..], c => '0' <= c <= '7'))
        || (s[1] == 'b' && All(s[2..], c => c == '0' || c == '1')))
  }

  /** A text that parses as a floating point number; hexadecimal forms are not tried. */
  predicate IsNumber(s: string, parsesAsDouble: string -> bool)
  {
    !(|s| >= 2 && s[0] == '0' && (s[1] == 'x' || s[1] == 'X')) && parsesAsDouble(s) && All(s, NumberChar)
  }

  predicate IsKeyword(s: string) { s == "true" || s == "false" || s == "nan" || s == "inf" }

  const TRIPLE := ['\'', '\'', '\'']

  function Quoted(quote: char, body: string): string { [quote] + body + [quote] }

  function ConvertArg(arg: string, parsesAsDouble: string -> bool, disableMultiLine: bool): string
  {
    if arg == [] then Quoted('\"', [])
    else if IsKeyword(arg) then arg
    else if IsNumber(arg, parsesAsDouble) then arg
    else if |arg| == 1 then
      if !IsPrint(arg[0]) then BinaryEscape(arg)
      else if arg[0] == '\'' then Quoted('\"', arg)
      else Quoted('\'', arg)
    else if IsRadixNumber(arg) then arg
    else if !IsPrintable(arg) then BinaryEscape(arg)
    else if HasEscapable(arg) then
      if |arg| > 100 && !disableMultiLine then TRIPLE + arg + TRIPLE else Quoted('\"', Escape(arg))
    else Quoted('\"', arg)
  }

  // ----- ini_join -----

  const COMMA := [',', ' ']

  function JoinedFrom(args: seq<string>, parsesAsDouble: string -> bool): string
  {
    if args == [] then []
    else if |args| == 1 then ConvertArg(args[0], parsesAsDouble, true)
    else ConvertArg(args[0], parsesAsDouble, true) + (COMMA + JoinedFrom(args[1..], parsesAsDouble))
  }

  function Joined(args: seq<string>, parsesAsDouble: string -> bool): string
  {
    if args == [] then []
    else if |args| == 1 then ConvertArg(args[0], parsesAsDouble, false)
    else ['['] + JoinedFrom(args, parsesAsDouble) + [']']
  }

  method IniJoin(args: seq<string>, parsesAsDouble: string -> bool) returns (joined: string)
    ensures joined == Joined(args, parsesAsDouble)
  {
    hide ConvertArg, JoinedFrom, Remaining;
    joined := [];
    var disableMultiLine := |args| > 1;
    if disableMultiLine {
      joined := ['['];
    }
    ghost var whole := joined + JoinedFrom(args, parsesAsDouble);
    RemainingEnds(args, parsesAsDouble);
    for i := 0 to |args|
      invariant |args| > 1 ==> joined + Remaining(args, i, parsesAsDouble) == whole
      invariant |args| <= 1 ==> joined == if i == 0 then [] else ConvertArg(args[0], parsesAsDouble, false)
    {
      if |args| > 1 {
        RemainingStep(joined, args, i, parsesAsDouble);
      }
      joined := joined + (if i == 0 then [] else COMMA);
      joined := joined + ConvertArg(args[i], parsesAsDouble, disableMultiLine);
    }
    assert joined + [] == joined;
    if |args| > 1 {
      joined := joined + [']'];
    }
  }

  lemma RemainingEnds(args: seq<string>, parsesAsDouble: string -> bool)
    ensures |args| > 1 ==> Remaining(args, 0, parsesAsDouble) == JoinedFrom(args, parsesAsDouble)
    ensures Remaining(args, |args|, parsesAsDouble) == []
  {
    hide ConvertArg, JoinedFrom;
    assert args[0..] == args && [] + JoinedFrom(args, parsesAsDouble) == JoinedFrom(args, parsesAsDouble);
  }

  /** What the loop has still to append before argument `i`. */
  ghost function Remaining(args: seq<string>, i: nat, parsesAsDouble: string -> bool): string
    requires i <= |args|
  {
    if i == |args| then []
    else (if i == 0 then [] else COMMA) + JoinedFrom(args[i..], parsesAsDouble)
  }

  lemma RemainingStep(joined: string, args: seq<string>, i: nat, parsesAsDouble: string -> bool)
    requires i < |args|
    ensures
      joined + Remaining(args, i, parsesAsDouble) ==
      joined + (if i == 0 then [] else COMMA) + ConvertArg(args[i], parsesAsDouble, true)
      + Remaining(args, i + 1, parsesAsDouble)
  {
    hide ConvertArg;
    var lead, piece := if i == 0 then [] else COMMA, ConvertArg(args[i], parsesAsDouble, true);
    var next := Remaining(args, i + 1, parsesAsDouble);
    assert args[i..][1..] == args[i + 1..];
    assert JoinedFrom(args[i..], parsesAsDouble) == piece + next by {
      assert piece + [] == piece;
    }
    hide JoinedFrom, Remaining;
    AppendAssoc(lead, piece, next);
    AppendAssoc(joined, lead, piece + next);
    AppendAssoc(joined + lead, piece, next);
  }

  // ----- reading a value -----

  function ProcessAll(pieces: seq<string>): Option<seq<string>>
  {
    if pieces == [] then Some([])
    else
      match (ProcessQuoted(pieces[0]), ProcessAll(pieces[1..]))
      case (Some(p), Some(ps)) => Some([p] + ps)
      case _ => None
  }

  /** The text behind `=` without a comment. */
  function WithoutComment(item: string): string
  {
    if Free(item, '#') then item
    else
      var pieces := Split(item, '#');
      if pieces == [] then [] else Trim(pieces[0])
  }

  function Pieces(item: string): seq<string>
  {
    if |item| > 1 && item[0] == '[' then
      if item[|item| - 1] == ']' then Split(item[1..|item| - 1], ',') else Split(item[1..], ',')
    else if !Free(item, ',') then Split(item, ',')
    else if !Free(item, ' ') then Split(item, '\0')
    else [item]
  }

  /** What a value line yields, for a value on one line; `None` where an invalid escape throws. */
  function ReadValue(item: string): Option<seq<string>> { ProcessAll(Pieces(WithoutComment(item))) }
}
