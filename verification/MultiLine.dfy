/**
  Multi-line literals. `convert_arg_for_ini` prints a single long argument with escapable characters
  between triple quotes; `from_config` then reads on line by line. The text comes back exactly when
  it has the right shape, which is characterised here.
 */
module MultiLine {
  import opened Text
  import opened Escapes
  import opened IniText

  // ----- lines -----

  /** The lines of a text, as `std::getline` delivers them. */
  function Lines(s: string): (r: seq<string>)
    ensures r != []
  {
    var i := Find(s, '\n');
    if i == |s| then [s] else [s[..i]] + Lines(s[i + 1..])
  }

  function Unlines(lines: seq<string>): string
    requires lines != []
  {
    if |lines| == 1 then lines[0] else lines[0] + (['\n'] + Unlines(lines[1..]))
  }

  lemma {:induction false} UnlinesLines(s: string)
    ensures Unlines(Lines(s)) == s
    ensures forall k :: 0 <= k < |Lines(s)| ==> Free(Lines(s)[k], '\n')
  {
    var i := Find(s, '\n');
    if i < |s| {
      UnlinesLines(s[i + 1..]);
      assert ([s[..i]] + Lines(s[i + 1..]))[1..] == Lines(s[i + 1..]);
      assert s == s[..i] + (['\n'] + s[i + 1..]);
    }
  }

  // ----- reading -----

  predicate EndsInTriple(line: string, quote: char)
  {
    |line| >= 3 && line[|line| - 3..] == [quote, quote, quote]
  }

  predicate Continued(line: string) { line != [] && line[|line| - 1] == '\\' }

  /** Without the backslash that joins a line to the next one. */
  function Uncontinued(line: string): string { if Continued(line) then line[..|line| - 1] else line }

  /** A line break is added unless the line continues the last one or nothing has been read yet. */
  function Break(item: string, continued: bool, first: bool): string
  {
    if continued || (first && item == []) then [] else ['\n']
  }

  function Closed(item: string): string { if item != [] && item[|item| - 1] == '\n' then item[..|item| - 1] else item }

  /** The loop over the lines behind the first; it ends at a line with closing quotes or with the input. */
  function ReadOn(quote: char, item: string, continued: bool, first: bool, lines: seq<string>): string
    decreases lines
  {
    if lines == [] then item
    else
      var line := RTrim(lines[0]);
      var gap := Break(item, continued, first);
      if EndsInTriple(line, quote) then
        var body := line[..|line| - 3];
        Closed(item + gap + if continued then LTrim(body) else body)
      else
        var l2 := if continued then Trim(lines[0]) else lines[0];
        ReadOn(quote, item + gap + Uncontinued(l2), Continued(l2), false, lines[1..])
  }

  /** The text behind triple quotes, as the lines give it. */
  function ReadMultiLine(item: string, lines: seq<string>): string
    requires |item| >= 3
  {
    var start := item[3..];
    ReadOn(item[0], Uncontinued(start), Continued(start), true, lines)
  }

  predicate Closes(quote: char, lines: seq<string>)
  {
    exists k :: 0 <= k < |lines| && EndsInTriple(RTrim(lines[k]), quote)
  }

  /** The value: escapes count between double quotes, if these are closed; `None` is an exception. */
  function MultiLineValue(item: string, lines: seq<string>): Option<string>
    requires |item| >= 3
  {
    var text := ReadMultiLine(item, lines);
    if item[0] == '\"' && Closes('\"', lines) then Unescape(text) else Some(text)
  }

  lemma TripleIsLong(line: string, quote: char)
    ensures EndsInTriple(line, quote) ==> |line| >= 3
  {}

  /** One turn of the loop: the new item, whether a line extension is pending, and whether reading ends. */
  method ReadLine(quote: char, text: string, next: string, lineExtension: bool, firstLine: bool)
    returns (item: string, extended: bool, closed: bool)
    ensures closed <==> EndsInTriple(RTrim(next), quote)
    ensures
      var line, gap := RTrim(next), Break(text, lineExtension, firstLine);
      if closed then
        var body := line[..|line| - 3];
        item == Closed(text + gap + if lineExtension then LTrim(body) else body)
      else
        var l2 := if lineExtension then Trim(next) else next;
        item == text + gap + Uncontinued(l2) && extended == Continued(l2)
  {
    hide RTrim, Trim, LTrim, EndsInTriple;
    item, extended := text, false;
    var l2, line := next, RTrim(next);
    closed := EndsInTriple(line, quote);
    TripleIsLong(line, quote);
    if !lineExtension && !(firstLine && item == []) {
      item := item + ['\n'];
    }
    assert item == text + Break(text, lineExtension, firstLine);
    if closed {
      line := line[..|line| - 3];
      if lineExtension {
        line := LTrim(line);
      }
      item := item + line;
      if item != [] && item[|item| - 1] == '\n' {
        item := item[..|item| - 1];
      }
    } else {
      if lineExtension {
        l2 := Trim(l2);
      }
      if l2 != [] && l2[|l2| - 1] == '\\' {
        extended := true;
        l2 := l2[..|l2| - 1];
      }
      item := item + l2;
    }
  }

  method ReadMultiLineValue(text: string, lines: seq<string>) returns (value: Option<string>)
    requires |text| >= 3
    ensures value == MultiLineValue(text, lines)
  {
    hide ReadOn, RTrim, LTrim, Trim, EndsInTriple, Break, Closed, Unescape;
    var quote, item := text[0], text[3..];
    var lineExtension, firstLine := false, true;
    if item != [] && item[|item| - 1] == '\\' {
      item := item[..|item| - 1];
      lineExtension := true;
    }
    assert lines[0..] == lines;
    for i := 0 to |lines|
      invariant ReadMultiLine(text, lines) == ReadOn(quote, item, lineExtension, firstLine, lines[i..])
      invariant !Closes(quote, lines[..i])
    {
      assert lines[i..] == [lines[i]] + lines[i + 1..];
      ReadOnUnfold(quote, item, lineExtension, firstLine, lines[i], lines[i + 1..]);
      var closed;
      item, lineExtension, closed := ReadLine(quote, item, lines[i], lineExtension, firstLine);
      if closed {
        assert item == ReadMultiLine(text, lines) && Closes(quote, lines);
        if quote == '\"' {
          var unescaped := RemoveEscapedCharacters(item);
          return unescaped;
        }
        return Some(item);
      }
      firstLine := false;
    }
    assert lines[|lines|..] == [] && lines[..|lines|] == lines;
    ReadOnNothing(quote, item, lineExtension, firstLine);
    value := Some(item);
  }

  lemma ReadOnNothing(quote: char, item: string, continued: bool, first: bool)
    ensures ReadOn(quote, item, continued, first, []) == item
  {}

  // ----- what comes back -----

  /** The lines behind the first one as they stand in the file: the last one carries the closing quotes. */
  function Following(rest: seq<string>): seq<string>
    requires rest != []
  {
    rest[..|rest| - 1] + [rest[|rest| - 1] + TRIPLE]
  }

  /** What is lost nowhere: no line but the last is continued or looks closed, and the last is not empty. */
  predicate Clean(rest: seq<string>)
    requires rest != []
  {
    && rest[|rest| - 1] != []
    && forall i :: 0 <= i < |rest| - 1 ==> !Continued(rest[i]) && !EndsInTriple(RTrim(rest[i]), '\'')
  }

  predicate OneLiners(lines: seq<string>) { forall k :: 0 <= k < |lines| ==> Free(lines[k], '\n') }

  /** What reading would ideally add to `item`. */
  function Ideal(item: string, rest: seq<string>): string
    requires rest != []
  {
    item + (['\n'] + Unlines(rest))
  }

  lemma RTrimTriple(s: string)
    ensures RTrim(s + TRIPLE) == s + TRIPLE && EndsInTriple(s + TRIPLE, '\'')
    ensures (s + TRIPLE)[..|s + TRIPLE| - 3] == s
  {}

  /** What the loop does with one line. */
  lemma ReadOnUnfold(quote: char, item: string, continued: bool, first: bool, next: string, tail: seq<string>)
    ensures
      var line, gap := RTrim(next), Break(item, continued, first);
      ReadOn(quote, item, continued, first, [next] + tail) ==
      if EndsInTriple(line, quote) then
        var body := line[..|line| - 3];
        Closed(item + gap + if continued then LTrim(body) else body)
      else
        var l2 := if continued then Trim(next) else next;
        ReadOn(quote, item + gap + Uncontinued(l2), Continued(l2), false, tail)
  {
    hide RTrim, Trim, LTrim;
    assert ([next] + tail)[1..] == tail;
  }

  lemma FollowingUnfold(rest: seq<string>, after: seq<string>)
    requires rest != []
    ensures
      Following(rest) + after ==
      if |rest| == 1 then [rest[0] + TRIPLE] + after else [rest[0]] + (Following(rest[1..]) + after)
  {}

  /** Where the literal ends, and a line break is missing or the line is empty, something is lost. */
  lemma LastLineShrinks(item: string, continued: bool, first: bool, line: string, body: string)
    requires |body| <= |line| && (!continued ==> body == line)
    ensures
      var read := Closed(item + Break(item, continued, first) + body);
      && |read| <= |item| + 1 + |line|
      && (continued || (first && item == []) || line == [] ==> |read| < |item| + 1 + |line|)
  {}

  /** Reading never adds, and it loses something unless everything is clean. */
  lemma {:induction false} ReadOnShrinks(item: string, continued: bool, first: bool, rest: seq<string>, after: seq<string>)
    requires rest != [] && OneLiners(rest)
    ensures |ReadOn('\'', item, continued, first, Following(rest) + after)| <= |Ideal(item, rest)|
    ensures continued || (first && item == []) || !Clean(rest) ==>
              |ReadOn('\'', item, continued, first, Following(rest) + after)| < |Ideal(item, rest)|
    decreases |rest|
  {
    hide RTrim, Trim, LTrim, ReadOn, Following, Unlines, Closed, EndsInTriple;
    FollowingUnfold(rest, after);
    UnlinesUnfold(rest);
    if |rest| == 1 {
      RTrimTriple(rest[0]);
      LTrimShrinks(rest[0]);
      ReadOnUnfold('\'', item, continued, first, rest[0] + TRIPLE, after);
      LastLineShrinks(item, continued, first, rest[0], if continued then LTrim(rest[0]) else rest[0]);
    } else {
      ReadOnUnfold('\'', item, continued, first, rest[0], Following(rest[1..]) + after);
      RTrimShrinks(rest[0]);
      if EndsInTriple(RTrim(rest[0]), '\'') {
        EarlyEndShrinks(item, continued, first, rest[0]);
      } else {
        var l2 := if continued then Trim(rest[0]) else rest[0];
        ReadOnShrinks(item + Break(item, continued, first) + Uncontinued(l2), Continued(l2), false, rest[1..], after);
        if !Continued(rest[0]) {
          CleanStep(rest);
        }
      }
    }
  }

  lemma EarlyEndShrinks(item: string, continued: bool, first: bool, next: string)
    requires EndsInTriple(RTrim(next), '\'')
    ensures
      var body := RTrim(next)[..|RTrim(next)| - 3];
      |Closed(item + Break(item, continued, first) + if continued then LTrim(body) else body)| < |item| + 1 + |next|
  {
    hide RTrim, LTrim;
    RTrimShrinks(next);
    LTrimShrinks(RTrim(next)[..|RTrim(next)| - 3]);
  }

  lemma CleanStep(rest: seq<string>)
    requires |rest| > 1 && !Continued(rest[0]) && !EndsInTriple(RTrim(rest[0]), '\'')
    ensures Clean(rest) <==> Clean(rest[1..])
  {
    hide RTrim, Continued, EndsInTriple;
    var tail := rest[1..];
    assert forall i :: 1 <= i < |rest| ==> rest[i] == tail[i - 1];
    assert forall i :: 0 <= i < |tail| ==> tail[i] == rest[i + 1];
  }

  lemma LastLineClean(item: string, first: bool, line: string)
    requires !(first && item == []) && line != [] && Free(line, '\n')
    ensures Closed(item + Break(item, false, first) + line) == item + (['\n'] + line)
  {
    assert item + ['\n'] + line == item + (['\n'] + line);
  }

  lemma {:induction false} ReadOnClean(item: string, first: bool, rest: seq<string>, after: seq<string>)
    requires rest != [] && OneLiners(rest) && Clean(rest) && !(first && item == [])
    ensures ReadOn('\'', item, false, first, Following(rest) + after) == Ideal(item, rest)
    decreases |rest|
  {
    hide RTrim, Trim, LTrim, ReadOn, Following, Unlines, Closed, EndsInTriple;
    FollowingUnfold(rest, after);
    UnlinesUnfold(rest);
    if |rest| == 1 {
      RTrimTriple(rest[0]);
      ReadOnUnfold('\'', item, false, first, rest[0] + TRIPLE, after);
      LastLineClean(item, first, rest[0]);
    } else {
      ReadOnUnfold('\'', item, false, first, rest[0], Following(rest[1..]) + after);
      CleanStep(rest);
      ReadOnClean(item + ['\n'] + rest[0], false, rest[1..], after);
      AppendAssoc(item, ['\n'], rest[0]);
      AppendAssoc(item, ['\n'] + rest[0], ['\n'] + Unlines(rest[1..]));
      AppendAssoc(['\n'], rest[0], ['\n'] + Unlines(rest[1..]));
    }
  }

  // ----- the theorem -----

  /** The physical lines of the printed literal: its first line, and those behind it. */
  function FirstLine(arg: string): string
  {
    var lines := Lines(arg);
    TRIPLE + lines[0] + if |lines| == 1 then TRIPLE else []
  }

  function LaterLines(arg: string): seq<string>
  {
    var lines := Lines(arg);
    if |lines| == 1 then [] else Following(lines[1..])
  }

  /** The shape that survives: several lines, the first and last not empty, nothing that joins or ends early. */
  predicate Survives(arg: string)
  {
    var lines := Lines(arg);
    |lines| >= 2 && lines[0] != [] && !Continued(lines[0]) && Clean(lines[1..])
  }

  /** A break that follows `base` stays there, unless it is dropped as the last character. */
  lemma {:induction false} ReadOnKeepsBreak(base: string, item: string, continued: bool, lines: seq<string>)
    requires base != [] && base[|base| - 1] != '\n' && base + ['\n'] <= item
    ensures
      var read := ReadOn('\'', item, continued, false, lines);
      read == base || base + ['\n'] <= read
    decreases lines
  {
    hide RTrim, Trim, LTrim, ReadOn, EndsInTriple;
    if lines == [] {
      ReadOnNothing('\'', item, continued, false);
    } else {
      assert lines == [lines[0]] + lines[1..];
      ReadOnUnfold('\'', item, continued, false, lines[0], lines[1..]);
      var line, gap := RTrim(lines[0]), Break(item, continued, false);
      if EndsInTriple(line, '\'') {
        var body := TripleBody(line);
        ClosedKeepsBreak(base, item + gap + if continued then LTrim(body) else body);
      } else {
        var l2 := if continued then Trim(lines[0]) else lines[0];
        ReadOnKeepsBreak(base, item + gap + Uncontinued(l2), Continued(l2), lines[1..]);
      }
    }
  }

  function TripleBody(line: string): string
    requires EndsInTriple(line, '\'')
  {
    line[..|line| - 3]
  }

  lemma ClosedKeepsBreak(base: string, item: string)
    requires base != [] && base + ['\n'] <= item
    ensures Closed(item) == base || base + ['\n'] <= Closed(item)
  {
    if |item| == |base| + 1 {
      assert item == base + ['\n'] && item[..|base|] == base;
    }
  }

  /** Closing quotes on the first line are not recognised: they become part of the value. */
  lemma OneLineRead(arg: string, after: seq<string>)
    requires Lines(arg) == [arg]
    ensures
      var read := ReadMultiLine(FirstLine(arg), LaterLines(arg) + after);
      read == arg + TRIPLE || arg + TRIPLE + ['\n'] <= read
  {
    hide ReadOn, Lines, RTrim, Trim, LTrim, EndsInTriple;
    var base := arg + TRIPLE;
    assert FirstLine(arg)[3..] == base && !Continued(base) && LaterLines(arg) + after == after;
    if after == [] {
      ReadOnNothing('\'', base, false, true);
    } else {
      assert after == [after[0]] + after[1..];
      ReadOnUnfold('\'', base, false, true, after[0], after[1..]);
      var line := RTrim(after[0]);
      if EndsInTriple(line, '\'') {
        ClosedKeepsBreak(base, base + ['\n'] + TripleBody(line));
      } else {
        ReadOnKeepsBreak(base, base + ['\n'] + Uncontinued(after[0]), Continued(after[0]), after[1..]);
      }
    }
  }

  lemma SeveralLinesRead(arg: string, start: string, rest: seq<string>, after: seq<string>)
    requires rest != [] && OneLiners(rest) && Lines(arg) == [start] + rest && arg == Ideal(start, rest)
    ensures
      var read := ReadMultiLine(FirstLine(arg), LaterLines(arg) + after);
      if start != [] && !Continued(start) && Clean(rest) then read == arg else |read| < |arg|
  {
    hide ReadOn, Lines, Unlines, Clean;
    assert FirstLine(arg)[3..] == start && LaterLines(arg) == Following(rest);
    ReadOnShrinks(Uncontinued(start), Continued(start), true, rest, after);
    if start != [] && !Continued(start) && Clean(rest) {
      ReadOnClean(start, true, rest, after);
    }
  }

  /**
    A printed multi-line literal is read as the argument if it has that shape, whatever follows in the
    file. Otherwise the value is shorter or, for an argument of one line, holds the closing quotes.
   */
  lemma MultiLineRead(arg: string, after: seq<string>)
    ensures
      var read := ReadMultiLine(FirstLine(arg), LaterLines(arg) + after);
      if Survives(arg) then read == arg
      else if Free(arg, '\n') then read == arg + TRIPLE || arg + TRIPLE + ['\n'] <= read
      else |read| < |arg|
  {
    hide ReadMultiLine, Lines, Unlines, Clean, FirstLine, LaterLines;
    UnlinesLines(arg);
    var lines := Lines(arg);
    UnlinesUnfold(lines);
    if |lines| == 1 {
      assert lines == [arg];
      OneLineRead(arg, after);
    } else {
      assert arg[|lines[0]|] == '\n';
      SeveralLinesRead(arg, lines[0], lines[1..], after);
    }
  }

  lemma UnlinesUnfold(lines: seq<string>)
    requires lines != []
    ensures Unlines(lines) == if |lines| == 1 then lines[0] else lines[0] + (['\n'] + Unlines(lines[1..]))
  {}

  // ----- between double quotes -----

  lemma {:induction false} EscapeHasNoBreak(s: string)
    ensures Free(Escape(s), '\n')
  {
    if s != [] {
      EscapeHasNoBreak(s[1..]);
    }
  }

  /** Escaped text on a line of its own between triple double quotes is read as the text it stands for. */
  lemma TripleStringRead(s: string, after: seq<string>)
    ensures MultiLineValue("\"\"\"", [Escape(s) + "\"\"\""] + after) == Some(s)
  {
    hide ReadOn, RTrim, LTrim, Trim, Escape, Unescape, EndsInTriple;
    var line := Escape(s) + "\"\"\"";
    var lines := [line] + after;
    StringTriple(Escape(s));
    ReadOnUnfold('\"', [], false, true, line, after);
    EscapeHasNoBreak(s);
    assert ReadMultiLine("\"\"\"", lines) == Escape(s) by {
      assert [] + [] + Escape(s) == Escape(s);
    }
    assert Closes('\"', lines) by {
      assert lines[0] == line;
    }
    UnescapeEscape(s);
  }

  lemma StringTriple(s: string)
    ensures
      var line := s + "\"\"\"";
      RTrim(line) == line && EndsInTriple(line, '\"') && line[..|line| - 3] == s
  {}

  // ----- line extensions -----

  function Concat(parts: seq<string>): string
  {
    if parts == [] then [] else parts[0] + Concat(parts[1..])
  }

  /** Indented lines that are joined by backslashes, the last one closed. */
  function Extended(indent: string, parts: seq<string>, quote: char): seq<string>
    requires parts != []
  {
    if |parts| == 1 then [indent + parts[0] + [quote, quote, quote]]
    else [indent + parts[0] + ['\\']] + Extended(indent, parts[1..], quote)
  }

  /** A part of a line: it may end in blanks, but it starts with none. */
  predicate IsPart(part: string) { Free(part, '\n') && (part == [] || !IsSpace(part[0])) }

  lemma ExtendedLine(indent: string, part: string, quote: char)
    requires Blank(indent) && IsPart(part) && !IsSpace(quote)
    ensures
      var line := indent + part + ['\\'];
      !EndsInTriple(RTrim(line), quote) || quote == '\\'
    ensures Trim(indent + part + ['\\']) == part + ['\\']
    ensures Continued(part + ['\\']) && Uncontinued(part + ['\\']) == part
  {
    var line, kept := indent + part + ['\\'], part + ['\\'];
    assert line == indent + kept && line[|line| - 1] == '\\' && RTrim(line) == line;
    LTrimBlank(indent, kept);
    assert EndsInTriple(line, quote) ==> line[|line| - 3..][2] == '\\';
    assert RTrim(kept) == kept;
  }

  lemma ClosedLine(indent: string, part: string, quote: char)
    requires Blank(indent) && IsPart(part) && !IsSpace(quote)
    ensures
      var line := indent + part + [quote, quote, quote];
      RTrim(line) == line && EndsInTriple(line, quote) && LTrim(line[..|line| - 3]) == part
  {
    var line := indent + part + [quote, quote, quote];
    assert line[..|line| - 3] == indent + part;
    LTrimBlank(indent, part);
  }

  lemma {:induction false} ReadExtended(
    quote: char, item: string, first: bool, indent: string, parts: seq<string>, after: seq<string>)
    requires quote == '\'' || quote == '\"'
    requires parts != [] && Blank(indent) && Free(item, '\n') && forall part <- parts :: IsPart(part)
    ensures ReadOn(quote, item, true, first, Extended(indent, parts, quote) + after) == item + Concat(parts)
    decreases |parts|
  {
    hide ReadOn, RTrim, LTrim, Trim, EndsInTriple;
    var part, tail := parts[0], parts[1..];
    if |parts| == 1 {
      ClosedLine(indent, part, quote);
      ReadOnUnfold(quote, item, true, first, indent + part + [quote, quote, quote], after);
      assert item + [] + part == item + part && Concat(parts) == part + [];
    } else {
      ExtendedLine(indent, part, quote);
      assert Extended(indent, parts, quote) + after == [indent + part + ['\\']] + (Extended(indent, tail, quote) + after);
      ReadOnUnfold(quote, item, true, first, indent + part + ['\\'], Extended(indent, tail, quote) + after);
      ReadExtended(quote, item + [] + part, false, indent, tail, after);
      AppendAssoc(item, part, Concat(tail));
      assert item + [] == item;
    }
  }

  /** Lines joined by backslashes are one line; their indentation is dropped. */
  lemma ExtensionsJoined(quote: char, start: string, indent: string, parts: seq<string>, after: seq<string>)
    requires quote == '\'' || quote == '\"'
    requires parts != [] && Blank(indent) && Free(start, '\n') && forall part <- parts :: IsPart(part)
    ensures ReadMultiLine([quote, quote, quote] + start + ['\\'], Extended(indent, parts, quote) + after) == start + Concat(parts)
  {
    hide ReadOn, Extended, Concat;
    var item := [quote, quote, quote] + start + ['\\'];
    assert item[3..] == start + ['\\'] && Uncontinued(item[3..]) == start;
    ReadExtended(quote, start, true, indent, parts, after);
  }
}
