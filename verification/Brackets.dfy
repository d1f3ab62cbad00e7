/**
  Finding the end of a quoted or bracketed piece of text: `close_string_quote`,
  `close_literal_quote` and `close_sequence`.
 */
module Brackets {
  import opened Text

  predicate IsOpener(c: char) { c == '[' || c == '(' || c == '<' || c == '{' }

  predicate IsCloser(c: char) { c == ']' || c == ')' || c == '>' || c == '}' }

  predicate IsLiteralQuote(c: char) { c == '\'' || c == '`' }

  /** A character of `bracketChars`. */
  predicate IsBracket(c: char) { c == '\"' || IsLiteralQuote(c) || IsOpener(c) }

  /** The entry of `matchBracketChars` for a character of `bracketChars`: a quote matches itself. */
  function Match(c: char): (m: char)
    ensures IsOpener(c) ==> IsCloser(m)
  {
    match c
    case '[' => ']'
    case '(' => ')'
    case '<' => '>'
    case '{' => '}'
    case _ => c
  }

  // ----- quotes -----

  /** Offset of the closing quote in `t`; at least `|t|` when there is none. */
  function StringEnd(t: string, quote: char): (n: nat)
    ensures n <= |t| + 1
    ensures n < |t| ==> t[n] == quote
  {
    if t == [] || t[0] == quote then 0
    else if t[0] == '\\' then (if |t| == 1 then 2 else 2 + StringEnd(t[2..], quote))
    else 1 + StringEnd(t[1..], quote)
  }

  /** The index that scanning for the quote from `loc` will return. */
  ghost function QuoteTarget(str: string, loc: nat, quote: char): nat
  {
    if loc <= |str| then loc + StringEnd(str[loc..], quote) else loc
  }

  lemma QuoteTargetStep(str: string, loc: nat, quote: char)
    ensures
      QuoteTarget(str, loc, quote) ==
      if loc >= |str| || str[loc] == quote then loc
      else QuoteTarget(str, if str[loc] == '\\' then loc + 2 else loc + 1, quote)
  {
    if loc < |str| {
      assert str[loc..][1..] == str[loc + 1..];
      assert loc + 2 <= |str| ==> str[loc..][2..] == str[loc + 2..];
    }
  }

  method CloseStringQuote(str: string, start: nat, quote: char) returns (loc: nat)
    requires start < |str|
    ensures loc == start + 1 + StringEnd(str[start + 1..], quote)
  {
    hide StringEnd;
    loc := start + 1;
    while loc < |str| && str[loc] != quote
      invariant start < loc <= |str| + 1
      invariant QuoteTarget(str, loc, quote) == QuoteTarget(str, start + 1, quote)
    {
      QuoteTargetStep(str, loc, quote);
      if str[loc] == '\\' {
        loc := loc + 1;
      }
      loc := loc + 1;
    }
    QuoteTargetStep(str, loc, quote);
  }

  method CloseLiteralQuote(str: string, start: nat, quote: char) returns (loc: nat)
    requires start < |str|
    ensures loc == start + 1 + Find(str[start + 1..], quote)
  {
    loc := start + 1;
    while loc < |str| && str[loc] != quote
      invariant start < loc <= |str|
      invariant start + 1 + Find(str[start + 1..], quote) == loc + Find(str[loc..], quote)
    {
      assert str[loc..][1..] == str[loc + 1..];
      loc := loc + 1;
    }
  }

  // ----- brackets -----

  predicate Closers(closures: string) { closures != [] && forall c <- closures :: IsCloser(c) }

  /** How far a quoted piece at the start of `t` reaches, its closing quote included. */
  function QuotedWidth(t: string): (n: nat)
    requires t != []
    ensures 2 <= n
  {
    2 + if t[0] == '\"' then StringEnd(t[1..], t[0]) else Find(t[1..], t[0])
  }

  /** One turn of the loop: how many characters it passes and the stack it leaves. */
  function Move(t: string, closures: string): (r: (nat, string))
    requires t != [] && Closers(closures)
    ensures r.0 > 0
    ensures r.1 != [] ==> Closers(r.1) && r.1[0] == closures[0]
    ensures r.1 == [] ==> t[0] == closures[0]
  {
    var top := |closures| - 1;
    assert forall c <- closures[..top] :: c in closures;
    if t[0] == closures[top] then (1, closures[..top])
    else if t[0] == '\"' || IsLiteralQuote(t[0]) then (QuotedWidth(t), closures)
    else if IsOpener(t[0]) then (1, closures + [Match(t[0])])
    else (1, closures)
  }

  /** Offset in `t` of the character that empties the stack `closures`; `|t|` when there is none. */
  function ClosingOffset(t: string, closures: string): (n: nat)
    requires Closers(closures)
    ensures n <= |t|
    ensures n < |t| ==> t[n] == closures[0]
  {
    if t == [] then 0
    else
      var (k, stack) := Move(t, closures);
      if stack == [] then 0
      else if k > |t| then |t|
      else k + ClosingOffset(t[k..], stack)
  }

  /** What `close_sequence` returns. */
  function SequenceEnd(str: string, start: nat, closure: char): (end: nat)
    requires start < |str|
    ensures start < end
    ensures end < |str| ==> str[end] == closure
  {
    var t := str[start + 1..];
    start + 1 +
    if closure == '\"' then StringEnd(t, closure)
    else if IsCloser(closure) then ClosingOffset(t, [closure])
    else Find(t, closure)
  }

  /** The index that scanning from `loc` with the stack `closures` will return. */
  ghost function Target(str: string, loc: nat, closures: string): nat
    requires Closers(closures)
  {
    if loc <= |str| then loc + ClosingOffset(str[loc..], closures) else |str|
  }

  lemma TargetMove(str: string, loc: nat, closures: string)
    requires loc < |str| && Closers(closures)
    ensures
      var (k, stack) := Move(str[loc..], closures);
      Target(str, loc, closures) == if stack == [] then loc else Target(str, loc + k, stack)
  {
    var t := str[loc..];
    var (k, stack) := Move(t, closures);
    if k <= |t| {
      assert t[k..] == str[loc + k..];
    }
  }

  method CloseSequence(str: string, start: nat, closure: char) returns (loc: nat)
    requires start < |str|
    ensures loc == SequenceEnd(str, start, closure)
  {
    if closure == '\"' {
      loc := CloseStringQuote(str, start, closure);
    } else if !IsCloser(closure) {
      loc := CloseLiteralQuote(str, start, closure);
    } else {
      loc := CloseBracket(str, start, closure);
    }
  }

  /** Passes one character that closes nothing, or the quoted piece it starts. */
  method Advance(str: string, loc: nat, closures: string) returns (next: nat, stack: string)
    requires loc < |str| && Closers(closures) && str[loc] != closures[|closures| - 1]
    ensures loc < next && Closers(stack)
    ensures Target(str, next, stack) == Target(str, loc, closures)
  {
    hide Target, StringEnd, Find;
    TargetMove(str, loc, closures);
    assert str[loc..][1..] == str[loc + 1..];
    var c := str[loc];
    next, stack := loc, closures;
    if c == '\"' {
      next := CloseStringQuote(str, loc, c);
    } else if IsLiteralQuote(c) {
      next := CloseLiteralQuote(str, loc, c);
    } else if IsOpener(c) {
      stack := closures + [Match(c)];
    }
    next := next + 1;
  }

  method CloseBracket(str: string, start: nat, closure: char) returns (loc: nat)
    requires start < |str| && IsCloser(closure)
    ensures loc == start + 1 + ClosingOffset(str[start + 1..], [closure])
  {
    hide ClosingOffset, StringEnd, Find;
    var closures := [closure];
    loc := start + 1;
    while loc < |str|
      invariant Closers(closures)
      invariant Target(str, loc, closures) == Target(str, start + 1, [closure])
      decreases |str| - loc
    {
      if str[loc] == closures[|closures| - 1] {
        TargetMove(str, loc, closures);
        closures := closures[..|closures| - 1];
        if closures == [] {
          return;
        }
        loc := loc + 1;
      } else {
        loc, closures := Advance(str, loc, closures);
      }
    }
    TargetEnd(str, loc, closures);
    if loc > |str| {
      loc := |str|;
    }
  }

  lemma TargetEnd(str: string, loc: nat, closures: string)
    requires Closers(closures) && loc >= |str|
    ensures Target(str, loc, closures) == |str|
  {}

  // ----- the grammar of bracketed content -----

  /** A string body: no unescaped quote and no dangling backslash. */
  predicate StringBody(b: string)
  {
    b == [] ||
    if b[0] == '\\' then |b| >= 2 && StringBody(b[2..]) else b[0] != '\"' && StringBody(b[1..])
  }

  /** The text between an opening bracket and its match. */
  datatype Content =
    | End
    | Plain(c: char, rest: Content)
    | Str(body: string, rest: Content)
    | Lit(quote: char, body: string, rest: Content)
    | Nest(open: char, close: char, inner: Content, rest: Content)

  /** The four kinds of brackets. */
  predicate Pair(open: char, close: char)
  {
    || (open == '(' && close == ')') || (open == '[' && close == ']')
    || (open == '{' && close == '}') || (open == '<' && close == '>')
  }

  /** A closing bracket of one of the four kinds. */
  predicate ClosesPair(c: char) { c == ')' || c == ']' || c == '}' || c == '>' }

  /** Neither a quote nor an opening bracket. */
  predicate PlainChar(c: char)
  {
    c != '\"' && c != '\'' && c != '`' && c != '(' && c != '[' && c != '{' && c != '<'
  }

  /** Plain characters may be anything but a quote, an opening bracket or the closer being waited for. */
  predicate WellFormed(w: Content, closer: char)
  {
    match w
    case End => true
    case Plain(c, rest) => c != closer && PlainChar(c) && WellFormed(rest, closer)
    case Str(body, rest) => StringBody(body) && WellFormed(rest, closer)
    case Lit(quote, body, rest) => (quote == '\'' || quote == '`') && Free(body, quote) && WellFormed(rest, closer)
    case Nest(open, close, inner, rest) => Pair(open, close) && WellFormed(inner, close) && WellFormed(rest, closer)
  }

  /** The text of a content followed by `tail`. */
  function Onto(w: Content, tail: string): (r: string)
    ensures |r| >= |tail|
  {
    match w
    case End => tail
    case Plain(c, rest) => [c] + Onto(rest, tail)
    case Str(body, rest) => ['\"'] + (body + (['\"'] + Onto(rest, tail)))
    case Lit(quote, body, rest) => [quote] + (body + ([quote] + Onto(rest, tail)))
    case Nest(open, close, inner, rest) => [open] + Onto(inner, [close] + Onto(rest, tail))
  }

  function Render(w: Content): string { Onto(w, []) }

  lemma {:induction false} OntoAppend(w: Content, a: string, b: string)
    ensures Onto(w, a + b) == Onto(w, a) + b
  {
    match w
    case End =>
    case Plain(_, rest) => OntoAppend(rest, a, b);
    case Str(_, rest) => OntoAppend(rest, a, b);
    case Lit(_, _, rest) => OntoAppend(rest, a, b);
    case Nest(open, close, inner, rest) =>
      OntoAppend(rest, a, b);
      OntoAppend(inner, [close] + Onto(rest, a), b);
      assert [close] + (Onto(rest, a) + b) == [close] + Onto(rest, a) + b;
  }

  lemma {:induction false} StringEndOfBody(body: string, tail: string)
    requires StringBody(body)
    ensures StringEnd(body + (['\"'] + tail), '\"') == |body|
  {
    var t := body + (['\"'] + tail);
    if body == [] {
    } else if body[0] == '\\' {
      StringEndOfBody(body[2..], tail);
      assert t[2..] == body[2..] + (['\"'] + tail);
    } else {
      StringEndOfBody(body[1..], tail);
      assert t[1..] == body[1..] + (['\"'] + tail);
    }
  }

  lemma {:induction false} BodyOfStringEnd(t: string)
    requires StringEnd(t, '\"') < |t|
    ensures StringBody(t[..StringEnd(t, '\"')])
  {
    var n := StringEnd(t, '\"');
    if t[0] == '\"' {
    } else if t[0] == '\\' {
      BodyOfStringEnd(t[2..]);
      assert t[..n][2..] == t[2..][..n - 2];
    } else {
      BodyOfStringEnd(t[1..]);
      assert t[..n][1..] == t[1..][..n - 1];
    }
  }

  lemma FindAfter(body: string, quote: char, tail: string)
    requires Free(body, quote)
    ensures Find(body + ([quote] + tail), quote) == |body|
  {
    assert (body + ([quote] + tail))[|body|] == quote;
  }

  lemma ScanQuoted(quote: char, body: string, after: string, closures: string)
    requires Closers(closures)
    requires (quote == '\"' && StringBody(body)) || (IsLiteralQuote(quote) && Free(body, quote))
    ensures ClosingOffset([quote] + (body + ([quote] + after)), closures) == |body| + 2 + ClosingOffset(after, closures)
  {
    var t := [quote] + (body + ([quote] + after));
    assert t[1..] == body + ([quote] + after);
    if quote == '\"' {
      StringEndOfBody(body, after);
    } else {
      FindAfter(body, quote, after);
    }
    assert QuotedWidth(t) == |body| + 2;
    assert t[|body| + 2..] == after;
    assert closures[|closures| - 1] in closures;
  }

  lemma PairIsMatch(open: char, close: char)
    ensures Pair(open, close) <==> IsOpener(open) && close == Match(open)
  {}

  lemma ScanOpen(open: char, t: string, closures: string)
    requires Closers(closures) && IsOpener(open)
    ensures Closers(closures + [Match(open)])
    ensures ClosingOffset([open] + t, closures) == 1 + ClosingOffset(t, closures + [Match(open)])
  {
    assert ([open] + t)[1..] == t;
    assert closures[|closures| - 1] in closures;
    assert Move([open] + t, closures) == (1, closures + [Match(open)]);
  }

  lemma ScanClose(t: string, closures: string, closer: char)
    requires Closers(closures) && Closers(closures + [closer])
    ensures ClosingOffset([closer] + t, closures + [closer]) == 1 + ClosingOffset(t, closures)
  {
    assert ([closer] + t)[1..] == t;
    assert (closures + [closer])[..|closures|] == closures;
    assert Move([closer] + t, closures + [closer]) == (1, closures);
  }

  lemma ScanPlain(c: char, t: string, closures: string)
    requires Closers(closures) && c != closures[|closures| - 1] && !IsBracket(c)
    ensures ClosingOffset([c] + t, closures) == 1 + ClosingOffset(t, closures)
  {
    assert ([c] + t)[1..] == t;
    assert Move([c] + t, closures) == (1, closures);
  }

  /** Scanning a well-formed content returns to the same stack right behind it. */
  lemma {:induction false} ScanContent(w: Content, closer: char, closures: string, tail: string)
    requires Closers(closures) && closures[|closures| - 1] == closer && WellFormed(w, closer)
    ensures ClosingOffset(Onto(w, tail), closures) == |Onto(w, tail)| - |tail| + ClosingOffset(tail, closures)
    decreases w
  {
    match w
    case End =>
    case Plain(c, rest) =>
      ScanContent(rest, closer, closures, tail);
      ScanPlain(c, Onto(rest, tail), closures);
    case Str(body, rest) =>
      ScanContent(rest, closer, closures, tail);
      ScanQuoted('\"', body, Onto(rest, tail), closures);
    case Lit(quote, body, rest) =>
      ScanContent(rest, closer, closures, tail);
      ScanQuoted(quote, body, Onto(rest, tail), closures);
    case Nest(open, close, inner, rest) =>
      var m, after := close, Onto(rest, tail);
      PairIsMatch(open, close);
      ScanOpen(open, Onto(inner, [m] + after), closures);
      ScanContent(inner, m, closures + [m], [m] + after);
      ScanClose(after, closures, m);
      ScanContent(rest, closer, closures, tail);
  }

  /** A content that is followed by its closer, found by reading `t` the way the grammar says. */
  ghost predicate StartsWithContent(t: string, w: Content, closer: char, after: string)
  {
    WellFormed(w, closer) && t == Onto(w, [closer] + after)
  }

  /** Either `t` starts with a content and its closer, or scanning runs off its end. */
  lemma {:induction false} ParseContent(t: string, closer: char, closures: string)
    returns (found: bool, w: Content, after: string)
    requires Closers(closures) && closures[|closures| - 1] == closer
    ensures found ==> StartsWithContent(t, w, closer, after)
    ensures !found ==> ClosingOffset(t, closures) == |t|
    decreases |t|
  {
    found, w, after := false, End, [];
    if t == [] {
      return;
    }
    var c := t[0];
    assert t == [c] + t[1..];
    if c == closer {
      found, after := true, t[1..];
    } else if c == '\"' || IsLiteralQuote(c) {
      found, w, after := ParseQuoted(t, closer, closures);
    } else if IsOpener(c) {
      found, w, after := ParseNest(t, closer, closures);
    } else {
      ScanPlain(c, t[1..], closures);
      found, w, after := ParseContent(t[1..], closer, closures);
      w := Plain(c, w);
    }
  }

  lemma ScanUnclosedQuote(t: string, closures: string)
    requires Closers(closures) && t != [] && (t[0] == '\"' || IsLiteralQuote(t[0])) && QuotedWidth(t) > |t|
    ensures ClosingOffset(t, closures) == |t|
  {
    hide StringEnd, Find, QuotedWidth;
    assert closures[|closures| - 1] in closures;
    assert Move(t, closures) == (QuotedWidth(t), closures);
  }

  lemma QuotedBody(t: string) returns (body: string)
    requires t != [] && (t[0] == '\"' || IsLiteralQuote(t[0])) && QuotedWidth(t) <= |t|
    ensures t == [t[0]] + (body + ([t[0]] + t[QuotedWidth(t)..]))
    ensures if t[0] == '\"' then StringBody(body) else Free(body, t[0])
  {
    hide StringEnd, StringBody, Find;
    var k := QuotedWidth(t);
    body := t[1..k - 1];
    assert body == t[1..][..k - 2] && t[k - 1] == t[1..][k - 2];
    if t[0] == '\"' {
      BodyOfStringEnd(t[1..]);
    }
  }

  lemma {:induction false} ParseQuoted(t: string, closer: char, closures: string)
    returns (found: bool, w: Content, after: string)
    requires Closers(closures) && closures[|closures| - 1] == closer
    requires t != [] && (t[0] == '\"' || IsLiteralQuote(t[0]))
    ensures found ==> StartsWithContent(t, w, closer, after)
    ensures !found ==> ClosingOffset(t, closures) == |t|
    decreases |t|, 0
  {
    hide ClosingOffset, StringEnd, StringBody, Find, QuotedWidth;
    var quote, k := t[0], QuotedWidth(t);
    if k > |t| {
      ScanUnclosedQuote(t, closures);
      return false, End, [];
    }
    var body := QuotedBody(t);
    ScanQuoted(quote, body, t[k..], closures);
    found, w, after := ParseContent(t[k..], closer, closures);
    w := if quote == '\"' then Str(body, w) else Lit(quote, body, w);
  }

  lemma {:induction false} ParseNest(t: string, closer: char, closures: string)
    returns (found: bool, w: Content, after: string)
    requires Closers(closures) && closures[|closures| - 1] == closer
    requires t != [] && IsOpener(t[0])
    ensures found ==> StartsWithContent(t, w, closer, after)
    ensures !found ==> ClosingOffset(t, closures) == |t|
    decreases |t|, 0
  {
    var open, m := t[0], Match(t[0]);
    assert t == [open] + t[1..];
    ScanOpen(open, t[1..], closures);
    found, w, after := ParseContent(t[1..], m, closures + [m]);
    if found {
      var inner, t' := w, after;
      assert |t'| < |t|;
      ScanContent(inner, m, closures + [m], [m] + t');
      ScanClose(t', closures, m);
      found, w, after := ParseContent(t', closer, closures);
      PairIsMatch(open, m);
      w := Nest(open, m, inner, w);
    }
  }

  lemma ContentIsMatched(t: string, w: Content, closer: char, after: string)
    requires IsCloser(closer) && StartsWithContent(t, w, closer, after)
    ensures ClosingOffset(t, [closer]) == |Render(w)| < |t|
    ensures t[..|Render(w)|] == Render(w)
  {
    ScanContent(w, closer, [closer], [closer] + after);
    OntoAppend(w, [], [closer] + after);
    assert [] + ([closer] + after) == [closer] + after;
    assert Move([closer] + after, [closer]).1 == [];
  }

  lemma MatchHasContent(t: string, closer: char) returns (w: Content)
    requires IsCloser(closer) && ClosingOffset(t, [closer]) < |t|
    ensures WellFormed(w, closer) && Render(w) == t[..ClosingOffset(t, [closer])]
  {
    var found, v, after := ParseContent(t, closer, [closer]);
    ContentIsMatched(t, v, closer, after);
    w := v;
  }

  lemma ContentHasMatch(t: string, closer: char, r: nat, w: Content)
    requires IsCloser(closer) && r < |t| && t[r] == closer
    requires WellFormed(w, closer) && Render(w) == t[..r]
    ensures ClosingOffset(t, [closer]) == r
  {
    OntoAppend(w, [], t[r..]);
    assert [] + t[r..] == t[r..] && t[r..] == [closer] + t[r + 1..];
    assert t == Render(w) + t[r..];
    ContentIsMatched(t, w, closer, t[r + 1..]);
  }

  /**
    `close_sequence` for a closing bracket stops at `r` exactly when the bracket stands there and the text
    up to it is one well-formed content; so it runs to the end exactly when no prefix is.
   */
  lemma BracketMatching(str: string, start: nat, closer: char, r: nat)
    requires ClosesPair(closer) && start < r < |str|
    ensures SequenceEnd(str, start, closer) == r
            <==> str[r] == closer && exists w :: WellFormed(w, closer) && Render(w) == str[start + 1..r]
  {
    var t, k := str[start + 1..], r - start - 1;
    assert t[..k] == str[start + 1..r];
    if ClosingOffset(t, [closer]) == k {
      var w := MatchHasContent(t, closer);
    }
    forall w | t[k] == closer && WellFormed(w, closer) && Render(w) == t[..k]
      ensures ClosingOffset(t, [closer]) == k
    {
      ContentHasMatch(t, closer, k, w);
    }
  }

  lemma StringEndMatches(t: string, r: nat)
    requires r < |t|
    ensures StringEnd(t, '\"') == r <==> t[r] == '\"' && StringBody(t[..r])
  {
    hide StringEnd, StringBody;
    if StringEnd(t, '\"') == r {
      BodyOfStringEnd(t);
    }
    if t[r] == '\"' && StringBody(t[..r]) {
      assert t == t[..r] + (['\"'] + t[r + 1..]);
      StringEndOfBody(t[..r], t[r + 1..]);
    }
  }

  /** For the string quote it stops at `r` exactly when `r` is a quote and the text up to it is a string body. */
  lemma StringQuoteMatching(str: string, start: nat, r: nat)
    requires start < r < |str|
    ensures SequenceEnd(str, start, '\"') == r <==> str[r] == '\"' && StringBody(str[start + 1..r])
  {
    hide StringEnd, StringBody;
    StringEndMatches(str[start + 1..], r - start - 1);
    assert str[start + 1..][..r - start - 1] == str[start + 1..r];
  }

  /** For any other character it stops at the first one. */
  lemma LiteralQuoteMatching(str: string, start: nat, quote: char, r: nat)
    requires start < r < |str| && quote != '\"' && !ClosesPair(quote)
    ensures SequenceEnd(str, start, quote) == r <==> str[r] == quote && Free(str[start + 1..r], quote)
  {
    hide Find;
    var t, k := str[start + 1..], r - start - 1;
    assert t[..k] == str[start + 1..r];
    assert Free(t[..k], quote) ==> forall i :: 0 <= i < k ==> t[i] == t[..k][i] != quote;
    assert Find(t, quote) == k ==> forall i :: 0 <= i < k ==> t[..k][i] == t[i] != quote;
  }
}
