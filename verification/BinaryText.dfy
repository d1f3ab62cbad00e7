/**
  Binary strings `'B"(...)"'`: `binary_escape_string`, `is_binary_escaped_string` and
  `extract_binary_string`.
 */
module BinaryText {
  import opened Text
  import opened Escapes

  /** Every character is one byte. */
  predicate IsBytes(s: string) { forall i :: 0 <= i < |s| ==> s[i] as int < 256 }

  predicate AllPrint(s: string) { forall c <- s :: IsPrint(c) }

  // ----- escaping -----

  function HexDigit(n: nat): (c: char)
    requires n < 16
    ensures IsHex(c) && HexConvert(c) == n
  {
    if n < 10 then ('0' as int + n) as char else ('a' as int + n - 10) as char
  }

  const QUOTE_CODE := ['\\', 'x', '2', '7']

  /** A printable character as it is, any other byte as `\x` and two digits. */
  function HexedChar(c: char): (r: string)
    ensures |r| == if IsPrint(c) then 1 else 4
  {
    var b := c as int % 256;
    if IsPrint(c) then [c] else ['\\', 'x', HexDigit(b / 16), HexDigit(b % 16)]
  }

  function Hexed(s: string): string
  {
    if s == [] then [] else HexedChar(s[0]) + Hexed(s[1..])
  }

  function Min(a: nat, b: nat): nat { if a <= b then a else b }

  /**
    One turn of the loop over the single quotes. `std::string::replace(sqLoc, sqLoc + 1, ...)` takes
    a position and a count: `sqLoc + 1` characters give way to the code, not just the quote.
   */
  function QuoteCoded(e: string, q: nat): string
    requires q <= |e|
  {
    e[..q] + QUOTE_CODE + e[Min(q + (q + 1), |e|)..]
  }

  /** The part of `t` behind its quote at `j` that survives the replacement when `n` characters precede `t`. */
  function Rest(n: nat, t: string, j: nat): string { t[Min(j + (n + j + 1), |t|)..] }

  /** What the loop makes of the text `t` when `n` characters without a quote precede it. */
  function CodedFrom(n: nat, t: string): string
    decreases |t|
  {
    var j := Find(t, '\'');
    if j == |t| then t
    else t[..j] + QUOTE_CODE + CodedFrom(n + j + 4, Rest(n, t, j))
  }

  lemma {:induction false} CodedIsFree(n: nat, t: string)
    ensures Free(CodedFrom(n, t), '\'')
    decreases |t|
  {
    hide CodedFrom;
    var j := Find(t, '\'');
    if j < |t| {
      CodedIsFree(n + j + 4, Rest(n, t, j));
      CodedUnfold(n, t);
    } else {
      CodedFree(n, t);
    }
  }

  lemma FindSkips(a: string, b: string)
    requires Free(a, '\'')
    ensures Find(a + b, '\'') == |a| + Find(b, '\'')
  {
    assert forall i :: 0 <= i < |b| ==> (a + b)[|a| + i] == b[i];
  }

  lemma QuoteCodedSplit(done: string, t: string, j: nat)
    requires j <= |t|
    ensures QuoteCoded(done + t, |done| + j) == done + (t[..j] + QUOTE_CODE) + Rest(|done|, t, j)
  {
    AppendDrop(done, t, Min(j + (|done| + j + 1), |t|));
    AppendTake(done, t, j);
    AppendAssoc(done, t[..j], QUOTE_CODE);
  }

  lemma CodedUnfold(n: nat, t: string)
    requires Find(t, '\'') < |t|
    ensures
      var j := Find(t, '\'');
      CodedFrom(n, t) == t[..j] + QUOTE_CODE + CodedFrom(n + j + 4, Rest(n, t, j))
  {}

  lemma TurnFacts(done: string, t: string, j: nat)
    requires Free(done, '\'') && j == Find(t, '\'') < |t|
    ensures Free(done + (t[..j] + QUOTE_CODE), '\'') && |Rest(|done|, t, j)| < |t|
    ensures |done + (t[..j] + QUOTE_CODE)| == |done| + j + 4
  {
    hide Find;
  }

  lemma CodedTurn(done: string, t: string, j: nat, head: string, rest: string)
    requires j == Find(t, '\'') < |t| && head == t[..j] + QUOTE_CODE && rest == Rest(|done|, t, j)
    ensures done + head + CodedFrom(|done| + j + 4, rest) == done + CodedFrom(|done|, t)
  {
    hide CodedFrom, Find, Rest;
    CodedUnfold(|done|, t);
    AppendAssoc(done, head, CodedFrom(|done| + j + 4, rest));
  }

  method CodeQuotes(text: string) returns (escaped: string)
    ensures escaped == CodedFrom(0, text)
  {
    hide CodedFrom, QuoteCoded, Find, Rest;
    escaped := text;
    ghost var done, t := [], text;
    var sqLoc := Find(escaped, '\'');
    while sqLoc < |escaped|
      invariant escaped == done + t && sqLoc == |done| + Find(t, '\'') && Free(done, '\'')
      invariant done + CodedFrom(|done|, t) == CodedFrom(0, text)
      decreases |t|
    {
      ghost var j := sqLoc - |done|;
      ghost var head, rest := t[..j] + QUOTE_CODE, Rest(|done|, t, j);
      TurnFacts(done, t, j);
      QuoteCodedSplit(done, t, j);
      CodedTurn(done, t, j, head, rest);
      escaped := QuoteCoded(escaped, sqLoc);
      done, t := done + head, rest;
      FindSkips(done, t);
      sqLoc := Find(escaped, '\'');
    }
    CodedFree(|done|, t);
  }

  lemma CodedFree(n: nat, t: string)
    requires Find(t, '\'') == |t|
    ensures CodedFrom(n, t) == t
  {}

  function Framed(content: string): string { ['\'', 'B', '\"', '('] + content + [')', '\"', '\''] }

  function BinaryEscape(s: string): string
  {
    if Hexed(s) == s then s else Framed(CodedFrom(0, Hexed(s)))
  }

  lemma HexedStep(out: string, str: string, i: nat)
    requires i < |str|
    ensures out + Hexed(str[i..]) == out + HexedChar(str[i]) + Hexed(str[i + 1..])
  {
    assert str[i..][1..] == str[i + 1..];
    AppendAssoc(out, HexedChar(str[i]), Hexed(str[i + 1..]));
  }

  method BinaryEscapeString(str: string) returns (escaped: string)
    ensures escaped == BinaryEscape(str)
  {
    assert Hexed([]) == [] && str[0..] == str;
    hide Hexed, CodedFrom;
    escaped := [];
    for i := 0 to |str|
      invariant escaped + Hexed(str[i..]) == Hexed(str)
    {
      HexedStep(escaped, str, i);
      escaped := escaped + HexedChar(str[i]);
    }
    assert str[|str|..] == [] && escaped + [] == escaped;
    if escaped != str {
      escaped := CodeQuotes(escaped);
      escaped := Framed(escaped);
    }
  }

  // ----- extracting -----

  /** `B"(` ... `)"` */
  predicate BareFrame(s: string)
  {
    |s| >= 3 && s[0] == 'B' && s[1] == '\"' && s[2] == '(' && s[|s| - 2] == ')' && s[|s| - 1] == '\"'
  }

  /** `'B"(` ... `)"'` */
  predicate QuotedFrame(s: string)
  {
    && |s| >= 4 && s[0] == '\'' && s[1] == 'B' && s[2] == '\"' && s[3] == '('
    && s[|s| - 3] == ')' && s[|s| - 2] == '\"' && s[|s| - 1] == '\''
  }

  predicate IsBinaryEscaped(s: string) { BareFrame(s) || QuotedFrame(s) }

  /** `\x` and two digits stand at the start. */
  predicate CodeAtStart(t: string)
  {
    |t| >= 4 && t[0] == '\\' && (t[1] == 'x' || t[1] == 'X') && IsHex(t[2]) && IsHex(t[3])
  }

  function Unhex(t: string): string
  {
    if t == [] then []
    else if CodeAtStart(t) then [(HexConvert(t[2]) * 16 + HexConvert(t[3])) as char] + Unhex(t[4..])
    else t[..1] + Unhex(t[1..])
  }

  lemma UnhexStep(t: string)
    requires t != []
    ensures
      Unhex(t) ==
      if CodeAtStart(t) then [(HexConvert(t[2]) * 16 + HexConvert(t[3])) as char] + Unhex(t[4..])
      else [t[0]] + Unhex(t[1..])
  {
    assert t[..1] == [t[0]];
  }

  function Extract(s: string): string
  {
    if BareFrame(s) then Unhex(s[3..|s| - 2])
    else if QuotedFrame(s) then Unhex(s[4..|s| - 3])
    else s
  }

  method ExtractBinaryString(str: string) returns (r: string)
    ensures r == Extract(str)
  {
    var start, tail := 0, 0;
    if BareFrame(str) {
      start, tail := 3, 2;
    } else if QuotedFrame(str) {
      start, tail := 4, 3;
    }
    if start == 0 {
      return str;
    }
    r := UnhexRange(str, start, |str| - tail);
  }

  /** Reads the character or code at `loc`; `)` and a quote behind `stop` keep every index in range. */
  method ReadCode(str: string, loc: nat, stop: nat) returns (piece: string, width: nat)
    requires loc < stop && stop + 2 <= |str| && str[stop] == ')'
    ensures 1 <= width && loc + width <= stop
    ensures Unhex(str[loc..stop]) == piece + Unhex(str[loc + width..stop])
  {
    ghost var t := str[loc..stop];
    UnhexStep(t);
    hide Unhex;
    piece, width := [str[loc]], 1;
    assert t[1..] == str[loc + 1..stop];
    if str[loc] == '\\' && (str[loc + 1] == 'x' || str[loc + 1] == 'X') {
      var res1, res2 := HexConvert(str[loc + 2]), HexConvert(str[loc + 3]);
      if res1 <= 0x0F && res2 <= 0x0F {
        piece, width := [(res1 * 16 + res2) as char], 4;
        assert t[4..] == str[loc + 4..stop];
      }
    }
  }

  method UnhexRange(str: string, start: nat, stop: nat) returns (r: string)
    requires start <= stop && stop + 2 <= |str| && str[stop] == ')'
    ensures r == Unhex(str[start..stop])
  {
    assert Unhex([]) == [];
    hide Unhex;
    r := [];
    var loc := start;
    while loc < stop
      invariant start <= loc <= stop
      invariant r + Unhex(str[loc..stop]) == Unhex(str[start..stop])
    {
      var piece, width := ReadCode(str, loc, stop);
      AppendAssoc(r, piece, Unhex(str[loc + width..stop]));
      r := r + piece;
      loc := loc + width;
    }
    assert str[loc..stop] == [] && r + [] == r;
  }
}
