/** Backslash escapes: `add_escaped_characters` and `remove_escaped_characters`. */
module Escapes {
  import opened Text

  /** The letter that stands for an escapable character after a backslash. */
  function EscapeCode(c: char): Option<char>
  {
    match c
    case '\U{8}' => Some('b')
    case '\t' => Some('t')
    case '\n' => Some('n')
    case '\U{C}' => Some('f')
    case '\r' => Some('r')
    case '\"' => Some('\"')
    case '\\' => Some('\\')
    case _ => None
  }

  /** The character a code letter stands for. */
  function CodeMeaning(e: char): Option<char>
  {
    match e
    case 'b' => Some('\U{8}')
    case 't' => Some('\t')
    case 'n' => Some('\n')
    case 'f' => Some('\U{C}')
    case 'r' => Some('\r')
    case '\"' => Some('\"')
    case '\\' => Some('\\')
    case _ => None
  }

  predicate HasEscapable(s: string) { exists c <- s :: EscapeCode(c).Some? }

  // ----- escaping -----

  function EscapeChar(c: char): string
  {
    match EscapeCode(c)
    case Some(e) => ['\\', e]
    case None => [c]
  }

  function Escape(s: string): string
  {
    if s == [] then [] else EscapeChar(s[0]) + Escape(s[1..])
  }

  method AddEscapedCharacters(str: string) returns (out: string)
    ensures out == Escape(str)
  {
    assert Escape([]) == [] && str[0..] == str;
    hide Escape;
    out := [];
    for i := 0 to |str|
      invariant out + Escape(str[i..]) == Escape(str)
    {
      EscapeStep(out, str, i);
      match EscapeCode(str[i]) {
        case Some(e) => out := out + ['\\', e];
        case None => out := out + [str[i]];
      }
    }
    assert str[|str|..] == [] && out + [] == out;
  }

  lemma EscapeStep(out: string, str: string, i: nat)
    requires i < |str|
    ensures out + Escape(str[i..]) == out + EscapeChar(str[i]) + Escape(str[i + 1..])
  {
    assert str[i..][1..] == str[i + 1..];
    AppendAssoc(out, EscapeChar(str[i]), Escape(str[i + 1..]));
  }

  // ----- hexadecimal digits and code points -----

  const UINT32 := 0x1_0000_0000

  predicate IsHex(c: char) { '0' <= c <= '9' || 'A' <= c <= 'F' || 'a' <= c <= 'f' }

  /** `hexConvert`: the value of a digit, or -1 as a 32-bit unsigned number. */
  function HexConvert(c: char): (r: nat)
    ensures r <= 0x0F <==> IsHex(c)
  {
    if '0' <= c <= '9' then c as int - '0' as int
    else if 'A' <= c <= 'F' then c as int - 'A' as int + 10
    else if 'a' <= c <= 'f' then c as int - 'a' as int + 10
    else UINT32 - 1
  }

  predicate AllHex(s: string) { forall i :: 0 <= i < |s| ==> IsHex(s[i]) }

  function Pow16(n: nat): (r: nat)
    ensures r > 0
  {
    if n == 0 then 1 else 16 * Pow16(n - 1)
  }

  /** The number spelled by a string of hexadecimal digits. */
  function HexValue(s: string): nat
    requires AllHex(s)
  {
    if s == [] then 0 else 16 * HexValue(s[..|s| - 1]) + HexConvert(s[|s| - 1])
  }

  lemma {:induction false} HexValueBound(s: string)
    requires AllHex(s)
    ensures HexValue(s) < Pow16(|s|)
  {
    if s != [] {
      HexValueBound(s[..|s| - 1]);
    }
  }

  lemma Pow16Step(n: nat)
    ensures n > 0 ==> Pow16(n) == 16 * Pow16(n - 1) && Pow16(n) / 16 == Pow16(n - 1)
    ensures n == 0 ==> Pow16(n) == 1
  {}

  lemma AddDigit(h: nat, digit: nat, m: nat)
    ensures h * (16 * m) + digit * m == (16 * h + digit) * m
  {
    assert (16 * h) * m == h * (16 * m);
  }

  lemma HexSnoc(digits: string, i: nat)
    requires i < |digits| && AllHex(digits[..i]) && IsHex(digits[i])
    ensures AllHex(digits[..i + 1])
    ensures HexValue(digits[..i + 1]) == 16 * HexValue(digits[..i]) + HexConvert(digits[i])
  {
    assert digits[..i + 1] == digits[..i] + [digits[i]] && digits[..i + 1][..i] == digits[..i];
  }

  /** The value of the first `i` digits, shifted to their place. */
  ghost function Partial(digits: string, i: nat): nat
    requires i <= |digits| && AllHex(digits[..i])
  {
    HexValue(digits[..i]) * Pow16(|digits| - i)
  }

  lemma PartialEnds(digits: string)
    ensures AllHex(digits[..0]) && Partial(digits, 0) == 0
    ensures digits[..|digits|] == digits && (AllHex(digits) ==> Partial(digits, |digits|) == HexValue(digits))
  {
    assert digits[..|digits|] == digits;
  }

  lemma HexLoopStep(digits: string, i: nat, sum: nat, mplier: nat)
    requires i < |digits| && AllHex(digits[..i]) && IsHex(digits[i])
    requires mplier == Pow16(|digits| - 1 - i) && sum == Partial(digits, i)
    ensures AllHex(digits[..i + 1])
    ensures sum + HexConvert(digits[i]) * mplier == Partial(digits, i + 1)
    ensures i + 1 < |digits| ==> mplier / 16 == Pow16(|digits| - 1 - (i + 1))
  {
    hide HexValue, HexConvert;
    HexSnoc(digits, i);
    Pow16Step(|digits| - i);
    Pow16Step(|digits| - 1 - i);
    AddDigit(HexValue(digits[..i]), HexConvert(digits[i]), mplier);
  }

  lemma EightDigitsFit(digits: string)
    requires |digits| <= 8 && AllHex(digits)
    ensures HexValue(digits) < UINT32
  {
    HexValueBound(digits);
    assert Pow16(4) == 0x1_0000;
    assert Pow16(5) == 0x10_0000 && Pow16(6) == 0x100_0000 && Pow16(7) == 0x1000_0000 && Pow16(8) == UINT32;
  }

  /** The loop that reads digits with a shrinking multiplier; the sum only grows and fits 32 bits. */
  method ReadHex(digits: string) returns (code: Option<nat>)
    requires 1 <= |digits| <= 8
    ensures code == if AllHex(digits) then Some(HexValue(digits)) else None
    ensures code.Some? ==> code.value < UINT32
  {
    PartialEnds(digits);
    hide *;
    var n := |digits|;
    var sum, mplier := 0, Pow16(n - 1);
    for i := 0 to n
      invariant AllHex(digits[..i])
      invariant i < n ==> mplier == Pow16(n - 1 - i)
      invariant sum == Partial(digits, i)
    {
      var res := HexConvert(digits[i]);
      if res > 0x0F {
        NotAllHex(digits, i);
        return None;
      }
      HexLoopStep(digits, i, sum, mplier);
      sum := sum + res * mplier;
      mplier := mplier / 16;
    }
    EightDigitsFit(digits);
    code := Some(sum);
  }

  lemma NotAllHex(digits: string, i: nat)
    requires i < |digits| && !IsHex(digits[i])
    ensures !AllHex(digits)
  {}

  predicate Surrogate(code: nat) { 0xD800 <= code <= 0xDFFF }

  /** A Unicode scalar value. */
  predicate Scalar(code: nat) { code < 0x110000 && !Surrogate(code) }

  /**
    `append_codepoint`: the bytes it appends; `None` where it throws. A shifted and masked
    code is disjoint from the marker bits, so `|` is written as `+`.
   */
  function CodepointBytes(code: nat): Option<string>
  {
    if code < 0x80 then Some([code as char])
    else if code < 0x800 then
      Some([(0xC0 + code / 0x40) as char, (0x80 + code % 0x40) as char])
    else if code < 0x10000 then
      if Surrogate(code) then None
      else Some([(0xE0 + code / 0x1000) as char, (0x80 + code / 0x40 % 0x40) as char, (0x80 + code % 0x40) as char])
    else if code < 0x110000 then
      Some([(0xF0 + code / 0x40000) as char, (0x80 + code / 0x1000 % 0x40) as char,
            (0x80 + code / 0x40 % 0x40) as char, (0x80 + code % 0x40) as char])
    else Some([])
  }

  // ----- unescaping -----

  function Prepend(head: Option<string>, tail: Option<string>): Option<string>
  {
    if head.None? || tail.None? then None else Some(head.value + tail.value)
  }

  /** How many digits the escape letter asks for. */
  function DigitCount(letter: char): nat { if letter == 'u' then 4 else 8 }

  /** `remove_escaped_characters`; `None` where it throws `std::invalid_argument`. */
  function Unescape(s: string): Option<string>
  {
    if s == [] then Some([])
    else if s[0] != '\\' then Prepend(Some(s[..1]), Unescape(s[1..]))
    else if |s| < 2 then None
    else if CodeMeaning(s[1]).Some? then Prepend(Some([CodeMeaning(s[1]).value]), Unescape(s[2..]))
    else if s[1] == 'u' || s[1] == 'U' then
      var n := 2 + DigitCount(s[1]);
      if |s| < n || !AllHex(s[2..n]) then None
      else Prepend(CodepointBytes(HexValue(s[2..n])), Unescape(s[n..]))
    else if s[1] == '0' then Prepend(Some(['\0']), Unescape(s[2..]))
    else None
  }

  /** Reads the character or escape at `loc`: what it adds to the output and how wide it is. */
  method ReadPiece(str: string, loc: nat) returns (piece: Option<string>, width: nat)
    requires loc < |str|
    ensures piece.None? ==> Unescape(str[loc..]).None?
    ensures piece.Some? ==> 1 <= width <= |str| - loc
    ensures piece.Some? ==> Unescape(str[loc..]) == Prepend(piece, Unescape(str[loc + width..]))
  {
    ghost var rest := str[loc..];
    SliceOfTail(str, loc);
    width := 2;
    if str[loc] != '\\' {
      assert rest[..1] == [str[loc]];
      return Some([str[loc]]), 1;
    }
    if |str| - loc < 2 {
      return None, width;
    }
    var letter := str[loc + 1];
    assert rest[1] == letter;
    if CodeMeaning(letter).Some? {
      piece := Some([CodeMeaning(letter).value]);
    } else if letter == 'u' || letter == 'U' {
      width := 2 + DigitCount(letter);
      if |str| - loc < width {
        return None, width;
      }
      var code := ReadHex(str[loc + 2..loc + width]);
      piece := if code.None? then None else CodepointBytes(code.value);
    } else if letter == '0' {
      piece := Some(['\0']);
    } else {
      piece := None;
    }
  }

  method RemoveEscapedCharacters(str: string) returns (r: Option<string>)
    ensures r == Unescape(str)
  {
    assert Unescape([]) == Some([]) && str[0..] == str;
    hide Unescape;
    var out: string := [];
    var loc := 0;
    PrependNothing(Unescape(str));
    while loc < |str|
      invariant 0 <= loc <= |str|
      invariant Unescape(str) == Prepend(Some(out), Unescape(str[loc..]))
    {
      var piece, width := ReadPiece(str, loc);
      if piece.None? {
        return None;
      }
      PrependAssoc(out, piece.value, Unescape(str[loc + width..]));
      out := out + piece.value;
      loc := loc + width;
    }
    assert str[loc..] == [] && out + [] == out;
    r := Some(out);
  }

  lemma SliceOfTail(s: string, loc: nat)
    requires loc <= |s|
    ensures forall a, b :: 0 <= a <= b <= |s| - loc ==> s[loc..][a..b] == s[loc + a..loc + b]
    ensures forall a :: 0 <= a <= |s| - loc ==> s[loc..][a..] == s[loc + a..]
  {}

  lemma PrependNothing(t: Option<string>)
    ensures Prepend(Some([]), t) == t
  {
    if t.Some? {
      assert [] + t.value == t.value;
    }
  }

  lemma PrependAssoc(a: string, b: string, t: Option<string>)
    ensures Prepend(Some(a), Prepend(Some(b), t)) == Prepend(Some(a + b), t)
  {
    if t.Some? {
      assert a + (b + t.value) == a + b + t.value;
    }
  }

  lemma UnescapePlain(c: char, tail: string)
    requires c != '\\'
    ensures Unescape([c] + tail) == Prepend(Some([c]), Unescape(tail))
  {
    assert ([c] + tail)[..1] == [c] && ([c] + tail)[1..] == tail;
  }

  lemma UnescapeCode(e: char, tail: string)
    requires CodeMeaning(e).Some?
    ensures Unescape(['\\', e] + tail) == Prepend(Some([CodeMeaning(e).value]), Unescape(tail))
  {
    assert (['\\', e] + tail)[2..] == tail;
  }

  lemma UnescapeFirst(c: char, tail: string)
    ensures Unescape(EscapeChar(c) + tail) == Prepend(Some([c]), Unescape(tail))
  {
    hide Unescape;
    match EscapeCode(c)
    case Some(e) => UnescapeCode(e, tail);
    case None => UnescapePlain(c, tail);
  }

  /** Escaping is undone by unescaping, whatever the text. */
  lemma {:induction false} UnescapeEscape(s: string)
    ensures Unescape(Escape(s)) == Some(s)
  {
    if s != [] {
      UnescapeEscape(s[1..]);
      UnescapeFirst(s[0], Escape(s[1..]));
      assert s == [s[0]] + s[1..];
    }
  }

  /** A text with nothing to escape is its own escaped form. */
  lemma {:induction false} EscapeIdentity(s: string)
    requires !HasEscapable(s)
    ensures Escape(s) == s
  {
    if s != [] {
      assert s[0] in s && s == [s[0]] + s[1..];
      EscapeIdentity(s[1..]);
    }
  }

  // ----- the tables -----

  const ESCAPABLE := ['\U{8}', '\t', '\n', '\U{C}', '\r', '\"', '\\']
  const LETTERS := ['b', 't', 'n', 'f', 'r', '\"', '\\']

  /** The codes as they are written; `\0` is read as well, but never written. */
  lemma EscapeTable(c: char, tail: string)
    ensures forall i :: 0 <= i < 7 ==> EscapeChar(ESCAPABLE[i]) == ['\\', LETTERS[i]]
    ensures c !in ESCAPABLE ==> EscapeChar(c) == [c]
    ensures Unescape(['\\', '0'] + tail) == Prepend(Some(['\0']), Unescape(tail))
  {
    assert (['\\', '0'] + tail)[2..] == tail;
  }

  /** Any other letter behind a backslash is an error, and so is a backslash at the end. */
  lemma UnknownEscape(c: char, tail: string)
    requires c !in "btnfr\"\\uU0"
    ensures Unescape(['\\', c] + tail).None? && Unescape(['\\']).None?
  {}

  const LOWER_DIGITS := "0123456789abcdef"
  const UPPER_DIGITS := "0123456789ABCDEF"

  /** A digit has the value of its place in either alphabet; no other character is a digit. */
  lemma DigitValues(c: char)
    ensures forall i :: 0 <= i < 16 ==> HexConvert(LOWER_DIGITS[i]) == HexConvert(UPPER_DIGITS[i]) == i
    ensures IsHex(c) <==> c in LOWER_DIGITS || c in UPPER_DIGITS
  {}

  /** `\u` needs four digits and `\U` eight; fewer, or another character among them, is an error. */
  lemma BadDigits(s: string, i: nat)
    requires |s| >= 2 && s[0] == '\\' && (s[1] == 'u' || s[1] == 'U')
    requires 2 <= i < if s[1] == 'u' then 6 else 10
    requires i >= |s| || (s[i] !in LOWER_DIGITS && s[i] !in UPPER_DIGITS)
    ensures Unescape(s).None?
  {
    DigitsAsked(s);
    if i < |s| {
      NotADigit(s[i]);
    }
    hide *;
    var n := 2 + DigitCount(s[1]);
    if n <= |s| {
      assert s[2..n][i - 2] == s[i];
      NotAllHex(s[2..n], i - 2);
    }
  }

  lemma NotADigit(c: char)
    requires c !in LOWER_DIGITS && c !in UPPER_DIGITS
    ensures !IsHex(c)
  {
    DigitValues(c);
  }

  lemma DigitAt(digits: string, i: nat)
    requires i < 16 && (digits == LOWER_DIGITS || digits == UPPER_DIGITS)
    ensures |digits| == 16 && IsHex(digits[i]) && HexConvert(digits[i]) == i
  {
    DigitValues(digits[i]);
  }

  lemma DigitsAsked(s: string)
    requires |s| >= 2 && s[0] == '\\' && (s[1] == 'u' || s[1] == 'U')
    ensures
      var n := 2 + DigitCount(s[1]);
      n == (if s[1] == 'u' then 6 else 10) && (|s| < n || !AllHex(s[2..n]) ==> Unescape(s).None?)
  {
    hide AllHex, HexValue, CodepointBytes;
  }
}
