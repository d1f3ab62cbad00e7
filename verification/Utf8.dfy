/**
  `\u` and `\U` escapes produce UTF-8. The partner of `append_codepoint` is an independent
  decoder for the byte sequences of section 4 of RFC 3629, which admits only shortest forms
  and no surrogates.
 */
module Utf8 {
  import opened Text
  import opened Escapes

  // ----- reference decoder -----

  predicate Continuation(c: char) { 0x80 <= c as int <= 0xBF }

  function Tail(c: char): int { c as int - 0x80 }

  /** The code point that starts the text and the number of bytes it takes. */
  function DecodeFirst(b: string): (r: Option<(nat, nat)>)
    requires b != []
    ensures r.Some? ==> Scalar(r.value.0) && 1 <= r.value.1 <= |b|
  {
    var lead := b[0] as int;
    if lead <= 0x7F then Some((lead, 1))
    else if 0xC2 <= lead <= 0xDF && |b| >= 2 && Continuation(b[1]) then
      Some(((lead - 0xC0) * 0x40 + Tail(b[1]), 2))
    else if 0xE0 <= lead <= 0xEF && |b| >= 3 && Continuation(b[1]) && Continuation(b[2]) then
      var v := (lead - 0xE0) * 0x1000 + Tail(b[1]) * 0x40 + Tail(b[2]);
      if v >= 0x800 && !(0xD800 <= v <= 0xDFFF) then Some((v, 3)) else None
    else if 0xF0 <= lead <= 0xF4 && |b| >= 4 && Continuation(b[1]) && Continuation(b[2]) && Continuation(b[3]) then
      var v := (lead - 0xF0) * 0x40000 + Tail(b[1]) * 0x1000 + Tail(b[2]) * 0x40 + Tail(b[3]);
      if 0x10000 <= v < 0x110000 then Some((v, 4)) else None
    else None
  }

  function Decode(b: string): Option<seq<nat>>
  {
    if b == [] then Some([])
    else
      match DecodeFirst(b)
      case None => None
      case Some((v, n)) =>
        match Decode(b[n..])
        case None => None
        case Some(vs) => Some([v] + vs)
  }

  /** Cutting a number into groups of six bits. */
  lemma SixBitGroups(code: nat)
    ensures code == code / 0x40 * 0x40 + code % 0x40
    ensures code / 0x40 == code / 0x1000 * 0x40 + code / 0x40 % 0x40
    ensures code / 0x1000 == code / 0x40000 * 0x40 + code / 0x1000 % 0x40
  {}

  lemma DecodeTwoAndThree(code: nat, rest: string)
    requires 0x80 <= code < 0x10000 && Scalar(code)
    ensures
      var bytes := CodepointBytes(code).value;
      bytes != [] && DecodeFirst(bytes + rest) == Some((code, |bytes|))
  {
    SixBitGroups(code);
  }

  lemma DecodeFour(code: nat, rest: string)
    requires 0x10000 <= code && Scalar(code)
    ensures
      var bytes := CodepointBytes(code).value;
      bytes != [] && DecodeFirst(bytes + rest) == Some((code, |bytes|))
  {
    SixBitGroups(code);
  }

  lemma DecodeFirstOfCodepoint(code: nat, rest: string)
    requires code < 0xD800 || 0xE000 <= code < 0x110000
    ensures
      var bytes := CodepointBytes(code).value;
      bytes != [] && DecodeFirst(bytes + rest) == Some((code, |bytes|))
  {
    if 0x10000 <= code {
      DecodeFour(code, rest);
    } else if 0x80 <= code {
      DecodeTwoAndThree(code, rest);
    }
  }

  // ----- spellings -----

  /** A code point written with four digits after `\u` or eight after `\U`, in either case. */
  datatype Spelling = Spelling(letter: char, digits: string)

  predicate Valid(x: Spelling)
  {
    ((x.letter == 'u' && |x.digits| == 4) || (x.letter == 'U' && |x.digits| == 8)) && AllHex(x.digits)
  }

  predicate AllValid(xs: seq<Spelling>) { forall x <- xs :: Valid(x) }

  function Code(x: Spelling): nat
    requires Valid(x)
  {
    HexValue(x.digits)
  }

  function Written(xs: seq<Spelling>): string
  {
    if xs == [] then [] else ['\\', xs[0].letter] + xs[0].digits + Written(xs[1..])
  }

  function Codes(xs: seq<Spelling>): (r: seq<nat>)
    requires AllValid(xs)
    ensures |r| == |xs|
  {
    if xs == [] then []
    else
      assert Valid(xs[0]);
      [Code(xs[0])] + Codes(xs[1..])
  }

  /** The code points that leave bytes behind: those beyond U+10FFFF are dropped without an error. */
  function InRange(codes: seq<nat>): (r: seq<nat>)
    ensures |r| <= |codes|
    ensures |r| == |codes| ==> r == codes
    ensures |r| == |codes| <==> forall v <- codes :: v < 0x110000
  {
    if codes == [] then []
    else
      assert codes == [codes[0]] + codes[1..];
      assert codes[0] in codes && forall v <- codes[1..] :: v in codes;
      if codes[0] < 0x110000 then
      [codes[0]] + InRange(codes[1..])
      else InRange(codes[1..])
  }

  lemma UnescapeSpelling(x: Spelling, rest: string)
    requires Valid(x)
    ensures Unescape(['\\', x.letter] + x.digits + rest) == Prepend(CodepointBytes(Code(x)), Unescape(rest))
  {
    var s := ['\\', x.letter] + x.digits + rest;
    var n := 2 + DigitCount(x.letter);
    assert s[2..n] == x.digits && s[n..] == rest;
  }

  /** Unescaping fails exactly on surrogates, and its result decodes to the code points in range. */
  lemma {:induction false} UnescapeWritten(xs: seq<Spelling>)
    requires AllValid(xs)
    ensures Unescape(Written(xs)).None? <==> exists v <- Codes(xs) :: Surrogate(v)
    ensures Unescape(Written(xs)).Some? ==> Decode(Unescape(Written(xs)).value) == Some(InRange(Codes(xs)))
  {
    if xs != [] {
      assert Valid(xs[0]);
      var v, rest := Code(xs[0]), Written(xs[1..]);
      UnescapeWritten(xs[1..]);
      UnescapeSpelling(xs[0], rest);
      assert Codes(xs) == [v] + Codes(xs[1..]);
      assert Codes(xs)[1..] == Codes(xs[1..]);
      assert forall w :: w in Codes(xs) <==> w == v || w in Codes(xs[1..]);
      if CodepointBytes(v).Some? && Unescape(rest).Some? {
        var head, tail := CodepointBytes(v).value, Unescape(rest).value;
        if v < 0x110000 {
          DecodeFirstOfCodepoint(v, tail);
          assert (head + tail)[|head|..] == tail;
        } else {
          assert head + tail == tail;
        }
      }
    }
  }

  /** The escapes spell exactly their code points in UTF-8 if and only if all are scalar values. */
  lemma EscapesAreUtf8(xs: seq<Spelling>)
    requires AllValid(xs)
    ensures
      (Unescape(Written(xs)).Some? && Decode(Unescape(Written(xs)).value) == Some(Codes(xs)))
      <==> forall v <- Codes(xs) :: v < 0xD800 || 0xE000 <= v < 0x110000
  {
    UnescapeWritten(xs);
  }

  lemma HexStep(s: string, c: char)
    requires AllHex(s) && IsHex(c)
    ensures AllHex(s + [c]) && HexValue(s + [c]) == 16 * HexValue(s) + HexConvert(c)
  {
    assert (s + [c])[..|s|] == s;
  }

  const U110000 := ['0', '0', '1', '1', '0', '0', '0', '0']

  lemma ValueOfU110000()
    ensures AllHex(U110000) && HexValue(U110000) == 0x110000
  {
    var zeros := [] + ['0'] + ['0'];
    HexStep([], '0');
    HexStep([] + ['0'], '0');
    var elevens := zeros + ['1'] + ['1'];
    HexStep(zeros, '1');
    HexStep(zeros + ['1'], '1');
    var half := elevens + ['0'] + ['0'];
    HexStep(elevens, '0');
    HexStep(elevens + ['0'], '0');
    HexStep(half, '0');
    HexStep(half + ['0'], '0');
    assert half + ['0'] + ['0'] == U110000;
  }

  /** U+110000 is accepted and vanishes. */
  lemma BeyondUnicodeVanishes()
    ensures Unescape(['\\', 'U'] + U110000 + []) == Some([])
  {
    ValueOfU110000();
    UnescapeSpelling(Spelling('U', U110000), []);
    PrependNothing(Unescape([]));
  }
}
