/** Percent-decoding of query strings: section 2.1 of RFC 3986, with '+' for a space. */
module Unescape {
  import opened Common

  const PERCENT: byte := 37
  const PLUS: byte := 43
  const SPACE: byte := 32

  /** The value of a hexadecimal digit, upper or lower case. */
  function HexValue(c: byte): (v: Option<int>)
    ensures v.Some? ==> 0 <= v.value < 16
  {
    if 48 <= c <= 57 then Some(c as int - 48)
    else if 65 <= c <= 70 then Some(c as int + 10 - 65)
    else if 97 <= c <= 102 then Some(c as int + 10 - 97)
    else None
  }

  function ByteOf(high: int, low: int): byte
    requires 0 <= high < 16 && 0 <= low < 16
  {
    (high * 16 + low) as byte
  }

  /** What a string decodes to; None when it is refused. */
  function Unescaped(s: seq<byte>): Option<seq<byte>>
    decreases |s|
  {
    if s == [] then Some([])
    else if s[0] != PERCENT then Prepend([if s[0] == PLUS then SPACE else s[0]], Unescaped(s[1..]))
    else if |s| < 3 || HexValue(s[1]).None? || HexValue(s[2]).None? then None
    else Prepend([ByteOf(HexValue(s[1]).value, HexValue(s[2]).value)], Unescaped(s[3..]))
  }

  function Prepend(front: seq<byte>, rest: Option<seq<byte>>): Option<seq<byte>> {
    if rest.None? then None else Some(front + rest.value)
  }

  lemma PrependTwice(a: seq<byte>, b: seq<byte>, rest: Option<seq<byte>>)
    ensures Prepend(a, Prepend(b, rest)) == Prepend(a + b, rest)
  {
    if rest.Some? {
      assert a + (b + rest.value) == a + b + rest.value;
    }
  }

  lemma PrependNothing(rest: Option<seq<byte>>)
    ensures Prepend([], rest) == rest
  {
    if rest.Some? {
      assert [] + rest.value == rest.value;
    }
  }

  /** The decoder: None where it throws. */
  method UnescapeString(s: seq<byte>) returns (r: Option<seq<byte>>)
    ensures r == Unescaped(s)
  {
    var ret: seq<byte> := [];
    var i := 0;
    PrependNothing(Unescaped(s));
    assert s[0..] == s;
    while i < |s|
      invariant 0 <= i <= |s|
      invariant Unescaped(s) == Prepend(ret, Unescaped(s[i..]))
    {
      if s[i] == PLUS {
        PrependTwice(ret, [SPACE], Unescaped(s[i..][1..]));
        ret := ret + [SPACE];
      } else if s[i] != PERCENT {
        PrependTwice(ret, [s[i]], Unescaped(s[i..][1..]));
        ret := ret + [s[i]];
      } else {
        ghost var from := s[i..];
        i := i + 1;
        if i == |s| {
          return None;
        }
        var high := HexValue(s[i]);
        if high.None? {
          return None;
        }
        i := i + 1;
        if i == |s| {
          return None;
        }
        var low := HexValue(s[i]);
        if low.None? {
          return None;
        }
        assert from[3..] == s[i + 1..];
        PrependTwice(ret, [ByteOf(high.value, low.value)], Unescaped(s[i + 1..]));
        ret := ret + [ByteOf(high.value, low.value)];
      }
      i := i + 1;
    }
    assert s[i..] == [] && ret + [] == ret;
    return Some(ret);
  }

  /** One encoded byte: as itself, a plus for a space, or a percent sign and two hexadecimal digits. */
  datatype Token = Literal(c: byte) | Plus | Percent(high: byte, low: byte) {
    predicate Valid() {
      match this
      case Literal(c) => c != PERCENT && c != PLUS
      case Plus => true
      case Percent(high, low) => HexValue(high).Some? && HexValue(low).Some?
    }

    function Text(): seq<byte> {
      match this
      case Literal(c) => [c]
      case Plus => [PLUS]
      case Percent(high, low) => [PERCENT, high, low]
    }

    function Meaning(): byte
      requires Valid()
    {
      match this
      case Literal(c) => c
      case Plus => SPACE
      case Percent(high, low) => ByteOf(HexValue(high).value, HexValue(low).value)
    }
  }

  predicate AllValid(tokens: seq<Token>) {
    forall i :: 0 <= i < |tokens| ==> tokens[i].Valid()
  }

  function Text(tokens: seq<Token>): seq<byte> {
    if tokens == [] then [] else tokens[0].Text() + Text(tokens[1..])
  }

  function Meaning(tokens: seq<Token>): (out: seq<byte>)
    requires AllValid(tokens)
    ensures |out| == |tokens|
  {
    if tokens == [] then [] else [tokens[0].Meaning()] + Meaning(tokens[1..])
  }

  /** Decoding undoes every encoding, whichever way each byte was encoded. */
  lemma {:induction false} DecodesEveryEncoding(tokens: seq<Token>)
    requires AllValid(tokens)
    ensures Unescaped(Text(tokens)) == Some(Meaning(tokens))
  {
    if tokens != [] {
      DecodesEveryEncoding(tokens[1..]);
      var text := Text(tokens);
      assert tokens[0].Valid();
      assert text[|tokens[0].Text()|..] == Text(tokens[1..]);
    }
  }

  /** What is decoded was an encoding of the result. */
  lemma {:induction false} DecodedWasEncoded(s: seq<byte>) returns (tokens: seq<Token>)
    requires Unescaped(s).Some?
    ensures AllValid(tokens) && Text(tokens) == s && Meaning(tokens) == Unescaped(s).value
    decreases |s|
  {
    if s == [] {
      tokens := [];
    } else {
      var token := if s[0] == PLUS then Plus else if s[0] != PERCENT then Literal(s[0]) else Percent(s[1], s[2]);
      var rest := DecodedWasEncoded(s[|token.Text()|..]);
      tokens := [token] + rest;
      assert tokens[1..] == rest;
      assert s == token.Text() + s[|token.Text()|..];
    }
  }

  /** A string is refused iff it is no encoding of anything: some percent sign lacks its two digits. */
  lemma RefusedIffNoEncoding(s: seq<byte>)
    ensures Unescaped(s).None? <==> !exists tokens :: AllValid(tokens) && Text(tokens) == s
  {
    if Unescaped(s).Some? {
      var tokens := DecodedWasEncoded(s);
      assert AllValid(tokens) && Text(tokens) == s;
    } else {
      forall tokens | AllValid(tokens) && Text(tokens) == s
        ensures false
      {
        DecodesEveryEncoding(tokens);
      }
    }
  }

  /** Every byte string has an encoding, in which every byte is escaped. */
  lemma {:induction false} EveryStringHasEncoding(bytes: seq<byte>) returns (tokens: seq<Token>)
    ensures AllValid(tokens) && Meaning(tokens) == bytes && |Text(tokens)| == 3 * |bytes|
  {
    if bytes == [] {
      tokens := [];
    } else {
      var rest := EveryStringHasEncoding(bytes[1..]);
      var b := bytes[0] as int;
      var token := Percent(Digit(b / 16), Digit(b % 16));
      tokens := [token] + rest;
      assert tokens[1..] == rest;
    }
  }

  function Digit(v: int): (c: byte)
    requires 0 <= v < 16
    ensures HexValue(c) == Some(v)
  {
    (if v < 10 then 48 + v else 65 + v - 10) as byte
  }

  /** The sixteen hexadecimal digits, in either case: '0' to '9', 'A' to 'F' and 'a' to 'f'. */
  predicate IsDigitOf(c: byte, v: int) {
    || (0 <= v < 10 && c as int == 48 + v)
    || (10 <= v < 16 && (c as int == 65 + (v - 10) || c as int == 97 + (v - 10)))
  }

  /**
   * What single characters decode to: '%' (37) and two hexadecimal digits to sixteen times the first and the
   * second, and to nothing without two digits; '+' (43) to a space (32), and any other to itself. Strings decode
   * piece by piece.
   */
  lemma DecodesCharacters(c: byte, high: byte, low: byte, h: int, l: int, rest: seq<byte>)
    ensures IsDigitOf(high, h) && IsDigitOf(low, l) ==>
              && Unescaped([37, high, low]) == Some([(16 * h + l) as byte])
              && Unescaped([37, high, low] + rest) == Prepend([(16 * h + l) as byte], Unescaped(rest))
    ensures (forall v :: !IsDigitOf(high, v)) || (forall v :: !IsDigitOf(low, v)) ==>
              Unescaped([37, high, low] + rest) == None
    ensures Unescaped([37]) == None && Unescaped([37, high]) == None
    ensures Unescaped([43] + rest) == Prepend([32], Unescaped(rest))
    ensures c != 37 && c != 43 ==> Unescaped([c] + rest) == Prepend([c], Unescaped(rest))
  {
    assert ([37, high, low] + rest)[3..] == rest && [37, high, low][3..] == [];
    assert ([43] + rest)[1..] == rest && ([c] + rest)[1..] == rest;
    DigitsRead(high);
    DigitsRead(low);
    if IsDigitOf(high, h) && IsDigitOf(low, l) {
      var b := (16 * h + l) as byte;
      assert [b] + [] == [b];
    }
  }

  lemma DigitsRead(c: byte)
    ensures forall v :: IsDigitOf(c, v) <==> HexValue(c) == Some(v)
  {
  }

  /** Decoding shortens, but not below a third. */
  lemma {:induction false} LengthBounds(s: seq<byte>)
    requires Unescaped(s).Some?
    ensures |Unescaped(s).value| <= |s| <= 3 * |Unescaped(s).value|
    decreases |s|
  {
    if s != [] {
      LengthBounds(if s[0] == PERCENT then s[3..] else s[1..]);
    }
  }
}
