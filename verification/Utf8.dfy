/** Decoding one character of UTF-8, against sections 3 and 4 of RFC 3629. */
module Utf8 {

  type byte = bv8
  type Text = seq<byte>

  datatype DecodedCharacter = DecodedCharacter(value: bv32, length: nat)

  const NOT_A_CHARACTER := DecodedCharacter(0xFFFD, 0)

  // Section 3 of RFC 3629: the octets of a character.

  predicate ScalarValue(v: bv32) {
    v <= 0x10FFFF && !(0xD800 <= v <= 0xDFFF)
  }

  function Tail(v: bv32): byte {
    (0x80 | (v & 0x3F)) as byte
  }

  function Encode(v: bv32): (octets: Text)
    requires ScalarValue(v)
    ensures 1 <= |octets| <= 4
  {
    if v <= 0x7F then [v as byte]
    else if v <= 0x7FF then [(0xC0 | (v >> 6)) as byte, Tail(v)]
    else if v <= 0xFFFF then [(0xE0 | (v >> 12)) as byte, Tail(v >> 6), Tail(v)]
    else [(0xF0 | (v >> 18)) as byte, Tail(v >> 12), Tail(v >> 6), Tail(v)]
  }

  // Section 4 of RFC 3629: the syntax of UTF-8 octet sequences.

  predicate IsTail(b: byte) {
    0x80 <= b <= 0xBF
  }

  predicate IsUtf8Character(s: Text) {
    match |s|
    case 1 => s[0] <= 0x7F
    case 2 => 0xC2 <= s[0] <= 0xDF && IsTail(s[1])
    case 3 =>
      && (|| (s[0] == 0xE0 && 0xA0 <= s[1] <= 0xBF)
          || (0xE1 <= s[0] <= 0xEC && IsTail(s[1]))
          || (s[0] == 0xED && 0x80 <= s[1] <= 0x9F)
          || (0xEE <= s[0] <= 0xEF && IsTail(s[1])))
      && IsTail(s[2])
    case 4 =>
      && (|| (s[0] == 0xF0 && 0x90 <= s[1] <= 0xBF)
          || (0xF1 <= s[0] <= 0xF3 && IsTail(s[1]))
          || (s[0] == 0xF4 && 0x80 <= s[1] <= 0x8F))
      && IsTail(s[2]) && IsTail(s[3])
    case _ => false
  }

  // The decoder.

  /** What the first byte promises: a length, its bits of the value, and the
      smallest value of that length. */
  datatype Lead = Lead(length: nat, value: bv32, minimum: bv32)

  function LeadOf(first: byte): (lead: Lead)
    ensures lead.length in {0, 2, 3, 4}
  {
    if 0xC2 <= first <= 0xDF then Lead(2, (first & 0x1F) as bv32, 0x80)
    else if 0xE0 <= first <= 0xEF then Lead(3, (first & 0x0F) as bv32, 0x800)
    else if 0xF0 <= first <= 0xF4 then Lead(4, (first & 0x07) as bv32, 0x10000)
    else Lead(0, 0, 0)
  }

  predicate Continues(b: byte) {
    b & 0xC0 == 0x80
  }

  function Shifted(value: bv32, continuation: byte): bv32 {
    (value << 6) | (continuation & 0x3F) as bv32
  }

  /** The value that a lead and the n bytes after it add up to. */
  function Accumulated(lead: bv32, text: Text, n: nat): bv32
    requires n < |text|
  {
    if n == 0 then lead else Shifted(Accumulated(lead, text, n - 1), text[n])
  }

  function Decode(text: Text): (d: DecodedCharacter)
    requires text != []
    ensures d.length <= |text|
  {
    var first := text[0];
    if first < 0x80 then DecodedCharacter(first as bv32, 1)
    else
      var lead := LeadOf(first);
      if lead.length == 0 || lead.length > |text| then NOT_A_CHARACTER
      else if exists i | 1 <= i < lead.length :: !Continues(text[i]) then NOT_A_CHARACTER
      else
        var value := Accumulated(lead.value, text, lead.length - 1);
        if value < lead.minimum || !ScalarValue(value) then NOT_A_CHARACTER
        else DecodedCharacter(value, lead.length)
  }

  method DecodeUtf8(text: Text, offset: nat) returns (character: DecodedCharacter)
    requires offset < |text|
    ensures character == Decode(text[offset..])
  {
    var first := text[offset];
    if first < 0x80 {
      return DecodedCharacter(first as bv32, 1);
    }
    var lead := LeadOf(first);
    if lead.length == 0 {
      return NOT_A_CHARACTER;
    }
    if offset + lead.length > |text| {
      return NOT_A_CHARACTER;
    }
    var value := lead.value;
    ghost var rest := text[offset..];
    var index := 1;
    while index < lead.length
      invariant 1 <= index <= lead.length
      invariant forall i | 1 <= i < index :: Continues(rest[i])
      invariant value == Accumulated(lead.value, rest, index - 1)
    {
      var continuation := text[offset + index];
      assert continuation == rest[index];
      if !Continues(continuation) {
        return NOT_A_CHARACTER;
      }
      value := Shifted(value, continuation);
      index := index + 1;
    }
    if value < lead.minimum || value > 0x10FFFF || 0xD800 <= value <= 0xDFFF {
      return NOT_A_CHARACTER;
    }
    return DecodedCharacter(value, lead.length);
  }

  // The decoder against the RFC, length by length.

  lemma Octet(b: byte)
    ensures Continues(b) <==> IsTail(b)
    ensures b < 0x80 ==> b == (b as bv32) as byte && (b as bv32) <= 0x7F
  {}

  lemma TwoOctets(a: byte, b: byte)
    requires 0xC2 <= a <= 0xDF && IsTail(b)
    ensures var v := Shifted(LeadOf(a).value, b);
            0x80 <= v <= 0x7FF && Encode(v) == [a, b]
  {}

  lemma ThreeOctetValue(a: byte, b: byte, c: byte)
    requires 0xE0 <= a <= 0xEF && IsTail(b) && IsTail(c)
    ensures var v := Shifted(Shifted(LeadOf(a).value, b), c);
            && v <= 0xFFFF
            && (0xE0 | (v >> 12)) as byte == a && Tail(v >> 6) == b && Tail(v) == c
            && (v < 0x800 <==> a == 0xE0 && b < 0xA0)
            && (0xD800 <= v <= 0xDFFF <==> a == 0xED && 0xA0 <= b)
  {}

  lemma FourOctetValue(a: byte, b: byte, c: byte, d: byte)
    requires 0xF0 <= a <= 0xF4 && IsTail(b) && IsTail(c) && IsTail(d)
    ensures var v := Shifted(Shifted(Shifted(LeadOf(a).value, b), c), d);
            && v <= 0x1FFFFF
            && (0xF0 | (v >> 18)) as byte == a && Tail(v >> 12) == b && Tail(v >> 6) == c && Tail(v) == d
            && (v < 0x10000 <==> a == 0xF0 && b < 0x90)
            && (v > 0x10FFFF <==> a == 0xF4 && 0x90 <= b)
  {}

  lemma AccumulatedOf(lead: bv32, text: Text)
    ensures |text| >= 2 ==> Accumulated(lead, text, 1) == Shifted(lead, text[1])
    ensures |text| >= 3 ==> Accumulated(lead, text, 2) == Shifted(Shifted(lead, text[1]), text[2])
    ensures |text| >= 4 ==>
      Accumulated(lead, text, 3) == Shifted(Shifted(Shifted(lead, text[1]), text[2]), text[3])
  {}

  lemma ThreeOctets(a: byte, b: byte, c: byte)
    requires 0xE0 <= a <= 0xEF && IsTail(b) && IsTail(c)
    ensures var v := Shifted(Shifted(LeadOf(a).value, b), c);
            && (v >= 0x800 && ScalarValue(v) <==> IsUtf8Character([a, b, c]))
            && (v >= 0x800 && ScalarValue(v) ==> Encode(v) == [a, b, c])
  {
    hide Shifted, LeadOf, Tail;
    ThreeOctetValue(a, b, c);
  }

  lemma FourOctets(a: byte, b: byte, c: byte, d: byte)
    requires 0xF0 <= a <= 0xF4 && IsTail(b) && IsTail(c) && IsTail(d)
    ensures var v := Shifted(Shifted(Shifted(LeadOf(a).value, b), c), d);
            && (v >= 0x10000 && ScalarValue(v) <==> IsUtf8Character([a, b, c, d]))
            && (v >= 0x10000 && ScalarValue(v) ==> Encode(v) == [a, b, c, d])
  {
    hide Shifted, LeadOf, Tail;
    FourOctetValue(a, b, c, d);
  }

  /** The bytes the decoder takes are one character, and it returns what they
      encode. */
  ghost predicate DecodesWell(text: Text)
    requires text != []
  {
    var d := Decode(text);
    && d.length <= |text| && ScalarValue(d.value)
    && Encode(d.value) == text[..d.length] && IsUtf8Character(text[..d.length])
  }

  lemma AcceptedIsEncoded(text: Text)
    requires text != [] && Decode(text).length != 0
    ensures DecodesWell(text)
  {
    var length := Decode(text).length;
    if length == 1 {
      Octet(text[0]);
      assert text[..1] == [text[0]];
    } else if length == 2 {
      AcceptedTwo(text);
    } else if length == 3 {
      AcceptedThree(text);
    } else {
      AcceptedFour(text);
    }
  }

  lemma AcceptedTwo(text: Text)
    requires text != [] && Decode(text).length == 2
    ensures DecodesWell(text)
  {
    AccumulatedOf(LeadOf(text[0]).value, text);
    Octet(text[1]);
    TwoOctets(text[0], text[1]);
    assert text[..2] == [text[0], text[1]];
  }

  lemma AcceptedThree(text: Text)
    requires text != [] && Decode(text).length == 3
    ensures DecodesWell(text)
  {
    var v := Accumulated(LeadOf(text[0]).value, text, 2);
    assert Decode(text) == DecodedCharacter(v, 3) && v >= 0x800 && ScalarValue(v);
    AccumulatedOf(LeadOf(text[0]).value, text);
    Octet(text[1]);
    Octet(text[2]);
    ThreeOctets(text[0], text[1], text[2]);
    hide *;
    assert text[..3] == [text[0], text[1], text[2]];
  }

  lemma AcceptedFour(text: Text)
    requires text != [] && Decode(text).length == 4
    ensures DecodesWell(text)
  {
    var v := Accumulated(LeadOf(text[0]).value, text, 3);
    assert Decode(text) == DecodedCharacter(v, 4) && v >= 0x10000 && ScalarValue(v);
    AccumulatedOf(LeadOf(text[0]).value, text);
    Octet(text[1]);
    Octet(text[2]);
    Octet(text[3]);
    FourOctets(text[0], text[1], text[2], text[3]);
    hide Decode, Encode, Accumulated, IsUtf8Character, Shifted, LeadOf, IsTail, Continues;
    assert text[..4] == [text[0], text[1], text[2], text[3]];
  }

  /** A text that starts with a character is accepted, with that character's
      length. */
  lemma CharacterIsAccepted(text: Text, n: nat)
    requires n <= |text| && IsUtf8Character(text[..n])
    ensures Decode(text).length == n
  {
    var a := text[0];
    assert a == text[..n][0];
    if n >= 2 {
      assert text[1] == text[..n][1];
      AccumulatedOf(LeadOf(text[0]).value, text);
      Octet(text[1]);
      if n == 2 {
        TwoOctets(a, text[1]);
      } else if n == 3 {
        Octet(text[2]);
        assert text[..3] == [a, text[1], text[2]];
        ThreeOctets(a, text[1], text[2]);
      } else {
        Octet(text[2]);
        Octet(text[3]);
        assert text[..4] == [a, text[1], text[2], text[3]];
        FourOctets(a, text[1], text[2], text[3]);
      }
    }
  }

  /** The decoder accepts exactly the texts that start with a character of section
      4 of RFC 3629, and returns its value and length. */
  lemma DecodesExactly(text: Text)
    requires text != []
    ensures Decode(text).length != 0 <==> exists n | 0 <= n <= |text| :: IsUtf8Character(text[..n])
    ensures forall n | 0 <= n <= |text| && IsUtf8Character(text[..n]) ::
      Decode(text).length == n && ScalarValue(Decode(text).value) && Encode(Decode(text).value) == text[..n]
  {
    if Decode(text).length != 0 {
      AcceptedIsEncoded(text);
    }
    forall n | 0 <= n <= |text| && IsUtf8Character(text[..n])
      ensures Decode(text).length == n
    {
      CharacterIsAccepted(text, n);
    }
  }

  lemma EncodedIsCharacter(v: bv32)
    requires ScalarValue(v)
    ensures IsUtf8Character(Encode(v))
  {}

  // The bits of a value, put together again from its octets.

  lemma RecombinedTwo(v: bv32)
    requires v <= 0x7FF
    ensures ValueOfTwo((0xC0 | (v >> 6)) as byte, Tail(v)) == v
  {}

  lemma RecombinedThree(v: bv32)
    requires v <= 0xFFFF
    ensures ValueOfThree((0xE0 | (v >> 12)) as byte, Tail(v >> 6), Tail(v)) == v
  {}

  lemma RecombinedFour(v: bv32)
    requires v <= 0x10FFFF
    ensures ValueOfFour((0xF0 | (v >> 18)) as byte, Tail(v >> 12), Tail(v >> 6), Tail(v)) == v
  {}

  function ValueOf(octets: Text): bv32
    requires 1 <= |octets| <= 4
  {
    match |octets|
    case 1 => octets[0] as bv32
    case 2 => ValueOfTwo(octets[0], octets[1])
    case 3 => ValueOfThree(octets[0], octets[1], octets[2])
    case _ => ValueOfFour(octets[0], octets[1], octets[2], octets[3])
  }

  function ValueOfTwo(a: byte, b: byte): bv32 {
    Shifted((a & 0x1F) as bv32, b)
  }

  function ValueOfThree(a: byte, b: byte, c: byte): bv32 {
    Shifted(Shifted((a & 0x0F) as bv32, b), c)
  }

  function ValueOfFour(a: byte, b: byte, c: byte, d: byte): bv32 {
    Shifted(Shifted(Shifted((a & 0x07) as bv32, b), c), d)
  }

  lemma EncodedHasValue(v: bv32)
    requires ScalarValue(v)
    ensures ValueOf(Encode(v)) == v
  {
    if v > 0xFFFF {
      RecombinedFour(v);
    } else if v > 0x7FF {
      RecombinedThree(v);
    } else if v > 0x7F {
      RecombinedTwo(v);
    }
    hide Tail, ValueOfTwo, ValueOfThree, ValueOfFour;
  }

  lemma EncodeIsInjective(v: bv32, w: bv32)
    requires ScalarValue(v) && ScalarValue(w) && Encode(v) == Encode(w)
    ensures v == w
  {
    EncodedHasValue(v);
    EncodedHasValue(w);
  }

  /** Decoding inverts the encoding of section 3 of RFC 3629, whatever follows. */
  lemma DecodeInvertsEncode(v: bv32, rest: Text)
    requires ScalarValue(v)
    ensures Decode(Encode(v) + rest) == DecodedCharacter(v, |Encode(v)|)
  {
    var octets := Encode(v);
    EncodedIsCharacter(v);
    assert (octets + rest)[..|octets|] == octets;
    CharacterIsAccepted(octets + rest, |octets|);
    AcceptedIsEncoded(octets + rest);
    EncodeIsInjective(v, Decode(octets + rest).value);
  }
}
