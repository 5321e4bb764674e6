/** Text as XML can hold it: what is not a well-formed character that XML allows
    becomes U+FFFD, byte by byte. */
module XmlText {
  import opened Utf8

  /** `Char` of section 2.2 of XML 1.0. */
  predicate IsXmlCharacter(value: bv32) {
    || value == 0x09 || value == 0x0A || value == 0x0D
    || 0x20 <= value <= 0xD7FF
    || 0xE000 <= value <= 0xFFFD
    || 0x10000 <= value <= 0x10FFFF
  }

  /** Every scalar value except two, and below U+0020 only three. */
  lemma AllowedCharacters(value: bv32)
    ensures IsXmlCharacter(value) <==>
      && ScalarValue(value) && value !in {0xFFFE, 0xFFFF}
      && (value < 0x20 ==> value in {0x09, 0x0A, 0x0D})
  {}

  const REPLACEMENT: Text := [0xEF, 0xBF, 0xBD]

  /** How many bytes at the start of the text are kept as they are. */
  function Kept(text: Text): (n: nat)
    requires text != []
    ensures n <= |text|
  {
    var character := Decode(text);
    if character.length == 0 || !IsXmlCharacter(character.value) then 0 else character.length
  }

  function Sanitised(text: Text): Text
    decreases |text|
  {
    if text == [] then []
    else
      var n := Kept(text);
      if n == 0 then REPLACEMENT + Sanitised(text[1..]) else text[..n] + Sanitised(text[n..])
  }

  /** What the first step emits, and how far it goes. */
  function Emitted(text: Text): Text
    requires text != []
  {
    if Kept(text) == 0 then REPLACEMENT else text[..Kept(text)]
  }

  function Consumed(text: Text): (n: nat)
    requires text != []
    ensures 1 <= n <= |text|
  {
    if Kept(text) == 0 then 1 else Kept(text)
  }

  lemma SanitisedStep(text: Text)
    requires text != []
    ensures Sanitised(text) == Emitted(text) + Sanitised(text[Consumed(text)..])
  {
    hide Kept;
  }

  method XmlText(value: Text) returns (result: Text)
    ensures result == Sanitised(value)
  {
    hide Sanitised, Decode, IsXmlCharacter;
    SanitisedNothing();
    result := [];
    var index := 0;
    assert value[0..] == value;
    while index < |value|
      invariant index <= |value| && result + Sanitised(value[index..]) == Sanitised(value)
    {
      ghost var rest := value[index..];
      SanitisedStep(rest);
      ghost var more := Sanitised(rest[Consumed(rest)..]);
      assert rest[Consumed(rest)..] == value[index + Consumed(rest)..];
      assert (result + Emitted(rest)) + more == result + (Emitted(rest) + more);
      var character := DecodeUtf8(value, index);
      if character.length == 0 || !IsXmlCharacter(character.value) {
        result := result + REPLACEMENT;
        index := index + 1;
        continue;
      }
      assert Emitted(rest) == value[index..index + character.length];
      result := result + value[index..index + character.length];
      index := index + character.length;
    }
    assert value[index..] == [] && result + [] == result;
  }

  lemma SanitisedNothing()
    ensures Sanitised([]) == []
  {}

  // What comes out.

  predicate AllXml(characters: seq<bv32>) {
    forall i | 0 <= i < |characters| :: IsXmlCharacter(characters[i])
  }

  function EncodeAll(characters: seq<bv32>): Text
    requires AllXml(characters)
  {
    if characters == [] then [] else Encode(characters[0]) + EncodeAll(characters[1..])
  }

  /** The text is well-formed UTF-8 for characters that XML allows. */
  ghost predicate IsXmlText(text: Text) {
    exists characters :: AllXml(characters) && EncodeAll(characters) == text
  }

  lemma ReplacementIsACharacter()
    ensures IsXmlCharacter(0xFFFD) && Encode(0xFFFD) == REPLACEMENT
  {
    assert Tail(0xFFFD >> 6) == 0xBF && Tail(0xFFFD) == 0xBD;
  }

  lemma KeptIsACharacter(text: Text)
    requires text != [] && Kept(text) != 0
    ensures IsXmlCharacter(Decode(text).value) && Encode(Decode(text).value) == text[..Kept(text)]
  {
    hide Decode, Encode, IsUtf8Character;
    AcceptedIsEncoded(text);
  }

  /** The characters that come out, one for every kept character or replaced byte. */
  lemma {:induction false} SanitisedCharacters(text: Text) returns (characters: seq<bv32>)
    ensures AllXml(characters) && EncodeAll(characters) == Sanitised(text)
    ensures |characters| <= |text|
    decreases |text|
  {
    hide Decode, Encode, Kept, IsXmlCharacter;
    if text == [] {
      characters := [];
    } else {
      var n := Kept(text);
      var first := if n == 0 then 0xFFFD else Decode(text).value;
      var rest := SanitisedCharacters(if n == 0 then text[1..] else text[n..]);
      if n == 0 {
        ReplacementIsACharacter();
      } else {
        KeptIsACharacter(text);
      }
      characters := [first] + rest;
      assert characters[1..] == rest;
    }
  }

  lemma SanitisedIsXmlText(text: Text)
    ensures IsXmlText(Sanitised(text))
  {
    var characters := SanitisedCharacters(text);
  }

  lemma {:induction false} GrowsAtMostThreefold(text: Text)
    ensures |Sanitised(text)| <= 3 * |text|
    decreases |text|
  {
    hide Decode, Kept;
    if text == [] {
    } else {
      var n := Kept(text);
      GrowsAtMostThreefold(if n == 0 then text[1..] else text[n..]);
    }
  }

  /** An allowed character at the start is kept, whatever follows. */
  lemma AllowedCharacterStays(value: bv32, rest: Text)
    requires IsXmlCharacter(value)
    ensures Sanitised(Encode(value) + rest) == Encode(value) + Sanitised(rest)
  {
    hide Decode, Encode;
    var octets := Encode(value);
    DecodeInvertsEncode(value, rest);
    assert (octets + rest)[..|octets|] == octets && (octets + rest)[|octets|..] == rest;
  }

  lemma {:induction false} XmlTextStays(characters: seq<bv32>)
    requires AllXml(characters)
    ensures Sanitised(EncodeAll(characters)) == EncodeAll(characters)
  {
    hide Decode, Encode, Kept;
    if characters == [] {
    } else {
      XmlTextStays(characters[1..]);
      AllowedCharacterStays(characters[0], EncodeAll(characters[1..]));
    }
  }

  /** Exactly the texts XML can hold are left alone. */
  lemma UnchangedExactly(text: Text)
    ensures Sanitised(text) == text <==> IsXmlText(text)
  {
    SanitisedIsXmlText(text);
    if IsXmlText(text) {
      var characters :| AllXml(characters) && EncodeAll(characters) == text;
      XmlTextStays(characters);
    }
  }

  lemma Idempotent(text: Text)
    ensures Sanitised(Sanitised(text)) == Sanitised(text)
  {
    SanitisedIsXmlText(text);
    UnchangedExactly(Sanitised(text));
  }

  // Where it picks up again.

  /** A character that could start here: nothing, or no continuation byte. */
  predicate StartsFresh(text: Text) {
    text == [] || !Continues(text[0])
  }

  /** What follows a text cannot complete its last character, when it starts with
      no continuation byte. */
  lemma DecodeIgnoresWhatFollows(text: Text, rest: Text)
    requires text != [] && StartsFresh(rest)
    ensures Decode(text + rest) == Decode(text)
  {
    var whole := text + rest;
    var lead := LeadOf(text[0]);
    if text[0] >= 0x80 && lead.length != 0 {
      if |text| < lead.length <= |whole| {
        assert whole[|text|] == rest[0];
        assert !Continues(whole[|text|]);
      } else if lead.length <= |text| {
        assert forall i | 0 <= i < lead.length :: whole[i] == text[i];
        AccumulatedAlike(lead.value, text, whole, lead.length - 1);
      }
    }
  }

  lemma {:induction false} AccumulatedAlike(lead: bv32, a: Text, b: Text, n: nat)
    requires n < |a| && n < |b| && forall i | 1 <= i <= n :: a[i] == b[i]
    ensures Accumulated(lead, a, n) == Accumulated(lead, b, n)
  {
    hide Shifted;
    if n == 0 {
    } else {
      AccumulatedAlike(lead, a, b, n - 1);
    }
  }

  /** Sanitising resynchronises: whatever comes before, a text that does not start
      with a continuation byte is sanitised as on its own. */
  lemma {:induction false} SanitisesInParts(text: Text, rest: Text)
    requires StartsFresh(rest)
    ensures Sanitised(text + rest) == Sanitised(text) + Sanitised(rest)
    decreases |text|
  {
    hide Decode, IsXmlCharacter, Sanitised;
    SanitisedNothing();
    if text == [] {
      assert text + rest == rest;
    } else {
      DecodeIgnoresWhatFollows(text, rest);
      var n := Consumed(text);
      SanitisesInParts(text[n..], rest);
      SanitisedStep(text);
      SanitisedStep(text + rest);
      assert (text + rest)[n..] == text[n..] + rest;
      assert (text + rest)[..Kept(text)] == text[..Kept(text)];
    }
  }

  lemma EncodedStartsFresh(value: bv32, rest: Text)
    requires ScalarValue(value)
    ensures StartsFresh(Encode(value) + rest)
  {
    EncodedIsCharacter(value);
    assert (Encode(value) + rest)[0] == Encode(value)[0];
    Octet(Encode(value)[0]);
    hide Encode, Continues;
  }

  /** An allowed character is never lost, whatever is around it. */
  lemma AllowedCharacterIsNeverLost(before: Text, value: bv32, after: Text)
    requires IsXmlCharacter(value)
    ensures Sanitised(before + (Encode(value) + after)) == Sanitised(before) + (Encode(value) + Sanitised(after))
  {
    hide Encode, Sanitised;
    EncodedStartsFresh(value, after);
    SanitisesInParts(before, Encode(value) + after);
    AllowedCharacterStays(value, after);
  }

  function Replacements(n: nat): Text {
    if n == 0 then [] else REPLACEMENT + Replacements(n - 1)
  }

  /** Continuation bytes without a lead are replaced one by one. */
  lemma {:induction false} StrayContinuations(bytes: Text, rest: Text)
    requires forall i | 0 <= i < |bytes| :: IsTail(bytes[i])
    ensures Sanitised(bytes + rest) == Replacements(|bytes|) + Sanitised(rest)
  {
    hide Sanitised, Decode;
    if bytes == [] {
      assert bytes + rest == rest;
    } else {
      StrayContinuations(bytes[1..], rest);
      var text := bytes + rest;
      StrayIsRefused(text);
      SanitisedStep(text);
      assert text[1..] == bytes[1..] + rest;
    }
  }

  lemma StrayIsRefused(text: Text)
    requires text != [] && IsTail(text[0])
    ensures Kept(text) == 0
  {}

  /** A character XML does not allow becomes one U+FFFD for each of its bytes. */
  lemma ForbiddenCharacterIsReplaced(value: bv32, rest: Text)
    requires ScalarValue(value) && !IsXmlCharacter(value)
    ensures Sanitised(Encode(value) + rest) == Replacements(|Encode(value)|) + Sanitised(rest)
  {
    hide Encode, Decode, Sanitised, IsXmlCharacter;
    var octets := Encode(value);
    DecodeInvertsEncode(value, rest);
    EncodedTails(value);
    var text := octets + rest;
    assert Kept(text) == 0;
    SanitisedStep(text);
    assert text[1..] == octets[1..] + rest;
    StrayContinuations(octets[1..], rest);
    assert Replacements(|octets|) == REPLACEMENT + Replacements(|octets| - 1);
  }

  lemma EncodedTails(value: bv32)
    requires ScalarValue(value)
    ensures forall i | 1 <= i < |Encode(value)| :: IsTail(Encode(value)[i])
  {
    EncodedIsCharacter(value);
  }

  /** Where no character begins, one byte becomes U+FFFD and the next may begin one. */
  lemma MalformedByteIsReplaced(text: Text)
    requires text != [] && forall n | 0 <= n <= |text| :: !IsUtf8Character(text[..n])
    ensures Sanitised(text) == [0xEF, 0xBF, 0xBD] + Sanitised(text[1..])
  {
    hide Sanitised, Decode;
    DecodesExactly(text);
    SanitisedStep(text);
  }
}
