/** Replay tokens: `c3.<size>.<choice>-<choice>-...`, each number in base 36. */
module ReplayToken {
  import opened Words

  datatype Decoded = Decoded(size: uint64, choices: Choices)

  const PREFIX := "c3."
  const MAXIMUM_SIZE: uint64 := 100

  // Numbers: `std::to_chars` and `std::from_chars` in base 36.

  function Digit(d: nat): char
    requires d < 36
  {
    if d < 10 then ('0' as int + d) as char else ('a' as int + d - 10) as char
  }

  /** The value of a digit, in either case; 36 for any other character. */
  function DigitValue(c: char): (d: nat)
    ensures d <= 36
  {
    if '0' <= c <= '9' then c as int - '0' as int
    else if 'a' <= c <= 'z' then c as int - 'a' as int + 10
    else if 'A' <= c <= 'Z' then c as int - 'A' as int + 10
    else 36
  }

  /** The digits are 0 to 9 and a to z, in this order. They are read in either case, and
      there are no others. */
  lemma DigitsAre(d: nat, c: char)
    requires d < 36
    ensures Digit(0) == '0' && Digit(9) == '9' && Digit(10) == 'a' && Digit(35) == 'z'
    ensures d != 9 && d != 35 ==> Digit(d + 1) as int == Digit(d) as int + 1
    ensures DigitValue(Digit(d)) == d
    ensures 'A' <= c <= 'Z' ==> DigitValue(c) == DigitValue((c as int + ('a' as int - 'A' as int)) as char)
    ensures DigitValue(c) == 36 <==> !('0' <= c <= '9' || 'a' <= c <= 'z' || 'A' <= c <= 'Z')
  {}

  /** The first digit counts most. */
  lemma {:induction false} NumberOfFirst(c: char, rest: string)
    ensures NumberOf([c] + rest) == DigitValue(c) * Pow36(|rest|) + NumberOf(rest)
  {
    var text := [c] + rest;
    if rest == "" {
      assert text == [c] && NumberOf(text[..0]) == 0;
    } else {
      var n := |rest| - 1;
      NumberOfFirst(c, rest[..n]);
      assert text[..|text| - 1] == [c] + rest[..n];
      assert Pow36(|rest|) == 36 * Pow36(n);
      TimesBase(DigitValue(c), Pow36(n), NumberOf(rest[..n]));
    }
  }

  lemma TimesBase(x: nat, p: nat, y: nat)
    ensures (x * p + y) * 36 == x * (36 * p) + y * 36
  {}

  function ToChars(v: nat): string {
    if v < 36 then [Digit(v)] else ToChars(v / 36) + [Digit(v % 36)]
  }

  predicate AllDigits(text: string) {
    forall i | 0 <= i < |text| :: DigitValue(text[i]) < 36
  }

  function NumberOf(text: string): nat {
    if text == "" then 0 else NumberOf(text[..|text| - 1]) * 36 + DigitValue(text[|text| - 1])
  }

  /** The whole of `text` as a 64-bit number. */
  function Parse(text: string): Option<uint64> {
    if text != "" && AllDigits(text) && NumberOf(text) < TWO_TO_64 then Some(NumberOf(text) as uint64)
    else None
  }

  // Tokens.

  function Join(parts: seq<string>): string {
    if |parts| == 0 then ""
    else if |parts| == 1 then parts[0]
    else parts[0] + "-" + Join(parts[1..])
  }

  function Numerals(choices: Choices): (parts: seq<string>)
    ensures |parts| == |choices|
    ensures forall i | 0 <= i < |parts| :: parts[i] == ToChars(choices[i] as nat)
  {
    if choices == [] then [] else [ToChars(choices[0] as nat)] + Numerals(choices[1..])
  }

  function Encode(size: uint64, choices: Choices): string {
    PREFIX + ToChars(size as nat) + "." + Join(Numerals(choices))
  }

  /** The index of the first `c` in `text`, or the length of `text`. */
  function Find(text: string, c: char): (i: nat)
    ensures i <= |text| && c !in text[..i]
    ensures i < |text| ==> text[i] == c
  {
    if text == "" || text[0] == c then 0 else 1 + Find(text[1..], c)
  }

  function DecodeList(rest: string): Option<Choices>
    decreases |rest|
  {
    if rest == "" then Some([])
    else
      var dash := Find(rest, '-');
      var value := Parse(rest[..dash]);
      if value.None? then None
      else if dash == |rest| then Some([value.value])
      else if dash + 1 == |rest| then None
      else
        var more := DecodeList(rest[dash + 1..]);
        if more.None? then None else Some([value.value] + more.value)
  }

  function Decode(token: string): Option<Decoded> {
    if !(PREFIX <= token) then None
    else
      var text := token[|PREFIX|..];
      var dot := Find(text, '.');
      if dot == |text| then None
      else
        var size := Parse(text[..dot]);
        if size.None? || size.value > MAXIMUM_SIZE then None
        else
          var choices := DecodeList(text[dot + 1..]);
          if choices.None? then None else Some(Decoded(size.value, choices.value))
  }

  method EncodeChoices(size: uint64, choices: Choices) returns (token: string)
    ensures token == Encode(size, choices)
  {
    token := PREFIX;
    token := token + ToChars(size as nat);
    token := token + ".";
    ghost var head := token;
    assert Numerals(choices[..0]) == [];
    for index := 0 to |choices|
      invariant token == head + Join(Numerals(choices[..index]))
    {
      JoinNext(choices, index);
      if index != 0 {
        token := token + "-";
      }
      token := token + ToChars(choices[index] as nat);
    }
    assert choices[..|choices|] == choices;
  }

  method DecodeChoices(token: string) returns (decoded: Option<Decoded>)
    ensures decoded == Decode(token)
  {
    if !(PREFIX <= token) {
      return None;
    }
    var text := token[|PREFIX|..];
    var dot := Find(text, '.');
    if dot == |text| {
      return None;
    }
    var size := Parse(text[..dot]);
    if size.None? || size.value > MAXIMUM_SIZE {
      return None;
    }
    var choices: Choices := [];
    var rest := text[dot + 1..];
    ghost var all := DecodeList(rest);
    assert all.Some? ==> choices + all.value == all.value;
    while rest != ""
      invariant rest == "" ==> all == Some(choices)
      invariant all == if DecodeList(rest).None? then None else Some(choices + DecodeList(rest).value)
      decreases |rest|
    {
      var dash := Find(rest, '-');
      var value := Parse(rest[..dash]);
      if value.None? {
        return None;
      }
      ghost var done := choices;
      choices := choices + [value.value];
      if dash == |rest| {
        assert all == Some(choices);
        break;
      }
      assert forall more: Choices :: done + ([value.value] + more) == choices + more;
      rest := rest[dash + 1..];
      if rest == "" {
        return None;
      }
    }
    return Some(Decoded(size.value, choices));
  }

  lemma {:induction false} JoinSnoc(parts: seq<string>, last: string)
    ensures Join(parts + [last]) == Join(parts) + (if parts == [] then "" else "-") + last
  {
    if parts == [] {
    } else {
      assert (parts + [last])[1..] == parts[1..] + [last];
      JoinSnoc(parts[1..], last);
    }
  }

  lemma JoinNext(choices: Choices, index: nat)
    requires index < |choices|
    ensures Join(Numerals(choices[..index + 1]))
         == Join(Numerals(choices[..index])) + (if index == 0 then "" else "-") + ToChars(choices[index] as nat)
  {
    assert Numerals(choices[..index + 1]) == Numerals(choices[..index]) + [ToChars(choices[index] as nat)];
    JoinSnoc(Numerals(choices[..index]), ToChars(choices[index] as nat));
  }

  // Reading back what was written.

  lemma {:induction false} ToCharsReadsBack(v: nat)
    ensures ToChars(v) != "" && AllDigits(ToChars(v)) && NumberOf(ToChars(v)) == v
  {
    if v >= 36 {
      ToCharsReadsBack(v / 36);
      assert ToChars(v)[..|ToChars(v)| - 1] == ToChars(v / 36);
    } else {
      assert ToChars(v)[..0] == "";
    }
  }

  lemma ParseNumeral(v: uint64)
    ensures Parse(ToChars(v as nat)) == Some(v)
  {
    ToCharsReadsBack(v as nat);
  }

  ghost function Pow36(n: nat): nat {
    if n == 0 then 1 else 36 * Pow36(n - 1)
  }

  lemma {:induction false} ToCharsLength(v: nat, n: nat)
    requires 1 <= n && v < Pow36(n)
    ensures |ToChars(v)| <= n
  {
    if v < 36 {
    } else {
      ToCharsLength(v / 36, n - 1);
    }
  }

  /** The 24 characters of the encoder's buffer are enough for any choice. */
  lemma BufferSuffices(v: uint64)
    ensures |ToChars(v as nat)| <= 13
  {
    assert Pow36(6) == 2176782336;
    assert Pow36(13) == 36 * 36 * 36 * 36 * 36 * 36 * 36 * Pow36(6);
    ToCharsLength(v as nat, 13);
  }

  lemma FindAfter(text: string, c: char, rest: string)
    requires c !in text
    ensures Find(text + rest, c) == |text| + Find(rest, c)
  {
    if text == "" {
      assert text + rest == rest;
    } else {
      assert (text + rest)[1..] == text[1..] + rest;
      FindAfter(text[1..], c, rest);
    }
  }

  ghost predicate Reads(parts: seq<string>, choices: Choices) {
    |parts| == |choices| && forall i | 0 <= i < |parts| :: Parse(parts[i]) == Some(choices[i])
  }

  /** A number, alone or before a dash and more, is decoded first. */
  lemma DecodeFirst(head: string, value: uint64, tail: string)
    requires Parse(head) == Some(value)
    ensures head != "" && DecodeList(head) == Some([value])
    ensures tail != "" && DecodeList(tail).Some? ==>
      DecodeList(head + "-" + tail) == Some([value] + DecodeList(tail).value)
  {
    assert '-' !in head;
    FindAfter(head, '-', "");
    assert head + "" == head && head[..|head|] == head;
    var text := head + "-" + tail;
    FindAfter(head, '-', "-" + tail);
    assert text == head + ("-" + tail);
    assert text[..|head|] == head && text[|head| + 1..] == tail;
  }

  lemma {:induction false} DecodeJoined(parts: seq<string>, choices: Choices)
    requires Reads(parts, choices)
    ensures DecodeList(Join(parts)) == Some(choices)
    ensures parts != [] ==> Join(parts) != ""
  {
    if parts == [] {
    } else {
      hide Parse, DecodeList;
      var tail := Join(parts[1..]);
      DecodeFirst(parts[0], choices[0], tail);
      assert choices == [choices[0]] + choices[1..];
      if |parts| > 1 {
        DecodeJoined(parts[1..], choices[1..]);
      } else {
        assert choices == [choices[0]];
      }
    }
  }

  lemma {:induction false} DecodedListSplits(rest: string) returns (parts: seq<string>)
    requires DecodeList(rest).Some?
    ensures Reads(parts, DecodeList(rest).value) && rest == Join(parts)
    decreases |rest|
  {
    hide Parse, Find, Join;
    if rest == "" {
      parts := [];
      JoinNothing();
    } else {
      var dash := Find(rest, '-');
      var head := rest[..dash];
      DecodeListStep(rest);
      if dash == |rest| {
        parts := [head];
        JoinOne(head);
      } else {
        var tail := rest[dash + 1..];
        var more := DecodedListSplits(tail);
        parts := [head] + more;
        ReadsOneMore(head, more, DecodeList(tail).value);
        assert rest == head + "-" + tail;
      }
    }
  }

  lemma JoinNothing()
    ensures Join([]) == ""
  {}

  lemma JoinOne(part: string)
    ensures Join([part]) == part
  {}

  lemma DecodeListStep(rest: string)
    requires rest != "" && DecodeList(rest).Some?
    ensures var dash := Find(rest, '-');
            && Parse(rest[..dash]).Some?
            && (dash == |rest| ==> rest[..dash] == rest && DecodeList(rest) == Some([Parse(rest).value]))
            && (dash < |rest| ==>
                  && rest[dash] == '-' && rest[dash + 1..] != ""
                  && DecodeList(rest[dash + 1..]).Some?
                  && DecodeList(rest).value == [Parse(rest[..dash]).value] + DecodeList(rest[dash + 1..]).value)
  {
    hide Parse, Find;
  }

  lemma ReadsOneMore(head: string, parts: seq<string>, choices: Choices)
    requires Parse(head).Some? && Reads(parts, choices) && parts != []
    ensures Reads([head] + parts, [Parse(head).value] + choices)
    ensures Join([head] + parts) == head + "-" + Join(parts)
  {
    hide Parse;
    assert ([head] + parts)[1..] == parts;
  }

  /** `token` is the prefix, a size, a dot, and numbers separated by single
      dashes, which stand for `d`. */
  ghost predicate Spells(token: string, size: string, parts: seq<string>, d: Decoded) {
    && token == PREFIX + size + "." + Join(parts)
    && Parse(size) == Some(d.size)
    && Reads(parts, d.choices)
  }

  lemma DecodeWellFormed(token: string, size: string, parts: seq<string>, d: Decoded)
    requires Spells(token, size, parts, d)
    ensures Decode(token) == if d.size <= MAXIMUM_SIZE then Some(d) else None
  {
    var text := token[|PREFIX|..];
    assert text == size + ("." + Join(parts));
    assert '.' !in size;
    FindAfter(size, '.', "." + Join(parts));
    assert text[..|size|] == size && text[|size| + 1..] == Join(parts);
    DecodeJoined(parts, d.choices);
  }

  lemma DecodedIsSpelled(token: string) returns (size: string, parts: seq<string>)
    requires Decode(token).Some?
    ensures Spells(token, size, parts, Decode(token).value)
  {
    hide Parse, DecodeList, Join, Find, Reads;
    var text := token[|PREFIX|..];
    var dot := Find(text, '.');
    size := text[..dot];
    parts := DecodedListSplits(text[dot + 1..]);
    assert token == PREFIX + (size + "." + text[dot + 1..]);
    assert PREFIX + (size + "." + text[dot + 1..]) == PREFIX + size + "." + text[dot + 1..];
  }

  /** The tokens the decoder accepts, and what it makes of them. */
  lemma DecodeAccepts(token: string, d: Decoded)
    ensures Decode(token) == Some(d) <==>
      d.size <= MAXIMUM_SIZE && exists size, parts :: Spells(token, size, parts, d)
  {
    if Decode(token) == Some(d) {
      var size, parts := DecodedIsSpelled(token);
    } else if exists size, parts :: Spells(token, size, parts, d) {
      var size, parts :| Spells(token, size, parts, d);
      DecodeWellFormed(token, size, parts, d);
    }
  }

  /** A token of a size within the decoder's limit reads back as it was written;
      one of a larger size is refused. */
  lemma RoundTrip(size: uint64, choices: Choices)
    ensures Decode(Encode(size, choices)) == if size <= MAXIMUM_SIZE then Some(Decoded(size, choices)) else None
  {
    ParseNumeral(size);
    forall i | 0 <= i < |choices|
      ensures Parse(Numerals(choices)[i]) == Some(choices[i])
    {
      ParseNumeral(choices[i]);
    }
    DecodeWellFormed(Encode(size, choices), ToChars(size as nat), Numerals(choices), Decoded(size, choices));
  }

  /** Different inputs have different tokens, and any accepted token means the
      same as the token its contents are written as. */
  lemma TokensAreFaithful(size: uint64, choices: Choices, token: string)
    requires size <= MAXIMUM_SIZE
    ensures token == Encode(size, choices) ==> Decode(token) == Some(Decoded(size, choices))
    ensures Decode(token).Some? ==>
      Decode(Encode(Decode(token).value.size, Decode(token).value.choices)) == Decode(token)
  {
    RoundTrip(size, choices);
    if Decode(token).Some? {
      RoundTrip(Decode(token).value.size, Decode(token).value.choices);
    }
  }

  /** The kind of token that the documentation shows. It shows one whose size is above
      the limit, which is refused. */
  lemma DocumentedTokens()
    ensures Encode(100, [0, 0, 100]) == "c3.2s.0-0-2s"
    ensures Decode("c3.2s.0-0-2s") == Some(Decoded(100, [0, 0, 100]))
    ensures Decode("c3.3c.0-0-2s") == None
  {
    hide Encode, Decode, Digit;
    DigitsAre(1, '0');
    DocumentedChoices();
    DocumentedSizes();
    EncodeIs(100, [0, 0, 100]);
    EncodeIs(120, [0, 0, 100]);
    assert PREFIX + "2s" + "." + "0-0-2s" == "c3.2s.0-0-2s";
    assert PREFIX + "3c" + "." + "0-0-2s" == "c3.3c.0-0-2s";
    RoundTrip(100, [0, 0, 100]);
    RoundTrip(120, [0, 0, 100]);
  }

  lemma EncodeIs(size: uint64, choices: Choices)
    ensures Encode(size, choices) == PREFIX + ToChars(size as nat) + "." + Join(Numerals(choices))
  {}

  lemma DocumentedSizes()
    ensures ToChars(0) == "0" && ToChars(100) == "2s" && ToChars(120) == "3c"
  {
    Base36(2, 28);
    Base36(3, 12);
    assert Digit(0) == '0' && Digit(2) == '2' && Digit(28) == 's' && Digit(3) == '3' && Digit(12) == 'c';
  }

  lemma DocumentedChoices()
    ensures Join(Numerals([0, 0, 100])) == "0-0-2s"
  {
    hide ToChars;
    DocumentedSizes();
    var parts := Numerals([0, 0, 100]);
    assert parts == ["0", "0", "2s"];
    assert parts[1..] == ["0", "2s"] && parts[1..][1..] == ["2s"];
    assert Join(["2s"]) == "2s" && Join(["0", "2s"]) == "0-2s";
  }

  lemma Base36(high: nat, low: nat)
    requires 0 < high < 36 && low < 36
    ensures ToChars(high * 36 + low) == [Digit(high), Digit(low)]
  {
    assert (high * 36 + low) / 36 == high && (high * 36 + low) % 36 == low;
    assert ToChars(high) == [Digit(high)];
  }
}
