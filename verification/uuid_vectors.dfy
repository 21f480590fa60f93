/** The literal identifier 6ba7b810-9dad-11d1-80b4-00c04fd430c8 through every
    operation of the codec. */
module UuidVectors {
  import Uuid
  import Hex

  const Bytes: Uuid.UUID :=
    [0x6b, 0xa7, 0xb8, 0x10, 0x9d, 0xad, 0x11, 0xd1,
     0x80, 0xb4, 0x00, 0xc0, 0x4f, 0xd4, 0x30, 0xc8]

  const Lower: string := "6ba7b810-9dad-11d1-80b4-00c04fd430c8"
  const Upper: string := "6BA7B810-9DAD-11D1-80B4-00C04FD430C8"

  /** FromBytes keeps the buffer. */
  lemma FromBytesVector()
    ensures Uuid.FromBytes(Bytes) == Uuid.Ok(Bytes)
  {
  }

  /** The four renderings of the identifier. */
  lemma FormatVectors()
    ensures Uuid.String(Bytes) == Lower
    ensures Uuid.Format(Bytes, Uuid.WithBraces) == "{" + Lower + "}"
    ensures Uuid.Format(Bytes, Uuid.UpperCase) == Upper
    ensures Uuid.Format(Bytes, Uuid.WithBraces | Uuid.UpperCase) == "{" + Upper + "}"
  {
    LowerFields();
    UpperFields();
  }

  lemma LowerFields()
    ensures Uuid.Fields(Bytes, false) == Lower
  {
    var e0, e1, e2 := Hex.Encode(Bytes[0..4], false), Hex.Encode(Bytes[4..6], false), Hex.Encode(Bytes[6..8], false);
    var e3, e4 := Hex.Encode(Bytes[8..10], false), Hex.Encode(Bytes[10..16], false);
    Group0(); Group1(); Group2(); Group3(); Group4();
    LowerText();
    assert Uuid.Fields(Bytes, false) == e0 + "-" + e1 + "-" + e2 + "-" + e3 + "-" + e4;
  }

  lemma UpperFields()
    ensures Uuid.Fields(Bytes, true) == Upper
  {
    var e0, e1, e2 := Hex.Encode(Bytes[0..4], true), Hex.Encode(Bytes[4..6], true), Hex.Encode(Bytes[6..8], true);
    var e3, e4 := Hex.Encode(Bytes[8..10], true), Hex.Encode(Bytes[10..16], true);
    Group0(); Group1(); Group2(); Group3(); Group4();
    UpperText();
    assert Uuid.Fields(Bytes, true) == e0 + "-" + e1 + "-" + e2 + "-" + e3 + "-" + e4;
  }

  // Only a literal concatenation, stated apart so that the caller's proof stays small.
  lemma LowerText()
    ensures Lower == "6ba7b810" + "-" + "9dad" + "-" + "11d1" + "-" + "80b4" + "-" + "00c04fd430c8"
  {
  }

  // Only a literal concatenation, stated apart so that the caller's proof stays small.
  lemma UpperText()
    ensures Upper == "6BA7B810" + "-" + "9DAD" + "-" + "11D1" + "-" + "80B4" + "-" + "00C04FD430C8"
  {
  }

  /** Bytes 0..3 in hex. */
  lemma Group0()
    ensures Hex.Encode(Bytes[0..4], false) == "6ba7b810"
    ensures Hex.Encode(Bytes[0..4], true) == "6BA7B810"
  {
    var p, q := [0x6b, 0xa7], [0xb8, 0x10];
    assert Bytes[0..4] == p + q;
    Spell6ba7();
    Spellb810();
    SpellTwo(p, q, false);
    SpellTwo(p, q, true);
    Group0Text();
  }

  // Only a literal concatenation, stated apart so that the caller's proof stays small.
  lemma Group0Text()
    ensures "6ba7" + "b810" == "6ba7b810" && "6BA7" + "B810" == "6BA7B810"
  {
  }

  /** Bytes 4..5 in hex. */
  lemma Group1()
    ensures Hex.Encode(Bytes[4..6], false) == "9dad"
    ensures Hex.Encode(Bytes[4..6], true) == "9DAD"
  {
    assert Bytes[4..6] == [0x9d, 0xad];
    EncodeDigits([0x9d, 0xad], false);
    EncodeDigits([0x9d, 0xad], true);
  }

  /** Bytes 6..7 in hex. */
  lemma Group2()
    ensures Hex.Encode(Bytes[6..8], false) == "11d1"
    ensures Hex.Encode(Bytes[6..8], true) == "11D1"
  {
    assert Bytes[6..8] == [0x11, 0xd1];
    EncodeDigits([0x11, 0xd1], false);
    EncodeDigits([0x11, 0xd1], true);
  }

  /** Bytes 8..9 in hex. */
  lemma Group3()
    ensures Hex.Encode(Bytes[8..10], false) == "80b4"
    ensures Hex.Encode(Bytes[8..10], true) == "80B4"
  {
    assert Bytes[8..10] == [0x80, 0xb4];
    EncodeDigits([0x80, 0xb4], false);
    EncodeDigits([0x80, 0xb4], true);
  }

  /** Bytes 10..15 in hex. */
  lemma Group4()
    ensures Hex.Encode(Bytes[10..16], false) == "00c04fd430c8"
    ensures Hex.Encode(Bytes[10..16], true) == "00C04FD430C8"
  {
    var p, q, r := [0x00, 0xc0], [0x4f, 0xd4], [0x30, 0xc8];
    assert Bytes[10..16] == p + (q + r);
    Spell00c0();
    Spell4fd4();
    Spell30c8();
    SpellTwo(q, r, false);
    SpellTwo(q, r, true);
    SpellTwo(p, q + r, false);
    SpellTwo(p, q + r, true);
    Group4Text();
  }

  // Only a literal concatenation, stated apart so that the caller's proof stays small.
  lemma Group4Text()
    ensures "00c0" + ("4fd4" + "30c8") == "00c04fd430c8"
    ensures "00C0" + ("4FD4" + "30C8") == "00C04FD430C8"
  {
  }

  /** The encoding of a concatenation, from the spelling of its halves. */
  lemma SpellTwo(p: seq<bv8>, q: seq<bv8>, upper: bool)
    ensures Hex.Encode(p + q, upper) == Digits(p, upper) + Digits(q, upper)
  {
    EncodeDigits(p + q, upper);
    DigitsAppend(p, q, upper);
  }

  lemma Spell6ba7()
    ensures Digits([0x6b, 0xa7], false) == "6ba7" && Digits([0x6b, 0xa7], true) == "6BA7"
  {
  }

  lemma Spellb810()
    ensures Digits([0xb8, 0x10], false) == "b810" && Digits([0xb8, 0x10], true) == "B810"
  {
  }

  lemma Spell00c0()
    ensures Digits([0x00, 0xc0], false) == "00c0" && Digits([0x00, 0xc0], true) == "00C0"
  {
  }

  lemma Spell4fd4()
    ensures Digits([0x4f, 0xd4], false) == "4fd4" && Digits([0x4f, 0xd4], true) == "4FD4"
  {
  }

  lemma Spell30c8()
    ensures Digits([0x30, 0xc8], false) == "30c8" && Digits([0x30, 0xc8], true) == "30C8"
  {
  }

  /** A second, recursive spelling of Hex.Encode, two digits per byte,
      kept only so that the literal vectors unfold one byte at a time;
      EncodeDigits proves the two agree. */
  function Digits(bs: seq<bv8>, upper: bool): (s: string)
    ensures |s| == 2 * |bs|
  {
    if bs == [] then []
    else [Hex.Digit(Hex.Hi(bs[0]), upper), Hex.Digit(Hex.Lo(bs[0]), upper)] + Digits(bs[1..], upper)
  }

  lemma {:induction false} EncodeDigits(bs: seq<bv8>, upper: bool)
    ensures Hex.Encode(bs, upper) == Digits(bs, upper)
    decreases |bs|
  {
    if bs != [] {
      Hex.EncodeCons(bs, upper);
      EncodeDigits(bs[1..], upper);
    }
  }

  lemma {:induction false} DigitsAppend(a: seq<bv8>, b: seq<bv8>, upper: bool)
    ensures Digits(a + b, upper) == Digits(a, upper) + Digits(b, upper)
    decreases |a|
  {
    if a == [] {
      assert a + b == b;
    } else {
      assert (a + b)[0] == a[0] && (a + b)[1..] == a[1..] + b;
      DigitsAppend(a[1..], b, upper);
    }
  }

  /** Both accepted forms of the text parse to the identifier. */
  lemma ParseVectors()
    ensures Uuid.Parse(Lower) == Uuid.Ok(Bytes)
    ensures Uuid.Parse("{" + Lower + "}") == Uuid.Ok(Bytes)
    ensures Uuid.Parse(Upper) == Uuid.Ok(Bytes)
  {
    FormatVectors();
    Uuid.ParseFormat(Bytes, Uuid.None);
    Uuid.ParseFormat(Bytes, Uuid.WithBraces);
    Uuid.ParseFormat(Bytes, Uuid.UpperCase);
  }

  /** A 38-character text opened by '{' and closed by ']' is accepted as
      written, and refused by the reading that needs both braces. */
  lemma SingleBraceVector()
    ensures Uuid.Parse("{" + Lower + "]") == Uuid.Ok(Bytes)
    ensures Uuid.ParseStrict("{" + Lower + "]") == Uuid.Err(Uuid.InvalidFormat)
  {
    FormatVectors();
    Uuid.ParseAcceptsSingleBrace(Bytes, ']');
  }

  /** Texts of 35 and 37 characters are refused for their length. */
  lemma LengthVectors()
    ensures Uuid.Parse(Lower[..35]) == Uuid.Err(Uuid.InvalidLength)
    ensures Uuid.Parse(Lower + "0") == Uuid.Err(Uuid.InvalidLength)
  {
  }
}
