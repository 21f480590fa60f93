/** Hexadecimal text of bytes: the effect of the `%x` / `%X` verbs on a byte
    slice and of `hex.DecodeString`, the two library routines the UUID codec
    relies on. Each byte is two digits, high nibble first. */
module Hex {

  datatype Option<T> = None | Some(value: T)

  predicate IsHexDigit(c: char) {
    '0' <= c <= '9' || 'a' <= c <= 'f' || 'A' <= c <= 'F'
  }

  predicate AllHex(s: string) {
    forall k :: 0 <= k < |s| ==> IsHexDigit(s[k])
  }

  /** The value of one hex digit; both letter cases are accepted. */
  function Val(c: char): (v: nat)
    requires IsHexDigit(c)
    ensures v < 16
    ensures '0' <= c <= '9' ==> v < 10
    ensures !('0' <= c <= '9') ==> 10 <= v
  {
    if '0' <= c <= '9' then c as nat - '0' as nat
    else if 'a' <= c <= 'f' then c as nat - 'a' as nat + 10
    else c as nat - 'A' as nat + 10
  }

  /** The digit for a nibble, with letters in the requested case. */
  function Digit(n: nat, upper: bool): (c: char)
    requires n < 16
    ensures IsHexDigit(c) && Val(c) == n
    ensures upper ==> !('a' <= c <= 'f')
    ensures !upper ==> !('A' <= c <= 'F')
  {
    if n < 10 then ('0' as nat + n) as char
    else if upper then ('A' as nat + n - 10) as char
    else ('a' as nat + n - 10) as char
  }

  function Hi(b: bv8): (n: nat)
    ensures n < 16
  {
    b as nat / 16
  }

  function Lo(b: bv8): (n: nat)
    ensures n < 16
  {
    b as nat % 16
  }

  /** The byte a pair of hex digits stands for. */
  function ByteOf(hi: char, lo: char): (b: bv8)
    requires IsHexDigit(hi) && IsHexDigit(lo)
    ensures Hi(b) == Val(hi) && Lo(b) == Val(lo)
  {
    var v := 16 * Val(hi) + Val(lo);
    SplitNibbles(Val(hi), Val(lo));
    v as bv8
  }

  lemma SplitNibbles(h: nat, l: nat)
    requires h < 16 && l < 16
    ensures 16 * h + l < 256
    ensures ((16 * h + l) as bv8) as nat == 16 * h + l
    ensures (16 * h + l) / 16 == h && (16 * h + l) % 16 == l
  {
  }

  /** ASCII lower-casing of one character; every other character is kept. */
  function LowerChar(c: char): (d: char)
    ensures !('A' <= d <= 'Z')
    ensures !('A' <= c <= 'Z') ==> d == c
  {
    if 'A' <= c <= 'Z' then (c as int + 32) as char else c
  }

  function ToLower(s: string): (t: string)
    ensures |t| == |s|
    ensures forall k :: 0 <= k < |s| ==> t[k] == LowerChar(s[k])
  {
    seq(|s|, k requires 0 <= k < |s| => LowerChar(s[k]))
  }

  /** `%x` (upper = false) or `%X` (upper = true) applied to a byte slice:
      digits 2i and 2i+1 are the high and low nibble of byte i. */
  function Encode(bs: seq<bv8>, upper: bool): (s: string)
    ensures |s| == 2 * |bs|
  {
    seq(2 * |bs|, k requires 0 <= k < 2 * |bs| =>
      if k % 2 == 0 then Digit(Hi(bs[k / 2]), upper) else Digit(Lo(bs[k / 2]), upper))
  }

  /** `hex.DecodeString`: None when the length is odd or some character is
      not a hex digit (the library's two error results). */
  function Decode(s: string): (r: Option<seq<bv8>>)
    ensures r.Some? ==> 2 * |r.value| == |s|
    decreases |s|
  {
    if |s| == 0 then Some([])
    else if |s| == 1 || !IsHexDigit(s[0]) || !IsHexDigit(s[1]) then None
    else match Decode(s[2..])
      case None => None
      case Some(rest) => Some([ByteOf(s[0], s[1])] + rest)
  }

  /** Digits 2i and 2i+1 of the encoding are the high and low nibble of byte i. */
  lemma EncodeAt(bs: seq<bv8>, upper: bool, i: nat)
    requires i < |bs|
    ensures Encode(bs, upper)[2 * i] == Digit(Hi(bs[i]), upper)
    ensures Encode(bs, upper)[2 * i + 1] == Digit(Lo(bs[i]), upper)
  {
    assert (2 * i) / 2 == i && (2 * i + 1) / 2 == i;
  }

  /** The encoding of a non-empty slice is the two digits of its first byte
      followed by the encoding of the rest. */
  lemma EncodeCons(bs: seq<bv8>, upper: bool)
    requires bs != []
    ensures Encode(bs, upper) ==
      [Digit(Hi(bs[0]), upper), Digit(Lo(bs[0]), upper)] + Encode(bs[1..], upper)
  {
    var e, r := Encode(bs, upper), Encode(bs[1..], upper);
    forall k | 2 <= k < |e| ensures e[k] == r[k - 2] {
      EncodeShift(bs, upper, k);
    }
    assert e[0] == Digit(Hi(bs[0]), upper) && e[1] == Digit(Lo(bs[0]), upper);
  }

  /** Digit k >= 2 of an encoding is digit k - 2 of the encoding of the tail. */
  lemma EncodeShift(bs: seq<bv8>, upper: bool, k: nat)
    requires 2 <= k < 2 * |bs|
    ensures Encode(bs, upper)[k] == Encode(bs[1..], upper)[k - 2]
  {
    assert (k - 2) / 2 == k / 2 - 1 && (k - 2) % 2 == k % 2;
    assert bs[1..][k / 2 - 1] == bs[k / 2];
  }

  /** Decoding succeeds exactly on even-length all-hex text. */
  lemma {:induction false} DecodeDefined(s: string)
    ensures Decode(s).Some? <==> |s| % 2 == 0 && AllHex(s)
    decreases |s|
  {
    if |s| >= 2 && IsHexDigit(s[0]) && IsHexDigit(s[1]) {
      DecodeDefined(s[2..]);
      if !AllHex(s[2..]) {
        var k :| 0 <= k < |s| - 2 && !IsHexDigit(s[2..][k]);
        assert !IsHexDigit(s[k + 2]);
      }
    }
  }

  /** Byte i of a successful decoding is the value of digits 2i and 2i+1. */
  lemma {:induction false} DecodeAt(s: string, i: nat)
    requires Decode(s).Some? && i < |Decode(s).value|
    ensures IsHexDigit(s[2 * i]) && IsHexDigit(s[2 * i + 1])
    ensures Decode(s).value[i] == ByteOf(s[2 * i], s[2 * i + 1])
    decreases i
  {
    if i > 0 {
      DecodeAt(s[2..], i - 1);
    }
  }

  /** Decoding inverts encoding, whatever the letter case. */
  lemma {:induction false} DecodeEncode(bs: seq<bv8>, upper: bool)
    ensures Decode(Encode(bs, upper)) == Some(bs)
    decreases |bs|
  {
    if bs != [] {
      var e := Encode(bs, upper);
      EncodeCons(bs, upper);
      assert e[2..] == Encode(bs[1..], upper);
      DecodeEncode(bs[1..], upper);
      ByteOfDigits(bs[0], upper);
      assert [bs[0]] + bs[1..] == bs;
    }
  }

  /** Encoding in lower case inverts decoding up to letter case. */
  lemma {:induction false} EncodeDecode(s: string, bs: seq<bv8>)
    requires Decode(s) == Some(bs)
    ensures Encode(bs, false) == ToLower(s)
    decreases |s|
  {
    if |s| != 0 {
      var rest := Decode(s[2..]).value;
      EncodeDecode(s[2..], rest);
      EncodeCons(bs, false);
      DigitOfVal(s[0]);
      DigitOfVal(s[1]);
      assert bs[1..] == rest;
      ToLowerCons(s);
    }
  }

  /** Lower-casing a text of two or more characters, two characters at a time. */
  lemma ToLowerCons(s: string)
    requires |s| >= 2
    ensures ToLower(s) == [LowerChar(s[0]), LowerChar(s[1])] + ToLower(s[2..])
  {
    var t := ToLower(s);
    assert forall k :: 2 <= k < |s| ==> t[k] == ToLower(s[2..])[k - 2];
  }

  /** A byte is determined by its two nibbles. */
  lemma NibblesDetermineByte(a: bv8, b: bv8)
    requires Hi(a) == Hi(b) && Lo(a) == Lo(b)
    ensures a == b
  {
    assert a as nat == 16 * Hi(a) + Lo(a);
    assert b as nat == 16 * Hi(b) + Lo(b);
  }

  /** The two digits written for a byte read back as that byte. */
  lemma ByteOfDigits(b: bv8, upper: bool)
    ensures ByteOf(Digit(Hi(b), upper), Digit(Lo(b), upper)) == b
  {
    NibblesDetermineByte(ByteOf(Digit(Hi(b), upper), Digit(Lo(b), upper)), b);
  }

  /** Re-rendering a digit in lower case lower-cases it. */
  lemma DigitOfVal(c: char)
    requires IsHexDigit(c)
    ensures Digit(Val(c), false) == LowerChar(c)
  {
  }
}
