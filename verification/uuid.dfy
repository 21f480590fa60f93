/** A 128-bit UUID and its codec: construction from 16 bytes, parsing and
    formatting of the 8-4-4-4-12 hexadecimal text (optionally in braces,
    optionally upper-case), and the version-4 stamping of a random value. */
module Uuid {
  import Hex
  import Strings

  /** Sixteen bytes, compared byte for byte. */
  type UUID = s: seq<bv8> | |s| == 16
    witness [0, 0, 0, 0, 0, 0, 0, 0, 0, 0, 0, 0, 0, 0, 0, 0]

  /** Which check failed; the text of the messages is not modelled. */
  datatype Error = InvalidLength | InvalidFormat | InvalidHexDigit | EntropyUnavailable

  datatype Result<+T> = Ok(value: T) | Err(error: Error)

  /** The formatting flags, a machine integer combined with `|`. */
  type FmtFlags = bv64

  const None: FmtFlags := 0
  const WithBraces: FmtFlags := 2
  const UpperCase: FmtFlags := 4

  /** The brace flag is bit 1 of the integer. */
  predicate HasBraces(flags: FmtFlags)
  {
    flags & WithBraces == WithBraces
  }

  /** The upper-case flag is bit 2 of the integer. */
  predicate IsUpper(flags: FmtFlags)
  {
    flags & UpperCase == UpperCase
  }

  // ---------------------------------------------------------------------
  // Layout of the 36-character text
  // ---------------------------------------------------------------------

  /** The four hyphen positions of the 8-4-4-4-12 grouping. */
  predicate IsHyphenIndex(p: int) {
    p == 8 || p == 13 || p == 18 || p == 23
  }

  /** Position, in the 36-character text, of hex digit k. */
  function DigitIndex(k: nat): (p: nat)
    requires k < 32
    ensures p < 36 && !IsHyphenIndex(p)
  {
    k + (if k >= 8 then 1 else 0) + (if k >= 12 then 1 else 0)
      + (if k >= 16 then 1 else 0) + (if k >= 20 then 1 else 0)
  }

  /** Which hex digit sits at a non-hyphen position of the 36-character text. */
  function DigitNumber(p: nat): (k: nat)
    requires p < 36 && !IsHyphenIndex(p)
    ensures k < 32 && DigitIndex(k) == p
  {
    p - (if p > 8 then 1 else 0) - (if p > 13 then 1 else 0)
      - (if p > 18 then 1 else 0) - (if p > 23 then 1 else 0)
  }

  lemma DigitNumberIndex(k: nat)
    requires k < 32
    ensures DigitNumber(DigitIndex(k)) == k
  {
  }

  /** 36 characters with hyphens at positions 8, 13, 18, 23 and nowhere else. */
  predicate HyphenLayout(t: string) {
    |t| == 36 && forall p :: 0 <= p < 36 ==> (t[p] == '-' <==> IsHyphenIndex(p))
  }

  predicate DigitsAreHex(t: string)
    requires |t| == 36
  {
    forall k :: 0 <= k < 32 ==> Hex.IsHexDigit(t[DigitIndex(k)])
  }

  /** The identifier whose byte i is written by digits 2i and 2i+1. */
  function DigitsValue(t: string): (u: UUID)
    requires |t| == 36 && DigitsAreHex(t)
  {
    seq(16, i requires 0 <= i < 16 =>
      Hex.ByteOf(t[DigitIndex(2 * i)], t[DigitIndex(2 * i + 1)]))
  }

  /** Hex digit k of an identifier's text: the high (k even) or low (k odd)
      nibble of byte k / 2. */
  function Nibble(u: UUID, k: nat): (n: nat)
    requires k < 32
    ensures n < 16
  {
    if k % 2 == 0 then Hex.Hi(u[k / 2]) else Hex.Lo(u[k / 2])
  }

  /** The canonical text: the layout above with lower-case digits only. */
  predicate IsCanonical(t: string) {
    && HyphenLayout(t)
    && forall k :: 0 <= k < 32 ==>
         ('0' <= t[DigitIndex(k)] <= '9' || 'a' <= t[DigitIndex(k)] <= 'f')
  }

  // ---------------------------------------------------------------------
  // FromBytes
  // ---------------------------------------------------------------------

  /** A copy of a 16-byte buffer; any other length is refused. */
  function FromBytes(bytes: seq<bv8>): (r: Result<UUID>)
    ensures r.Err? <==> |bytes| != 16
    ensures r.Err? ==> r.error == InvalidLength
    ensures r.Ok? ==> forall i :: 0 <= i < 16 ==> r.value[i] == bytes[i]
  {
    if |bytes| != 16 then Err(InvalidLength) else Ok(bytes)
  }

  // ---------------------------------------------------------------------
  // Format and String
  // ---------------------------------------------------------------------

  /** The five groups of bytes 0-3, 4-5, 6-7, 8-9 and 10-15 in hex,
      joined by hyphens. */
  function Fields(u: UUID, upper: bool): (s: string)
    ensures |s| == 36
  {
    Hex.Encode(u[0..4], upper) + "-" + Hex.Encode(u[4..6], upper) + "-"
      + Hex.Encode(u[6..8], upper) + "-" + Hex.Encode(u[8..10], upper) + "-"
      + Hex.Encode(u[10..16], upper)
  }

  /** The text of `u` under `flags`: braces and upper-case letters are each
      selected by their own bit; every other bit is ignored. */
  function Format(u: UUID, flags: FmtFlags): (s: string)
    ensures |s| == if HasBraces(flags) then 38 else 36
    ensures HasBraces(flags) ==> s[0] == '{' && s[37] == '}'
  {
    var body := Fields(u, IsUpper(flags));
    if HasBraces(flags) then "{" + body + "}" else body
  }

  /** The canonical (lower-case, unbraced) text. */
  function String(u: UUID): (s: string)
    ensures IsCanonical(s)
  {
    FormatCanonical(u);
    Format(u, None)
  }

  /** Digit o of the hex text of bytes a..b is hex digit 2a + o of `u`. */
  lemma PieceAt(u: UUID, upper: bool, a: nat, b: nat, o: nat)
    requires a < b <= 16 && o < 2 * (b - a)
    ensures Hex.Encode(u[a..b], upper)[o] == Hex.Digit(Nibble(u, 2 * a + o), upper)
  {
    assert (2 * a + o) / 2 == a + o / 2 && (2 * a + o) % 2 == o % 2;
    assert u[a..b][o / 2] == u[a + o / 2];
    Hex.EncodeAt(u[a..b], upper, o / 2);
  }

  /** Each position of the unbraced text, by the group it falls in. */
  lemma FieldsPiece(u: UUID, upper: bool, p: nat)
    requires p < 36
    ensures Fields(u, upper)[p] ==
      if p < 8 then Hex.Encode(u[0..4], upper)[p]
      else if p < 13 then (if p == 8 then '-' else Hex.Encode(u[4..6], upper)[p - 9])
      else if p < 18 then (if p == 13 then '-' else Hex.Encode(u[6..8], upper)[p - 14])
      else if p < 23 then (if p == 18 then '-' else Hex.Encode(u[8..10], upper)[p - 19])
      else if p == 23 then '-' else Hex.Encode(u[10..16], upper)[p - 24]
  {
    var e0, e1, e2 := Hex.Encode(u[0..4], upper), Hex.Encode(u[4..6], upper), Hex.Encode(u[6..8], upper);
    var e3, e4 := Hex.Encode(u[8..10], upper), Hex.Encode(u[10..16], upper);
    var front := e0 + "-" + e1 + "-";
    var back := e2 + "-" + e3 + "-" + e4;
    assert Fields(u, upper) == front + back;
    if p < 14 {
      assert Fields(u, upper)[p] == front[p];
    } else {
      assert Fields(u, upper)[p] == back[p - 14];
    }
  }

  /** Every position of the 36-character text: a hyphen at the four hyphen
      positions, elsewhere the digit for the nibble that belongs there. */
  lemma FieldsAt(u: UUID, upper: bool, p: nat)
    requires p < 36
    ensures IsHyphenIndex(p) ==> Fields(u, upper)[p] == '-'
    ensures !IsHyphenIndex(p) ==>
      Fields(u, upper)[p] == Hex.Digit(Nibble(u, DigitNumber(p)), upper)
  {
    if IsHyphenIndex(p) {
      FieldsPiece(u, upper, p);
    } else {
      FieldsDigitAt(u, upper, DigitNumber(p));
    }
  }

  /** Hex digit k of `u` sits at position DigitIndex(k) of the text. */
  lemma FieldsDigitAt(u: UUID, upper: bool, k: nat)
    requires k < 32
    ensures Fields(u, upper)[DigitIndex(k)] == Hex.Digit(Nibble(u, k), upper)
  {
    var p := DigitIndex(k);
    FieldsPiece(u, upper, p);
    if k < 8 {
      PieceAt(u, upper, 0, 4, k);
    } else if k < 12 {
      PieceAt(u, upper, 4, 6, k - 8);
    } else if k < 16 {
      PieceAt(u, upper, 6, 8, k - 12);
    } else if k < 20 {
      PieceAt(u, upper, 8, 10, k - 16);
    } else {
      PieceAt(u, upper, 10, 16, k - 20);
    }
  }

  /** The unbraced text has the hyphen layout and carries digit k of `u` at
      position DigitIndex(k). */
  lemma FieldsLayout(u: UUID, upper: bool)
    ensures HyphenLayout(Fields(u, upper))
    ensures forall k :: 0 <= k < 32 ==>
      Fields(u, upper)[DigitIndex(k)] == Hex.Digit(Nibble(u, k), upper)
  {
    forall p | 0 <= p < 36
      ensures Fields(u, upper)[p] == '-' <==> IsHyphenIndex(p)
    {
      FieldsAt(u, upper, p);
    }
    forall k | 0 <= k < 32
      ensures Fields(u, upper)[DigitIndex(k)] == Hex.Digit(Nibble(u, k), upper)
    {
      FieldsAt(u, upper, DigitIndex(k));
      DigitNumberIndex(k);
    }
  }

  /** Every character of the formatted text, stated position by position. */
  lemma FormatAt(u: UUID, flags: FmtFlags, p: nat)
    requires p < |Format(u, flags)|
    ensures var q := if HasBraces(flags) then p - 1 else p;
      Format(u, flags)[p] ==
        if HasBraces(flags) && p == 0 then '{'
        else if HasBraces(flags) && p == 37 then '}'
        else if IsHyphenIndex(q) then '-'
        else Hex.Digit(Nibble(u, DigitNumber(q)), IsUpper(flags))
  {
    var q := if HasBraces(flags) then p - 1 else p;
    if !(HasBraces(flags) && (p == 0 || p == 37)) {
      FieldsAt(u, IsUpper(flags), q);
    }
  }

  lemma FormatCanonical(u: UUID)
    ensures IsCanonical(Format(u, None))
  {
    assert !HasBraces(None) && !IsUpper(None);
    FieldsLayout(u, false);
  }

  /** The braces bit only adds the braces around the same text. */
  lemma FormatBracesIndependent(u: UUID, flags: FmtFlags)
    ensures Format(u, flags | WithBraces) == "{" + Format(u, flags & !WithBraces) + "}"
  {
    assert HasBraces(flags | WithBraces) && !HasBraces(flags & !WithBraces);
    assert IsUpper(flags | WithBraces) == IsUpper(flags & !WithBraces);
  }

  predicate NoLowerCaseLetter(s: string) {
    forall p :: 0 <= p < |s| ==> !('a' <= s[p] <= 'z')
  }

  /** The upper-case bit only changes the case of the letters: the upper-case
      text has no lower-case letter and lower-cases to the other text. */
  lemma FormatCaseIndependent(u: UUID, flags: FmtFlags)
    ensures |Format(u, flags | UpperCase)| == |Format(u, flags & !UpperCase)|
    ensures NoLowerCaseLetter(Format(u, flags | UpperCase))
    ensures Hex.ToLower(Format(u, flags | UpperCase)) == Format(u, flags & !UpperCase)
  {
    var hi, lo := flags | UpperCase, flags & !UpperCase;
    assert IsUpper(hi) && !IsUpper(lo) && HasBraces(hi) == HasBraces(lo);
    var s, t := Format(u, hi), Format(u, lo);
    forall p | 0 <= p < |s|
      ensures !('a' <= s[p] <= 'z') && Hex.LowerChar(s[p]) == t[p]
    {
      FormatAt(u, hi, p);
      FormatAt(u, lo, p);
      var q := if HasBraces(hi) then p - 1 else p;
      if !(HasBraces(hi) && (p == 0 || p == 37)) && !IsHyphenIndex(q) {
        var n := Nibble(u, DigitNumber(q));
        assert s[p] == Hex.Digit(n, true) && t[p] == Hex.Digit(n, false);
      }
    }
  }

  /** Bits other than WithBraces and UpperCase do not affect the text. */
  lemma FormatIgnoresOtherBits(u: UUID, flags: FmtFlags)
    ensures Format(u, flags) == Format(u, flags & (WithBraces | UpperCase))
  {
    var m := flags & (WithBraces | UpperCase);
    assert HasBraces(flags) == HasBraces(m) && IsUpper(flags) == IsUpper(m);
  }

  // ---------------------------------------------------------------------
  // Parse
  // ---------------------------------------------------------------------

  /** The 36 characters that remain after the sentinel check: characters
      1..36 of a 38-character text, or the whole text. */
  function Body(value: string): (t: string)
    requires |value| == 36 || |value| == 38
    ensures |t| == 36
    ensures value == if |value| == 38 then [value[0]] + t + [value[37]] else t
  {
    if |value| == 38 then value[1..37] else value
  }

  /** Five groups of 8, 4, 4, 4 and 12 characters: together the 32 digits. */
  predicate PartsShapeOk(parts: seq<string>)
    ensures PartsShapeOk(parts) ==> |Strings.Join(parts, "")| == 32
  {
    if |parts| != 5 then false
    else
      Strings.JoinFive(parts);
      && |parts[0]| == 8 && |parts[1]| == 4 && |parts[2]| == 4
      && |parts[3]| == 4 && |parts[4]| == 12
  }

  /** The stage of Parse after the sentinels: split on '-', check the group
      lengths, join the groups and decode them as hex. */
  function ParseBody(t: string): (r: Result<UUID>)
    requires |t| == 36
    ensures r.Err? ==> r.error == InvalidFormat || r.error == InvalidHexDigit
  {
    var parts := Strings.Split(t, '-');
    if !PartsShapeOk(parts) then Err(InvalidFormat)
    else
      var hexstr := Strings.Join(parts, "");
      Strings.JoinFive(parts);
      match Hex.Decode(hexstr)
      // Hex.Option's None, not the flag constant of the same name
      case None => Err(InvalidHexDigit)
      case Some(bytes) => Ok(bytes)
  }

  /** Parse as written: the length check, then the brace sentinels (refused
      only when BOTH are wrong), then the groups, then the digits. */
  function Parse(value: string): (r: Result<UUID>)
    ensures r == Err(InvalidLength) <==> |value| != 36 && |value| != 38
  {
    if |value| != 36 && |value| != 38 then Err(InvalidLength)
    else if |value| == 38 && value[0] != '{' && value[37] != '}' then Err(InvalidFormat)
    else ParseBody(Body(value))
  }

  /** Parse with the sentinel check that requires both braces. */
  function ParseStrict(value: string): (r: Result<UUID>)
    ensures r == Err(InvalidLength) <==> |value| != 36 && |value| != 38
    ensures r.Ok? && |value| == 38 ==> value[0] == '{' && value[37] == '}'
  {
    if |value| != 36 && |value| != 38 then Err(InvalidLength)
    else if |value| == 38 && (value[0] != '{' || value[37] != '}') then Err(InvalidFormat)
    else ParseBody(Body(value))
  }

  /** Splitting a 36-character text on '-' gives groups of 8, 4, 4, 4 and 12
      characters exactly when its hyphens are at 8, 13, 18, 23 and nowhere
      else; the groups are then the runs between those positions. */
  lemma SplitLayout(t: string)
    requires |t| == 36
    ensures PartsShapeOk(Strings.Split(t, '-')) <==> HyphenLayout(t)
    ensures HyphenLayout(t) ==>
      Strings.Split(t, '-') == [t[..8], t[9..13], t[14..18], t[19..23], t[24..]]
  {
    if HyphenLayout(t) {
      SplitOfLayout(t);
    }
    if PartsShapeOk(Strings.Split(t, '-')) {
      LayoutOfSplit(t);
    }
  }

  lemma SplitOfLayout(t: string)
    requires HyphenLayout(t)
    ensures Strings.Split(t, '-') == [t[..8], t[9..13], t[14..18], t[19..23], t[24..]]
  {
    SplitOfLayoutNested(t);
    FiveParts(t[..8], t[9..13], t[14..18], t[19..23], t[24..]);
  }

  // Only a sequence display written out, stated apart so that the caller's proof stays small.
  lemma FiveParts(a: string, b: string, c: string, d: string, e: string)
    ensures [a] + ([b] + ([c] + ([d] + [e]))) == [a, b, c, d, e]
  {
  }

  lemma SplitOfLayoutNested(t: string)
    requires HyphenLayout(t)
    ensures Strings.Split(t, '-') ==
      [t[..8]] + ([t[9..13]] + ([t[14..18]] + ([t[19..23]] + [t[24..]])))
  {
    SplitOfLayoutTail(t);
    SplitGroup(t, 9, 4);
    Strings.SplitAtFirst(t, '-', 8);
  }

  /** The last three groups of a well-laid-out text. */
  lemma SplitOfLayoutTail(t: string)
    requires HyphenLayout(t)
    ensures Strings.Split(t[14..], '-') == [t[14..18]] + ([t[19..23]] + [t[24..]])
  {
    var t4 := t[24..];
    assert forall j :: 0 <= j < 12 ==> t4[j] == t[24 + j];
    Strings.SplitNoSeparator(t4, '-');
    var s4 := Strings.Split(t4, '-');
    assert s4 == [t4];
    SplitGroup(t, 19, 4);
    var s3 := Strings.Split(t[19..], '-');
    assert s3 == [t[19..23]] + s4;
    SplitGroup(t, 14, 4);
  }

  /** One group: the characters from `st` up to the next hyphen, which
      sits at st + len. */
  lemma SplitGroup(t: string, st: nat, len: nat)
    requires st + len < |t| && t[st + len] == '-'
    requires forall j :: st <= j < st + len ==> t[j] != '-'
    ensures Strings.Split(t[st..], '-') == [t[st..st + len]] + Strings.Split(t[st + len + 1..], '-')
  {
    var s := t[st..];
    assert forall j :: 0 <= j < len ==> s[j] == t[st + j];
    Strings.SplitAtFirst(s, '-', len);
    assert s[..len] == t[st..st + len];
    assert s[len + 1..] == t[st + len + 1..];
  }

  lemma LayoutOfSplit(t: string)
    requires |t| == 36 && PartsShapeOk(Strings.Split(t, '-'))
    ensures HyphenLayout(t)
  {
    var parts := Strings.Split(t, '-');
    assert t[0..] == t;
    GroupOfSplit(t, 0, 8, parts);
    GroupOfSplit(t, 9, 4, parts[1..]);
    GroupOfSplit(t, 14, 4, parts[2..]);
    GroupOfSplit(t, 19, 4, parts[3..]);
    var t4 := t[24..];
    assert Strings.Split(t4, '-') == parts[4..];
    Strings.SplitSingle(t4, '-');
    forall p | 24 <= p < 36 ensures t[p] != '-' {
      assert t[p] == t4[p - 24];
    }
  }

  /** Reading one group back from a split: when the split of the text from
      `st` on has a first piece of length `len` and more pieces after it, a
      hyphen sits at st + len and none before it from `st`. */
  lemma GroupOfSplit(t: string, st: nat, len: nat, parts: seq<string>)
    requires |t| == 36 && st <= 36
    requires parts == Strings.Split(t[st..], '-') && |parts| > 1 && |parts[0]| == len
    ensures st + len < 36 && t[st + len] == '-'
    ensures forall j :: st <= j < st + len ==> t[j] != '-'
    ensures parts[1..] == Strings.Split(t[st + len + 1..], '-')
  {
    var s := t[st..];
    Strings.SplitFront(s, '-');
    var i := Strings.IndexOf(s, '-');
    assert |s[..i]| == len;
    forall j | st <= j < st + len ensures t[j] != '-' {
      assert t[j] == s[j - st];
    }
    assert s[len + 1..] == t[st + len + 1..];
  }

  /** The joined groups of a well-laid-out text carry digit k at position k. */
  lemma JoinedDigitsAt(t: string, k: nat)
    requires HyphenLayout(t) && k < 32
    ensures var h := t[..8] + t[9..13] + t[14..18] + t[19..23] + t[24..];
      |h| == 32 && h[k] == t[DigitIndex(k)]
  {
  }

  /** ParseBody against a position-by-position reading of the text. */
  lemma {:induction false} ParseBodySpec(t: string)
    requires |t| == 36
    ensures ParseBody(t) ==
      if !HyphenLayout(t) then Err(InvalidFormat)
      else if !DigitsAreHex(t) then Err(InvalidHexDigit)
      else Ok(DigitsValue(t))
  {
    SplitLayout(t);
    if HyphenLayout(t) {
      var parts := Strings.Split(t, '-');
      Strings.JoinFive(parts);
      var h := Strings.Join(parts, "");
      assert h == t[..8] + t[9..13] + t[14..18] + t[19..23] + t[24..];
      forall k | 0 <= k < 32 ensures |h| == 32 && h[k] == t[DigitIndex(k)] {
        JoinedDigitsAt(t, k);
      }
      Hex.DecodeDefined(h);
      if DigitsAreHex(t) {
        assert Hex.AllHex(h);
        var bs := Hex.Decode(h).value;
        assert |bs| == 16;
        forall i | 0 <= i < 16 ensures bs[i] == DigitsValue(t)[i] {
          Hex.DecodeAt(h, i);
        }
        assert bs == DigitsValue(t);
        assert ParseBody(t) == Ok(bs);
      } else {
        var k :| 0 <= k < 32 && !Hex.IsHexDigit(t[DigitIndex(k)]);
        assert !Hex.IsHexDigit(h[k]);
      }
    }
  }

  /** Parse, stated check by check over positions of the text. */
  lemma ParseSpec(value: string)
    ensures Parse(value) ==
      if |value| != 36 && |value| != 38 then Err(InvalidLength)
      else if |value| == 38 && value[0] != '{' && value[37] != '}' then Err(InvalidFormat)
      else if !HyphenLayout(Body(value)) then Err(InvalidFormat)
      else if !DigitsAreHex(Body(value)) then Err(InvalidHexDigit)
      else Ok(DigitsValue(Body(value)))
  {
    if |value| == 36 || |value| == 38 {
      ParseBodySpec(Body(value));
    }
  }

  /** A 38-character text is refused for its sentinels only when neither
      brace is in place; otherwise characters 1..36 are parsed, whatever the
      sentinels are. */
  lemma ParseBraces(value: string)
    requires |value| == 38
    ensures value[0] != '{' && value[37] != '}' ==> Parse(value) == Err(InvalidFormat)
    ensures value[0] == '{' || value[37] == '}' ==> Parse(value) == Parse(value[1..37])
  {
  }

  /** After the sentinels, Parse refuses a text with a hyphen out of place as
      a format error, before looking at its digits. */
  lemma ParseHyphens(value: string)
    requires |value| == 36 || (|value| == 38 && (value[0] == '{' || value[37] == '}'))
    ensures !HyphenLayout(Body(value)) <==> Parse(value) == Err(InvalidFormat)
  {
    ParseSpec(value);
  }

  /** Parse succeeds exactly when every one of the 32 digit positions holds a
      hex digit of either case (on top of the length, sentinel and hyphen
      checks), and byte i is then the value of digits 2i and 2i+1. */
  lemma ParseDigits(value: string)
    ensures Parse(value).Ok? <==>
      && (|value| == 36 || (|value| == 38 && (value[0] == '{' || value[37] == '}')))
      && HyphenLayout(Body(value)) && DigitsAreHex(Body(value))
    ensures Parse(value).Ok? ==> forall i :: 0 <= i < 16 ==>
      && Hex.Hi(Parse(value).value[i]) == Hex.Val(Body(value)[DigitIndex(2 * i)])
      && Hex.Lo(Parse(value).value[i]) == Hex.Val(Body(value)[DigitIndex(2 * i + 1)])
  {
    ParseSpec(value);
  }

  /** The digits of the unbraced text read back as `u`. */
  lemma FieldsValue(u: UUID, upper: bool)
    ensures DigitsAreHex(Fields(u, upper))
    ensures DigitsValue(Fields(u, upper)) == u
  {
    FieldsDigitsHex(u, upper);
    var v := DigitsValue(Fields(u, upper));
    forall i | 0 <= i < 16 ensures v[i] == u[i] {
      FieldsByteAt(u, upper, i);
    }
  }

  lemma FieldsDigitsHex(u: UUID, upper: bool)
    ensures DigitsAreHex(Fields(u, upper))
  {
    forall k | 0 <= k < 32 ensures Hex.IsHexDigit(Fields(u, upper)[DigitIndex(k)]) {
      FieldsAt(u, upper, DigitIndex(k));
    }
  }

  /** Digits 2i and 2i+1 of the unbraced text read back as byte i. */
  lemma FieldsByteAt(u: UUID, upper: bool, i: nat)
    requires i < 16
    ensures var f := Fields(u, upper);
      && Hex.IsHexDigit(f[DigitIndex(2 * i)]) && Hex.IsHexDigit(f[DigitIndex(2 * i + 1)])
      && Hex.ByteOf(f[DigitIndex(2 * i)], f[DigitIndex(2 * i + 1)]) == u[i]
  {
    var k0, k1 := 2 * i, 2 * i + 1;
    assert k0 % 2 == 0 && k0 / 2 == i && k1 % 2 == 1 && k1 / 2 == i;
    var p0, p1 := DigitIndex(k0), DigitIndex(k1);
    FieldsAt(u, upper, p0);
    FieldsAt(u, upper, p1);
    DigitNumberIndex(k0);
    DigitNumberIndex(k1);
    Hex.ByteOfDigits(u[i], upper);
  }

  /** The text from Format parses back to the same identifier, for every
      setting of the flags. */
  lemma ParseFormat(u: UUID, flags: FmtFlags)
    ensures Parse(Format(u, flags)) == Ok(u)
    ensures ParseStrict(Format(u, flags)) == Ok(u)
  {
    var f := Fields(u, IsUpper(flags));
    assert Body(Format(u, flags)) == f;
    FieldsLayout(u, IsUpper(flags));
    FieldsValue(u, IsUpper(flags));
    ParseBodySpec(f);
  }

  /** String round-trips through Parse. */
  lemma ParseString(u: UUID)
    ensures Parse(String(u)) == Ok(u)
  {
    ParseFormat(u, None);
  }

  /** Whatever Parse accepts, String gives back its 36 inner characters with
      letters lower-cased (hyphens and digit values kept, braces dropped). */
  lemma StringOfParse(value: string, u: UUID)
    requires Parse(value) == Ok(u)
    ensures String(u) == Hex.ToLower(Body(value))
  {
    var t := Body(value);
    ParseBodySpec(t);
    var s := String(u);
    assert s == Fields(u, false);
    forall p | 0 <= p < 36 ensures s[p] == Hex.LowerChar(t[p]) {
      DigitsValueAt(t, p);
    }
  }

  /** Each position of the lower-case text of DigitsValue(t) is the
      lower-cased character of `t` at that position. */
  lemma DigitsValueAt(t: string, p: nat)
    requires HyphenLayout(t) && DigitsAreHex(t) && p < 36
    ensures Fields(DigitsValue(t), false)[p] == Hex.LowerChar(t[p])
  {
    FieldsAt(DigitsValue(t), false, p);
    if !IsHyphenIndex(p) {
      DigitsNibble(t, DigitNumber(p));
      Hex.DigitOfVal(t[p]);
    }
  }

  /** Hex digit k of DigitsValue(t) is the value of the character of `t` at
      its position. */
  lemma DigitsNibble(t: string, k: nat)
    requires HyphenLayout(t) && DigitsAreHex(t) && k < 32
    ensures Nibble(DigitsValue(t), k) == Hex.Val(t[DigitIndex(k)])
  {
    var i := k / 2;
    assert DigitsValue(t)[i] == Hex.ByteOf(t[DigitIndex(2 * i)], t[DigitIndex(2 * i + 1)]);
    if k % 2 == 0 {
      assert 2 * i == k;
    } else {
      assert 2 * i + 1 == k;
    }
  }

  /** A canonical text parses, and String gives it back unchanged. */
  lemma StringOfParseCanonical(t: string)
    requires IsCanonical(t)
    ensures Parse(t).Ok? && String(Parse(t).value) == t
  {
    ParseSpec(t);
    assert Body(t) == t;
    StringOfParse(t, Parse(t).value);
    CanonicalIsLower(t);
  }

  /** A canonical text has no upper-case letter to lower. */
  lemma CanonicalIsLower(t: string)
    requires IsCanonical(t)
    ensures Hex.ToLower(t) == t
  {
    forall p | 0 <= p < 36 ensures Hex.LowerChar(t[p]) == t[p] {
      if !IsHyphenIndex(p) {
        var k := DigitNumber(p);
      }
    }
  }

  /** ParseStrict accepts exactly what Parse accepts with both braces in
      place, and agrees with Parse on what it accepts. */
  lemma ParseStrictRequiresBraces(value: string)
    ensures ParseStrict(value).Ok? <==>
      Parse(value).Ok? && (|value| == 38 ==> value[0] == '{' && value[37] == '}')
    ensures ParseStrict(value).Ok? ==> ParseStrict(value) == Parse(value)
  {
  }

  /** The sentinel check as written lets a single leading brace through: the
      text with '{' but no closing '}' parses to the identifier inside. */
  lemma ParseAcceptsSingleBrace(u: UUID, c: char)
    requires c != '}'
    ensures Parse("{" + String(u) + [c]) == Ok(u)
    ensures ParseStrict("{" + String(u) + [c]) == Err(InvalidFormat)
  {
    var v := "{" + String(u) + [c];
    assert v[1..37] == String(u);
    ParseString(u);
  }

  // ---------------------------------------------------------------------
  // Version-4 generation
  // ---------------------------------------------------------------------

  /** Version 4 in the high nibble of byte 6, variant bits 10 on top of byte 8. */
  predicate IsVersion4(u: UUID) {
    u[6] & 0xF0 == 0x40 && u[8] & 0xC0 == 0x80
  }

  /** The two masked updates applied after the random fill. */
  function StampV4(u: UUID): (r: UUID)
    ensures IsVersion4(r)
    ensures r[6] & 0x0F == u[6] & 0x0F && r[8] & 0x3F == u[8] & 0x3F
    ensures forall i :: 0 <= i < 16 && i != 6 && i != 8 ==> r[i] == u[i]
  {
    u[8 := (u[8] & 0x3F) | 0x80][6 := (u[6] & 0x0F) | 0x40]
  }

  /** Stamping changes nothing exactly on version-4 identifiers, so it is
      idempotent. */
  lemma StampFixesVersion4(u: UUID)
    ensures StampV4(u) == u <==> IsVersion4(u)
    ensures StampV4(StampV4(u)) == StampV4(u)
  {
    var r := StampV4(u);
    if IsVersion4(u) {
      assert r[6] == u[6] && r[8] == u[8];
      assert forall i :: 0 <= i < 16 ==> r[i] == u[i];
    }
  }

  /** The stamp, in place on the 16-byte buffer. */
  method StampInPlace(a: array<bv8>)
    requires a.Length == 16
    modifies a
    ensures a[..] == StampV4(old(a[..]))
  {
    a[8] := (a[8] & 0x3F) | 0x80;
    a[6] := (a[6] & 0x0F) | 0x40;
  }

  /** The secure random source: the bytes it can supply, or a failure. */
  datatype Entropy = Read(bytes: seq<bv8>) | ReadFailed

  /** A fresh version-4 identifier from the random source; a source that
      cannot fill all 16 bytes is an entropy error. */
  method GenerateV4(source: Entropy) returns (r: Result<UUID>)
    ensures r.Err? <==> source.ReadFailed? || |source.bytes| < 16
    ensures r.Err? ==> r.error == EntropyUnavailable
    ensures r.Ok? ==> r.value == StampV4(source.bytes[..16]) && IsVersion4(r.value)
  {
    var a := new bv8[16];
    if source.ReadFailed? || |source.bytes| < 16 {
      return Err(EntropyUnavailable);
    }
    forall i | 0 <= i < 16 {
      a[i] := source.bytes[i];
    }
    assert a[..] == source.bytes[..16];
    StampInPlace(a);
    return Ok(a[..]);
  }

  /** The public generator. */
  method NewUUID(source: Entropy) returns (r: Result<UUID>)
    ensures r.Err? <==> source.ReadFailed? || |source.bytes| < 16
    ensures r.Ok? ==> IsVersion4(r.value)
  {
    r := GenerateV4(source);
  }
}
