/** The base64 encoder of the icon URLs, against the encoding of section 4 of RFC 4648. */
module Base64 {
  import opened Alignment
  import opened Memory

  function ValueOf(c: char): (v: Option<int>)
    ensures v.Some? ==> 0 <= v.value < 64
  {
    if 'A' <= c <= 'Z' then Some(c as int - 'A' as int)
    else if 'a' <= c <= 'z' then Some(c as int - 'a' as int + 26)
    else if '0' <= c <= '9' then Some(c as int - '0' as int + 52)
    else if c == '+' then Some(62)
    else if c == '/' then Some(63)
    else None
  }

  /** Character `v` of the alphabet. */
  function Digit(v: int): (c: char)
    requires 0 <= v < 64
    ensures ValueOf(c) == Some(v) && c != '='
  {
    if v < 26 then ('A' as int + v) as char
    else if v < 52 then ('a' as int + (v - 26)) as char
    else if v < 62 then ('0' as int + (v - 52)) as char
    else if v == 62 then '+'
    else '/'
  }

  lemma DigitOfValue(c: char)
    requires ValueOf(c).Some?
    ensures Digit(ValueOf(c).value) == c
  {
  }

  // ---------- reference: groups of 24 bits ----------

  /** The four digits of a 24-bit group, most significant first. */
  function GroupDigit(group: int, k: nat): (v: int)
    requires 0 <= group < 0x100_0000 && k < 4
    ensures 0 <= v < 64
  {
    if k == 0 then group / 0x4_0000
    else if k == 1 then group / 0x1000 % 64
    else if k == 2 then group / 64 % 64
    else group % 64
  }

  /** The group that four digits spell. */
  function FromDigits(v0: int, v1: int, v2: int, v3: int): int { ((v0 * 64 + v1) * 64 + v2) * 64 + v3 }

  /** The group that three bytes spell. */
  function FromBytes(a: int, b: int, c: int): int { a * 0x1_0000 + b * 0x100 + c }

  predicate IsByte(a: int) { 0 <= a < 0x100 }

  predicate IsDigit(v: int) { 0 <= v < 64 }

  function ByteAt(b: seq<byte>, i: nat): (v: int)
    ensures IsByte(v)
  {
    if i < |b| then b[i] as int else 0
  }

  /** Up to three bytes as the high end of a group, the rest zero. */
  function Group(b: seq<byte>): (group: int)
    ensures 0 <= group < 0x100_0000
  {
    FromBytes(ByteAt(b, 0), ByteAt(b, 1), ByteAt(b, 2))
  }

  /** `n` bytes fill `n + 1` digits; padding completes the quantum. */
  function QuantumChar(b: seq<byte>, k: nat): char
    requires k < 4
  {
    if k <= |b| then Digit(GroupDigit(Group(b), k)) else '='
  }

  function EncodeQuantum(b: seq<byte>): (s: string)
    ensures |s| == 4
  {
    seq(4, k requires 0 <= k < 4 => QuantumChar(b, k))
  }

  /** A group is spelled by its digits, and by its bytes. */
  lemma DigitsSpell(g: int)
    requires 0 <= g < 0x100_0000
    ensures FromDigits(GroupDigit(g, 0), GroupDigit(g, 1), GroupDigit(g, 2), GroupDigit(g, 3)) == g
  {
    var q1 := g / 64;
    var q2 := q1 / 64;
    RemainderIs(g, 0x1000, q2, q1 % 64 * 64 + g % 64);
    RemainderIs(g, 0x4_0000, q2 / 64, (q2 % 64 * 64 + q1 % 64) * 64 + g % 64);
  }

  lemma SpelledDigits(v0: int, v1: int, v2: int, v3: int)
    requires IsDigit(v0) && IsDigit(v1) && IsDigit(v2) && IsDigit(v3)
    ensures 0 <= FromDigits(v0, v1, v2, v3) < 0x100_0000
    ensures GroupDigit(FromDigits(v0, v1, v2, v3), 0) == v0 && GroupDigit(FromDigits(v0, v1, v2, v3), 1) == v1
    ensures GroupDigit(FromDigits(v0, v1, v2, v3), 2) == v2 && GroupDigit(FromDigits(v0, v1, v2, v3), 3) == v3
  {
    var high, low, g := v0 * 64 + v1, v2 * 64 + v3, FromDigits(v0, v1, v2, v3);
    RemainderIs(g, 0x4_0000, v0, v1 * 0x1000 + low);
    RemainderIs(g, 0x1000, high, low);
    RemainderIs(high, 64, v0, v1);
    RemainderIs(g, 64, high * 64 + v2, v3);
    RemainderIs(high * 64 + v2, 64, high, v2);
  }

  lemma ShiftsSpell(a: int, b: int, c: int)
    requires IsByte(a) && IsByte(b) && IsByte(c)
    ensures FromDigits(a / 4, a % 4 * 16 + b / 16, b % 16 * 4 + c / 64, c % 64) == FromBytes(a, b, c)
  {
    assert a == a / 4 * 4 + a % 4 && b == b / 16 * 16 + b % 16 && c == c / 64 * 64 + c % 64;
  }

  /** Quotients and remainders of the bytes are the digits of the group. */
  lemma QuotientsAreDigits(a: int, b: int, c: int, d0: int, d1: int, d2: int, d3: int)
    requires IsByte(a) && IsByte(b) && IsByte(c)
    requires d0 == a / 4 && d1 == a % 4 * 16 + b / 16 && d2 == b % 16 * 4 + c / 64 && d3 == c % 64
    ensures var g := FromBytes(a, b, c);
            GroupDigit(g, 0) == d0 && GroupDigit(g, 1) == d1 && GroupDigit(g, 2) == d2 && GroupDigit(g, 3) == d3
  {
    ShiftsSpell(a, b, c);
    SpelledDigits(d0, d1, d2, d3);
  }

  /** Shifting a byte right divides, and masking its low bits takes the remainder. */
  lemma ShiftsDivide(a: bv8)
    ensures (a >> 2) as int == a as int / 4
    ensures (a >> 4) as int == a as int / 16
    ensures (a >> 6) as int == a as int / 64
  {
  }

  lemma MaskTwo(a: bv8)
    ensures (a & 0x03) as int == a as int % 4
  {
  }

  lemma MaskFour(a: bv8)
    ensures (a & 0x0F) as int == a as int % 16
  {
  }

  lemma MaskSix(a: bv8)
    ensures (a & 0x3F) as int == a as int % 64
  {
  }

  /** Two bits of one byte in front of four of the next. */
  lemma JoinTwoFour(x: bv8, y: bv8)
    requires x < 4 && y < 16
    ensures ((x << 4) | y) as int == x as int * 16 + y as int
  {
    var joined := (x << 4) | y;
    assert joined >> 4 == x && joined & 0x0F == y;
    ShiftsDivide(joined);
    MaskFour(joined);
  }

  /** Four bits of one byte in front of two of the next. */
  lemma JoinFourTwo(x: bv8, y: bv8)
    requires x < 16 && y < 4
    ensures ((x << 2) | y) as int == x as int * 4 + y as int
  {
    var joined := (x << 2) | y;
    assert joined >> 2 == x && joined & 0x03 == y;
    ShiftsDivide(joined);
    MaskTwo(joined);
  }

  lemma SmallParts(a: bv8)
    ensures a & 0x03 < 4 && a & 0x0F < 16 && a >> 4 < 16 && a >> 6 < 4
  {
  }

  lemma OctetIsByte(a: bv8)
    ensures IsByte(a as int)
  {
  }

  lemma SecondDigit(a: bv8, b: bv8)
    ensures (((a & 0x03) << 4) | (b >> 4)) as int == a as int % 4 * 16 + b as int / 16
  {
    SmallParts(a);
    SmallParts(b);
    JoinTwoFour(a & 0x03, b >> 4);
    MaskTwo(a);
    ShiftsDivide(b);
  }

  lemma ThirdDigit(b: bv8, c: bv8)
    ensures (((b & 0x0F) << 2) | (c >> 6)) as int == b as int % 16 * 4 + c as int / 64
  {
    SmallParts(b);
    SmallParts(c);
    JoinFourTwo(b & 0x0F, c >> 6);
    MaskFour(b);
    ShiftsDivide(c);
  }

  /** The shifts and masks of the encoder pick the digits of the group. */
  lemma ShiftsAreDigits(a: bv8, b: bv8, c: bv8)
    ensures var g := FromBytes(a as int, b as int, c as int);
            && GroupDigit(g, 0) == (a >> 2) as int
            && GroupDigit(g, 1) == (((a & 0x03) << 4) | (b >> 4)) as int
            && GroupDigit(g, 2) == (((b & 0x0F) << 2) | (c >> 6)) as int
            && GroupDigit(g, 3) == (c & 0x3F) as int
  {
    OctetIsByte(a);
    OctetIsByte(b);
    OctetIsByte(c);
    ShiftsDivide(a);
    SecondDigit(a, b);
    ThirdDigit(b, c);
    MaskSix(c);
    QuotientsAreDigits(
      a as int, b as int, c as int, (a >> 2) as int, (((a & 0x03) << 4) | (b >> 4)) as int,
      (((b & 0x0F) << 2) | (c >> 6)) as int, (c & 0x3F) as int);
  }

  /** The values of a string of octets. */
  function Bytes(octets: seq<bv8>): (b: seq<byte>)
    ensures |b| == |octets| && forall i :: 0 <= i < |b| ==> b[i] as int == octets[i] as int
  {
    seq(|octets|, i requires 0 <= i < |octets| => octets[i] as int as byte)
  }

  function HighByte(g: int): int { g / 0x1_0000 }

  function MidByte(g: int): int { g / 0x100 % 0x100 }

  function LowByte(g: int): int { g % 0x100 }

  lemma SpelledBytes(a: int, b: int, c: int)
    requires IsByte(a) && IsByte(b) && IsByte(c)
    ensures HighByte(FromBytes(a, b, c)) == a && MidByte(FromBytes(a, b, c)) == b && LowByte(FromBytes(a, b, c)) == c
  {
    RemainderIs(FromBytes(a, b, c), 0x1_0000, a, b * 0x100 + c);
    RemainderIs(FromBytes(a, b, c), 0x100, a * 0x100 + b, c);
    RemainderIs(a * 0x100 + b, 0x100, a, b);
  }

  lemma BytesSpell(g: int)
    requires 0 <= g < 0x100_0000
    ensures IsByte(HighByte(g)) && IsByte(MidByte(g)) && IsByte(LowByte(g))
    ensures FromBytes(HighByte(g), MidByte(g), LowByte(g)) == g
  {
  }

  function Encode(b: seq<byte>): string {
    if b == [] then []
    else if |b| <= 3 then EncodeQuantum(b)
    else EncodeQuantum(b[..3]) + Encode(b[3..])
  }

  /** The first `n` bytes of a group, if the others are zero. */
  function Unpack(g: int, n: nat): Option<seq<byte>>
    requires 0 <= g < 0x100_0000 && 1 <= n <= 3
  {
    BytesSpell(g);
    var a, b, c := HighByte(g) as byte, MidByte(g) as byte, LowByte(g) as byte;
    if n == 3 then Some([a, b, c])
    else if n == 2 && c == 0 then Some([a, b])
    else if n == 1 && b == 0 && c == 0 then Some([a])
    else None
  }

  /** The value of a digit, or 0 for padding. */
  function ValueOrZero(c: char): (v: int)
    ensures IsDigit(v)
  {
    if ValueOf(c) == None then 0 else ValueOf(c).value
  }

  /** One quantum of four characters; the bits that padding leaves over must be zero. */
  function DecodeQuantum(s: string): Option<seq<byte>>
    requires |s| == 4
  {
    var v0, v1, v2, v3 := ValueOrZero(s[0]), ValueOrZero(s[1]), ValueOrZero(s[2]), ValueOrZero(s[3]);
    SpelledDigits(v0, v1, v2, v3);
    var g := FromDigits(v0, v1, v2, v3);
    if ValueOf(s[0]) == None || ValueOf(s[1]) == None then None
    else if ValueOf(s[2]).Some? && ValueOf(s[3]).Some? then Unpack(g, 3)
    else if ValueOf(s[2]).Some? && s[3] == '=' then Unpack(g, 2)
    else if s[2] == '=' && s[3] == '=' then Unpack(g, 1)
    else None
  }

  /** The strict decoder: whole quanta, padding only in the last one. */
  function Decode(s: string): Option<seq<byte>> {
    if s == [] then Some([])
    else if |s| < 4 then None
    else
      match (DecodeQuantum(s[..4]), Decode(s[4..]))
      case (Some(head), Some(tail)) => if |head| == 3 || |s| == 4 then Some(head + tail) else None
      case _ => None
  }

  // ---------- the encoder ----------

  /** A whole quantum at the front, also when it is the last one. */
  lemma EncodeStep(b: seq<byte>)
    requires |b| >= 3
    ensures Encode(b) == EncodeQuantum(b[..3]) + Encode(b[3..])
  {
    if |b| == 3 {
      assert b[..3] == b;
    }
  }

  lemma GroupOf(b: seq<byte>, x: int, y: int, z: int)
    requires x == ByteAt(b, 0) && y == ByteAt(b, 1) && z == ByteAt(b, 2)
    ensures Group(b) == FromBytes(x, y, z)
  {
  }

  lemma OctetAt(octets: seq<bv8>, i: nat, o: bv8)
    requires if i < |octets| then octets[i] == o else o == 0
    ensures ByteAt(Bytes(octets), i) == o as int
  {
  }

  lemma QuantumOf(b: seq<byte>, d0: int, d1: int, d2: int, d3: int)
    requires 1 <= |b| <= 3 && d0 == GroupDigit(Group(b), 0) && d1 == GroupDigit(Group(b), 1)
    requires d2 == GroupDigit(Group(b), 2) && d3 == GroupDigit(Group(b), 3)
    ensures EncodeQuantum(b)
            == [Digit(d0), Digit(d1), if |b| > 1 then Digit(d2) else '=', if |b| > 2 then Digit(d3) else '=']
  {
  }

  /** The quantum of up to three octets, from its digits. */
  lemma QuantumIs(octets: seq<bv8>, a: bv8, b: bv8, c: bv8, d0: int, d1: int, d2: int, d3: int)
    requires octets == [a, b, c] || (octets == [a, b] && c == 0) || (octets == [a] && b == c == 0)
    requires d0 == (a >> 2) as int && d1 == (((a & 0x03) << 4) | (b >> 4)) as int
    requires d2 == (((b & 0x0F) << 2) | (c >> 6)) as int && d3 == (c & 0x3F) as int
    ensures IsDigit(d0) && IsDigit(d1) && IsDigit(d2) && IsDigit(d3)
    ensures EncodeQuantum(Bytes(octets)) == [Digit(d0), Digit(d1), if |octets| > 1 then Digit(d2) else '=',
                                             if |octets| > 2 then Digit(d3) else '=']
  {
    ShiftsAreDigits(a, b, c);
    OctetAt(octets, 0, a);
    OctetAt(octets, 1, b);
    OctetAt(octets, 2, c);
    GroupOf(Bytes(octets), a as int, b as int, c as int);
    QuantumOf(Bytes(octets), d0, d1, d2, d3);
  }

  lemma NoBits(x: bv8)
    ensures x | (0 >> 4) == x && x | (0 >> 6) == x
    ensures ((0 & 0x0F) << 2) | (0 >> 6) == 0 as bv8 && 0 & 0x3F == 0 as bv8
  {
  }

  /** The last one or two bytes, with padding. */
  method EncodeRest(rest: seq<bv8>, out: string) returns (out': string)
    requires |rest| < 3
    ensures out' == out + Encode(Bytes(rest))
  {
    out' := out;
    if |rest| == 1 {
      var a := rest[0];
      var d0, d1 := (a >> 2) as int, ((a & 0x03) << 4) as int;
      NoBits((a & 0x03) << 4);
      QuantumIs(rest, a, 0, 0, d0, d1, 0, 0);
      out' := out' + [Digit(d0), Digit(d1), '=', '='];
    } else if |rest| == 2 {
      var a, b := rest[0], rest[1];
      var d0, d1, d2 := (a >> 2) as int, (((a & 0x03) << 4) | (b >> 4)) as int, ((b & 0x0F) << 2) as int;
      NoBits((b & 0x0F) << 2);
      QuantumIs(rest, a, b, 0, d0, d1, d2, 0);
      out' := out' + [Digit(d0), Digit(d1), Digit(d2), '='];
    }
  }

  /** The four characters of three bytes. */
  method EncodeThree(a: bv8, b: bv8, c: bv8) returns (s: string)
    ensures s == EncodeQuantum(Bytes([a, b, c]))
  {
    var d0, d1 := (a >> 2) as int, (((a & 0x03) << 4) | (b >> 4)) as int;
    var d2, d3 := (((b & 0x0F) << 2) | (c >> 6)) as int, (c & 0x3F) as int;
    QuantumIs([a, b, c], a, b, c, d0, d1, d2, d3);
    s := [Digit(d0), Digit(d1), Digit(d2), Digit(d3)];
  }

  lemma BytesOfSum(a: seq<bv8>, b: seq<bv8>)
    ensures Bytes(a + b) == Bytes(a) + Bytes(b)
  {
  }

  lemma EncodeSum(head: seq<bv8>, rest: seq<bv8>)
    requires |head| == 3
    ensures Encode(Bytes(head + rest)) == EncodeQuantum(Bytes(head)) + Encode(Bytes(rest))
  {
    BytesOfSum(head, rest);
    EncodeStep(Bytes(head) + Bytes(rest));
    assert (Bytes(head) + Bytes(rest))[..3] == Bytes(head) && (Bytes(head) + Bytes(rest))[3..] == Bytes(rest);
  }

  /** One quantum more is written, and the rest is still to come. */
  lemma NextQuantum(octets: seq<bv8>, i: nat, out: string, quantum: string, whole: string)
    requires i + 3 <= |octets| && out + Encode(Bytes(octets[i..])) == whole
    requires quantum == EncodeQuantum(Bytes([octets[i], octets[i + 1], octets[i + 2]]))
    ensures out + quantum + Encode(Bytes(octets[i + 3..])) == whole
  {
    var head, rest := [octets[i], octets[i + 1], octets[i + 2]], octets[i + 3..];
    assert octets[i..] == head + rest;
    EncodeSum(head, rest);
    assert out + (quantum + Encode(Bytes(rest))) == out + quantum + Encode(Bytes(rest));
  }

  /** `base64_encode_into`: the shifts and masks of the loop are the digits of the 24-bit groups. */
  method EncodeInto(octets: seq<bv8>, out: string) returns (out': string)
    ensures out' == out + Encode(Bytes(octets))
  {
    out' := out;
    ghost var whole := out + Encode(Bytes(octets));
    var i := 0;
    assert octets[0..] == octets;
    while i + 3 <= |octets|
      invariant 0 <= i <= |octets|
      invariant out' + Encode(Bytes(octets[i..])) == whole
    {
      var quantum := EncodeThree(octets[i], octets[i + 1], octets[i + 2]);
      NextQuantum(octets, i, out', quantum, whole);
      out' := out' + quantum;
      i := i + 3;
    }
    out' := EncodeRest(octets[i..], out');
  }

  // ---------- laws ----------

  lemma {:induction false} LengthInQuanta(b: seq<byte>, n: nat)
    requires |b| <= 3 * n < |b| + 3
    ensures |Encode(b)| == 4 * n
    decreases n
  {
    if |b| > 3 {
      LengthInQuanta(b[3..], n - 1);
    }
  }

  /** The encoding has four characters for every three bytes begun. */
  lemma EncodedLength(b: seq<byte>)
    ensures |Encode(b)| == 4 * ((|b| + 2) / 3)
  {
    LengthInQuanta(b, (|b| + 2) / 3);
  }

  /** Every character is of the alphabet, but for padding in the last two places. */
  lemma {:induction false} EncodedAlphabet(b: seq<byte>, k: nat)
    requires k < |Encode(b)|
    ensures ValueOf(Encode(b)[k]).Some? || (Encode(b)[k] == '=' && k + 2 >= |Encode(b)|)
  {
    if |b| > 3 && k >= 4 {
      EncodedAlphabet(b[3..], k - 4);
    }
  }

  /** Digits that the bytes do not reach are zero. */
  lemma UnusedDigits(a: int, b: int)
    requires IsByte(a) && IsByte(b)
    ensures GroupDigit(FromBytes(a, b, 0), 3) == 0
    ensures b == 0 ==> GroupDigit(FromBytes(a, b, 0), 2) == 0
  {
  }

  lemma QuantumRoundTrip(b: seq<byte>)
    requires 1 <= |b| <= 3
    ensures DecodeQuantum(EncodeQuantum(b)) == Some(b)
  {
    var g := Group(b);
    UnusedDigits(ByteAt(b, 0), ByteAt(b, 1));
    DigitsSpell(g);
    SpelledBytes(ByteAt(b, 0), ByteAt(b, 1), ByteAt(b, 2));
    assert Unpack(g, |b|).value == b;
  }

  lemma DecodeStep(first: string, rest: string, head: seq<byte>, tail: seq<byte>)
    requires |first| == 4 && DecodeQuantum(first) == Some(head) && Decode(rest) == Some(tail)
    requires |head| == 3 || rest == []
    ensures Decode(first + rest) == Some(head + tail)
  {
    assert (first + rest)[..4] == first && (first + rest)[4..] == rest;
  }

  /** Decoding undoes encoding, for every byte string. */
  lemma {:induction false} DecodeEncode(b: seq<byte>)
    ensures Decode(Encode(b)) == Some(b)
    decreases |b|
  {
    if b != [] {
      var head, tail := if |b| > 3 then b[..3] else b, if |b| > 3 then b[3..] else [];
      QuantumRoundTrip(head);
      DecodeEncode(tail);
      assert Encode(b) == EncodeQuantum(head) + Encode(tail) && b == head + tail;
      DecodeStep(EncodeQuantum(head), Encode(tail), head, tail);
    }
  }

  /** What the four characters of an accepted quantum say. */
  lemma AcceptedQuantum(s: string) returns (g: int, b: seq<byte>)
    requires |s| == 4 && DecodeQuantum(s).Some?
    ensures b == DecodeQuantum(s).value && 1 <= |b| <= 3 && 0 <= g < 0x100_0000 && Unpack(g, |b|) == Some(b)
    ensures forall k: nat :: k <= |b| ==> ValueOf(s[k]) == Some(GroupDigit(g, k))
    ensures forall k: nat :: |b| < k < 4 ==> s[k] == '='
  {
    var v0, v1, v2, v3 := ValueOrZero(s[0]), ValueOrZero(s[1]), ValueOrZero(s[2]), ValueOrZero(s[3]);
    SpelledDigits(v0, v1, v2, v3);
    g, b := FromDigits(v0, v1, v2, v3), DecodeQuantum(s).value;
  }

  lemma UnpackedGroup(g: int, b: seq<byte>)
    requires 0 <= g < 0x100_0000 && 1 <= |b| <= 3 && Unpack(g, |b|) == Some(b)
    ensures Group(b) == g
  {
    BytesSpell(g);
  }

  lemma QuantumCanonical(s: string)
    requires |s| == 4 && DecodeQuantum(s).Some?
    ensures 1 <= |DecodeQuantum(s).value| <= 3 && EncodeQuantum(DecodeQuantum(s).value) == s
  {
    var g, b := AcceptedQuantum(s);
    UnpackedGroup(g, b);
    forall k: nat | k < 4 ensures EncodeQuantum(b)[k] == s[k] {
      if k <= |b| {
        DigitOfValue(s[k]);
      }
    }
  }

  /** Whatever the strict decoder accepts is the encoding of what it returns. */
  lemma {:induction false} EncodeDecode(s: string)
    requires Decode(s).Some?
    ensures Encode(Decode(s).value) == s
  {
    if s != [] {
      QuantumCanonical(s[..4]);
      EncodeDecode(s[4..]);
      var head, tail := DecodeQuantum(s[..4]).value, Decode(s[4..]).value;
      assert s == s[..4] + s[4..];
      if |s| == 4 {
        assert tail == [] && head + tail == head;
      } else {
        EncodeStep(head + tail);
        assert (head + tail)[..3] == head && (head + tail)[3..] == tail;
      }
    }
  }
}
