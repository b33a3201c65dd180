/**
 * The property-name hash of the Glacier engine against its definition in IEEE 802.3, clause 3.2.9: the complemented
 * remainder of a polynomial division over GF(2). Polynomials are coefficient lists, highest power first.
 */
module Crc32 {

  type Poly = seq<bool>

  function Zeros(n: nat): (p: Poly)
    ensures |p| == n && forall i :: 0 <= i < n ==> !p[i]
  {
    seq(n, _ => false)
  }

  function Ones(n: nat): (p: Poly)
    ensures |p| == n && forall i :: 0 <= i < n ==> p[i]
  {
    seq(n, _ => true)
  }

  /** Addition (and subtraction) over GF(2). */
  function Plus(a: Poly, b: Poly): (p: Poly)
    requires |a| == |b|
    ensures |p| == |a| && forall i :: 0 <= i < |p| ==> p[i] == (a[i] != b[i])
  {
    seq(|a|, i requires 0 <= i < |a| => a[i] != b[i])
  }

  /** G(x) of clause 3.2.9: x^32 + x^26 + x^23 + ... + x + 1. */
  const EXPONENTS := {32, 26, 23, 22, 16, 12, 11, 10, 8, 7, 5, 4, 2, 1, 0}

  function Generator(): (g: Poly)
    ensures |g| == 33 && g[0]
  {
    seq(33, i requires 0 <= i < 33 => (32 - i) in EXPONENTS)
  }

  /** b * x^k * G(x) for one quotient coefficient, padded to `n + 33` coefficients. */
  function Addend(n: nat, b: bool): (p: Poly)
    ensures |p| == n + 33
    ensures forall i :: 0 <= i < n + 33 ==> p[i] == (b && i >= n && Generator()[i - n])
  {
    if b then Zeros(n) + Generator() else Zeros(n + 33)
  }

  /** q(x) * G(x): multiplying by x appends a zero coefficient, and the constant coefficient adds G once. */
  function TimesG(q: Poly): (p: Poly)
    ensures |p| == |q| + 32
  {
    if q == [] then Zeros(32)
    else
      var n := |q| - 1;
      Plus(TimesG(q[..n]) + [false], Addend(n, q[n]))
  }

  /** p(x) = q(x) * G(x) + r(x), with `r` of degree below 32. */
  ghost predicate Divides(p: Poly, q: Poly, r: Poly) {
    |r| == 32 <= |p| && |q| == |p| - 32 && p == Plus(TimesG(q), Zeros(|q|) + r)
  }

  /** `r` is what is left of `p` after subtracting some multiple of G. */
  ghost predicate IsRemainder(p: Poly, r: Poly) {
    exists q :: Divides(p, q, r)
  }

  /** M(x) * x^32, with the first 32 message bits complemented: all-ones * x^n is added. */
  function Dividend(m: Poly): (p: Poly)
    ensures |p| == |m| + 32
  {
    Plus(m + Zeros(32), Ones(32) + Zeros(|m|))
  }

  function Complement(p: Poly): (r: Poly)
    ensures |r| == |p| && forall i :: 0 <= i < |p| ==> r[i] == !p[i]
  {
    seq(|p|, i requires 0 <= i < |p| => !p[i])
  }

  // ---------- the remainder is unique ----------

  lemma {:induction false} TimesGOfZeros(q: Poly)
    requires forall i :: 0 <= i < |q| ==> !q[i]
    ensures TimesG(q) == Zeros(|q| + 32)
  {
    if q != [] {
      TimesGOfZeros(q[..|q| - 1]);
    }
  }

  /** Coefficient `i` of q * G, from the factor without its constant coefficient. */
  lemma TimesGAt(q: Poly, i: nat)
    requires q != [] && i < |q| + 32
    ensures var n := |q| - 1;
            TimesG(q)[i] == ((i < n + 32 && TimesG(q[..n])[i]) != (q[n] && i >= n && Generator()[i - n]))
  {
    var n := |q| - 1;
    assert TimesG(q)[i] == ((TimesG(q[..n]) + [false])[i] != Addend(n, q[n])[i]);
  }

  /** G has leading coefficient one, so a product that vanishes above degree 31 has a zero factor. */
  lemma {:induction false} LeadingCoefficients(q: Poly)
    requires forall i :: 0 <= i < |q| ==> !TimesG(q)[i]
    ensures forall i :: 0 <= i < |q| ==> !q[i]
  {
    if q != [] {
      var n := |q| - 1;
      var init := q[..n];
      forall i | 0 <= i < n ensures !TimesG(init)[i] {
        TimesGAt(q, i);
      }
      LeadingCoefficients(init);
      TimesGOfZeros(init);
      TimesGAt(q, n);
      forall i | 0 <= i < |q| ensures !q[i] {
        if i < n { assert q[i] == init[i]; }
      }
    }
  }

  lemma {:induction false} TimesGLinear(a: Poly, b: Poly, i: nat)
    requires |a| == |b| && i < |a| + 32
    ensures TimesG(Plus(a, b))[i] == (TimesG(a)[i] != TimesG(b)[i])
  {
    if a != [] {
      var n := |a| - 1;
      assert Plus(a, b)[..n] == Plus(a[..n], b[..n]);
      if i < n + 32 {
        TimesGLinear(a[..n], b[..n], i);
      }
      TimesGAt(a, i);
      TimesGAt(b, i);
      TimesGAt(Plus(a, b), i);
    }
  }

  /** Coefficient `i` of q * G + r. */
  lemma CoefficientOf(p: Poly, q: Poly, r: Poly, i: nat)
    requires Divides(p, q, r) && i < |p|
    ensures p[i] == (TimesG(q)[i] != (i >= |q| && r[i - |q|]))
  {
    var padded := Zeros(|q|) + r;
    assert padded[i] == (i >= |q| && r[i - |q|]);
    assert p[i] == Plus(TimesG(q), padded)[i];
  }

  /** Two multiples of G that leave remainders of degree below 32 are the same multiple. */
  lemma QuotientUnique(p: Poly, q1: Poly, r1: Poly, q2: Poly, r2: Poly)
    requires Divides(p, q1, r1) && Divides(p, q2, r2)
    ensures q1 == q2
  {
    var q := Plus(q1, q2);
    forall i | 0 <= i < |q| ensures !TimesG(q)[i] {
      TimesGLinear(q1, q2, i);
      CoefficientOf(p, q1, r1, i);
      CoefficientOf(p, q2, r2, i);
    }
    LeadingCoefficients(q);
    forall i | 0 <= i < |q| ensures q1[i] == q2[i] {
      assert !q[i];
    }
  }

  lemma SameQuotient(p: Poly, q: Poly, r1: Poly, r2: Poly)
    requires Divides(p, q, r1) && Divides(p, q, r2)
    ensures r1 == r2
  {
    forall i | 0 <= i < 32 ensures r1[i] == r2[i] {
      CoefficientOf(p, q, r1, |q| + i);
      CoefficientOf(p, q, r2, |q| + i);
    }
  }

  lemma RemainderUnique(p: Poly, r1: Poly, r2: Poly)
    requires IsRemainder(p, r1) && IsRemainder(p, r2)
    ensures r1 == r2
  {
    var q1 :| Divides(p, q1, r1);
    var q2 :| Divides(p, q2, r2);
    QuotientUnique(p, q1, r1, q2, r2);
    SameQuotient(p, q1, r1, r2);
  }

  // ---------- long division, one message bit at a time ----------

  /** One step of long division: the register holds the running remainder. */
  function DivisionStep(r: Poly, b: bool): (r': Poly)
    requires |r| == 32
    ensures |r'| == 32
  {
    var shifted := r[1..] + [false];
    if r[0] != b then Plus(shifted, Generator()[1..]) else shifted
  }

  function Register(m: Poly): (r: Poly)
    ensures |r| == 32
  {
    if m == [] then Ones(32) else DivisionStep(Register(m[..|m| - 1]), m[|m| - 1])
  }

  function Quotient(m: Poly): (q: Poly)
    ensures |q| == |m|
  {
    if m == [] then []
    else
      var init := m[..|m| - 1];
      Quotient(init) + [Register(init)[0] != m[|m| - 1]]
  }

  /** The aligned tail of one division step: shifting in `b` equals adding G when the leading coefficient is set. */
  lemma DivisionStepTail(r: Poly, b: bool, j: int)
    requires |r| == 32 && 0 <= j <= 32
    ensures var top := r[0] != b;
            ((r + [false])[j] != (j == 0 && b)) == ((top && Generator()[j]) != (j > 0 && DivisionStep(r, b)[j - 1]))
  {
    if j > 0 {
      assert (r[1..] + [false])[j - 1] == (r + [false])[j];
      assert Generator()[1..][j - 1] == Generator()[j];
    }
  }

  lemma DividendAt(m: Poly, i: nat)
    requires m != [] && i < |m| + 32
    ensures var n := |m| - 1;
            Dividend(m)[i] == ((i < n + 32 && Dividend(m[..n])[i]) != (i == n && m[n]))
  {
  }

  lemma QuotientTimesGAt(m: Poly, i: nat)
    requires m != [] && i < |m| + 32
    ensures var n := |m| - 1;
            var top := Register(m[..n])[0] != m[n];
            TimesG(Quotient(m))[i]
            == ((i < n + 32 && TimesG(Quotient(m[..n]))[i]) != (top && i >= n && Generator()[i - n]))
  {
    var n := |m| - 1;
    assert Quotient(m)[..n] == Quotient(m[..n]);
    TimesGAt(Quotient(m), i);
  }

  lemma {:induction false} RegisterIsRemainder(m: Poly, i: nat)
    requires i < |m| + 32
    ensures Dividend(m)[i] == (TimesG(Quotient(m))[i] != (i >= |m| && Register(m)[i - |m|]))
  {
    if m != [] {
      var n := |m| - 1;
      DividendAt(m, i);
      QuotientTimesGAt(m, i);
      if i < n + 32 {
        RegisterIsRemainder(m[..n], i);
      }
      if i >= n {
        DivisionStepTail(Register(m[..n]), m[n], i - n);
      }
    }
  }

  /** Long division computes the remainder the standard defines. */
  lemma LongDivision(m: Poly)
    ensures IsRemainder(Dividend(m), Register(m))
  {
    var q := Quotient(m);
    forall i | 0 <= i < |m| + 32 ensures Dividend(m)[i] == Plus(TimesG(q), Zeros(|q|) + Register(m))[i] {
      RegisterIsRemainder(m, i);
    }
    assert Divides(Dividend(m), q, Register(m));
  }

  // ---------- the 32-bit register of the code ----------

  function Low(c: bv32): bool { c & 1 == 1 }

  function Half(c: bv32): bv32 { c >> 1 }

  /** The `n` low bits of a word, least significant first. */
  function Bits(c: bv32, n: nat): (p: Poly)
    ensures |p| == n
  {
    if n == 0 then [] else [Low(c)] + Bits(Half(c), n - 1)
  }

  /** The word shifted right `n` times. */
  function Drop(c: bv32, n: nat): bv32
    decreases n
  {
    if n == 0 then c else Drop(Half(c), n - 1)
  }

  lemma HalfOfXor(a: bv32, b: bv32)
    ensures Half(a ^ b) == Half(a) ^ Half(b)
    ensures Low(a ^ b) == (Low(a) != Low(b))
  {
  }

  lemma {:induction false} BitsOfXor(a: bv32, b: bv32, x: bv32, n: nat, i: nat)
    requires x == a ^ b && i < n
    ensures Bits(x, n)[i] == (Bits(a, n)[i] != Bits(b, n)[i])
    decreases n
  {
    HalfOfXor(a, b);
    var a', b', x' := Half(a), Half(b), Half(x);
    if i > 0 {
      BitsOfXor(a', b', x', n - 1, i - 1);
    }
  }

  lemma AddBits(a: bv32, b: bv32, x: bv32)
    requires x == a ^ b
    ensures Bits(x, 32) == Plus(Bits(a, 32), Bits(b, 32))
  {
    forall i | 0 <= i < 32 ensures Bits(x, 32)[i] == (Bits(a, 32)[i] != Bits(b, 32)[i]) {
      BitsOfXor(a, b, x, 32, i);
    }
  }

  lemma {:induction false} BitsExtend(c: bv32, n: nat)
    ensures Bits(c, n + 1) == Bits(c, n) + [Low(Drop(c, n))]
    decreases n
  {
    if n > 0 {
      BitsExtend(Half(c), n - 1);
    }
  }

  lemma {:induction false} DropCompose(c: bv32, m: nat, n: nat)
    ensures Drop(Drop(c, m), n) == Drop(c, m + n)
    decreases m
  {
    if m > 0 {
      DropCompose(Half(c), m - 1, n);
    }
  }

  lemma HalveFour(c: bv32)
    ensures Half(Half(Half(Half(c)))) == c >> 4
  {
  }

  lemma DropFour(c: bv32)
    ensures Drop(c, 4) == c >> 4
  {
    HalveFour(c);
    assert Drop(c, 4) == Drop(Half(c), 3) == Drop(Half(Half(c)), 2) == Drop(Half(Half(Half(c))), 1);
  }

  lemma ShiftFours(c: bv32, d: bv32)
    requires d == c >> 4
    ensures d >> 4 == c >> 8
  {
  }

  lemma DropEight(c: bv32, e: bv32)
    requires e == c >> 8
    ensures Drop(c, 8) == e
  {
    var d := Drop(c, 4);
    DropFour(c);
    DropFour(d);
    DropCompose(c, 4, 4);
    ShiftFours(c, d);
  }

  lemma ShiftBytes(c: bv32, c1: bv32, c2: bv32, c3: bv32)
    requires c1 == c >> 8 && c2 == c1 >> 8 && c3 == c2 >> 8
    ensures c3 >> 8 == 0
  {
  }

  lemma DropAll(c: bv32)
    ensures Drop(c, 32) == 0
  {
    var c1 := c >> 8;
    var c2 := c1 >> 8;
    var c3 := c2 >> 8;
    ShiftBytes(c, c1, c2, c3);
    DropEight(c, c1);
    DropEight(c1, c2);
    DropEight(c2, c3);
    DropEight(c3, 0);
    DropCompose(c, 8, 8);
    DropCompose(c, 16, 8);
    DropCompose(c, 24, 8);
  }

  lemma {:induction false} BitsSplit(c: bv32, m: nat, n: nat)
    ensures Bits(c, m + n) == Bits(c, m) + Bits(Drop(c, m), n)
    decreases m
  {
    if m > 0 {
      BitsSplit(Half(c), m - 1, n);
    }
  }

  /** A word is its four bytes, lowest first. */
  lemma BitsOfBytes(c: bv32, c1: bv32, c2: bv32, c3: bv32)
    requires c1 == c >> 8 && c2 == c1 >> 8 && c3 == c2 >> 8
    ensures Bits(c, 32) == Bits(c, 8) + (Bits(c1, 8) + (Bits(c2, 8) + Bits(c3, 8)))
  {
    DropEight(c, c1);
    DropEight(c1, c2);
    DropEight(c2, c3);
    BitsSplit(c, 8, 24);
    BitsSplit(c1, 8, 16);
    BitsSplit(c2, 8, 8);
  }

  /** Shifting the register right drops its first coefficient and appends a zero. */
  lemma BitsOfHalf(c: bv32)
    ensures Bits(Half(c), 32) == Bits(c, 32)[1..] + [false]
  {
    var all := Bits(c, 33);
    assert all == [Low(c)] + Bits(Half(c), 32);
    assert all == Bits(c, 32) + [false] by {
      BitsExtend(c, 32);
      DropAll(c);
    }
    assert all[1..] == Bits(c, 32)[1..] + [false];
  }

  lemma BitsCons(c: bv32, h: bv32, b: Poly)
    requires b != [] && Low(c) == b[0] && h == Half(c) && Bits(h, |b| - 1) == b[1..]
    ensures Bits(c, |b|) == b
  {
  }

  /** The low eight bits, one by one. */
  lemma ByteIs(c: bv32, b: Poly)
    requires |b| == 8
    requires var c1 := Half(c); var c2 := Half(c1); var c3 := Half(c2); var c4 := Half(c3);
             var c5 := Half(c4); var c6 := Half(c5); var c7 := Half(c6);
             && Low(c) == b[0] && Low(c1) == b[1] && Low(c2) == b[2] && Low(c3) == b[3]
             && Low(c4) == b[4] && Low(c5) == b[5] && Low(c6) == b[6] && Low(c7) == b[7]
    ensures Bits(c, 8) == b
  {
    var c1 := Half(c);
    var c2 := Half(c1);
    var c3 := Half(c2);
    var c4 := Half(c3);
    var c5 := Half(c4);
    var c6 := Half(c5);
    var c7 := Half(c6);
    BitsCons(c7, Half(c7), b[7..]);
    BitsCons(c6, c7, b[6..]);
    BitsCons(c5, c6, b[5..]);
    BitsCons(c4, c5, b[4..]);
    BitsCons(c3, c4, b[3..]);
    BitsCons(c2, c3, b[2..]);
    BitsCons(c1, c2, b[1..]);
    BitsCons(c, c1, b);
  }

  const POLY: bv32 := 0xEDB8_8320

  /** The coefficients of G below x^32, from x^31 down. */
  const TAIL: Poly :=
    [false, false, false, false, false, true, false, false, true, true, false, false, false, false, false, true,
     false, false, false, true, true, true, false, true, true, false, true, true, false, true, true, true]

  lemma TailOfGenerator()
    ensures Generator()[1..] == TAIL
  {
    forall i | 0 <= i < 32 ensures TAIL[i] == Generator()[1..][i] {
      assert Generator()[1..][i] == ((31 - i) in EXPONENTS);
    }
  }

  /** The reflected constant is G without its leading coefficient, lowest bit = x^31. */
  lemma PolyIsGenerator()
    ensures Bits(POLY, 32) == Generator()[1..]
  {
    TailOfGenerator();
    BitsOfBytes(0xEDB8_8320, 0xED_B883, 0xEDB8, 0xED);
    var t, f := true, false;
    ByteIs(0xEDB8_8320, [f, f, f, f, f, t, f, f]);
    ByteIs(0xED_B883, [t, t, f, f, f, f, f, t]);
    ByteIs(0xEDB8, [f, f, f, t, t, t, f, t]);
    ByteIs(0xED, [t, f, t, t, f, t, t, t]);
  }

  // ---------- the code ----------

  function Xor(a: bv32, b: bv32): bv32 { a ^ b }

  /** The reflected step: halve, and subtract the generator when the low bit was set. */
  function Step(c: bv32): bv32 {
    if Low(c) then Xor(Half(c), POLY) else Half(c)
  }

  lemma XorZero(c: bv32)
    ensures c ^ 0 == c
  {
  }

  lemma MaskedBit(c: bv32, mask: bv32)
    requires mask == 0 - (c & 1)
    ensures mask == if c & 1 == 1 then 0xFFFF_FFFF else 0
  {
  }

  /** The branchless masked step of the code is that conditional subtraction. */
  lemma MaskedStep(c: bv32, mask: bv32)
    requires mask == 0 - (c & 1)
    ensures (c >> 1) ^ (POLY & mask) == Step(c)
  {
    MaskedBit(c, mask);
    assert POLY & 0xFFFF_FFFF == POLY && POLY & 0 == 0;
    XorZero(c >> 1);
  }

  /** A step of the code is one step of long division on a zero message bit. */
  lemma StepDivides(c: bv32)
    ensures Bits(Step(c), 32) == DivisionStep(Bits(c, 32), false)
  {
    BitsOfHalf(c);
    PolyIsGenerator();
    var h := Half(c);
    var c' := Step(c);
    if Low(c) {
      AddBits(h, POLY, c');
    }
  }

  /**
   * Message bits may be added to the register before their turn: dividing with the pending bits `p` already added is
   * dividing by the first of them and keeping the rest pending.
   */
  lemma DivisionOfPending(r: Poly, p: Poly)
    requires |r| == |p| == 32
    ensures DivisionStep(Plus(r, p), false) == Plus(DivisionStep(r, p[0]), p[1..] + [false])
  {
    var lhs, rhs := DivisionStep(Plus(r, p), false), Plus(DivisionStep(r, p[0]), p[1..] + [false]);
    forall i | 0 <= i < 32 ensures lhs[i] == rhs[i] {
      assert (Plus(r, p)[1..] + [false])[i] == ((r[1..] + [false])[i] != (p[1..] + [false])[i]);
    }
  }

  /** A byte as the standard transmits it: least significant bit first. */
  function ByteBits(b: bv8): (p: Poly)
    ensures |p| == 8
  {
    Bits(b as bv32, 8)
  }

  /** The message polynomial of a byte string. */
  function MessageBits(name: seq<bv8>): (m: Poly)
    ensures |m| == 8 * |name|
  {
    if name == [] then [] else MessageBits(name[..|name| - 1]) + ByteBits(name[|name| - 1])
  }

  lemma RegisterSnoc(m: Poly, b: bool)
    ensures Register(m + [b]) == DivisionStep(Register(m), b)
  {
    assert (m + [b])[..|m|] == m;
  }

  lemma OnesRegister()
    ensures Bits(0xFFFF_FFFF, 32) == Ones(32)
  {
    BitsOfBytes(0xFFFF_FFFF, 0xFF_FFFF, 0xFFFF, 0xFF);
    ByteIs(0xFFFF_FFFF, Ones(8));
    ByteIs(0xFF_FFFF, Ones(8));
    ByteIs(0xFFFF, Ones(8));
    ByteIs(0xFF, Ones(8));
  }

  lemma NotIsXor(c: bv32)
    ensures !c == c ^ 0xFFFF_FFFF
  {
  }

  lemma BitsOfNot(c: bv32, d: bv32)
    requires d == !c
    ensures Bits(d, 32) == Complement(Bits(c, 32))
  {
    NotIsXor(c);
    OnesRegister();
    AddBits(c, 0xFFFF_FFFF, d);
  }

  lemma ByteDrops(c: bv32)
    requires c < 0x100
    ensures Drop(c, 8) == 0
  {
    assert c >> 8 == 0;
    DropEight(c, 0);
  }

  lemma PendingShifts(word: bv32, j: nat)
    ensures Bits(Drop(word, j + 1), 32) == Bits(Drop(word, j), 32)[1..] + [false]
  {
    BitsOfHalf(Drop(word, j));
    DropCompose(word, j, 1);
  }

  lemma RegisterTakesBit(word: bv32, j: nat, m: Poly)
    ensures Register(m + Bits(word, j + 1)) == DivisionStep(Register(m + Bits(word, j)), Bits(Drop(word, j), 32)[0])
  {
    var bit := Low(Drop(word, j));
    BitsExtend(word, j);
    RegisterSnoc(m + Bits(word, j), bit);
    assert m + Bits(word, j + 1) == m + Bits(word, j) + [bit];
  }

  /** One iteration of the inner loop keeps "register plus pending bits". */
  lemma InnerStep(crc: bv32, word: bv32, j: nat, m: Poly)
    requires Bits(crc, 32) == Plus(Register(m + Bits(word, j)), Bits(Drop(word, j), 32))
    ensures Bits(Step(crc), 32) == Plus(Register(m + Bits(word, j + 1)), Bits(Drop(word, j + 1), 32))
  {
    StepDivides(crc);
    DivisionOfPending(Register(m + Bits(word, j)), Bits(Drop(word, j), 32));
    PendingShifts(word, j);
    RegisterTakesBit(word, j, m);
  }

  lemma BitsOfZero()
    ensures Bits(0, 32) == Zeros(32)
  {
    BitsOfBytes(0, 0, 0, 0);
    ByteIs(0, Zeros(8));
  }

  /** One round of the inner loop. */
  method MaskedRound(c: bv32) returns (c': bv32)
    ensures c' == Step(c)
  {
    var mask := 0 - (c & 1);
    MaskedStep(c, mask);
    c' := (c >> 1) ^ (POLY & mask);
  }

  /** The register and the first `j` bits of a word that it has taken in; the others are pending. */
  ghost predicate Pending(crc: bv32, word: bv32, j: nat, m: Poly) {
    Bits(crc, 32) == Plus(Register(m + Bits(word, j)), Bits(Drop(word, j), 32))
  }

  lemma AllPending(crc0: bv32, word: bv32, crc: bv32, m: Poly)
    requires Bits(crc0, 32) == Register(m) && crc == crc0 ^ word
    ensures Pending(crc, word, 0, m)
  {
    assert m + Bits(word, 0) == m;
    AddBits(crc0, word, crc);
  }

  lemma NonePending(crc: bv32, word: bv32, m: Poly)
    requires word < 0x100 && Pending(crc, word, 8, m)
    ensures Bits(crc, 32) == Register(m + Bits(word, 8))
  {
    ByteDrops(word);
    BitsOfZero();
  }

  lemma ByteIsSmall(b: bv8)
    ensures (b as bv32) < 0x100
  {
  }

  /** One message byte: the register takes in the eight bits of the byte. */
  method ByteStep(crc0: bv32, b: bv8, ghost m: Poly) returns (crc: bv32)
    requires Bits(crc0, 32) == Register(m)
    ensures Bits(crc, 32) == Register(m + ByteBits(b))
  {
    var word := b as bv32;
    crc := crc0 ^ word;
    AllPending(crc0, word, crc, m);
    for j := 0 to 8
      invariant Pending(crc, word, j, m)
    {
      InnerStep(crc, word, j, m);
      crc := MaskedRound(crc);
    }
    ByteIsSmall(b);
    NonePending(crc, word, m);
  }

  /** The final complement. */
  method Finish(register: bv32) returns (crc: bv32)
    ensures Complement(Bits(crc, 32)) == Bits(register, 32)
  {
    crc := !register;
    BitsOfNot(register, crc);
  }

  /**
   * The hash of a name is its IEEE 802.3 CRC: the complemented remainder, after division by G(x), of M(x) * x^32 with
   * the first 32 message bits complemented. The register is bit-reflected, so its lowest bit is the x^31 coefficient.
   */
  method PropertyId(name: seq<bv8>) returns (crc: bv32)
    ensures IsRemainder(Dividend(MessageBits(name)), Complement(Bits(crc, 32)))
  {
    crc := 0xFFFF_FFFF;
    OnesRegister();
    for k := 0 to |name|
      invariant Bits(crc, 32) == Register(MessageBits(name[..k]))
    {
      crc := ByteStep(crc, name[k], MessageBits(name[..k]));
      assert name[..k + 1][..k] == name[..k];
    }
    assert name[..|name|] == name;
    LongDivision(MessageBits(name));
    crc := Finish(crc);
  }

  lemma LowAndHalf(a: bv32, b: bv32)
    requires Low(a) == Low(b) && Half(a) == Half(b)
    ensures a == b
  {
  }

  lemma {:induction false} BitsInjective(a: bv32, b: bv32, n: nat)
    requires Bits(a, n) == Bits(b, n) && Drop(a, n) == Drop(b, n)
    ensures a == b
    decreases n
  {
    if n > 0 {
      assert Bits(a, n)[0] == Bits(b, n)[0];
      assert Bits(Half(a), n - 1) == Bits(a, n)[1..] == Bits(b, n)[1..] == Bits(Half(b), n - 1);
      BitsInjective(Half(a), Half(b), n - 1);
      LowAndHalf(a, b);
    }
  }

  /** The standard's definition leaves one value for the hash of a name. */
  lemma HashIsUnique(name: seq<bv8>, c1: bv32, c2: bv32)
    requires IsRemainder(Dividend(MessageBits(name)), Complement(Bits(c1, 32)))
    requires IsRemainder(Dividend(MessageBits(name)), Complement(Bits(c2, 32)))
    ensures c1 == c2
  {
    RemainderUnique(Dividend(MessageBits(name)), Complement(Bits(c1, 32)), Complement(Bits(c2, 32)));
    forall i | 0 <= i < 32 ensures Bits(c1, 32)[i] == Bits(c2, 32)[i] {
      assert Complement(Bits(c1, 32))[i] == Complement(Bits(c2, 32))[i];
    }
    DropAll(c1);
    DropAll(c2);
    BitsInjective(c1, c2, 32);
  }
}
