/** What the checksum is: the remainder of the message modulo the Castagnoli polynomial over GF(2). */
module CrcPolynomial {
  import opened Crc32c

  /** A polynomial over GF(2), as the set of degrees whose coefficient is one. */
  type Poly = set<nat>

  ghost function Plus(a: Poly, b: Poly): Poly { (a - b) + (b - a) }

  /** The polynomial times x^k. */
  ghost function Raised(a: Poly, k: nat): Poly { set i | i in a :: i + k }

  /** 0x11EDC6F41, section 12.1 of RFC 3720. */
  ghost const GENERATOR: Poly := {32, 28, 27, 26, 25, 23, 22, 20, 19, 18, 14, 13, 11, 10, 9, 8, 6, 0}

  /** The polynomial with the given coefficients, the highest degree first. */
  ghost function OfBits(bits: seq<bool>): Poly {
    if bits == [] then {}
    else
      var n := |bits| - 1;
      Plus(Raised(OfBits(bits[..n]), 1), if bits[n] then {0} else {})
  }

  /** The product of the polynomial with the given coefficients, the highest degree first, and g. */
  ghost function Times(q: seq<bool>, g: Poly): Poly {
    if q == [] then {}
    else
      var n := |q| - 1;
      Plus(Raised(Times(q[..n], g), 1), if q[n] then g else {})
  }

  /** r is what division by the generator leaves of a. */
  ghost predicate IsRemainder(a: Poly, r: Poly) {
    (forall d :: d in r ==> d < 32) && exists q :: a == Plus(Times(q, GENERATOR), r)
  }

  lemma PlusLaws(a: Poly, b: Poly, c: Poly)
    ensures Plus(a, b) == Plus(b, a) && Plus(a, {}) == a && Plus(a, a) == {}
    ensures Plus(Plus(a, b), c) == Plus(a, Plus(b, c))
  {
  }

  lemma RaisedHas(a: Poly, k: nat)
    ensures forall j: nat :: j in Raised(a, k) <==> j >= k && j - k in a
  {
    forall j: nat | j >= k && j - k in a ensures j in Raised(a, k) {
      var i := j - k;
      assert i in a && i + k == j;
    }
  }

  lemma RaisedLaws(a: Poly, b: Poly, k: nat, l: nat)
    ensures Raised(Plus(a, b), k) == Plus(Raised(a, k), Raised(b, k))
    ensures Raised(Raised(a, k), l) == Raised(a, k + l)
    ensures Raised(a, 0) == a && Raised({}, k) == {}
  {
    RaisedHas(Plus(a, b), k);
    RaisedHas(a, k);
    RaisedHas(b, k);
    RaisedHas(Raised(a, k), l);
    RaisedHas(a, k + l);
    RaisedHas(a, 0);
    hide Raised;
  }

  lemma {:induction false} OfBitsConcat(a: seq<bool>, b: seq<bool>)
    ensures OfBits(a + b) == Plus(Raised(OfBits(a), |b|), OfBits(b))
    decreases |b|
  {
    hide Plus, Raised;
    if b == [] {
      assert a + b == a;
      PlusLaws(OfBits(a), {}, {});
      RaisedLaws(OfBits(a), {}, 0, 0);
    } else {
      var n := |b| - 1;
      var last: Poly := if b[n] then {0} else {};
      OfBitsConcat(a, b[..n]);
      assert (a + b)[..|a| + n] == a + b[..n];
      RaisedLaws(Raised(OfBits(a), n), OfBits(b[..n]), 1, 0);
      RaisedLaws(OfBits(a), {}, n, 1);
      PlusLaws(Raised(OfBits(a), n + 1), Raised(OfBits(b[..n]), 1), last);
    }
  }

  lemma {:induction false} TimesConcat(a: seq<bool>, b: seq<bool>, g: Poly)
    ensures Times(a + b, g) == Plus(Raised(Times(a, g), |b|), Times(b, g))
    decreases |b|
  {
    hide Plus, Raised;
    if b == [] {
      assert a + b == a;
      PlusLaws(Times(a, g), {}, {});
      RaisedLaws(Times(a, g), {}, 0, 0);
    } else {
      var n := |b| - 1;
      var last: Poly := if b[n] then g else {};
      TimesConcat(a, b[..n], g);
      assert (a + b)[..|a| + n] == a + b[..n];
      RaisedLaws(Raised(Times(a, g), n), Times(b[..n], g), 1, 0);
      RaisedLaws(Times(a, g), {}, n, 1);
      PlusLaws(Raised(Times(a, g), n + 1), Raised(Times(b[..n], g), 1), last);
    }
  }

  function XorBits(a: seq<bool>, b: seq<bool>): (r: seq<bool>)
    requires |a| == |b|
    ensures |r| == |a|
  {
    seq(|a|, i requires 0 <= i < |a| => a[i] != b[i])
  }

  lemma {:induction false} TimesXor(a: seq<bool>, b: seq<bool>, g: Poly)
    requires |a| == |b|
    ensures Times(XorBits(a, b), g) == Plus(Times(a, g), Times(b, g))
  {
    hide Raised;
    if a != [] {
      var n := |a| - 1;
      TimesXor(a[..n], b[..n], g);
      assert XorBits(a, b)[..n] == XorBits(a[..n], b[..n]);
      RaisedLaws(Times(a[..n], g), Times(b[..n], g), 1, 0);
    }
  }

  function Zeros(n: nat): seq<bool> { seq(n, _ => false) }

  lemma {:induction false} TimesZeros(n: nat, g: Poly)
    ensures Times(Zeros(n), g) == {}
  {
    if n > 0 {
      TimesZeros(n - 1, g);
      assert Zeros(n)[..n - 1] == Zeros(n - 1);
    }
  }

  lemma TimesPadded(n: nat, q: seq<bool>, g: Poly)
    ensures Times(Zeros(n) + q, g) == Times(q, g)
  {
    hide Times;
    TimesConcat(Zeros(n), q, g);
    TimesZeros(n, g);
  }

  /** With a leading one the product has the degree it should have, and none above. */
  lemma {:induction false} TopDegree(q: seq<bool>)
    requires q != []
    ensures forall d :: d in Times(q, GENERATOR) ==> d <= |q| + 31
    ensures q[0] ==> |q| + 31 in Times(q, GENERATOR)
  {
    var n := |q| - 1;
    if n > 0 { TopDegree(q[..n]); }
    RaisedHas(Times(q[..n], GENERATOR), 1);
    hide Raised;
  }

  lemma {:induction false} SmallMultiple(q: seq<bool>)
    requires forall d :: d in Times(q, GENERATOR) ==> d < 32
    ensures Times(q, GENERATOR) == {}
  {
    if q != [] {
      TopDegree(q);
      assert q == [false] + q[1..];
      assert Zeros(1) == [false];
      TimesPadded(1, q[1..], GENERATOR);
      SmallMultiple(q[1..]);
    }
  }

  lemma SumOfRemainders(a: Poly, t: Poly, r: Poly, t': Poly, r': Poly)
    requires a == Plus(t, r) && a == Plus(t', r')
    ensures Plus(t, t') == Plus(r, r')
  {
    forall d: nat ensures d in Plus(t, t') <==> d in Plus(r, r') {
      assert d in Plus(t, r) <==> d in Plus(t', r');
    }
  }

  /** A remainder is unique: a multiple of the generator other than zero has a degree of at least 32. */
  lemma RemainderUnique(a: Poly, r: Poly, r': Poly)
    requires IsRemainder(a, r) && IsRemainder(a, r')
    ensures r == r'
  {
    var q :| a == Plus(Times(q, GENERATOR), r);
    var q' :| a == Plus(Times(q', GENERATOR), r');
    var p, p' := Zeros(|q'|) + q, Zeros(|q|) + q';
    TimesPadded(|q'|, q, GENERATOR);
    TimesPadded(|q|, q', GENERATOR);
    TimesXor(p, p', GENERATOR);
    hide Times;
    SumOfRemainders(a, Times(q, GENERATOR), r, Times(q', GENERATOR), r');
    SmallMultiple(XorBits(p, p'));
    assert Plus(r, r') == {};
    assert r - r' == {} && r' - r == {};
  }

  function And(a: word, m: word): word { a & m }

  function Double(m: word): word { m << 1 }

  function Mask(j: nat): word { if j == 0 then 1 else Double(Mask(j - 1)) }

  predicate HasDegree(w: word, d: nat)
    requires d < 32
  {
    And(w, Mask(31 - d)) != 0
  }

  /** The register as a polynomial: its lowest bit is the coefficient of x^31. */
  ghost function Coefs(w: word): Poly { set d: nat | d < 32 && HasDegree(w, d) }

  lemma AndXor(a: word, b: word, m: word)
    ensures And(Xor(a, b), m) == Xor(And(a, m), And(b, m))
  {
  }

  lemma AndDouble(w: word, m: word)
    ensures And(w, Double(m)) == Double(And(Half(w), m))
    ensures And(w, Double(m)) != 0 <==> And(Half(w), m) != 0
  {
  }

  lemma DoubleZero()
    ensures Double(0) == 0
  {
  }

  lemma AndOne(w: word)
    ensures And(w, 1) == 0 || And(w, 1) == 1
    ensures And(w, 1) == 1 <==> w & 1 == 1
  {
  }

  lemma AndTop(w: word)
    ensures And(Half(w), 0x8000_0000) == 0
  {
  }

  lemma AndZero(m: word)
    ensures And(0, m) == 0
  {
  }

  lemma {:induction false} OneBit(w: word, j: nat)
    ensures And(w, Mask(j)) == 0 || And(w, Mask(j)) == Mask(j)
    decreases j
  {
    hide Half, And, Double;
    if j > 0 {
      OneBit(Half(w), j - 1);
      AndDouble(w, Mask(j - 1));
      DoubleZero();
    } else {
      AndOne(w);
    }
  }

  lemma XorDegree(a: word, b: word, d: nat)
    requires d < 32
    ensures HasDegree(Xor(a, b), d) <==> HasDegree(a, d) != HasDegree(b, d)
  {
    hide Mask, Xor, And;
    var m := Mask(31 - d);
    OneBit(a, 31 - d);
    OneBit(b, 31 - d);
    AndXor(a, b, m);
    XorLaws(m, m, 0, 0);
    XorLaws(0, m, 0, 0);
  }

  lemma CoefsXor(a: word, b: word)
    ensures Coefs(Xor(a, b)) == Plus(Coefs(a), Coefs(b))
  {
    hide HasDegree, Xor;
    forall d: nat | d < 32 ensures HasDegree(Xor(a, b), d) <==> HasDegree(a, d) != HasDegree(b, d) {
      XorDegree(a, b, d);
    }
  }

  lemma MaskValues()
    ensures Mask(31) == 0x8000_0000
    ensures Coefs(POLYNOMIAL) == GENERATOR - {32}
  {
    assert Mask(1) == 0x0000_0002;
    assert Mask(2) == 0x0000_0004;
    assert Mask(3) == 0x0000_0008;
    assert Mask(4) == 0x0000_0010;
    assert Mask(5) == 0x0000_0020;
    assert Mask(6) == 0x0000_0040;
    assert Mask(7) == 0x0000_0080;
    assert Mask(8) == 0x0000_0100;
    assert Mask(9) == 0x0000_0200;
    assert Mask(10) == 0x0000_0400;
    assert Mask(11) == 0x0000_0800;
    assert Mask(12) == 0x0000_1000;
    assert Mask(13) == 0x0000_2000;
    assert Mask(14) == 0x0000_4000;
    assert Mask(15) == 0x0000_8000;
    assert Mask(16) == 0x0001_0000;
    assert Mask(17) == 0x0002_0000;
    assert Mask(18) == 0x0004_0000;
    assert Mask(19) == 0x0008_0000;
    assert Mask(20) == 0x0010_0000;
    assert Mask(21) == 0x0020_0000;
    assert Mask(22) == 0x0040_0000;
    assert Mask(23) == 0x0080_0000;
    assert Mask(24) == 0x0100_0000;
    assert Mask(25) == 0x0200_0000;
    assert Mask(26) == 0x0400_0000;
    assert Mask(27) == 0x0800_0000;
    assert Mask(28) == 0x1000_0000;
    assert Mask(29) == 0x2000_0000;
    assert Mask(30) == 0x4000_0000;
    assert Mask(31) == 0x8000_0000;
  }

  lemma HalfDegree(w: word, d: nat)
    requires d < 32
    ensures HasDegree(Half(w), d) <==> d > 0 && HasDegree(w, d - 1)
  {
    if d == 0 {
      MaskValues();
      AndTop(w);
    } else {
      hide Half, And, Double;
      AndDouble(w, Mask(31 - d));
    }
  }

  /** Halving the register multiplies the polynomial by x, but for the highest degree. */
  lemma CoefsHalf(w: word)
    ensures Coefs(Half(w)) == Raised(Coefs(w) - {31}, 1)
  {
    hide HasDegree, Half, Raised;
    forall d: nat | d < 32 ensures HasDegree(Half(w), d) <==> d > 0 && HasDegree(w, d - 1) {
      HalfDegree(w, d);
    }
    RaisedHas(Coefs(w) - {31}, 1);
  }

  lemma LowIsTop(w: word)
    ensures 31 in Coefs(w) <==> w & 1 == 1
    ensures Coefs(w) <= Coefs(w) - {31} + {31}
  {
    hide And;
    AndOne(w);
    assert Mask(0) == 1;
  }

  lemma ZeroDegree(d: nat)
    requires d < 32
    ensures !HasDegree(0, d)
  {
    hide And, Mask;
    AndZero(Mask(31 - d));
  }

  lemma CoefsZero()
    ensures Coefs(0) == {}
  {
    hide HasDegree;
    forall d: nat | d < 32 ensures !HasDegree(0, d) { ZeroDegree(d); }
  }

  lemma CoefsFeedback(w: word)
    ensures Coefs(Feedback(w)) == if 31 in Coefs(w) then GENERATOR - {32} else {}
  {
    hide Coefs;
    LowIsTop(w);
    MaskValues();
    CoefsZero();
  }

  lemma TakeOut(c: Poly, half: Poly, r: Poly)
    requires half == Raised(c - {31}, 1) && (forall d :: d in c ==> d < 32)
    requires r == Plus(half, if 31 in c then GENERATOR - {32} else {})
    ensures Raised(c, 1) == Plus(if 31 in c then GENERATOR else {}, r)
  {
    RaisedHas(c, 1);
    RaisedHas(c - {31}, 1);
    hide Raised;
  }

  /** A bit step multiplies by x and takes out the generator when the degree becomes 32. */
  lemma BitStepDivides(w: word)
    ensures Raised(Coefs(w), 1) == Plus(if 31 in Coefs(w) then GENERATOR else {}, Coefs(BitStep(w)))
  {
    hide Xor, Half, Feedback, HasDegree, Raised, Plus;
    CoefsXor(Half(w), Feedback(w));
    CoefsHalf(w);
    CoefsFeedback(w);
    TakeOut(Coefs(w), Coefs(Half(w)), Coefs(BitStep(w)));
  }

  lemma TimesOne(c: bool, g: Poly)
    ensures Times([c], g) == if c then g else {}
  {
    assert [c][..0] == [];
  }

  /** n bit steps divide x^n times the register. */
  lemma {:induction false} StepsDivide(w: word, n: nat) returns (q: seq<bool>)
    ensures |q| == n && Raised(Coefs(w), n) == Plus(Times(q, GENERATOR), Coefs(Steps(w, n)))
    decreases n
  {
    hide Plus, Raised, Coefs, BitStep, GENERATOR;
    if n == 0 {
      q := [];
      RaisedLaws(Coefs(w), {}, 0, 0);
      PlusLaws(Coefs(w), {}, {});
      PlusLaws({}, Coefs(w), {});
    } else {
      var rest := StepsDivide(BitStep(w), n - 1);
      var c := 31 in Coefs(w);
      var first: Poly := if c then GENERATOR else {};
      q := [c] + rest;
      BitStepDivides(w);
      RaisedLaws(Coefs(w), {}, 1, n - 1);
      RaisedLaws(first, Coefs(BitStep(w)), n - 1, 0);
      TimesConcat([c], rest, GENERATOR);
      TimesOne(c, GENERATOR);
      PlusLaws(Raised(first, n - 1), Times(rest, GENERATOR), Coefs(Steps(BitStep(w), n - 1)));
    }
  }

  /** The bits of a byte in the order of transmission, and those of a message. */
  function ByteBits(b: bv8): seq<bool> {
    [b & 0x01 != 0, b & 0x02 != 0, b & 0x04 != 0, b & 0x08 != 0, b & 0x10 != 0, b & 0x20 != 0, b & 0x40 != 0,
     b & 0x80 != 0]
  }

  function MessageBits(bytes: seq<bv8>): seq<bool> {
    if bytes == [] then [] else MessageBits(bytes[..|bytes| - 1]) + ByteBits(bytes[|bytes| - 1])
  }

  lemma {:induction false} OfBitsHas(bits: seq<bool>)
    ensures forall d: nat :: d in OfBits(bits) <==> d < |bits| && bits[|bits| - 1 - d]
  {
    if bits != [] {
      var n := |bits| - 1;
      OfBitsHas(bits[..n]);
      RaisedHas(OfBits(bits[..n]), 1);
      hide Raised;
    }
  }

  lemma ByteMasks()
    ensures Mask(0) == 0x01 && Mask(1) == 0x02 && Mask(2) == 0x04 && Mask(3) == 0x08 && Mask(4) == 0x10
    ensures Mask(5) == 0x20 && Mask(6) == 0x40 && Mask(7) == 0x80 && Mask(8) == 0x100
  {
    assert Mask(4) == 0x10;
  }

  lemma LowMasks(b: bv8)
    ensures forall j: nat :: j < 8 ==> (And(Widen(b), Mask(j)) != 0 <==> ByteBits(b)[j])
  {
    hide Mask;
    ByteMasks();
  }

  predicate IsByte(w: word) { w & 0xffff_ff00 == 0 }

  lemma HalfByte(w: word)
    requires IsByte(w)
    ensures IsByte(Half(w)) && And(w, 0x100) == 0
  {
  }

  lemma WidenByte(b: bv8)
    ensures IsByte(Widen(b))
  {
  }

  lemma {:induction false} HighMask(w: word, j: nat)
    requires IsByte(w) && j >= 8
    ensures And(w, Mask(j)) == 0
    decreases j
  {
    HalfByte(w);
    if j == 8 {
      ByteMasks();
    } else {
      hide IsByte, Half, And, Double;
      HighMask(Half(w), j - 1);
      AndDouble(w, Mask(j - 1));
    }
  }

  lemma ByteDegrees(b: bv8)
    ensures Coefs(Widen(b)) == Raised(OfBits(ByteBits(b)), 24)
  {
    OfBitsHas(ByteBits(b));
    RaisedHas(OfBits(ByteBits(b)), 24);
    LowMasks(b);
    WidenByte(b);
    hide Raised, OfBits, And, Mask, Widen, ByteBits, IsByte;
    forall d: nat | d < 24 ensures !HasDegree(Widen(b), d) { HighMask(Widen(b), 31 - d); }
  }

  /** A byte step divides x^8 times the register plus x^32 times the byte. */
  lemma UpdateDivides(l: word, b: bv8) returns (q: seq<bool>)
    ensures |q| == 8
    ensures Plus(Raised(Coefs(l), 8), Raised(OfBits(ByteBits(b)), 32)) ==
            Plus(Times(q, GENERATOR), Coefs(Update(l, b)))
  {
    hide Plus, Raised, Coefs, OfBits, ByteBits, Steps, Xor, Widen, Times;
    q := StepsDivide(Xor(l, Widen(b)), 8);
    CoefsXor(l, Widen(b));
    ByteDegrees(b);
    RaisedLaws(Coefs(l), Coefs(Widen(b)), 8, 0);
    RaisedLaws(OfBits(ByteBits(b)), {}, 24, 8);
  }

  /** What is divided: the start register in front of the message, times x^32. */
  ghost function Dividend(start: Poly, bytes: seq<bv8>): Poly {
    Plus(Raised(start, 8 * |bytes|), Raised(OfBits(MessageBits(bytes)), 32))
  }

  lemma EightBits(b: bv8)
    ensures |ByteBits(b)| == 8
  {
  }

  lemma DividendStep(start: Poly, bytes: seq<bv8>)
    requires bytes != []
    ensures var n := |bytes| - 1;
            Dividend(start, bytes) ==
            Plus(Raised(Dividend(start, bytes[..n]), 8), Raised(OfBits(ByteBits(bytes[n])), 32))
  {
    hide Plus, Raised, OfBits, ByteBits;
    var n := |bytes| - 1;
    var a, m, last := Raised(start, 8 * n), OfBits(MessageBits(bytes[..n])), OfBits(ByteBits(bytes[n]));
    EightBits(bytes[n]);
    OfBitsConcat(MessageBits(bytes[..n]), ByteBits(bytes[n]));
    RaisedLaws(start, {}, 8 * n, 8);
    RaisedLaws(Raised(m, 8), last, 32, 0);
    RaisedLaws(m, {}, 8, 32);
    RaisedLaws(m, {}, 32, 8);
    RaisedLaws(a, Raised(m, 32), 8, 0);
    PlusLaws(Raised(a, 8), Raised(m, 40), Raised(last, 32));
  }

  lemma {:induction false} FoldDivides(l: word, bytes: seq<bv8>) returns (q: seq<bool>)
    ensures Dividend(Coefs(l), bytes) == Plus(Times(q, GENERATOR), Coefs(Fold(l, bytes)))
  {
    hide Plus, Raised, Coefs, ByteBits, Update;
    if bytes == [] {
      q := [];
      RaisedLaws(Coefs(l), {}, 0, 0);
      RaisedLaws({}, {}, 32, 0);
      PlusLaws(Coefs(l), {}, {});
    } else {
      var n := |bytes| - 1;
      var front := FoldDivides(l, bytes[..n]);
      var r, byte := Fold(l, bytes[..n]), Raised(OfBits(ByteBits(bytes[n])), 32);
      var last := UpdateDivides(r, bytes[n]);
      q := front + last;
      DividendStep(Coefs(l), bytes);
      TimesConcat(front, last, GENERATOR);
      hide Times, OfBits, Dividend;
      var t, t' := Raised(Times(front, GENERATOR), 8), Times(last, GENERATOR);
      RaisedLaws(Times(front, GENERATOR), Coefs(r), 8, 0);
      PlusLaws(t, Raised(Coefs(r), 8), byte);
      PlusLaws(t, t', Coefs(Update(r, bytes[n])));
    }
  }

  /** All coefficients of the register one. */
  ghost const ALL: Poly := set d: nat | d < 32

  lemma OnesAnd(m: word)
    ensures And(ONES, m) == m
  {
  }

  lemma {:induction false} MaskNotZero(j: nat)
    requires j < 32
    ensures Mask(j) != 0
    decreases 32 - j
  {
    hide Double;
    if j == 31 {
      MaskValues();
    } else {
      MaskNotZero(j + 1);
      DoubleZero();
    }
  }

  lemma OnesDegree(d: nat)
    requires d < 32
    ensures HasDegree(ONES, d)
  {
    hide And, Mask;
    OnesAnd(Mask(31 - d));
    MaskNotZero(31 - d);
  }

  lemma CoefsOnes()
    ensures Coefs(ONES) == ALL
  {
    hide HasDegree;
    forall d: nat | d < 32 ensures HasDegree(ONES, d) { OnesDegree(d); }
  }

  lemma CoefsBelow(w: word)
    ensures forall d :: d in Coefs(w) ==> d < 32
  {
  }

  /** The complement of the checksum of a message is the remainder of what RFC 3720 divides: the message
      times x^32, its start complemented, or continuing the register of an earlier checksum. */
  lemma ChecksumIsRemainder(crc: word, bytes: seq<bv8>)
    ensures IsRemainder(Dividend(Plus(Coefs(crc), ALL), bytes), Plus(Coefs(Checksum(crc, bytes)), ALL))
  {
    hide Plus, Raised, Coefs, Dividend, Fold, Xor, Times, ALL;
    var r := Fold(Xor(crc, ONES), bytes);
    var q := FoldDivides(Xor(crc, ONES), bytes);
    CoefsOnes();
    CoefsXor(crc, ONES);
    CoefsXor(r, ONES);
    PlusLaws(ALL, ALL, {});
    PlusLaws(Coefs(r), ALL, ALL);
    PlusLaws(Coefs(r), {}, {});
    CoefsBelow(r);
    assert Plus(Coefs(Checksum(crc, bytes)), ALL) == Coefs(r);
    assert Dividend(Plus(Coefs(crc), ALL), bytes) == Plus(Times(q, GENERATOR), Coefs(r));
  }

  lemma HalfSmaller(w: word)
    requires w != 0 && w & 1 != 1
    ensures Half(w) < w && Half(w) != 0
  {
  }

  lemma {:induction false} NoDegrees(w: word)
    requires Coefs(w) == {}
    ensures w == 0
    decreases w
  {
    hide Coefs, Half;
    if w != 0 {
      LowIsTop(w);
      HalfSmaller(w);
      CoefsHalf(w);
      RaisedLaws({}, {}, 1, 0);
      assert Coefs(w) - {31} == {};
      NoDegrees(Half(w));
    }
  }

  /** Two words with the same coefficients are the same. */
  lemma CoefsDetermine(a: word, b: word)
    requires Coefs(a) == Coefs(b)
    ensures a == b
  {
    hide Coefs;
    CoefsXor(a, b);
    NoDegrees(Xor(a, b));
    XorLaws(a, b, 0, 0);
    XorLaws(0, b, 0, 0);
  }

  lemma PlusCancels(a: Poly, b: Poly, c: Poly)
    requires Plus(a, c) == Plus(b, c)
    ensures a == b
  {
    PlusLaws(a, c, c);
    PlusLaws(b, c, c);
    PlusLaws(a, {}, {});
    PlusLaws(b, {}, {});
  }

  /** No other checksum is the complement of that remainder. */
  lemma ChecksumOnly(crc: word, bytes: seq<bv8>, r: word)
    requires IsRemainder(Dividend(Plus(Coefs(crc), ALL), bytes), Plus(Coefs(r), ALL))
    ensures r == Checksum(crc, bytes)
  {
    hide Dividend, Coefs, IsRemainder, Checksum;
    ChecksumIsRemainder(crc, bytes);
    RemainderUnique(Dividend(Plus(Coefs(crc), ALL), bytes), Plus(Coefs(r), ALL),
                    Plus(Coefs(Checksum(crc, bytes)), ALL));
    PlusCancels(Coefs(r), Coefs(Checksum(crc, bytes)), ALL);
    CoefsDetermine(r, Checksum(crc, bytes));
  }

  lemma Digits1()
    ensures Update(0xffff_ffff, 0x31) == 0x6f0a_661c
    ensures Update(0x6f0a_661c, 0x32) == 0x8caa_3b9f
    ensures Update(0x8caa_3b9f, 0x33) == 0xef84_d04d
  {
  }

  lemma Digits2()
    ensures Update(0xef84_d04d, 0x34) == 0x09c5_0b11
    ensures Update(0x09c5_0b11, 0x35) == 0xe72e_dcca
    ensures Update(0xe72e_dcca, 0x36) == 0xbeca_8e79
  {
  }

  lemma Digits3()
    ensures Update(0xbeca_8e79, 0x37) == 0xedbd_6815
    ensures Update(0xedbd_6815, 0x38) == 0x9f78_7f65
    ensures Update(0x9f78_7f65, 0x39) == 0x1cf9_6d7c
  {
  }

  lemma FoldOneMore(l: word, bytes: seq<bv8>, i: nat)
    requires i < |bytes|
    ensures Fold(l, bytes[..i + 1]) == Update(Fold(l, bytes[..i]), bytes[i])
  {
    assert bytes[..i + 1][..i] == bytes[..i];
  }

  /** Two entries of the byte table. */
  lemma TableValues()
    ensures ByteTable(0x01) == 0xf26b_8303 && ByteTable(0x80) == 0x82f6_3b78
  {
  }

  const DIGITS: seq<bv8> := [0x31, 0x32, 0x33, 0x34, 0x35, 0x36, 0x37, 0x38, 0x39]

  /** The checksum of the digits from 1 to 9. */
  lemma CheckValue()
    ensures Checksum(0, DIGITS) == 0xe306_9283
  {
    Digits1();
    Digits2();
    Digits3();
    hide Update;
    FoldOneMore(ONES, DIGITS, 0);
    FoldOneMore(ONES, DIGITS, 1);
    FoldOneMore(ONES, DIGITS, 2);
    FoldOneMore(ONES, DIGITS, 3);
    FoldOneMore(ONES, DIGITS, 4);
    FoldOneMore(ONES, DIGITS, 5);
    FoldOneMore(ONES, DIGITS, 6);
    FoldOneMore(ONES, DIGITS, 7);
    FoldOneMore(ONES, DIGITS, 8);
    assert DIGITS[..0] == [] && DIGITS[..9] == DIGITS;
  }
}
