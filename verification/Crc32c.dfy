/** CRC-32C, section 12.1 of RFC 3720: the bit-at-a-time definition, and the computation that
    keeps four interleaved word-sized partial results. */
module Crc32c {

  type word = bv32

  const POLYNOMIAL: word := 0x82f6_3b78
  const ONES: word := 0xffff_ffff

  function Xor(a: word, b: word): word { a ^ b }

  function Half(x: word): word { x >> 1 }

  function Feedback(x: word): word { if x & 1 == 1 then POLYNOMIAL else 0 }

  /** One bit of reflected polynomial division. */
  function BitStep(x: word): word { Xor(Half(x), Feedback(x)) }

  /** n bits of division. */
  function Steps(x: word, n: nat): word
    decreases n
  {
    if n == 0 then x else Steps(BitStep(x), n - 1)
  }

  function Widen(byte: bv8): word { byte as word }

  /** The checksum state after one more byte. */
  function Update(state: word, byte: bv8): word { Steps(Xor(state, Widen(byte)), 8) }

  /** The checksum state after the bytes, one at a time. */
  function Fold(state: word, bytes: seq<bv8>): word {
    if bytes == [] then state else Update(Fold(state, bytes[..|bytes| - 1]), bytes[|bytes| - 1])
  }

  /** The checksum of a message that continues one with the given checksum. */
  function Checksum(crc: word, bytes: seq<bv8>): word { Xor(Fold(Xor(crc, ONES), bytes), ONES) }

  function Low(x: word): word { x & 0xff }

  function Rest(x: word): word { x >> 8 }

  function Lane(x: word, lane: nat): word
    requires lane < 4
  {
    match lane
    case 0 => x & 0xff
    case 1 => (x >> 8) & 0xff
    case 2 => (x >> 16) & 0xff
    case _ => x >> 24
  }

  function ToLane(b: word, lane: nat): word
    requires lane < 4
  {
    match lane
    case 0 => b
    case 1 => b << 8
    case 2 => b << 16
    case _ => b << 24
  }

  /** The byte table holds the advance of each byte by one byte. */
  function ByteTable(b: word): word { Steps(b, 8) }

  /** Stride table 3 - lane holds the advance of a byte in that lane of a word by sixteen bytes. */
  function StrideTable(lane: nat, b: word): word
    requires lane < 4
  {
    Steps(ToLane(b, lane), 128)
  }

  function Step1(l: word, byte: bv8): word { Xor(ByteTable(Xor(Low(l), Widen(byte))), Rest(l)) }

  function Step4(crc: word, w: word): word {
    Xor(Xor(Xor(Xor(w, StrideTable(0, Lane(crc, 0))), StrideTable(1, Lane(crc, 1))), StrideTable(2, Lane(crc, 2))),
        StrideTable(3, Lane(crc, 3)))
  }

  function ByteOfWord(w: word): word { Xor(Rest(w), ByteTable(Low(w))) }

  function Step4W(l: word, w: word): word { ByteOfWord(ByteOfWord(ByteOfWord(ByteOfWord(Xor(w, l))))) }

  function ReadWord(b0: bv8, b1: bv8, b2: bv8, b3: bv8): word {
    Xor(Xor(Xor(ToLane(Widen(b0), 0), ToLane(Widen(b1), 1)), ToLane(Widen(b2), 2)), ToLane(Widen(b3), 3))
  }

  lemma XorLaws(a: word, b: word, c: word, d: word)
    ensures Xor(Xor(a, b), Xor(c, d)) == Xor(Xor(a, c), Xor(b, d))
    ensures Xor(Xor(a, b), c) == Xor(a, Xor(b, c)) && Xor(a, b) == Xor(b, a)
    ensures Xor(a, 0) == a && Xor(Xor(a, b), b) == a
  {
  }

  lemma HalfLinear(x: word, y: word)
    ensures Half(Xor(x, y)) == Xor(Half(x), Half(y))
  {
  }

  lemma LowBit(x: word, y: word)
    ensures x & 1 == 0 || x & 1 == 1
    ensures (x ^ y) & 1 == if x & 1 == y & 1 then 0 else 1
  {
  }

  lemma FeedbackLinear(x: word, y: word)
    ensures Feedback(Xor(x, y)) == Xor(Feedback(x), Feedback(y))
  {
    LowBit(x, y);
    LowBit(y, x);
    assert POLYNOMIAL ^ POLYNOMIAL == 0;
  }

  lemma BitStepLinear(x: word, y: word)
    ensures BitStep(Xor(x, y)) == Xor(BitStep(x), BitStep(y))
  {
    hide Xor, Half, Feedback;
    HalfLinear(x, y);
    FeedbackLinear(x, y);
    XorLaws(Half(x), Half(y), Feedback(x), Feedback(y));
  }

  lemma {:induction false} StepsLinear(x: word, y: word, n: nat)
    ensures Steps(Xor(x, y), n) == Xor(Steps(x, n), Steps(y, n))
    decreases n
  {
    hide BitStep, Xor;
    if n > 0 {
      BitStepLinear(x, y);
      StepsLinear(BitStep(x), BitStep(y), n - 1);
    }
  }

  lemma {:induction false} StepsAdd(x: word, m: nat, n: nat)
    ensures Steps(Steps(x, m), n) == Steps(x, m + n)
    decreases m
  {
    hide BitStep;
    if m > 0 {
      StepsAdd(BitStep(x), m - 1, n);
    }
  }

  lemma {:induction false} FoldAppend(state: word, a: seq<bv8>, b: seq<bv8>)
    ensures Fold(state, a + b) == Fold(Fold(state, a), b)
    decreases |b|
  {
    hide Update;
    if b == [] {
      assert a + b == a;
    } else {
      assert (a + b)[..|a + b| - 1] == a + b[..|b| - 1];
      FoldAppend(state, a, b[..|b| - 1]);
    }
  }

  lemma BitOut(y: word)
    requires y & 1 == 0
    ensures BitStep(y) == y >> 1
  {
  }

  lemma LowBitsOut(y: word)
    requires y & 0xff == 0
    ensures y & 1 == 0 && (y >> 1) & 1 == 0 && (y >> 1 >> 1) & 1 == 0 && (y >> 1 >> 1 >> 1) & 1 == 0
    ensures (y >> 1 >> 1 >> 1 >> 1) & 1 == 0 && (y >> 1 >> 1 >> 1 >> 1 >> 1) & 1 == 0
    ensures (y >> 1 >> 1 >> 1 >> 1 >> 1 >> 1) & 1 == 0 && (y >> 1 >> 1 >> 1 >> 1 >> 1 >> 1 >> 1) & 1 == 0
    ensures y >> 1 >> 1 >> 1 >> 1 >> 1 >> 1 >> 1 >> 1 == y >> 8
  {
  }

  /** Eight steps shift a value without low bits down by a byte. */
  lemma ShiftOut(y: word)
    requires Low(y) == 0
    ensures Steps(y, 8) == Rest(y)
  {
    hide BitStep;
    LowBitsOut(y);
    var y1 := y >> 1; var y2 := y1 >> 1; var y3 := y2 >> 1; var y4 := y3 >> 1;
    var y5 := y4 >> 1; var y6 := y5 >> 1; var y7 := y6 >> 1; var y8 := y7 >> 1;
    BitOut(y); BitOut(y1); BitOut(y2); BitOut(y3);
    BitOut(y4); BitOut(y5); BitOut(y6); BitOut(y7);
    assert Steps(y7, 1) == y8 && Steps(y6, 2) == y8 && Steps(y5, 3) == y8 && Steps(y4, 4) == y8;
    assert Steps(y3, 5) == y8 && Steps(y2, 6) == y8 && Steps(y1, 7) == y8;
  }

  function High(x: word): word { x & 0xffff_ff00 }

  lemma LowAndHigh(x: word)
    ensures Xor(Low(x), High(x)) == x && Low(High(x)) == 0 && Rest(High(x)) == Rest(x)
  {
  }

  /** A table lookup on the low byte does the work of eight steps. */
  lemma LookupAdvances(x: word)
    ensures Xor(ByteTable(Low(x)), Rest(x)) == Steps(x, 8)
  {
    hide Steps, Xor, Low, High, Rest;
    LowAndHigh(x);
    StepsLinear(Low(x), High(x), 8);
    ShiftOut(High(x));
  }

  lemma ByteEntersLow(l: word, byte: bv8)
    ensures Low(Xor(l, Widen(byte))) == Xor(Low(l), Widen(byte)) && Rest(Xor(l, Widen(byte))) == Rest(l)
  {
  }

  lemma Step1Updates(l: word, byte: bv8)
    ensures Step1(l, byte) == Update(l, byte)
  {
    hide Steps, Xor, Low, Rest, Widen;
    ByteEntersLow(l, byte);
    LookupAdvances(Xor(l, Widen(byte)));
  }

  lemma ByteOfWordAdvances(x: word)
    ensures ByteOfWord(x) == Steps(x, 8)
  {
    hide Steps, Xor, Low, Rest;
    LookupAdvances(x);
    XorLaws(Rest(x), ByteTable(Low(x)), 0, 0);
  }

  lemma Step4WAdvances(l: word, w: word)
    ensures Step4W(l, w) == Steps(Xor(w, l), 32)
  {
    hide Steps, Xor, Low, Rest;
    var x := Xor(w, l);
    ByteOfWordAdvances(x);
    ByteOfWordAdvances(Steps(x, 8));
    ByteOfWordAdvances(Steps(x, 16));
    ByteOfWordAdvances(Steps(x, 24));
    StepsAdd(x, 8, 8);
    StepsAdd(x, 16, 8);
    StepsAdd(x, 24, 8);
  }

  lemma LanesMakeWord(x: word)
    ensures x == Xor(Xor(Xor(ToLane(Lane(x, 0), 0), ToLane(Lane(x, 1), 1)), ToLane(Lane(x, 2), 2)),
                     ToLane(Lane(x, 3), 3))
  {
  }

  /** Four lookups advance a word by sixteen bytes. */
  lemma Step4Advances(crc: word, w: word)
    ensures Step4(crc, w) == Xor(w, Steps(crc, 128))
  {
    hide Steps, Xor, Lane, ToLane;
    LanesMakeWord(crc);
    var a, b, c, d := ToLane(Lane(crc, 0), 0), ToLane(Lane(crc, 1), 1), ToLane(Lane(crc, 2), 2),
      ToLane(Lane(crc, 3), 3);
    StepsLinear(a, b, 128);
    StepsLinear(Xor(a, b), c, 128);
    StepsLinear(Xor(Xor(a, b), c), d, 128);
    var sa, sb, sc, sd := Steps(a, 128), Steps(b, 128), Steps(c, 128), Steps(d, 128);
    XorLaws(w, sa, sb, 0);
    XorLaws(w, Xor(sa, sb), sc, 0);
    XorLaws(w, Xor(Xor(sa, sb), sc), sd, 0);
  }

  /** What the four partial results stand for. */
  function Combine(c0: word, c1: word, c2: word, c3: word): word {
    Steps(Xor(c3, Steps(Xor(c2, Steps(Xor(c1, Steps(c0, 32)), 32)), 32)), 32)
  }

  /** The oldest partial result contributes its advance by sixteen bytes. */
  lemma CombineSplits(c0: word, c1: word, c2: word, c3: word)
    ensures Combine(c0, c1, c2, c3) == Xor(Steps(Xor(c3, Steps(Xor(c2, Steps(c1, 32)), 32)), 32), Steps(c0, 128))
  {
    hide Steps, Xor;
    var s1, s2, s3 := Steps(c0, 32), Steps(c0, 64), Steps(c0, 96);
    StepsAdd(c0, 32, 32);
    StepsAdd(c0, 64, 32);
    StepsAdd(c0, 96, 32);
    var t1 := Steps(c1, 32);
    StepsLinear(c1, s1, 32);
    XorLaws(c2, t1, s2, 0);
    var t2 := Steps(Xor(c2, t1), 32);
    StepsLinear(Xor(c2, t1), s2, 32);
    XorLaws(c3, t2, s3, 0);
    StepsLinear(Xor(c3, t2), s3, 32);
  }

  /** Feeding a word to the oldest partial result and making it the newest is what one word does
      to the checksum. */
  lemma RotateAdvances(c0: word, c1: word, c2: word, c3: word, w: word)
    ensures Combine(c1, c2, c3, Step4(c0, w)) == Steps(Xor(Combine(c0, c1, c2, c3), w), 32)
  {
    hide Steps, Xor, Step4;
    CombineSplits(c0, c1, c2, c3);
    Step4Advances(c0, w);
    var k, s := Steps(Xor(c3, Steps(Xor(c2, Steps(c1, 32)), 32)), 32), Steps(c0, 128);
    XorLaws(w, s, k, 0);
    XorLaws(k, s, w, 0);
    XorLaws(s, k, 0, 0);
    XorLaws(w, Xor(k, s), 0, 0);
  }

  function ReadAt(data: seq<bv8>, p: nat): word
    requires p + 4 <= |data|
  {
    ReadWord(data[p], data[p + 1], data[p + 2], data[p + 3])
  }

  /** The bytes of a word above its lowest one, at their places in the word. */
  function Above(b1: bv8, b2: bv8, b3: bv8): word {
    Xor(Xor(ToLane(Widen(b1), 1), ToLane(Widen(b2), 2)), ToLane(Widen(b3), 3))
  }

  lemma SplitWord(b0: bv8, b1: bv8, b2: bv8, b3: bv8)
    ensures ReadWord(b0, b1, b2, b3) == Xor(Widen(b0), Above(b1, b2, b3))
  {
    hide Widen, Xor;
    var a, b, c, d := Widen(b0), ToLane(Widen(b1), 1), ToLane(Widen(b2), 2), ToLane(Widen(b3), 3);
    XorLaws(a, b, c, 0);
    XorLaws(a, Xor(b, c), d, 0);
  }

  lemma AboveBits(b1: bv8, b2: bv8, b3: bv8)
    ensures Low(Above(b1, b2, b3)) == 0 && Rest(Above(b1, b2, b3)) == Xor(Widen(b1), Above(b2, b3, 0))
  {
  }

  /** Eight steps on a state with a word xored in consume the word's lowest byte. */
  lemma Peel(l: word, b: bv8, above: word)
    requires Low(above) == 0
    ensures Steps(Xor(l, Xor(Widen(b), above)), 8) == Xor(Update(l, b), Rest(above))
  {
    hide Steps, Xor, Low, Rest, Widen;
    XorLaws(l, Widen(b), above, 0);
    StepsLinear(Xor(l, Widen(b)), above, 8);
    ShiftOut(above);
  }

  lemma NothingAbove()
    ensures Above(0, 0, 0) == 0 && Low(0) == 0 && Rest(0) == 0
  {
  }

  /** A little-endian word does to the checksum what its four bytes do. */
  lemma WordUpdates(l: word, b0: bv8, b1: bv8, b2: bv8, b3: bv8)
    ensures Update(Update(Update(Update(l, b0), b1), b2), b3) == Steps(Xor(l, ReadWord(b0, b1, b2, b3)), 32)
  {
    hide Steps, Xor, Low, Rest, Widen, Above, ReadWord, Update;
    var w, u1 := ReadWord(b0, b1, b2, b3), Update(l, b0);
    var u2 := Update(u1, b1);
    var u3 := Update(u2, b2);
    SplitWord(b0, b1, b2, b3);
    AboveBits(b1, b2, b3);
    AboveBits(b2, b3, 0);
    AboveBits(b3, 0, 0);
    NothingAbove();
    Peel(l, b0, Above(b1, b2, b3));
    Peel(u1, b1, Above(b2, b3, 0));
    Peel(u2, b2, Above(b3, 0, 0));
    Peel(u3, b3, Above(0, 0, 0));
    XorLaws(Update(u3, b3), 0, 0, 0);
    StepsAdd(Xor(l, w), 8, 8);
    StepsAdd(Xor(l, w), 16, 8);
    StepsAdd(Xor(l, w), 24, 8);
  }

  lemma FoldStep(state: word, data: seq<bv8>, p: nat)
    requires p < |data|
    ensures Fold(state, data[..p + 1]) == Update(Fold(state, data[..p]), data[p])
  {
    hide Update;
    assert data[..p + 1][..p] == data[..p];
  }

  lemma FoldWord(state: word, data: seq<bv8>, p: nat)
    requires p + 4 <= |data|
    ensures Fold(state, data[..p + 4]) == Steps(Xor(Fold(state, data[..p]), ReadAt(data, p)), 32)
  {
    hide Steps, Xor, Update, ReadWord, Fold;
    FoldStep(state, data, p);
    FoldStep(state, data, p + 1);
    FoldStep(state, data, p + 2);
    FoldStep(state, data, p + 3);
    WordUpdates(Fold(state, data[..p]), data[p], data[p + 1], data[p + 2], data[p + 3]);
  }

  lemma FoldByte(state: word, data: seq<bv8>, p: nat)
    requires p < |data|
    ensures Fold(state, data[..p + 1]) == Step1(Fold(state, data[..p]), data[p])
  {
    hide Step1, Update;
    FoldStep(state, data, p);
    Step1Updates(Fold(state, data[..p]), data[p]);
  }

  /** Sixteen bytes at once are four words one after the other. */
  lemma SwathAdvances(state: word, data: seq<bv8>, p: nat, c0: word, c1: word, c2: word, c3: word)
    requires p + 16 <= |data| && Combine(c0, c1, c2, c3) == Fold(state, data[..p])
    ensures Combine(Step4(c0, ReadAt(data, p)), Step4(c1, ReadAt(data, p + 4)), Step4(c2, ReadAt(data, p + 8)),
                    Step4(c3, ReadAt(data, p + 12)))
         == Fold(state, data[..p + 16])
  {
    hide Steps, Xor, Step4, Combine, Fold, ReadAt;
    var d0, d1, d2, d3 := Step4(c0, ReadAt(data, p)), Step4(c1, ReadAt(data, p + 4)), Step4(c2, ReadAt(data, p + 8)),
      Step4(c3, ReadAt(data, p + 12));
    RotateAdvances(c0, c1, c2, c3, ReadAt(data, p));
    RotateAdvances(c1, c2, c3, d0, ReadAt(data, p + 4));
    RotateAdvances(c2, c3, d0, d1, ReadAt(data, p + 8));
    RotateAdvances(c3, d0, d1, d2, ReadAt(data, p + 12));
    FoldWord(state, data, p);
    FoldWord(state, data, p + 4);
    FoldWord(state, data, p + 8);
    FoldWord(state, data, p + 12);
  }

  /** The first sixteen bytes, loaded as they are with the state xored into the first word. */
  lemma LoadCombines(state: word, data: seq<bv8>, p: nat)
    requires p + 16 <= |data|
    ensures var l := Fold(state, data[..p]);
            Combine(Xor(ReadAt(data, p), l), ReadAt(data, p + 4), ReadAt(data, p + 8), ReadAt(data, p + 12)) ==
              Fold(state, data[..p + 16])
  {
    hide Steps, Xor, Fold, ReadAt;
    var l, w0, w1, w2, w3 := Fold(state, data[..p]), ReadAt(data, p), ReadAt(data, p + 4), ReadAt(data, p + 8),
      ReadAt(data, p + 12);
    FoldWord(state, data, p);
    FoldWord(state, data, p + 4);
    FoldWord(state, data, p + 8);
    FoldWord(state, data, p + 12);
    XorLaws(l, w0, 0, 0);
    XorLaws(Fold(state, data[..p + 4]), w1, 0, 0);
    XorLaws(Fold(state, data[..p + 8]), w2, 0, 0);
    XorLaws(Fold(state, data[..p + 12]), w3, 0, 0);
  }

  lemma CombineByWords(c0: word, c1: word, c2: word, c3: word)
    ensures Step4W(Step4W(Step4W(Step4W(0, c0), c1), c2), c3) == Combine(c0, c1, c2, c3)
  {
    hide Steps, Xor, Step4W;
    XorLaws(c0, 0, 0, 0);
    Step4WAdvances(0, c0);
    Step4WAdvances(Steps(c0, 32), c1);
    var x := Steps(Xor(c1, Steps(c0, 32)), 32);
    Step4WAdvances(x, c2);
    Step4WAdvances(Steps(Xor(c2, x), 32), c3);
  }

  lemma FoldNothing(state: word)
    ensures Fold(state, []) == state
  {
  }

  /** The part of the computation that works on whole words in four interleaved strides. */
  method Strides(ghost state: word, l0: word, data: seq<bv8>, p0: nat) returns (l: word, p: nat)
    requires |data| - p0 >= 16 && l0 == Fold(state, data[..p0])
    ensures p0 <= p <= |data| < p + 4 && l == Fold(state, data[..p])
  {
    hide Steps, Xor, Step4, Step4W, Combine, Fold, ReadAt;
    p := p0;
    var crc0, crc1, crc2, crc3 := Xor(ReadAt(data, p), l0), ReadAt(data, p + 4), ReadAt(data, p + 8),
      ReadAt(data, p + 12);
    LoadCombines(state, data, p);
    p := p + 16;
    while |data| - p >= 16
      invariant p0 <= p <= |data| && Combine(crc0, crc1, crc2, crc3) == Fold(state, data[..p])
    {
      SwathAdvances(state, data, p, crc0, crc1, crc2, crc3);
      crc0, crc1, crc2, crc3 := Step4(crc0, ReadAt(data, p)), Step4(crc1, ReadAt(data, p + 4)),
        Step4(crc2, ReadAt(data, p + 8)), Step4(crc3, ReadAt(data, p + 12));
      p := p + 16;
    }
    while |data| - p >= 4
      invariant p0 <= p <= |data| && Combine(crc0, crc1, crc2, crc3) == Fold(state, data[..p])
    {
      RotateAdvances(crc0, crc1, crc2, crc3, ReadAt(data, p));
      FoldWord(state, data, p);
      crc0, crc1, crc2, crc3 := crc1, crc2, crc3, Step4(crc0, ReadAt(data, p));
      p := p + 4;
    }
    CombineByWords(crc0, crc1, crc2, crc3);
    l := Step4W(Step4W(Step4W(Step4W(0, crc0), crc1), crc2), crc3);
  }

  /** Extends a checksum by the data, which starts `align` bytes past a four-byte boundary. */
  method Extend(crc: word, data: seq<bv8>, align: nat) returns (r: word)
    requires align < 4
    ensures r == Checksum(crc, data)
  {
    hide Steps, Xor, Step1, Step4, Step4W, Combine, Fold, ReadAt;
    var n := |data|;
    ghost var state := Xor(crc, ONES);
    var l := Xor(crc, ONES);
    var p := 0;
    FoldNothing(state);
    assert data[..0] == [];
    var x := (4 - align) % 4;
    if x <= n {
      while p != x
        invariant p <= x && l == Fold(state, data[..p])
        decreases x - p
      {
        FoldByte(state, data, p);
        l := Step1(l, data[p]);
        p := p + 1;
      }
    }
    if n - p >= 16 {
      l, p := Strides(state, l, data, p);
    }
    while p != n
      invariant p <= n && l == Fold(state, data[..p])
      decreases n - p
    {
      FoldByte(state, data, p);
      l := Step1(l, data[p]);
      p := p + 1;
    }
    assert data[..n] == data;
    r := Xor(l, ONES);
  }

  /** The checksum of a message can be taken in pieces. */
  lemma ChecksumContinues(crc: word, a: seq<bv8>, b: seq<bv8>)
    ensures Checksum(Checksum(crc, a), b) == Checksum(crc, a + b)
  {
    hide Xor, Fold;
    XorLaws(Fold(Xor(crc, ONES), a), ONES, 0, 0);
    FoldAppend(Xor(crc, ONES), a, b);
  }
}
