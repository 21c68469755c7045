/** Base 128 varints: the encoders and decoders of the coding helpers and of the data buffer.
    Shifts are divisions and multiplications, and an `or` of disjoint bits is a sum. */
module Varint {
  import opened Arithmetic

  type byte = n: nat | n < 256

  const TWO_TO_7: nat := 0x80
  const TWO_TO_14: nat := 0x4000
  const TWO_TO_21: nat := 0x20_0000
  const TWO_TO_28: nat := 0x1000_0000
  const TWO_TO_32: nat := 0x1_0000_0000
  const TWO_TO_35: nat := 0x8_0000_0000
  const TWO_TO_42: nat := 0x400_0000_0000
  const TWO_TO_49: nat := 0x2_0000_0000_0000
  const TWO_TO_56: nat := 0x100_0000_0000_0000
  const TWO_TO_63: nat := 0x8000_0000_0000_0000
  const TWO_TO_64: nat := 0x1_0000_0000_0000_0000

  /** The low seven bits with the continuation bit. */
  function More(v: nat): byte { v % 128 + 128 }

  /** Seven bits at a time, lowest first, all but the last byte with the continuation bit. */
  function Encode(v: nat): (r: seq<byte>)
    ensures |r| >= 1
  {
    if v < 128 then [v] else [More(v)] + Encode(v / 128)
  }

  datatype Parsed = Bad | Good(value: nat, length: nat)

  /** The varint at the start of s, if it ends within `max` bytes. */
  function Parse(s: seq<byte>, max: nat): (r: Parsed)
    ensures r.Good? ==> 1 <= r.length <= |s| && r.length <= max
  {
    if s == [] || max == 0 then Bad
    else if s[0] < 128 then Good(s[0], 1)
    else
      match Parse(s[1..], max - 1)
      case Bad => Bad
      case Good(v, n) => Good(s[0] % 128 + 128 * v, n + 1)
  }

  /** A varint is read back as it was written, whatever follows it. */
  lemma {:induction false} ParseEncode(v: nat, rest: seq<byte>, max: nat)
    requires |Encode(v)| <= max
    ensures Parse(Encode(v) + rest, max) == Good(v, |Encode(v)|)
    decreases v
  {
    var s := Encode(v) + rest;
    if v < 128 {
      assert s[0] == v;
    } else {
      assert s[1..] == Encode(v / 128) + rest;
      ParseEncode(v / 128, rest, max - 1);
    }
  }

  /** The number the low seven bits of the first n bytes make. */
  function Digits(s: seq<byte>, n: nat): (r: nat)
    requires n <= |s|
  {
    if n == 0 then 0 else s[0] % 128 + 128 * Digits(s[1..], n - 1)
  }

  ghost predicate Continues(s: seq<byte>, n: nat)
    requires n <= |s|
  {
    forall i :: 0 <= i < n ==> s[i] >= 128
  }

  /** The parser accepts exactly when one of the allowed bytes ends the varint, and then yields the
      digits up to there. */
  lemma {:induction false} ParseStops(s: seq<byte>, max: nat, k: nat)
    requires k < |s| && k < max && Continues(s, k) && s[k] < 128
    ensures Parse(s, max) == Good(Digits(s, k + 1), k + 1)
    decreases k
  {
    if k == 0 {
      assert Digits(s[1..], 0) == 0;
    } else {
      assert forall i :: 0 <= i < |s| - 1 ==> s[1..][i] == s[i + 1];
      ParseStops(s[1..], max - 1, k - 1);
    }
  }

  lemma {:induction false} ParseRunsOn(s: seq<byte>, max: nat)
    requires Continues(s, if |s| < max then |s| else max)
    ensures Parse(s, max) == Bad
    decreases max
  {
    if s != [] && max > 0 {
      assert forall i :: 0 <= i < |s| - 1 ==> s[1..][i] == s[i + 1];
      ParseRunsOn(s[1..], max - 1);
    }
  }

  /** What a reader that rejects overlong varints makes of s, in a word of the given size. */
  function Strict(s: seq<byte>, max: nat, word: nat): (r: Parsed)
    requires word > 0
  {
    match Parse(s, max)
    case Bad => Bad
    case Good(v, n) => Good(v % word, n)
  }

  /** What a reader makes of s that ignores the continuation bit of the last allowed byte. */
  function Lenient(s: seq<byte>, max: nat, word: nat): (r: Parsed)
    requires word > 0
    ensures r.Good? ==> r.length <= |s|
  {
    match Parse(s, max)
    case Bad => if |s| >= max then Good(Digits(s, max) % word, max) else Bad
    case Good(v, n) => Good(v % word, n)
  }

  lemma {:induction false} EncodeGrows(v: nat, w: nat)
    requires v <= w
    ensures |Encode(v)| <= |Encode(w)|
    decreases w
  {
    if v >= 128 { EncodeGrows(v / 128, w / 128); }
  }

  lemma {:induction false} ParseShortest(s: seq<byte>, max: nat)
    requires Parse(s, max).Good?
    ensures |Encode(Parse(s, max).value)| <= Parse(s, max).length
    decreases |s|
  {
    if s[0] >= 128 {
      ParseShortest(s[1..], max - 1);
      assert (s[0] % 128 + 128 * Parse(s[1..], max - 1).value) / 128 == Parse(s[1..], max - 1).value;
    }
  }

  lemma {:induction false} DigitsShortest(s: seq<byte>, n: nat)
    requires 1 <= n <= |s|
    ensures |Encode(Digits(s, n))| <= n
    decreases n
  {
    if n > 1 {
      DigitsShortest(s[1..], n - 1);
      assert (s[0] % 128 + 128 * Digits(s[1..], n - 1)) / 128 == Digits(s[1..], n - 1);
    } else {
      assert Digits(s, 1) == s[0] % 128 + 128 * Digits(s[1..], 0);
    }
  }

  lemma Remains(v: nat, word: nat)
    requires word > 0
    ensures v % word <= v
  {
  }

  /** No value is read from fewer bytes than it is written in. */
  lemma LenientShortest(s: seq<byte>, max: nat, word: nat)
    requires word > 0 && max > 0 && Lenient(s, max, word).Good?
    ensures |Encode(Lenient(s, max, word).value)| <= Lenient(s, max, word).length
  {
    match Parse(s, max)
    case Bad =>
      DigitsShortest(s, max);
      Remains(Digits(s, max), word);
      EncodeGrows(Digits(s, max) % word, Digits(s, max));
    case Good(v, n) =>
      ParseShortest(s, max);
      Remains(v, word);
      EncodeGrows(v % word, v);
  }

  lemma FirstStop(s: seq<byte>) returns (k: nat)
    requires exists i :: 0 <= i < |s| && s[i] < 128
    ensures k < |s| && Continues(s, k) && s[k] < 128
    ensures forall i :: 0 <= i < |s| && s[i] < 128 ==> k <= i
  {
    k := 0;
    while s[k] >= 128
      invariant k < |s| && Continues(s, k)
      decreases |s| - k
    {
      k := k + 1;
    }
  }

  /** The two differ exactly on varints with too many bytes. */
  lemma LenientVersusStrict(s: seq<byte>, max: nat, word: nat)
    requires word > 0
    ensures Lenient(s, max, word) != Strict(s, max, word) <==> |s| >= max && Continues(s, max)
  {
    if |s| >= max && Continues(s, max) {
      ParseRunsOn(s, max);
    } else if |s| >= max {
      var k := FirstStop(s);
      ParseStops(s, max, k);
    }
  }

  /** The encoding of 300 in the documentation of Protocol Buffers. */
  lemma EncodeOf300()
    ensures Encode(300) == [0xac, 0x02]
  {
  }

  lemma {:induction false} NoDigits(s: seq<byte>, k: nat)
    requires k <= |s| && forall i :: 0 <= i < |s| ==> s[i] == 0x80
    ensures Digits(s, k) == 0
  {
    if k > 0 { NoDigits(s[1..], k - 1); }
  }

  /** Ten bytes that all announce another one: corrupt to one reader, zero to the other. */
  lemma TenContinuations()
    ensures var s: seq<byte> := seq(10, _ => 0x80);
            Strict(s, 10, TWO_TO_64) == Bad && Lenient(s, 10, TWO_TO_64) == Good(0, 10)
  {
    var s: seq<byte> := seq(10, _ => 0x80);
    ParseRunsOn(s, 10);
    NoDigits(s, 10);
  }

  /** v shifted right by 7k bits. */
  function Shr(v: nat, k: nat): (r: nat) { if k == 0 then v else Shr(v / 128, k - 1) }

  lemma {:induction false} ShrGrows(v: nat, k: nat)
    ensures Shr(v, k) <= v
    decreases k
  {
    if k > 0 { ShrGrows(v / 128, k - 1); }
  }

  /** The bytes of an encoding, given its length. */
  lemma {:induction false} EncodeBytes(v: nat, k: nat)
    requires Shr(v, k) < 128 && (k > 0 ==> Shr(v, k - 1) >= 128)
    ensures |Encode(v)| == k + 1 && Encode(v)[k] == Shr(v, k)
    ensures forall i :: 0 <= i < k ==> Encode(v)[i] == More(Shr(v, i))
    decreases k
  {
    if k == 0 {
    } else {
      ShrGrows(v, k - 1);
      EncodeBytes(v / 128, k - 1);
      forall i | 0 <= i < k ensures Encode(v)[i] == More(Shr(v, i)) {
        if i > 0 { assert Encode(v)[i] == Encode(v / 128)[i - 1]; }
      }
    }
  }

  lemma {:induction false} ShrStep(v: nat, k: nat)
    ensures Shr(v, k + 1) == Shr(v, k) / 128
    decreases k
  {
    if k > 0 { ShrStep(v / 128, k - 1); }
  }

  lemma ShrZero(v: nat)
    ensures Shr(v, 0) == v
  {
  }

  lemma ShrLow(v: nat)
    ensures Shr(v, 0) == v && Shr(v, 1) == v / TWO_TO_7 && Shr(v, 2) == v / TWO_TO_14
    ensures Shr(v, 3) == v / TWO_TO_21 && Shr(v, 4) == v / TWO_TO_28
  {
    hide Shr;
    ShrZero(v);
    ShrStep(v, 0);
    ShrStep(v, 1);
    ShrStep(v, 2);
    ShrStep(v, 3);
  }

  lemma ShrHigh(v: nat)
    ensures Shr(v, 5) == v / TWO_TO_35 && Shr(v, 6) == v / TWO_TO_42 && Shr(v, 7) == v / TWO_TO_49
    ensures Shr(v, 8) == v / TWO_TO_56 && Shr(v, 9) == v / TWO_TO_63
  {
    hide Shr;
    ShrLow(v);
    ShrStep(v, 4);
    ShrStep(v, 5);
    ShrStep(v, 6);
    ShrStep(v, 7);
    ShrStep(v, 8);
  }

  /** The thirty-two bit encoder of the coding helpers. */
  function Encode32(v: nat): (r: seq<byte>)
    requires v < TWO_TO_32
    ensures r == Encode(v)
  {
    hide Shr, Encode, More;
    ShrLow(v);
    EncodeBytes(v, if v < TWO_TO_7 then 0 else if v < TWO_TO_14 then 1 else if v < TWO_TO_21 then 2
                else if v < TWO_TO_28 then 3 else 4);
    if v < TWO_TO_7 then [v]
    else if v < TWO_TO_14 then [More(v), v / TWO_TO_7]
    else if v < TWO_TO_21 then [More(v), More(v / TWO_TO_7), v / TWO_TO_14]
    else if v < TWO_TO_28 then [More(v), More(v / TWO_TO_7), More(v / TWO_TO_14), v / TWO_TO_21]
    else [More(v), More(v / TWO_TO_7), More(v / TWO_TO_14), More(v / TWO_TO_21), v / TWO_TO_28]
  }

  lemma {:induction false} EncodeBound(v: nat, k: nat)
    requires Shr(v, k) < 128
    ensures |Encode(v)| <= k + 1
    decreases k
  {
    if v >= 128 && k > 0 { EncodeBound(v / 128, k - 1); }
  }

  lemma EncodeLength(v: nat)
    ensures v < TWO_TO_32 ==> |Encode(v)| <= 5
    ensures v < TWO_TO_64 ==> |Encode(v)| <= 10
  {
    hide Shr;
    ShrLow(v);
    ShrHigh(v);
    if v < TWO_TO_32 { EncodeBound(v, 4); }
    if v < TWO_TO_64 { EncodeBound(v, 9); }
  }

  /** The sixty-four bit encoder of the coding helpers. */
  method EncodeVarint64(value: nat) returns (r: seq<byte>)
    ensures r == Encode(value)
  {
    var v := value;
    r := [];
    while v >= 128
      invariant r + Encode(v) == Encode(value)
    {
      r := r + [More(v)];
      v := v / 128;
    }
    r := r + [v];
  }

  method VarintLength(value: nat) returns (n: nat)
    ensures n == |Encode(value)|
  {
    var v := value;
    n := 1;
    while v >= 128
      invariant n - 1 + |Encode(v)| == |Encode(value)|
    {
      v := v / 128;
      n := n + 1;
    }
  }

  /** Up to four digits from position `at`, as one of the thirty-two bit parts. */
  function Part(s: seq<byte>, at: nat, n: nat): (r: nat)
    requires n <= 4 && (n > 0 ==> at + n <= |s|)
  {
    (if n > 0 then s[at] % 128 else 0) + (if n > 1 then s[at + 1] % 128 * TWO_TO_7 else 0)
    + (if n > 2 then s[at + 2] % 128 * TWO_TO_14 else 0) + (if n > 3 then s[at + 3] % 128 * TWO_TO_21 else 0)
  }

  /** The digits of the first bytes, four at a time. */
  lemma DigitsByFour(s: seq<byte>, n: nat)
    requires 4 <= n <= |s|
    ensures Digits(s, n) == Part(s, 0, 4) + TWO_TO_28 * Digits(s[4..], n - 4)
  {
    assert s[1..][1..] == s[2..] && s[2..][1..] == s[3..] && s[3..][1..] == s[4..];
    assert Digits(s, n) == s[0] % 128 + 128 * Digits(s[1..], n - 1);
    assert Digits(s[1..], n - 1) == s[1] % 128 + 128 * Digits(s[2..], n - 2);
    assert Digits(s[2..], n - 2) == s[2] % 128 + 128 * Digits(s[3..], n - 3);
    assert Digits(s[3..], n - 3) == s[3] % 128 + 128 * Digits(s[4..], n - 4);
  }

  lemma MoreDropped(v: nat)
    ensures More(v) % 128 == v % 128
  {
  }

  /** Dropping the continuation bit of the last byte leaves the last digit. */
  lemma LastByte32(value: nat)
    ensures value < TWO_TO_7 ==> More(value) % 128 == value
    ensures value < TWO_TO_14 ==> More(value / TWO_TO_7) % 128 == value / TWO_TO_7
    ensures value < TWO_TO_21 ==> More(value / TWO_TO_14) % 128 == value / TWO_TO_14
    ensures value < TWO_TO_28 ==> More(value / TWO_TO_21) % 128 == value / TWO_TO_21
  {
    MoreDropped(value);
    MoreDropped(value / TWO_TO_7);
    MoreDropped(value / TWO_TO_14);
    MoreDropped(value / TWO_TO_21);
  }

  /** The unrolled thirty-two bit writer of the data buffer. */
  method WriteVarint32(value: nat, buf: array<byte>, at: nat) returns (end: nat)
    requires value < TWO_TO_32 && at + 5 <= buf.Length
    modifies buf
    ensures at < end <= at + 5 && buf[at..end] == Encode(value)
    ensures buf[..at] == old(buf[..at]) && buf[at + 5..] == old(buf[at + 5..])
  {
    hide Encode, More;
    assert Encode32(value) == Encode(value);
    LastByte32(value);
    buf[at] := More(value);
    if value >= TWO_TO_7 {
      buf[at + 1] := More(value / TWO_TO_7);
      if value >= TWO_TO_14 {
        buf[at + 2] := More(value / TWO_TO_14);
        if value >= TWO_TO_21 {
          buf[at + 3] := More(value / TWO_TO_21);
          if value >= TWO_TO_28 {
            buf[at + 4] := value / TWO_TO_28;
            return at + 5;
          } else {
            buf[at + 3] := buf[at + 3] % 128;
            return at + 4;
          }
        } else {
          buf[at + 2] := buf[at + 2] % 128;
          return at + 3;
        }
      } else {
        buf[at + 1] := buf[at + 1] % 128;
        return at + 2;
      }
    } else {
      buf[at] := buf[at] % 128;
      return at + 1;
    }
  }

  /** How many bytes the data buffer writes for a sixty-four bit value, found by halving. */
  function Size64(part0: nat, part1: nat, part2: nat): (n: nat)
    ensures 1 <= n <= 10
  {
    if part2 == 0 then
      if part1 == 0 then
        if part0 < TWO_TO_14 then (if part0 < TWO_TO_7 then 1 else 2) else (if part0 < TWO_TO_21 then 3 else 4)
      else if part1 < TWO_TO_14 then (if part1 < TWO_TO_7 then 5 else 6) else (if part1 < TWO_TO_21 then 7 else 8)
    else if part2 < TWO_TO_7 then 9 else 10
  }

  /** Byte i before the last one is dropped its continuation bit, taken from the parts. */
  function PartByte(part0: nat, part1: nat, part2: nat, i: nat): byte {
    match i
    case 0 => More(part0)
    case 1 => More(part0 / TWO_TO_7)
    case 2 => More(part0 / TWO_TO_14)
    case 3 => More(part0 / TWO_TO_21)
    case 4 => More(part1)
    case 5 => More(part1 / TWO_TO_7)
    case 6 => More(part1 / TWO_TO_14)
    case 7 => More(part1 / TWO_TO_21)
    case 8 => More(part2)
    case _ => More(part2 / TWO_TO_7)
  }

  /** Fills in the bytes from the last one down, all with their continuation bit. */
  method WriteParts(part0: nat, part1: nat, part2: nat, size: nat, buf: array<byte>, at: nat)
    requires 1 <= size <= 10 && at + 10 <= buf.Length
    modifies buf
    ensures forall i :: 0 <= i < size ==> buf[at + i] == PartByte(part0, part1, part2, i)
    ensures buf[..at] == old(buf[..at]) && buf[at + 10..] == old(buf[at + 10..])
  {
    hide More;
    if size >= 10 { buf[at + 9] := More(part2 / TWO_TO_7); }
    if size >= 9 { buf[at + 8] := More(part2); }
    if size >= 8 { buf[at + 7] := More(part1 / TWO_TO_21); }
    if size >= 7 { buf[at + 6] := More(part1 / TWO_TO_14); }
    if size >= 6 { buf[at + 5] := More(part1 / TWO_TO_7); }
    if size >= 5 { buf[at + 4] := More(part1); }
    if size >= 4 { buf[at + 3] := More(part0 / TWO_TO_21); }
    if size >= 3 { buf[at + 2] := More(part0 / TWO_TO_14); }
    if size >= 2 { buf[at + 1] := More(part0 / TWO_TO_7); }
    buf[at] := More(part0);
  }

  lemma SizeFits(value: nat, size: nat)
    requires value < TWO_TO_64
    requires size == Size64(value % TWO_TO_32, value / TWO_TO_28 % TWO_TO_32, value / TWO_TO_56)
    ensures Shr(value, size - 1) < 128 && (size > 1 ==> Shr(value, size - 2) >= 128)
  {
    hide Shr;
    ShrLow(value);
    ShrHigh(value);
  }

  lemma Truncated7(q: nat, r: nat)
    ensures (q * TWO_TO_32 + r) / TWO_TO_7 % 128 == r / TWO_TO_7 % 128
  {
    QuotientOfSum(q * 0x200_0000, r, TWO_TO_7);
    MultipleVanishes(r / TWO_TO_7, q * 0x4_0000, 128);
  }

  lemma Truncated14(q: nat, r: nat)
    ensures (q * TWO_TO_32 + r) / TWO_TO_14 % 128 == r / TWO_TO_14 % 128
  {
    QuotientOfSum(q * 0x4_0000, r, TWO_TO_14);
    MultipleVanishes(r / TWO_TO_14, q * 0x800, 128);
  }

  lemma Truncated21(q: nat, r: nat)
    ensures (q * TWO_TO_32 + r) / TWO_TO_21 % 128 == r / TWO_TO_21 % 128
  {
    QuotientOfSum(q * 0x800, r, TWO_TO_21);
    MultipleVanishes(r / TWO_TO_21, q * 0x10, 128);
  }

  /** The low twenty-eight bits survive truncation to thirty-two. */
  lemma LowDigits(w: nat)
    ensures w % TWO_TO_32 % 128 == w % 128 && w % TWO_TO_32 / TWO_TO_7 % 128 == w / TWO_TO_7 % 128
    ensures w % TWO_TO_32 / TWO_TO_14 % 128 == w / TWO_TO_14 % 128
    ensures w % TWO_TO_32 / TWO_TO_21 % 128 == w / TWO_TO_21 % 128
  {
    var q, r := w / TWO_TO_32, w % TWO_TO_32;
    assert w % 128 == r % 128;
    Truncated7(q, r);
    Truncated14(q, r);
    Truncated21(q, r);
  }

  lemma HighDigits(v: nat)
    ensures v / TWO_TO_28 / TWO_TO_7 == v / TWO_TO_35 && v / TWO_TO_28 / TWO_TO_14 == v / TWO_TO_42
    ensures v / TWO_TO_28 / TWO_TO_21 == v / TWO_TO_49 && v / TWO_TO_56 / TWO_TO_7 == v / TWO_TO_63
  {
  }

  lemma PartBytes(value: nat, i: nat)
    requires value < TWO_TO_64 && i < 10
    ensures PartByte(value % TWO_TO_32, value / TWO_TO_28 % TWO_TO_32, value / TWO_TO_56, i) == More(Shr(value, i))
  {
    hide Shr;
    ShrLow(value);
    ShrHigh(value);
    LowDigits(value);
    LowDigits(value / TWO_TO_28);
    HighDigits(value);
  }

  lemma Parts64(value: nat, size: nat)
    requires value < TWO_TO_64
    requires size == Size64(value % TWO_TO_32, value / TWO_TO_28 % TWO_TO_32, value / TWO_TO_56)
    ensures |Encode(value)| == size
    ensures var part0, part1, part2 := value % TWO_TO_32, value / TWO_TO_28 % TWO_TO_32, value / TWO_TO_56;
            && (forall i :: 0 <= i < size - 1 ==> Encode(value)[i] == PartByte(part0, part1, part2, i))
            && Encode(value)[size - 1] == PartByte(part0, part1, part2, size - 1) % 128
  {
    hide Shr, Encode, More, PartByte, Size64;
    var part0, part1, part2 := value % TWO_TO_32, value / TWO_TO_28 % TWO_TO_32, value / TWO_TO_56;
    SizeFits(value, size);
    EncodeBytes(value, size - 1);
    forall i | 0 <= i < 10 ensures PartByte(part0, part1, part2, i) == More(Shr(value, i)) {
      PartBytes(value, i);
    }
    MoreDropped(Shr(value, size - 1));
  }

  /** The unrolled sixty-four bit writer of the data buffer, which works on three parts. */
  method WriteVarint64(value: nat, buf: array<byte>, at: nat) returns (end: nat)
    requires value < TWO_TO_64 && at + 10 <= buf.Length
    modifies buf
    ensures at < end <= at + 10 && buf[at..end] == Encode(value)
    ensures buf[..at] == old(buf[..at]) && buf[at + 10..] == old(buf[at + 10..])
  {
    hide Encode, More, Size64, PartByte;
    var part0, part1, part2 := value % TWO_TO_32, value / TWO_TO_28 % TWO_TO_32, value / TWO_TO_56;
    var size := Size64(part0, part1, part2);
    Parts64(value, size);
    WriteParts(part0, part1, part2, size, buf, at);
    buf[at + size - 1] := buf[at + size - 1] % 128;
    end := at + size;
  }

  function Times(a: nat, b: nat): nat { a * b }

  /** What is parsed behind the first i bytes, put behind the number they make. */
  function Resume(p: Parsed, low: nat, scale: nat, i: nat): Parsed {
    match p
    case Bad => Bad
    case Good(v, n) => Good(low + Times(v, scale), n + i)
  }

  lemma ParseStart(s: seq<byte>, max: nat)
    ensures Parse(s, max) == Resume(Parse(s[0..], max - 0), 0, 1, 0)
  {
    assert s[0..] == s;
  }

  lemma ParseEnd(s: seq<byte>, max: nat)
    requires s == [] || max == 0
    ensures Parse(s, max) == Bad
  {
  }

  lemma Distribute(d: nat, v: nat, scale: nat)
    ensures Times(d + 128 * v, scale) == Times(d, scale) + Times(v, Times(scale, 128))
  {
    assert (d + 128 * v) * scale == d * scale + v * (scale * 128);
  }

  lemma ParseDigit(s: seq<byte>, max: nat, i: nat, low: nat, scale: nat)
    requires i < max && i < |s|
    ensures var b := s[i];
            Resume(Parse(s[i..], max - i), low, scale, i) ==
            if b < 128 then Good(low + Times(b % 128, scale), i + 1)
            else Resume(Parse(s[i + 1..], max - (i + 1)), low + Times(b % 128, scale), Times(scale, 128), i + 1)
  {
    assert s[i..][1..] == s[i + 1..];
    if s[i] >= 128 {
      match Parse(s[i + 1..], max - (i + 1))
      case Bad =>
      case Good(v, n) => Distribute(s[i] % 128, v, scale);
    }
  }

  method GetVarint32Fallback(s: seq<byte>) returns (r: Parsed)
    ensures r == Strict(s, 5, TWO_TO_32)
  {
    hide Times, Parse;
    var result, scale, i: nat := 0, 1, 0;
    ghost var exact: nat := 0;
    ParseStart(s, 5);
    while i < 5 && i < |s|
      invariant i <= 5 && i <= |s| && result == exact % TWO_TO_32
      invariant Parse(s, 5) == Resume(Parse(s[i..], 5 - i), exact, scale, i)
      decreases 5 - i
    {
      var b := s[i];
      ParseDigit(s, 5, i, exact, scale);
      ModOfSum(exact, Times(b % 128, scale), TWO_TO_32);
      result := (result + Times(b % 128, scale)) % TWO_TO_32;
      exact := exact + Times(b % 128, scale);
      i := i + 1;
      if b < 128 {
        return Good(result, i);
      }
      scale := Times(scale, 128);
    }
    ParseEnd(s[i..], 5 - i);
    r := Bad;
  }

  /** The thirty-two bit reader of the coding helpers: a single byte at once, more by the loop. */
  method GetVarint32(s: seq<byte>) returns (r: Parsed)
    ensures r == Strict(s, 5, TWO_TO_32)
  {
    if 0 < |s| && s[0] < 128 {
      return Good(s[0], 1);
    }
    r := GetVarint32Fallback(s);
  }

  /** The sixty-four bit reader of the coding helpers. */
  method GetVarint64(s: seq<byte>) returns (r: Parsed)
    ensures r == Strict(s, 10, TWO_TO_64)
  {
    hide Times, Parse;
    var result, scale, i: nat := 0, 1, 0;
    ghost var exact: nat := 0;
    ParseStart(s, 10);
    while i < 10 && i < |s|
      invariant i <= 10 && i <= |s| && result == exact % TWO_TO_64
      invariant Parse(s, 10) == Resume(Parse(s[i..], 10 - i), exact, scale, i)
      decreases 10 - i
    {
      var b := s[i];
      ParseDigit(s, 10, i, exact, scale);
      ModOfSum(exact, Times(b % 128, scale), TWO_TO_64);
      result := (result + Times(b % 128, scale)) % TWO_TO_64;
      exact := exact + Times(b % 128, scale);
      i := i + 1;
      if b < 128 {
        return Good(result, i);
      }
      scale := Times(scale, 128);
    }
    ParseEnd(s[i..], 10 - i);
    r := Bad;
  }

  /** Some byte of s ends a varint, or there are as many bytes as a varint may have. */
  predicate Suffices(s: seq<byte>, max: nat) {
    |s| >= max || (s != [] && s[|s| - 1] < 128)
  }

  lemma DigitsIsPart(s: seq<byte>, n: nat)
    requires n <= 4 && n <= |s|
    ensures Digits(s, n) == Part(s, 0, n)
  {
    if n > 1 { assert s[1..][0] == s[1]; }
    if n > 2 { assert s[1..][1..] == s[2..]; }
    if n > 3 { assert s[2..][1..] == s[3..]; }
    if n >= 1 { assert Digits(s, n) == s[0] % 128 + 128 * Digits(s[1..], n - 1); }
    if n >= 2 { assert Digits(s[1..], n - 1) == s[1] % 128 + 128 * Digits(s[2..], n - 2); }
    if n >= 3 { assert Digits(s[2..], n - 2) == s[2] % 128 + 128 * Digits(s[3..], n - 3); }
    if n >= 4 { assert Digits(s[3..], n - 3) == s[3] % 128 + 128 * Digits(s[3..][1..], n - 4); }
  }

  lemma PartShift(s: seq<byte>, at: nat, n: nat)
    requires n <= 4 && at + n <= |s|
    ensures Part(s[at..], 0, n) == Part(s, at, n)
  {
  }

  function AtMost(n: nat, max: nat): nat { if n < max then n else max }

  function Beyond(n: nat, start: nat, max: nat): nat { if n <= start then 0 else AtMost(n - start, max) }

  lemma NoPart(s: seq<byte>)
    ensures Part(s, 4, 0) == 0 && Part(s, 8, 0) == 0
  {
  }

  /** Ten digits are two parts of four and one of two. */
  lemma DigitsInParts(s: seq<byte>, n: nat)
    requires n <= 10 && n <= |s|
    ensures Digits(s, n) == Part(s, 0, AtMost(n, 4)) + TWO_TO_28 * Part(s, 4, Beyond(n, 4, 4)) +
            TWO_TO_56 * Part(s, 8, Beyond(n, 8, 2))
  {
    hide Digits, Part;
    NoPart(s);
    if n <= 4 {
      DigitsIsPart(s, n);
    } else {
      DigitsByFour(s, n);
      if n <= 8 {
        DigitsIsPart(s[4..], n - 4);
        PartShift(s, 4, n - 4);
      } else {
        DigitsByFour(s[4..], n - 4);
        PartShift(s, 4, 4);
        assert s[4..][4..] == s[8..];
        DigitsIsPart(s[8..], n - 8);
        PartShift(s, 8, n - 8);
      }
    }
  }

  lemma TopBits32(low: nat, b: byte)
    requires low < TWO_TO_28
    ensures (low + TWO_TO_28 * (b % 128)) % TWO_TO_32 == low + b * TWO_TO_28 % TWO_TO_32
  {
  }

  lemma PartBound(s: seq<byte>, at: nat, n: nat)
    requires n <= 4 && (n > 0 ==> at + n <= |s|)
    ensures Part(s, at, n) < TWO_TO_28
  {
  }

  /** The value of up to five digits in a word of thirty-two bits. */
  lemma Word32(s: seq<byte>, n: nat)
    requires n <= 5 && n <= |s|
    ensures Digits(s, n) % TWO_TO_32 == Part(s, 0, AtMost(n, 4)) + if n == 5 then s[4] * TWO_TO_28 % TWO_TO_32 else 0
  {
    DigitsInParts(s, n);
    PartBound(s, 0, AtMost(n, 4));
    TopBits32(Part(s, 0, AtMost(n, 4)), if n == 5 then s[4] else 0);
  }

  /** The byte at i, which is there because the bytes before it all continue. */
  function ByteAt(s: seq<byte>, max: nat, i: nat): (b: byte)
    requires Suffices(s, max) && i < max && i <= |s| && Continues(s, i)
    ensures i < |s| && b == s[i]
  {
    s[i]
  }

  /** Either byte n - 1 ends the varint or n is the most bytes it may have. */
  lemma LenientValue(s: seq<byte>, max: nat, word: nat, n: nat)
    requires word > 0 && 1 <= n <= |s| && n <= max && Continues(s, n - 1) && (s[n - 1] < 128 || n == max)
    ensures Lenient(s, max, word) == Good(Digits(s, n) % word, n)
  {
    if s[n - 1] < 128 {
      ParseStops(s, max, n - 1);
    } else {
      ParseRunsOn(s, max);
    }
  }

  /** The unrolled thirty-two bit reader without bounds checks. */
  method FromArray32(s: seq<byte>) returns (value: nat, n: nat)
    requires Suffices(s, 5)
    ensures Lenient(s, 5, TWO_TO_32) == Good(value, n)
  {
    hide Lenient, Suffices;
    var b;
    b, n := ByteAt(s, 5, 0), 1;
    value := b % 128;
    if b >= 128 {
      b, n := ByteAt(s, 5, 1), 2;
      value := value + b % 128 * TWO_TO_7;
      if b >= 128 {
        b, n := ByteAt(s, 5, 2), 3;
        value := value + b % 128 * TWO_TO_14;
        if b >= 128 {
          b, n := ByteAt(s, 5, 3), 4;
          value := value + b % 128 * TWO_TO_21;
          if b >= 128 {
            b, n := ByteAt(s, 5, 4), 5;
            value := value + b * TWO_TO_28 % TWO_TO_32;
          }
        }
      }
    }
    LenientValue(s, 5, TWO_TO_32, n);
    Word32(s, n);
  }

  /** The bytes all continue and there are too few of them. */
  lemma RunsOut(s: seq<byte>, max: nat, word: nat)
    requires word > 0 && |s| < max && Continues(s, |s|)
    ensures Lenient(s, max, word) == Bad && Strict(s, max, word) == Bad
  {
    ParseRunsOn(s, max);
  }

  /** The thirty-two bit reader with a bounds check before every byte. */
  method Slow32(s: seq<byte>) returns (r: Parsed)
    ensures r == Lenient(s, 5, TWO_TO_32)
  {
    hide Lenient;
    var b, n, value := 0, 0, 0;
    if n >= |s| { RunsOut(s, 5, TWO_TO_32); return Bad; }
    b, n := s[n], n + 1;
    value := b % 128;
    if b >= 128 {
      if n >= |s| { RunsOut(s, 5, TWO_TO_32); return Bad; }
      b, n := s[n], n + 1;
      value := value + b % 128 * TWO_TO_7;
      if b >= 128 {
        if n >= |s| { RunsOut(s, 5, TWO_TO_32); return Bad; }
        b, n := s[n], n + 1;
        value := value + b % 128 * TWO_TO_14;
        if b >= 128 {
          if n >= |s| { RunsOut(s, 5, TWO_TO_32); return Bad; }
          b, n := s[n], n + 1;
          value := value + b % 128 * TWO_TO_21;
          if b >= 128 {
            if n >= |s| { RunsOut(s, 5, TWO_TO_32); return Bad; }
            b, n := s[n], n + 1;
            value := value + b * TWO_TO_28 % TWO_TO_32;
          }
        }
      }
    }
    LenientValue(s, 5, TWO_TO_32, n);
    Word32(s, n);
    r := Good(value, n);
  }

  /** Up to four digits from `at` on, two from the ninth byte on. */
  method ReadPart(s: seq<byte>, at: nat) returns (part: nat, n: nat)
    requires Suffices(s, 10) && at in {0, 4, 8} && at <= |s| && Continues(s, at)
    ensures at < n <= |s| && n <= at + 4 && n <= 10 && Continues(s, n - 1)
    ensures s[n - 1] < 128 || n == at + 4 || n == 10
    ensures part == Part(s, at, n - at)
  {
    hide Suffices;
    var b;
    b, n := ByteAt(s, 10, at), at + 1;
    part := b % 128;
    if b >= 128 {
      b, n := ByteAt(s, 10, at + 1), at + 2;
      part := part + b % 128 * TWO_TO_7;
      if b >= 128 && at < 8 {
        b, n := ByteAt(s, 10, at + 2), at + 3;
        part := part + b % 128 * TWO_TO_14;
        if b >= 128 {
          b, n := ByteAt(s, 10, at + 3), at + 4;
          part := part + b % 128 * TWO_TO_21;
        }
      }
    }
  }

  lemma Below64(q: nat, x: nat)
    requires x < TWO_TO_64
    ensures (q * TWO_TO_64 + x) % TWO_TO_64 == x
  {
  }

  lemma TopBits64(low: nat, high: nat)
    requires low < TWO_TO_56
    ensures (low + TWO_TO_56 * high) % TWO_TO_64 == low + high * TWO_TO_56 % TWO_TO_64
  {
    var q, r := high / 256, high % 256;
    assert high == 256 * q + r;
    Below64(q, r * TWO_TO_56);
    Below64(q, low + r * TWO_TO_56);
  }

  /** The value of up to ten digits in a word of sixty-four bits. */
  lemma Word64(s: seq<byte>, n: nat, part0: nat, part1: nat, part2: nat)
    requires 1 <= n <= 10 && n <= |s|
    requires part0 == Part(s, 0, AtMost(n, 4)) && part1 == Part(s, 4, Beyond(n, 4, 4))
    requires part2 == Part(s, 8, Beyond(n, 8, 2))
    ensures Digits(s, n) % TWO_TO_64 == part0 + part1 * TWO_TO_28 + part2 * TWO_TO_56 % TWO_TO_64
  {
    hide Digits, Part;
    DigitsInParts(s, n);
    PartBound(s, 0, AtMost(n, 4));
    PartBound(s, 4, Beyond(n, 4, 4));
    TopBits64(part0 + TWO_TO_28 * part1, part2);
  }

  /** The unrolled sixty-four bit reader without bounds checks, which collects three parts. */
  method FromArray64(s: seq<byte>) returns (value: nat, n: nat)
    requires Suffices(s, 10)
    ensures Lenient(s, 10, TWO_TO_64) == Good(value, n)
  {
    hide Lenient, Suffices;
    var part0, part1, part2;
    part0, n := ReadPart(s, 0);
    part1, part2 := 0, 0;
    if n == 4 && s[3] >= 128 {
      part1, n := ReadPart(s, 4);
      if n == 8 && s[7] >= 128 {
        part2, n := ReadPart(s, 8);
      }
    }
    value := part0 + part1 * TWO_TO_28 + part2 * TWO_TO_56 % TWO_TO_64;
    LenientValue(s, 10, TWO_TO_64, n);
    Word64(s, n, part0, part1, part2);
  }

  /** The sixty-four bit reader that counts the bytes and checks the bounds. */
  method Slow64(s: seq<byte>) returns (r: Parsed)
    ensures r == Strict(s, 10, TWO_TO_64)
  {
    hide Times, Parse;
    var result, scale, count: nat := 0, 1, 0;
    ghost var exact: nat := 0;
    ParseStart(s, 10);
    var b := 128;
    while b >= 128
      invariant count <= 10 && count <= |s| && result == exact % TWO_TO_64
      invariant b >= 128 ==> Parse(s, 10) == Resume(Parse(s[count..], 10 - count), exact, scale, count)
      invariant b < 128 ==> Parse(s, 10) == Good(exact, count)
      decreases 10 - count, b
    {
      if count == 10 || count == |s| {
        ParseEnd(s[count..], 10 - count);
        return Bad;
      }
      b := s[count];
      ParseDigit(s, 10, count, exact, scale);
      result := (result + Times(b % 128, scale)) % TWO_TO_64;
      exact := exact + Times(b % 128, scale);
      scale := Times(scale, 128);
      count := count + 1;
    }
    r := Good(result, count);
  }
}
