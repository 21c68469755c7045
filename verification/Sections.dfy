/** The section container: main data, section data, a description of the sections, a header and a
    flag, read backwards from the end. */
module Sections {
  import opened Arithmetic
  import opened Varint
  import opened DataBuffers

  const SECTION_FLAG: nat := 0x9e37_79b9
  const FLAG_SIZE: nat := 4
  const HEADER_SIZE: nat := 8

  datatype Section = Section(name: seq<byte>, bytes: seq<byte>)

  /** Where the data of a named section is. */
  datatype Info = Info(name: seq<byte>, start: nat, length: nat) {
    function Values(): seq<Value> { [Str(name), U32(start), U32(length)] }
  }

  /** Main data of the given length and the sections found; or the description cannot be read. */
  datatype Opened = Corrupt | Opened(mainLength: nat, sections: seq<Info>)

  /** n in little-endian bytes. */
  function LittleEndian(n: nat, size: nat): (r: seq<byte>)
    ensures |r| == size
  {
    if size == 0 then [] else [n % 256] + LittleEndian(n / 256, size - 1)
  }

  function FromLittleEndian(s: seq<byte>): (n: nat) {
    if s == [] then 0 else s[0] + 256 * FromLittleEndian(s[1..])
  }

  lemma LittleEndianStep(n: nat, size: nat)
    requires size > 0
    ensures FromLittleEndian(LittleEndian(n, size)) == n % 256 + 256 * FromLittleEndian(LittleEndian(n / 256, size - 1))
  {
    assert LittleEndian(n, size)[1..] == LittleEndian(n / 256, size - 1);
  }

  lemma TwoBytes(n: nat)
    ensures n % 256 + 256 * (n / 256 % 256) == n % 0x1_0000
  {
    var a := n / 256;
    assert n == 256 * a + n % 256 && a == 256 * (a / 256) + a % 256;
    DivisionUnique(n, a / 256, 256 * (a % 256) + n % 256, 0x1_0000);
  }

  lemma LittleEndianNone(n: nat)
    ensures FromLittleEndian(LittleEndian(n, 0)) == 0
  {
  }

  lemma LittleEndianTwo(n: nat)
    ensures FromLittleEndian(LittleEndian(n, 2)) == n % 0x1_0000
  {
    hide LittleEndian, FromLittleEndian;
    LittleEndianStep(n, 2);
    LittleEndianStep(n / 256, 1);
    LittleEndianNone(n / 256 / 256);
    TwoBytes(n);
  }

  lemma Assembled(q: nat, x: nat, y: nat, z: nat)
    requires x < 256 && y < 256 && z < 0x1_0000
    ensures (TWO_TO_32 * q + 0x1_0000 * z + 256 * y + x) % TWO_TO_32 == 0x1_0000 * z + 256 * y + x
  {
    DivisionUnique(TWO_TO_32 * q + 0x1_0000 * z + 256 * y + x, q, 0x1_0000 * z + 256 * y + x, TWO_TO_32);
  }

  lemma FourBytes(n: nat)
    ensures n % 256 + 256 * (n / 256 % 256 + 256 * (n / 256 / 256 % 0x1_0000)) == n % TWO_TO_32
  {
    var a := n / 256;
    var b := a / 256;
    Assembled(b / 0x1_0000, n % 256, a % 256, b % 0x1_0000);
    assert n == 256 * a + n % 256 && a == 256 * b + a % 256 && b == 0x1_0000 * (b / 0x1_0000) + b % 0x1_0000;
  }

  lemma LittleEndianBack(n: nat, size: nat)
    ensures size == 2 ==> FromLittleEndian(LittleEndian(n, size)) == n % 0x1_0000
    ensures size == 4 ==> FromLittleEndian(LittleEndian(n, size)) == n % TWO_TO_32
  {
    if size == 2 {
      LittleEndianTwo(n);
    } else if size == 4 {
      LittleEndianTwo(n / 256 / 256);
      hide LittleEndian, FromLittleEndian;
      LittleEndianStep(n, 4);
      LittleEndianStep(n / 256, 3);
      FourBytes(n);
    }
  }

  function Infos(secs: seq<Section>, start: nat): (r: seq<Info>)
    ensures |r| == |secs|
  {
    if secs == [] then []
    else [Info(secs[0].name, start, |secs[0].bytes|)] + Infos(secs[1..], start + |secs[0].bytes|)
  }

  function Joined(secs: seq<Section>): seq<byte> {
    if secs == [] then [] else secs[0].bytes + Joined(secs[1..])
  }

  function InfoValues(infos: seq<Info>): seq<Value> {
    if infos == [] then [] else infos[0].Values() + InfoValues(infos[1..])
  }

  function MetaValues(infos: seq<Info>): seq<Value> { [U32(|infos|)] + InfoValues(infos) }

  ghost function Meta(secs: seq<Section>, start: nat): seq<byte> { BytesOf(MetaValues(Infos(secs, start))) }

  function Trailer(meta: seq<byte>, checksum: nat): seq<byte> {
    LittleEndian(checksum, 4) + LittleEndian(|meta|, 2) + LittleEndian(0, 2) + LittleEndian(SECTION_FLAG, 4)
  }

  ghost function Container(main: seq<byte>, secs: seq<Section>, hash: seq<byte> -> nat): seq<byte> {
    var meta := Meta(secs, |main|);
    main + Joined(secs) + meta + Trailer(meta, hash(meta))
  }

  datatype Got<+T> = Fail | Got(value: T, length: nat)

  function GetU32(s: seq<byte>): (r: Got<nat>)
    ensures r.Got? ==> r.length <= |s|
  {
    match Lenient(s, 5, TWO_TO_32)
    case Bad => Fail
    case Good(v, n) => Got(v, n)
  }

  function GetStr(s: seq<byte>): (r: Got<seq<byte>>)
    ensures r.Got? ==> r.length <= |s|
  {
    match GetU32(s)
    case Fail => Fail
    case Got(v, n) => if n + v <= |s| then Got(s[n..n + v], n + v) else Fail
  }

  function GetInfo(s: seq<byte>): (r: Got<Info>)
    ensures r.Got? ==> r.length <= |s|
  {
    match GetStr(s)
    case Fail => Fail
    case Got(name, a) =>
      match GetU32(s[a..])
      case Fail => Fail
      case Got(start, b) =>
        match GetU32(s[a + b..])
        case Fail => Fail
        case Got(length, c) => Got(Info(name, start, length), a + b + c)
  }

  /** The next `count` descriptions behind those in `acc`. */
  function GetInfos(s: seq<byte>, count: nat, acc: seq<Info>): Got<seq<Info>>
    decreases count
  {
    if count == 0 then Got(acc, 0)
    else
      match GetInfo(s)
      case Fail => Fail
      case Got(info, n) => GetInfos(s[n..], count - 1, acc + [info])
  }

  function GetMeta(s: seq<byte>): Got<seq<Info>> {
    match GetU32(s)
    case Fail => Fail
    case Got(count, n) => GetInfos(s[n..], count, [])
  }

  function TotalLength(infos: seq<Info>): nat {
    if infos == [] then 0 else TotalLength(infos[..|infos| - 1]) + infos[|infos| - 1].length
  }

  /** What a byte string holds, as read from its end. */
  function Open(str: seq<byte>, hash: seq<byte> -> nat): Opened {
    var plain := Opened(|str|, []);
    if |str| < FLAG_SIZE then plain
    else
      var a := |str| - FLAG_SIZE;
      if FromLittleEndian(str[a..]) != SECTION_FLAG || a < HEADER_SIZE then plain
      else
        var b := a - HEADER_SIZE;
        var metaLen := FromLittleEndian(str[b + 4..b + 6]);
        if metaLen > b || hash(str[b - metaLen..b]) != FromLittleEndian(str[b..b + 4]) then plain
        else
          var c := b - metaLen;
          match GetMeta(str[c..b])
          case Fail => Corrupt
          case Got(infos, _) => Opened(if TotalLength(infos) <= c then c - TotalLength(infos) else |str|, infos)
  }

  ghost predicate InRange(infos: seq<Info>) {
    |infos| < TWO_TO_32 && forall i :: 0 <= i < |infos| ==>
      |infos[i].name| < 0x8000_0000 && infos[i].start < TWO_TO_32 && infos[i].length < TWO_TO_32
  }

  lemma U32Back(n: nat, rest: seq<byte>)
    requires n < TWO_TO_32
    ensures GetU32(Encode(n) + rest) == Got(n, |Encode(n)|)
  {
    hide Encode, Parse;
    EncodeLength(n);
    ParseEncode(n, rest, 5);
  }

  lemma StrBack(b: seq<byte>, rest: seq<byte>)
    requires |b| < 0x8000_0000
    ensures GetStr(Str(b).Bytes() + rest) == Got(b, |Str(b).Bytes()|)
  {
    hide Encode, GetU32;
    assert Str(b).Bytes() + rest == Encode(|b|) + (b + rest);
    U32Back(|b|, b + rest);
  }

  lemma InfoBytes(info: Info)
    ensures BytesOf(info.Values()) == Str(info.name).Bytes() + Encode(info.start) + Encode(info.length)
  {
    hide Encode;
    var v := info.Values();
    assert v[1..] == [U32(info.start), U32(info.length)] && v[1..][1..] == [U32(info.length)] && v[1..][1..][1..] == [];
    assert BytesOf([U32(info.length)]) == Encode(info.length) + BytesOf([]);
  }

  lemma InfoBack(info: Info, rest: seq<byte>)
    requires |info.name| < 0x8000_0000 && info.start < TWO_TO_32 && info.length < TWO_TO_32
    ensures GetInfo(BytesOf(info.Values()) + rest) == Got(info, |BytesOf(info.Values())|)
  {
    hide Encode, GetU32, GetStr;
    var x, y, z := Str(info.name).Bytes(), Encode(info.start), Encode(info.length);
    InfoBytes(info);
    var s := BytesOf(info.Values()) + rest;
    assert s == x + (y + (z + rest));
    StrBack(info.name, y + (z + rest));
    U32Back(info.start, z + rest);
    U32Back(info.length, rest);
    assert s[|x|..] == y + (z + rest) && s[|x| + |y|..] == z + rest;
  }

  lemma {:induction false} BytesOfConcat(a: seq<Value>, b: seq<Value>)
    ensures BytesOf(a + b) == BytesOf(a) + BytesOf(b)
    decreases |a|
  {
    if a == [] {
      assert a + b == b;
    } else {
      assert (a + b)[1..] == a[1..] + b;
      BytesOfConcat(a[1..], b);
    }
  }

  lemma GetInfosStep(x: seq<byte>, rest: seq<byte>, count: nat, acc: seq<Info>, info: Info)
    requires GetInfo(x + rest) == Got(info, |x|) && count > 0
    ensures GetInfos(x + rest, count, acc) == GetInfos(rest, count - 1, acc + [info])
  {
    hide GetInfo;
    assert (x + rest)[|x|..] == rest;
  }

  lemma InfoValuesStep(infos: seq<Info>)
    requires infos != []
    ensures BytesOf(InfoValues(infos)) == BytesOf(infos[0].Values()) + BytesOf(InfoValues(infos[1..]))
  {
    hide BytesOf, Info.Values;
    BytesOfConcat(infos[0].Values(), InfoValues(infos[1..]));
  }

  lemma {:induction false} InfosBack(infos: seq<Info>, acc: seq<Info>)
    requires InRange(infos)
    ensures GetInfos(BytesOf(InfoValues(infos)), |infos|, acc) == Got(acc + infos, 0)
    decreases |infos|
  {
    hide GetInfo, Info.Values, BytesOf, InfoValues;
    if infos == [] {
      assert acc + infos == acc;
    } else {
      var head, tail := infos[0], infos[1..];
      var rest := BytesOf(InfoValues(tail));
      InfoValuesStep(infos);
      InfoBack(head, rest);
      GetInfosStep(BytesOf(head.Values()), rest, |infos|, acc, head);
      InfosBack(tail, acc + [head]);
      assert acc + [head] + tail == acc + infos;
    }
  }

  /** The description of the sections is read back as it was written. */
  lemma MetaBack(infos: seq<Info>)
    requires InRange(infos)
    ensures GetMeta(BytesOf(MetaValues(infos))) == Got(infos, 0)
  {
    hide GetInfos, GetU32, Encode;
    var rest := BytesOf(InfoValues(infos));
    BytesOfConcat([U32(|infos|)], InfoValues(infos));
    assert BytesOf([U32(|infos|)]) == Encode(|infos|) + BytesOf([]);
    assert BytesOf(MetaValues(infos)) == Encode(|infos|) + rest;
    U32Back(|infos|, rest);
    InfosBack(infos, []);
    assert [] + infos == infos;
  }

  lemma {:induction false} TotalLengthFirst(infos: seq<Info>)
    requires infos != []
    ensures TotalLength(infos) == infos[0].length + TotalLength(infos[1..])
    decreases |infos|
  {
    var n := |infos| - 1;
    if n > 0 {
      TotalLengthFirst(infos[..n]);
      assert infos[1..][..n - 1] == infos[..n][1..];
    }
  }

  lemma NothingInRange()
    ensures InRange([]) && TotalLength([]) == 0
  {
  }

  lemma OneInfoInFront(first: Info, rest: seq<Info>)
    requires InRange(rest) && |rest| + 1 < TWO_TO_32
    requires |first.name| < 0x8000_0000 && first.start < TWO_TO_32 && first.length < TWO_TO_32
    ensures InRange([first] + rest) && ([first] + rest)[1..] == rest
  {
  }

  /** The sections lie one behind the other behind the main data. */
  lemma {:induction false} InfosFit(secs: seq<Section>, start: nat)
    requires start + |Joined(secs)| < TWO_TO_32 && |secs| < TWO_TO_32
    requires forall i :: 0 <= i < |secs| ==> |secs[i].name| < 0x8000_0000
    ensures InRange(Infos(secs, start)) && TotalLength(Infos(secs, start)) == |Joined(secs)|
    decreases |secs|
  {
    hide InRange, TotalLength;
    if secs != [] {
      var first, rest := Info(secs[0].name, start, |secs[0].bytes|), Infos(secs[1..], start + |secs[0].bytes|);
      InfosFit(secs[1..], start + |secs[0].bytes|);
      TotalLengthFirst([first] + rest);
      OneInfoInFront(first, rest);
    } else {
      NothingInRange();
    }
  }

  lemma Regroup(a: seq<byte>, b: seq<byte>, c: seq<byte>, d: seq<byte>)
    ensures a + (b + c) + d == a + b + (c + d) == a + b + c + d
  {
  }

  ghost predicate InPlace(str: seq<byte>, info: Info, sec: Section) {
    info.name == sec.name && info.start + info.length <= |str| && str[info.start..info.start + info.length] == sec.bytes
  }

  lemma SliceBehind(a: seq<byte>, b: seq<byte>, c: seq<byte>)
    ensures (a + b + c)[|a|..|a| + |b|] == b
  {
  }

  lemma JoinedStep(secs: seq<Section>)
    requires secs != []
    ensures Joined(secs) == secs[0].bytes + Joined(secs[1..])
  {
  }

  /** Every section's bytes are found where its description says. */
  lemma {:induction false} SectionsInPlace(secs: seq<Section>, front: seq<byte>, back: seq<byte>, i: nat)
    requires i < |secs|
    ensures InPlace(front + Joined(secs) + back, Infos(secs, |front|)[i], secs[i])
    decreases |secs|
  {
    var first, rest := secs[0].bytes, Joined(secs[1..]);
    hide Joined;
    JoinedStep(secs);
    if i == 0 {
      SliceBehind(front, first, rest + back);
      Regroup(front, first, rest, back);
    } else {
      SectionsInPlace(secs[1..], front + first, back, i - 1);
      Regroup(front, first, rest, back);
    }
  }

  lemma MetaIs(secs: seq<Section>, start: nat)
    ensures Meta(secs, start) == BytesOf(MetaValues(Infos(secs, start)))
  {
  }

  /** The header and the flag are found at the end. */
  lemma TrailerBack(front: seq<byte>, meta: seq<byte>, checksum: nat)
    ensures var str := front + meta + Trailer(meta, checksum);
            && |str| == |front| + |meta| + 12
            && var b := |str| - 12;
            && FromLittleEndian(str[b + 8..]) == SECTION_FLAG
            && FromLittleEndian(str[b + 4..b + 6]) == |meta| % 0x1_0000
            && FromLittleEndian(str[b..b + 4]) == checksum % TWO_TO_32
            && str[|front|..b] == meta
  {
    hide FromLittleEndian, LittleEndian;
    var str := front + meta + Trailer(meta, checksum);
    var b := |str| - 12;
    assert str[b + 8..] == LittleEndian(SECTION_FLAG, 4);
    assert str[b + 4..b + 6] == LittleEndian(|meta|, 2);
    assert str[b..b + 4] == LittleEndian(checksum, 4);
    LittleEndianBack(SECTION_FLAG, 4);
    LittleEndianBack(|meta|, 2);
    LittleEndianBack(checksum, 4);
  }

  /** The string ends with a description, its checksum and length in little-endian bytes, two bytes that
      mean nothing, and the four bytes of the flag. */
  ghost predicate EndsWith(str: seq<byte>, front: seq<byte>, meta: seq<byte>, pad: seq<byte>, hash: seq<byte> -> nat) {
    && |pad| == 2 && |meta| < 0x1_0000 && hash(meta) < TWO_TO_32
    && str == front + meta + LittleEndian(hash(meta), 4) + LittleEndian(|meta|, 2) + pad + [0xb9, 0x79, 0x37, 0x9e]
  }

  lemma FirstByte(b: byte, n: nat)
    ensures (b + 256 * n) % 256 == b && (b + 256 * n) / 256 == n
  {
  }

  lemma {:induction false} LittleEndianAgain(s: seq<byte>)
    ensures LittleEndian(FromLittleEndian(s), |s|) == s
  {
    if s != [] {
      LittleEndianAgain(s[1..]);
      FirstByte(s[0], FromLittleEndian(s[1..]));
    }
  }

  lemma ShortBytes(s: seq<byte>)
    requires |s| == 2
    ensures FromLittleEndian(s) < 0x1_0000
  {
    assert FromLittleEndian(s) == s[0] + 256 * FromLittleEndian(s[1..]);
    assert FromLittleEndian(s[1..]) == s[1] + 256 * FromLittleEndian(s[1..][1..]);
  }

  lemma SplitWord(s: seq<byte>)
    requires |s| == 4
    ensures FromLittleEndian(s) == FromLittleEndian(s[..2]) + 0x1_0000 * FromLittleEndian(s[2..])
  {
    assert s[1..][1..] == s[2..] && s[..2][1..] == [s[1]];
    assert FromLittleEndian(s) == s[0] + 256 * (s[1] + 256 * FromLittleEndian(s[2..]));
    assert FromLittleEndian([s[1]]) == s[1] + 256 * FromLittleEndian([]);
  }

  lemma WordBytes(s: seq<byte>)
    requires |s| == 4
    ensures FromLittleEndian(s) < TWO_TO_32
  {
    hide FromLittleEndian;
    SplitWord(s);
    ShortBytes(s[..2]);
    ShortBytes(s[2..]);
  }

  lemma FlagValue()
    ensures FromLittleEndian([0xb9, 0x79, 0x37, 0x9e]) == SECTION_FLAG
  {
    var s: seq<byte> := [0xb9, 0x79, 0x37, 0x9e];
    assert s[1..] == [0x79, 0x37, 0x9e] && s[1..][1..] == [0x37, 0x9e] && s[1..][1..][1..] == [0x9e];
    assert FromLittleEndian([0x9e]) == 0x9e;
    assert FromLittleEndian([0x37, 0x9e]) == 0x9e37;
    assert FromLittleEndian([0x79, 0x37, 0x9e]) == 0x9e_3779;
  }

  lemma FlagBytes(s: seq<byte>)
    requires |s| == 4
    ensures FromLittleEndian(s) == SECTION_FLAG <==> s == [0xb9, 0x79, 0x37, 0x9e]
  {
    LittleEndianAgain(s);
    LittleEndianAgain([0xb9, 0x79, 0x37, 0x9e]);
    FlagValue();
  }

  /** A string that ends like that opens as its description says. */
  lemma OpenEnding(str: seq<byte>, front: seq<byte>, meta: seq<byte>, pad: seq<byte>, hash: seq<byte> -> nat)
    requires EndsWith(str, front, meta, pad, hash)
    ensures Open(str, hash) == match GetMeta(meta)
                               case Fail => Corrupt
                               case Got(infos, _) =>
                                 Opened(if TotalLength(infos) <= |front| then |front| - TotalLength(infos) else |str|,
                                        infos)
  {
    hide GetMeta, TotalLength, FromLittleEndian, LittleEndian;
    var b := |front| + |meta|;
    assert str[b + 8..] == [0xb9, 0x79, 0x37, 0x9e];
    assert str[b + 4..b + 6] == LittleEndian(|meta|, 2);
    assert str[b..b + 4] == LittleEndian(hash(meta), 4);
    assert str[|front|..b] == meta;
    FlagBytes(str[b + 8..]);
    LittleEndianBack(|meta|, 2);
    LittleEndianBack(hash(meta), 4);
  }

  /** One that passes all tests of the trailer ends like that. */
  lemma EndingOf(str: seq<byte>, hash: seq<byte> -> nat)
    requires Open(str, hash) != Opened(|str|, [])
    ensures exists front, meta, pad :: EndsWith(str, front, meta, pad, hash)
  {
    hide GetMeta, TotalLength, FromLittleEndian, LittleEndian;
    var b := |str| - 12;
    var metaLen := FromLittleEndian(str[b + 4..b + 6]);
    var front, meta, pad := str[..b - metaLen], str[b - metaLen..b], str[b + 6..b + 8];
    FlagBytes(str[b + 8..]);
    ShortBytes(str[b + 4..b + 6]);
    WordBytes(str[b..b + 4]);
    LittleEndianAgain(str[b + 4..b + 6]);
    LittleEndianAgain(str[b..b + 4]);
    assert EndsWith(str, front, meta, pad, hash);
  }

  lemma NothingIsShort(str: seq<byte>, front: seq<byte>, meta: seq<byte>, pad: seq<byte>, hash: seq<byte> -> nat)
    requires EndsWith(str, front, meta, pad, hash)
    ensures |front| < |str| && TotalLength([]) == 0
  {
  }

  /** For every byte string: all of it is main data exactly when it does not end like a container, and it is
      corrupt exactly when it does and the description cannot be read. */
  lemma OpenExactly(str: seq<byte>, hash: seq<byte> -> nat)
    ensures Open(str, hash) == Opened(|str|, []) <==> !exists front, meta, pad :: EndsWith(str, front, meta, pad, hash)
    ensures Open(str, hash) == Corrupt <==>
            exists front, meta, pad :: EndsWith(str, front, meta, pad, hash) && GetMeta(meta).Fail?
  {
    hide Open, EndsWith, GetMeta;
    if Open(str, hash) != Opened(|str|, []) { EndingOf(str, hash); }
    forall front, meta, pad | EndsWith(str, front, meta, pad, hash)
      ensures Open(str, hash) != Opened(|str|, []) && (Open(str, hash) == Corrupt <==> GetMeta(meta).Fail?)
    {
      OpenEnding(str, front, meta, pad, hash);
      NothingIsShort(str, front, meta, pad, hash);
    }
  }

  lemma ContainerEnds(main: seq<byte>, secs: seq<Section>, hash: seq<byte> -> nat)
    requires hash(Meta(secs, |main|)) < TWO_TO_32 && |Meta(secs, |main|)| < 0x1_0000
    ensures EndsWith(Container(main, secs, hash), main + Joined(secs), Meta(secs, |main|), LittleEndian(0, 2), hash)
  {
    LittleEndianAgain([0xb9, 0x79, 0x37, 0x9e]);
    FlagValue();
    hide Meta, Joined, LittleEndian, FromLittleEndian;
  }

  /** Opening a container restores the length of the main data and all section descriptions. */
  lemma OpenContainer(main: seq<byte>, secs: seq<Section>, hash: seq<byte> -> nat)
    requires |main| + |Joined(secs)| < TWO_TO_32 && |secs| < TWO_TO_32
    requires forall i :: 0 <= i < |secs| ==> |secs[i].name| < 0x8000_0000
    requires hash(Meta(secs, |main|)) < TWO_TO_32 && |Meta(secs, |main|)| < 0x1_0000
    ensures Open(Container(main, secs, hash), hash) == Opened(|main|, Infos(secs, |main|))
  {
    hide GetMeta, Meta, Joined, Infos, TotalLength, InRange, Container, Open, EndsWith;
    InfosFit(secs, |main|);
    MetaBack(Infos(secs, |main|));
    MetaIs(secs, |main|);
    ContainerEnds(main, secs, hash);
    var meta, front := Meta(secs, |main|), main + Joined(secs);
    OpenEnding(Container(main, secs, hash), front, meta, LittleEndian(0, 2), hash);
  }

  /** As much of a length as sixteen bits keep, and that much of the end of a description. */
  function Kept(n: nat): (r: nat)
    ensures r <= n && r < 0x1_0000
  {
    n % 0x1_0000
  }

  function Tail(meta: seq<byte>): (r: seq<byte>)
    ensures |r| == Kept(|meta|)
  {
    meta[|meta| - Kept(|meta|)..]
  }

  /** A reader finds only the end of a long description. */
  lemma CutDescription(main: seq<byte>, secs: seq<Section>, hash: seq<byte> -> nat)
    requires hash(Meta(secs, |main|)) < TWO_TO_32
    ensures var meta, str := Meta(secs, |main|), Container(main, secs, hash);
            && |str| >= |main| + |meta| + 12
            && var b, n := |str| - 12, Kept(|meta|);
            && FromLittleEndian(str[b + 8..]) == SECTION_FLAG && FromLittleEndian(str[b + 4..b + 6]) == n
            && FromLittleEndian(str[b..b + 4]) == hash(meta) && str[b - n..b] == Tail(meta)
  {
    hide Meta, Joined, FromLittleEndian, LittleEndian;
    var meta, str := Meta(secs, |main|), Container(main, secs, hash);
    TrailerBack(main + Joined(secs), meta, hash(meta));
    var b, n := |str| - 12, Kept(|meta|);
    assert str[b - n..b] == str[|main + Joined(secs)|..b][|meta| - n..];
  }

  /** The length of the description is kept modulo 65536; a longer one is not recognised, unless the
      checksum of its tail happens to be the same. */
  lemma LongMetaUnrecognised(main: seq<byte>, secs: seq<Section>, hash: seq<byte> -> nat)
    requires |Meta(secs, |main|)| >= 0x1_0000 && hash(Meta(secs, |main|)) < TWO_TO_32
    requires var meta := Meta(secs, |main|); hash(Tail(meta)) != hash(meta)
    ensures Open(Container(main, secs, hash), hash) == Opened(|Container(main, secs, hash)|, [])
  {
    hide GetMeta, Meta, Joined, Infos, TotalLength, FromLittleEndian, LittleEndian, Container, Kept, Tail;
    CutDescription(main, secs, hash);
  }

  lemma InfoConsumes(s: seq<byte>)
    requires GetInfo(s).Got?
    ensures |BytesOf(GetInfo(s).value.Values())| <= GetInfo(s).length
  {
    hide Lenient, Encode, BytesOf;
    var name := GetStr(s);
    var start := GetU32(s[name.length..]);
    var length := GetU32(s[name.length + start.length..]);
    InfoBytes(GetInfo(s).value);
    LenientShortest(s, 5, TWO_TO_32);
    LenientShortest(s[name.length..], 5, TWO_TO_32);
    LenientShortest(s[name.length + start.length..], 5, TWO_TO_32);
  }

  lemma NoInfoBytes()
    ensures |BytesOf(InfoValues([]))| == 0
  {
  }

  lemma {:induction false} InfosConsume(s: seq<byte>, count: nat, acc: seq<Info>)
    requires GetInfos(s, count, acc).Got?
    ensures var r := GetInfos(s, count, acc).value;
            |r| == |acc| + count && acc <= r && |BytesOf(InfoValues(r[|acc|..]))| <= |s|
    decreases count
  {
    hide GetInfo, Info.Values, BytesOf, InfoValues;
    var r := GetInfos(s, count, acc).value;
    if count == 0 {
      assert r[|acc|..] == [];
      NoInfoBytes();
    } else {
      var info, n := GetInfo(s).value, GetInfo(s).length;
      InfoConsumes(s);
      InfosConsume(s[n..], count - 1, acc + [info]);
      assert r[|acc|..][1..] == r[|acc| + 1..] && r[|acc|..][0] == info;
      InfoValuesStep(r[|acc|..]);
    }
  }

  /** No description is read from fewer bytes than it is written in. */
  lemma MetaConsumes(s: seq<byte>)
    requires GetMeta(s).Got?
    ensures |BytesOf(MetaValues(GetMeta(s).value))| <= |s|
  {
    hide Lenient, Encode, GetInfos, InfoValues;
    var head := GetU32(s);
    var infos := GetMeta(s).value;
    LenientShortest(s, 5, TWO_TO_32);
    InfosConsume(s[head.length..], head.value, []);
    assert infos[0..] == infos;
    assert MetaValues(infos)[1..] == InfoValues(infos);
  }

  lemma LongMetaFails(main: seq<byte>, secs: seq<Section>, hash: seq<byte> -> nat)
    requires |Meta(secs, |main|)| >= 0x1_0000 && hash(Meta(secs, |main|)) < TWO_TO_32
    ensures Open(Container(main, secs, hash), hash) != Opened(|main|, Infos(secs, |main|))
  {
    hide GetMeta, Meta, Joined, Infos, TotalLength, FromLittleEndian, LittleEndian, MetaValues, Container, Kept, Tail;
    var meta, str := Meta(secs, |main|), Container(main, secs, hash);
    CutDescription(main, secs, hash);
    MetaIs(secs, |main|);
    var cut := Tail(meta);
    if GetMeta(cut).Got? { MetaConsumes(cut); }
  }

  /** The round trip succeeds exactly for descriptions that the sixteen-bit length can express. */
  lemma RoundTripExactly(main: seq<byte>, secs: seq<Section>, hash: seq<byte> -> nat)
    requires |main| + |Joined(secs)| < TWO_TO_32 && |secs| < TWO_TO_32
    requires forall i :: 0 <= i < |secs| ==> |secs[i].name| < 0x8000_0000
    requires hash(Meta(secs, |main|)) < TWO_TO_32
    ensures Open(Container(main, secs, hash), hash) == Opened(|main|, Infos(secs, |main|)) <==>
            |Meta(secs, |main|)| < 0x1_0000
  {
    hide Open, Container, Meta, Infos, Joined;
    if |Meta(secs, |main|)| < 0x1_0000 {
      OpenContainer(main, secs, hash);
    } else {
      LongMetaFails(main, secs, hash);
    }
  }

  /** One empty section whose name alone fills the description. */
  function LongNamed(): seq<Section> { [Section(seq(0x1_0000, _ => 0), [])] }

  lemma DescriptionHoldsName(infos: seq<Info>)
    requires infos != []
    ensures |BytesOf(MetaValues(infos))| >= |infos[0].name|
  {
    hide Encode, Info.Values, InfoValues;
    assert MetaValues(infos)[1..] == InfoValues(infos);
    InfoValuesStep(infos);
    InfoBytes(infos[0]);
  }

  lemma LongNameFails(hash: seq<byte> -> nat)
    requires forall data :: hash(data) < TWO_TO_32
    ensures Open(Container([], LongNamed(), hash), hash) != Opened(0, Infos(LongNamed(), 0))
  {
    hide Open, Container, Joined;
    var infos := Infos(LongNamed(), 0);
    DescriptionHoldsName(infos);
    MetaIs(LongNamed(), 0);
    LongMetaFails([], LongNamed(), hash);
  }

  method BuildSectionMeta(secs: seq<Section>, start: nat) returns (infos: seq<Info>)
    ensures infos == Infos(secs, start)
  {
    infos := [];
    var at: nat := start;
    for i := 0 to |secs|
      invariant infos + Infos(secs[i..], at) == Infos(secs, start)
    {
      assert secs[i..][1..] == secs[i + 1..];
      infos := infos + [Info(secs[i].name, at, |secs[i].bytes|)];
      at := at + |secs[i].bytes|;
    }
  }

  lemma MetaStart(infos: seq<Info>)
    ensures [] + U32(|infos|).Bytes() + BytesOf(InfoValues(infos[0..])) == BytesOf(MetaValues(infos))
  {
    hide Encode;
    assert infos[0..] == infos;
    BytesOfConcat([U32(|infos|)], InfoValues(infos));
    assert BytesOf([U32(|infos|)]) == U32(|infos|).Bytes() + BytesOf([]);
  }

  lemma MetaStep(infos: seq<Info>, before: seq<byte>)
    requires infos != []
    ensures before + Str(infos[0].name).Bytes() + U32(infos[0].start).Bytes() + U32(infos[0].length).Bytes() +
            BytesOf(InfoValues(infos[1..]))
         == before + BytesOf(InfoValues(infos))
  {
    hide Encode, BytesOf, InfoValues;
    InfoValuesStep(infos);
    InfoBytes(infos[0]);
  }

  lemma NoInfos()
    ensures BytesOf(InfoValues([])) == []
  {
  }

  method WriteMeta(infos: seq<Info>) returns (meta: DataBuffer)
    requires InRange(infos)
    ensures fresh(meta) && fresh(meta.buf) && meta.Writable() && meta.Contents() == BytesOf(MetaValues(infos))
  {
    hide Encode, BytesOf, InfoValues;
    meta := new DataBuffer(0x1_0000);
    meta.Write(U32(|infos|));
    MetaStart(infos);
    for i := 0 to |infos|
      invariant fresh(meta) && fresh(meta.buf) && meta.Writable()
      invariant meta.Contents() + BytesOf(InfoValues(infos[i..])) == BytesOf(MetaValues(infos))
    {
      MetaStep(infos[i..], meta.Contents());
      assert infos[i..][1..] == infos[i + 1..];
      meta.Write(Str(infos[i].name));
      meta.Write(U32(infos[i].start));
      meta.Write(U32(infos[i].length));
    }
    assert infos[|infos|..] == [];
    NoInfos();
  }

  /** Packs the data of a buffer and its sections into one string. */
  method SerializeWithSection(data: DataBuffer, secs: seq<Section>, hash: seq<byte> -> nat) returns (str: seq<byte>)
    requires data.Writable() && |data.Contents()| + |Joined(secs)| < TWO_TO_32 && |secs| < TWO_TO_32
    requires forall i :: 0 <= i < |secs| ==> |secs[i].name| < 0x8000_0000
    ensures str == Container(data.Contents(), secs, hash)
  {
    hide BytesOf, Trailer, Infos, MetaValues;
    var main := data.buf[data.pdata..data.pfree];
    var infos := BuildSectionMeta(secs, |main|);
    InfosFit(secs, |main|);
    var metaBuf := WriteMeta(infos);
    var meta := metaBuf.buf[metaBuf.pdata..metaBuf.pfree];
    str := main;
    assert secs[0..] == secs;
    for i := 0 to |secs|
      invariant str + Joined(secs[i..]) == main + Joined(secs)
    {
      assert secs[i..][1..] == secs[i + 1..];
      str := str + secs[i].bytes;
    }
    str := str + meta + Trailer(meta, hash(meta));
  }

  method TakeU32(b: DataBuffer) returns (r: Got<nat>)
    requires b.Valid()
    modifies b`pdata
    ensures b.Valid() && r == GetU32(old(b.Window())) && (r.Got? ==> b.Window() == old(b.Window())[r.length..])
  {
    hide Lenient;
    var p := b.pdata;
    var ok, n := b.ReadU32();
    r := if ok then Got(n, b.pdata - p) else Fail;
  }

  method TakeStr(b: DataBuffer) returns (r: Got<seq<byte>>)
    requires b.Valid()
    modifies b`pdata
    ensures b.Valid() && r == GetStr(old(b.Window())) && (r.Got? ==> b.Window() == old(b.Window())[r.length..])
  {
    hide Lenient;
    var p := b.pdata;
    var ok, bytes := b.ReadString();
    r := if ok then Got(bytes, b.pdata - p) else Fail;
  }

  method ReadInfo(b: DataBuffer) returns (r: Got<Info>)
    requires b.Valid()
    modifies b`pdata
    ensures b.Valid() && match GetInfo(old(b.Window()))
                         case Fail => r == Fail
                         case Got(info, n) => r == Got(info, n) && b.Window() == old(b.Window())[n..]
  {
    hide GetU32, GetStr, DataBuffer.Valid, DataBuffer.Window;
    r := Fail;
    ghost var w := b.Window();
    var name := TakeStr(b);
    if name.Got? {
      var start := TakeU32(b);
      if start.Got? {
        assert w[name.length..][start.length..] == w[name.length + start.length..];
        var length := TakeU32(b);
        if length.Got? {
          assert w[name.length + start.length..][length.length..] == w[name.length + start.length + length.length..];
          r := Got(Info(name.value, start.value, length.value), name.length + start.length + length.length);
        }
      }
    }
  }

  lemma OneInfoMore(s: seq<byte>, count: nat, acc: seq<Info>)
    requires count > 0
    ensures GetInfos(s, count, acc) == match GetInfo(s)
                                       case Fail => Fail
                                       case Got(info, n) => GetInfos(s[n..], count - 1, acc + [info])
  {
  }

  lemma NoMoreInfos(s: seq<byte>, acc: seq<Info>)
    ensures GetInfos(s, 0, acc) == Got(acc, 0)
  {
  }

  method ReadMeta(meta: seq<byte>) returns (r: Got<seq<Info>>)
    ensures match GetMeta(meta) case Fail => r == Fail case Got(infos, _) => r.Got? && r.value == infos
  {
    hide GetU32, GetInfo, DataBuffer.Valid, DataBuffer.Window, GetInfos;
    var b := new DataBuffer.FromData(meta);
    var head := TakeU32(b);
    if head.Fail? { return Fail; }
    var count, infos, i := head.value, [], 0;
    while i < count
      invariant 0 <= i <= count && b.Valid() && fresh(b)
      invariant GetInfos(meta[head.length..], count, []) == GetInfos(b.Window(), count - i, infos)
    {
      OneInfoMore(b.Window(), count - i, infos);
      var got := ReadInfo(b);
      if got.Fail? { return Fail; }
      infos := infos + [got.value];
      i := i + 1;
    }
    NoMoreInfos(b.Window(), infos);
    r := Got(infos, 0);
  }

  method SumLengths(infos: seq<Info>) returns (n: nat)
    ensures n == TotalLength(infos)
  {
    n := 0;
    for i := 0 to |infos|
      invariant n == TotalLength(infos[..i])
    {
      assert infos[..i + 1][..i] == infos[..i];
      n := n + infos[i].length;
    }
    assert infos[..|infos|] == infos;
  }

  /** Reads flag, header, description and sections backwards from the end. */
  method DeserializeWithSection(str: seq<byte>, hash: seq<byte> -> nat) returns (r: Opened)
    ensures r == Open(str, hash)
  {
    hide FromLittleEndian, GetMeta, TotalLength;
    r := Opened(|str|, []);
    var p := |str|;
    if p < FLAG_SIZE { return; }
    p := p - FLAG_SIZE;
    if FromLittleEndian(str[p..]) != SECTION_FLAG { return; }
    if p < HEADER_SIZE { return; }
    p := p - HEADER_SIZE;
    var checksum, metaLen := FromLittleEndian(str[p..p + 4]), FromLittleEndian(str[p + 4..p + 6]);
    if metaLen > p { return; }
    if hash(str[p - metaLen..p]) != checksum { return; }
    var meta := ReadMeta(str[p - metaLen..p]);
    p := p - metaLen;
    match meta {
      case Fail => r := Corrupt;
      case Got(infos, _) =>
        var total := SumLengths(infos);
        r := Opened(if total <= p then p - total else |str|, infos);
    }
  }

  /** What comes out of a container is what went in: the main data and every section. */
  lemma RoundTrip(main: seq<byte>, secs: seq<Section>, hash: seq<byte> -> nat)
    requires |main| + |Joined(secs)| < TWO_TO_32 && |secs| < TWO_TO_32
    requires forall i :: 0 <= i < |secs| ==> |secs[i].name| < 0x8000_0000
    requires hash(Meta(secs, |main|)) < TWO_TO_32 && |Meta(secs, |main|)| < 0x1_0000
    ensures var str := Container(main, secs, hash);
            && var r := Open(str, hash);
            && r.Opened? && r.mainLength <= |str| && str[..r.mainLength] == main && |r.sections| == |secs|
            && forall i :: 0 <= i < |secs| ==> InPlace(str, r.sections[i], secs[i])
  {
    hide Open, InPlace, Meta, Infos, Trailer, Joined;
    OpenContainer(main, secs, hash);
    var meta := Meta(secs, |main|);
    var back := meta + Trailer(meta, hash(meta));
    assert Container(main, secs, hash) == main + Joined(secs) + back;
    forall i | 0 <= i < |secs| ensures InPlace(main + Joined(secs) + back, Infos(secs, |main|)[i], secs[i]) {
      SectionsInPlace(secs, main, back, i);
    }
  }

  /** The sections by name; of two with one name the first stays. */
  function SectionMap(infos: seq<Info>): map<seq<byte>, Info> {
    if infos == [] then map[]
    else
      var m, info := SectionMap(infos[..|infos| - 1]), infos[|infos| - 1];
      if info.name in m then m else m[info.name := info]
  }

  lemma {:induction false} NamesFound(infos: seq<Info>, name: seq<byte>)
    ensures name in SectionMap(infos) <==> exists i :: 0 <= i < |infos| && infos[i].name == name
  {
    if infos != [] {
      var n := |infos| - 1;
      NamesFound(infos[..n], name);
      assert infos == infos[..n] + [infos[n]];
    }
  }

  lemma {:induction false} FirstFound(infos: seq<Info>, i: nat)
    requires i < |infos| && forall j :: 0 <= j < i ==> infos[j].name != infos[i].name
    ensures infos[i].name in SectionMap(infos) && SectionMap(infos)[infos[i].name] == infos[i]
    decreases |infos|
  {
    var n := |infos| - 1;
    if i < n { FirstFound(infos[..n], i); } else { NamesFound(infos[..n], infos[i].name); }
  }

  method ExtractSections(infos: seq<Info>) returns (m: map<seq<byte>, Info>)
    ensures m == SectionMap(infos)
  {
    m := map[];
    for i := 0 to |infos|
      invariant m == SectionMap(infos[..i])
    {
      assert infos[..i + 1][..i] == infos[..i];
      if infos[i].name !in m {
        m := m[infos[i].name := infos[i]];
      }
    }
    assert infos[..|infos|] == infos;
  }

  /** Looking up the name of a section finds its bytes, and no other name is found. */
  lemma FindByName(main: seq<byte>, secs: seq<Section>, hash: seq<byte> -> nat)
    requires |main| + |Joined(secs)| < TWO_TO_32 && |secs| < TWO_TO_32
    requires forall i :: 0 <= i < |secs| ==> |secs[i].name| < 0x8000_0000
    requires hash(Meta(secs, |main|)) < TWO_TO_32 && |Meta(secs, |main|)| < 0x1_0000
    requires forall i, j :: 0 <= i < j < |secs| ==> secs[i].name != secs[j].name
    ensures var str := Container(main, secs, hash);
            && var r := Open(str, hash);
            && r.Opened?
            && var m := SectionMap(r.sections);
            && (forall i :: 0 <= i < |secs| ==> secs[i].name in m && InPlace(str, m[secs[i].name], secs[i]))
            && (forall name :: name in m ==> exists i :: 0 <= i < |secs| && secs[i].name == name)
  {
    hide Open, Container, Meta, Joined, SectionMap;
    RoundTrip(main, secs, hash);
    var str := Container(main, secs, hash);
    var infos := Open(str, hash).sections;
    assert forall i :: 0 <= i < |secs| ==> InPlace(str, infos[i], secs[i]) && infos[i].name == secs[i].name;
    forall i | 0 <= i < |secs|
      ensures secs[i].name in SectionMap(infos) && SectionMap(infos)[secs[i].name] == infos[i]
    {
      FirstFound(infos, i);
    }
    forall name | name in SectionMap(infos) ensures exists i :: 0 <= i < |secs| && secs[i].name == name {
      NamesFound(infos, name);
    }
  }
}
