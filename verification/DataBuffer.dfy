/** The data buffer: a byte queue that compacts or reallocates when it runs out of room, and the
    typed values written to and read from it. */
module DataBuffers {
  import opened Arithmetic
  import opened Varint

  /** Sign in the lowest bit. */
  function ZigZag(z: int): (t: nat) { if z >= 0 then 2 * z else -2 * z - 1 }

  function UnZigZag(t: nat): (z: int)
    ensures ZigZag(z) == t
  {
    if t % 2 == 0 then t / 2 else -((t + 1) / 2)
  }

  /** A signed number as a word of sixty-four bits, and back. */
  function ToWord(z: int): (w: nat)
    requires I64(z).InRange()
    ensures w < TWO_TO_64
  {
    if z < 0 then z + TWO_TO_64 else z
  }

  function FromWord(w: nat): (z: int) { if w < TWO_TO_63 then w else w - TWO_TO_64 }

  /** The word shifted left by one, exclusive or its sign in all bits. */
  function ZigZagWord(w: nat): (t: nat) {
    BitXor(2 * w % TWO_TO_64, if w < TWO_TO_63 then 0 else TWO_TO_64 - 1, 64)
  }

  /** The word shifted right by one, exclusive or its lowest bit in all bits. */
  function UnZigZagWord(t: nat): (w: nat) {
    BitXor(t / 2, if t % 2 == 0 then 0 else TWO_TO_64 - 1, 64)
  }

  /** On words of sixty-four bits the shifts and the exclusive or compute the zigzag mapping. */
  lemma ZigZagBits(z: int)
    requires I64(z).InRange()
    ensures ZigZagWord(ToWord(z)) == ZigZag(z)
  {
    Pow2Of64();
    hide BitXor, Pow2;
    var x := 2 * ToWord(z) % TWO_TO_64;
    assert x == if z < 0 then 2 * z + TWO_TO_64 else 2 * z;
    if z < 0 { XorOnes(x, 64); } else { XorZeros(x, 64); }
  }

  lemma UnZigZagBits(t: nat)
    requires t < TWO_TO_64
    ensures FromWord(UnZigZagWord(t)) == UnZigZag(t)
  {
    Pow2Of64();
    hide BitXor, Pow2;
    if t % 2 == 0 { XorZeros(t / 2, 64); } else { XorOnes(t / 2, 64); }
  }

  datatype Kind = KindU32 | KindI64 | KindStr

  datatype Value = U32(n: nat) | I64(z: int) | Str(bytes: seq<byte>) {
    predicate InRange() {
      match this
      case U32(n) => n < TWO_TO_32
      case I64(z) => 0 <= z + TWO_TO_63 && z < TWO_TO_63
      case Str(bytes) => |bytes| < 0x8000_0000
    }

    function Kind(): Kind {
      match this
      case U32(_) => KindU32
      case I64(_) => KindI64
      case Str(_) => KindStr
    }

    function Bytes(): seq<byte> {
      match this
      case U32(n) => Encode(n)
      case I64(z) => Encode(ZigZag(z))
      case Str(bytes) => Encode(|bytes|) + bytes
    }
  }

  lemma AppendBoth(taken: seq<Value>, left: seq<Value>, queue: seq<Value>, written: seq<Value>, v: Value)
    requires taken + left == queue + written
    ensures taken + (left + [v]) == queue + (written + [v])
  {
    assert taken + (left + [v]) == (taken + left) + [v];
    assert queue + (written + [v]) == (queue + written) + [v];
  }

  datatype Op = Put(v: Value) | Take(kind: Kind)

  ghost function BytesOf(queue: seq<Value>): seq<byte> {
    if queue == [] then [] else queue[0].Bytes() + BytesOf(queue[1..])
  }

  ghost predicate AllInRange(queue: seq<Value>) {
    forall i :: 0 <= i < |queue| ==> queue[i].InRange()
  }

  ghost function Kinds(queue: seq<Value>): seq<Kind> {
    seq(|queue|, i requires 0 <= i < |queue| => queue[i].Kind())
  }

  /** Every read asks for the kind of the oldest value that is still there, and every written value
      is in range. */
  ghost predicate Disciplined(pending: seq<Kind>, ops: seq<Op>)
    decreases |ops|
  {
    ops == [] ||
    match ops[0]
    case Put(v) => v.InRange() && Disciplined(pending + [v.Kind()], ops[1..])
    case Take(kind) => pending != [] && pending[0] == kind && Disciplined(pending[1..], ops[1..])
  }

  /** The values a run writes, in order. */
  ghost function Written(ops: seq<Op>): seq<Value> {
    if ops == [] then []
    else Written(ops[..|ops| - 1]) + match ops[|ops| - 1] case Put(v) => [v] case Take(_) => []
  }

  /** How many values a run takes. */
  function Takes(ops: seq<Op>): nat {
    if ops == [] then 0 else Takes(ops[..|ops| - 1]) + if ops[|ops| - 1].Take? then 1 else 0
  }

  lemma WrittenStep(ops: seq<Op>, i: nat)
    requires i < |ops|
    ensures Written(ops[..i + 1]) == Written(ops[..i]) + match ops[i] case Put(v) => [v] case Take(_) => []
    ensures Takes(ops[..i + 1]) == Takes(ops[..i]) + if ops[i].Take? then 1 else 0
  {
    assert ops[..i + 1][..i] == ops[..i];
  }

  lemma DisciplinedStep(queue: seq<Value>, ops: seq<Op>, i: nat)
    requires i < |ops| && Disciplined(Kinds(queue), ops[i..])
    ensures match ops[i]
            case Put(v) => v.InRange() && Disciplined(Kinds(queue + [v]), ops[i + 1..])
            case Take(kind) => queue != [] && queue[0].Kind() == kind && Disciplined(Kinds(queue[1..]), ops[i + 1..])
  {
    assert ops[i..][1..] == ops[i + 1..];
    match ops[i]
    case Put(v) => assert Kinds(queue + [v]) == Kinds(queue) + [v.Kind()];
    case Take(kind) => assert Kinds(queue[1..]) == Kinds(queue)[1..];
  }

  lemma {:induction false} BytesOfAppend(queue: seq<Value>, v: Value)
    ensures BytesOf(queue + [v]) == BytesOf(queue) + v.Bytes()
    decreases |queue|
  {
    if queue == [] {
      assert [v][1..] == [];
      assert queue + [v] == [v];
    } else {
      assert (queue + [v])[1..] == queue[1..] + [v];
      BytesOfAppend(queue[1..], v);
    }
  }

  /** The readers undo the writers. */
  lemma ReadBack(v: Value, rest: seq<byte>, junk: seq<byte>)
    requires v.InRange()
    ensures var w := v.Bytes() + rest + junk;
            match v
            case U32(n) => Lenient(w, 5, TWO_TO_32) == Good(n, |v.Bytes()|)
            case I64(z) => UnZigZag(ZigZag(z)) == z && Lenient(w, 10, TWO_TO_64) == Good(ZigZag(z), |v.Bytes()|)
            case Str(bytes) =>
              Lenient(w, 5, TWO_TO_32) == Good(|bytes|, |Encode(|bytes|)|) && w[|Encode(|bytes|)|..][..|bytes|] == bytes
  {
    hide Encode, Parse;
    match v
    case U32(n) =>
      EncodeLength(n);
      ParseEncode(n, rest + junk, 5);
      assert Encode(n) + (rest + junk) == v.Bytes() + rest + junk;
    case I64(z) =>
      EncodeLength(ZigZag(z));
      ParseEncode(ZigZag(z), rest + junk, 10);
      assert Encode(ZigZag(z)) + (rest + junk) == v.Bytes() + rest + junk;
    case Str(bytes) =>
      EncodeLength(|bytes|);
      ParseEncode(|bytes|, bytes + rest + junk, 5);
      assert Encode(|bytes|) + (bytes + rest + junk) == v.Bytes() + rest + junk;
  }

  method FillBytes(buf: array<byte>, at: nat, bytes: seq<byte>)
    requires at + |bytes| <= buf.Length
    modifies buf
    ensures buf[..at] == old(buf[..at]) && buf[at..at + |bytes|] == bytes
  {
    for i := 0 to |bytes|
      invariant buf[..at] == old(buf[..at]) && buf[at..at + i] == bytes[..i]
    {
      buf[at + i] := bytes[i];
    }
  }

  lemma JoinSlices(s: seq<byte>, a: nat, b: nat, c: nat, x: seq<byte>, y: seq<byte>)
    requires a <= b <= c <= |s| && s[a..b] == x && s[b..c] == y
    ensures s[a..c] == x + y
  {
    assert s[a..c] == s[a..b] + s[b..c];
  }

  class DataBuffer {
    var buf: array<byte>
    var pdata: nat
    var pfree: nat
    var pend: nat

    /** What every access keeps. */
    ghost predicate Valid()
      reads this
    {
      pdata <= pend && pfree <= pend <= buf.Length
    }

    /** A buffer that may be written to: it owns memory and has not been read past its data. */
    ghost predicate Writable()
      reads this
    {
      Valid() && pdata <= pfree && pend == buf.Length > 0
    }

    ghost function Contents(): seq<byte>
      requires Valid() && pdata <= pfree
      reads this, buf
    {
      buf[pdata..pfree]
    }

    /** What a reader may look at: the data and whatever follows it up to the end. */
    ghost function Window(): seq<byte>
      requires Valid()
      reads this, buf
    {
      buf[pdata..pend]
    }

    constructor (len: nat)
      requires len > 0
      ensures Writable() && Contents() == [] && fresh(buf)
    {
      buf := new byte[len];
      pdata, pfree, pend := 0, 0, len;
    }

    /** A buffer over given data, for reading. */
    constructor FromData(data: seq<byte>)
      ensures Valid() && pdata == 0 && Window() == data && fresh(buf)
    {
      buf := new byte[|data|](i requires 0 <= i < |data| => data[i]);
      pdata, pfree, pend := 0, |data|, |data|;
    }

    method CopyInto(to: array<byte>, n: nat)
      requires Valid() && pdata + n <= buf.Length && n <= to.Length && to != buf
      modifies to
      ensures to[..n] == buf[pdata..pdata + n]
    {
      for i := 0 to n
        invariant to[..i] == buf[pdata..pdata + i]
      {
        to[i] := buf[pdata + i];
      }
    }

    method MoveDown(n: nat)
      requires pdata + n <= buf.Length
      modifies buf
      ensures buf[..n] == old(buf[pdata..pdata + n])
    {
      for i := 0 to n
        invariant buf[..i] == old(buf[pdata..pdata + i])
        invariant buf[pdata + i..] == old(buf[pdata + i..])
      {
        assert buf[pdata + i] == buf[pdata + i..][0] == old(buf[pdata + i..])[0];
        buf[i] := buf[pdata + i];
      }
    }

    /** Makes room for `need` more bytes by moving the data to the front or to a larger buffer. */
    method Expand(need: nat)
      requires Writable()
      modifies this, buf
      ensures fresh(buf) || buf == old(buf)
      ensures Writable() && Contents() == old(Contents()) && pend - pfree >= need
    {
      if pend - pfree < need {
        var flen, dlen := (pend - pfree) + pdata, pfree - pdata;
        if flen < need {
          var size := pend * 2;
          while size - dlen < need
            invariant size > 0
            decreases need + dlen - size
          {
            size := size * 2;
          }
          var newbuf := new byte[size];
          CopyInto(newbuf, dlen);
          buf := newbuf;
          pdata, pfree, pend := 0, dlen, size;
        } else {
          MoveDown(dlen);
          pfree := dlen;
          pdata := 0;
        }
      }
    }

    method WriteU32(n: nat)
      requires Writable() && n < TWO_TO_32
      modifies this, buf
      ensures fresh(buf) || buf == old(buf)
      ensures Writable() && Contents() == old(Contents()) + Encode(n)
    {
      hide Encode;
      Expand(5);
      ghost var data := Contents();
      var end := WriteVarint32(n, buf, pfree);
      JoinSlices(buf[..], pdata, pfree, end, data, Encode(n));
      pfree := end;
    }

    method WriteI64(z: int)
      requires Writable() && I64(z).InRange()
      modifies this, buf
      ensures fresh(buf) || buf == old(buf)
      ensures Writable() && Contents() == old(Contents()) + Encode(ZigZag(z))
    {
      hide Encode;
      Expand(10);
      ghost var data := Contents();
      ZigZagBits(z);
      var end := WriteVarint64(ZigZagWord(ToWord(z)), buf, pfree);
      JoinSlices(buf[..], pdata, pfree, end, data, Encode(ZigZag(z)));
      pfree := end;
    }

    method WriteBytes(bytes: seq<byte>)
      requires Writable()
      modifies this, buf
      ensures fresh(buf) || buf == old(buf)
      ensures Writable() && Contents() == old(Contents()) + bytes
    {
      Expand(|bytes|);
      ghost var data := Contents();
      FillBytes(buf, pfree, bytes);
      JoinSlices(buf[..], pdata, pfree, pfree + |bytes|, data, bytes);
      pfree := pfree + |bytes|;
    }

    method WriteString(bytes: seq<byte>)
      requires Writable() && Str(bytes).InRange()
      modifies this, buf
      ensures fresh(buf) || buf == old(buf)
      ensures Writable() && Contents() == old(Contents()) + (Encode(|bytes|) + bytes)
    {
      hide Encode;
      WriteU32(|bytes|);
      WriteBytes(bytes);
    }

    method Write(v: Value)
      requires Writable() && v.InRange()
      modifies this, buf
      ensures fresh(buf) || buf == old(buf)
      ensures Writable() && Contents() == old(Contents()) + v.Bytes()
    {
      hide Encode;
      match v {
        case U32(n) => WriteU32(n);
        case I64(z) => WriteI64(z);
        case Str(bytes) => WriteString(bytes);
      }
    }

    /** `ok` is false when the data is reported as corrupted. */
    method ReadU32() returns (ok: bool, n: nat)
      requires Valid()
      modifies this`pdata
      ensures Valid()
      ensures match Lenient(old(Window()), 5, TWO_TO_32)
              case Bad => !ok && pdata == old(pdata)
              case Good(v, len) => ok && n == v && pdata == old(pdata) + len
    {
      ok, n := false, 0;
      ghost var w := Window();
      if pdata + 1 > pend {
        RunsOut(w, 5, TWO_TO_32);
        return;
      }
      if buf[pdata] < 128 {
        LenientValue(w, 5, TWO_TO_32, 1);
        Word32(w, 1);
        n := buf[pdata];
        pdata := pdata + 1;
        return true, n;
      }
      if pend - pdata > 5 || buf[pend - 1] < 128 {
        var len;
        n, len := FromArray32(buf[pdata..pend]);
        pdata := pdata + len;
        ok := true;
      } else {
        var r := Slow32(buf[pdata..pend]);
        match r {
          case Bad =>
          case Good(v, len) =>
            n := v;
            pdata := pdata + len;
            ok := true;
        }
      }
    }

    method ReadVarint64() returns (ok: bool, t: nat)
      requires Valid()
      modifies this`pdata
      ensures Valid()
      ensures match Lenient(old(Window()), 10, TWO_TO_64)
              case Bad => !ok && pdata == pend
              case Good(v, len) => ok && t == v && pdata == old(pdata) + len
    {
      ghost var w := Window();
      if pdata < pend && buf[pdata] < 128 {
        LenientValue(w, 10, TWO_TO_64, 1);
        Word32(w, 1);
        t := buf[pdata];
        pdata := pdata + 1;
        return true, t;
      }
      if pend - pdata >= 10 || (pend > pdata && buf[pend - 1] < 128) {
        var len;
        t, len := FromArray64(buf[pdata..pend]);
        pdata := pdata + len;
        ok := true;
      } else {
        var r := Slow64(buf[pdata..pend]);
        LenientVersusStrict(w, 10, TWO_TO_64);
        match r {
          case Bad =>
            ok, t := false, 0;
            pdata := pend;
          case Good(v, len) =>
            ok, t := true, v;
            pdata := pdata + len;
        }
      }
    }

    method ReadI64() returns (ok: bool, z: int)
      requires Valid()
      modifies this`pdata
      ensures Valid()
      ensures match Lenient(old(Window()), 10, TWO_TO_64)
              case Bad => !ok && pdata == pend
              case Good(v, len) => ok && z == UnZigZag(v) && pdata == old(pdata) + len
    {
      var t;
      ok, t := ReadVarint64();
      if ok { UnZigZagBits(t); }
      z := FromWord(UnZigZagWord(t));
    }

    method ReadString() returns (ok: bool, bytes: seq<byte>)
      requires Valid()
      modifies this`pdata
      ensures Valid()
      ensures match Lenient(old(Window()), 5, TWO_TO_32)
              case Bad => !ok && pdata == old(pdata)
              case Good(v, len) =>
                ok == (len + v <= |old(Window())|)
                && (if ok then bytes == old(Window())[len..len + v] && pdata == old(pdata) + len + v
                    else pdata == old(pdata) + len)
    {
      bytes := [];
      var n;
      ok, n := ReadU32();
      if ok {
        if pdata + n > pend {
          ok := false;
        } else {
          bytes := buf[pdata..pdata + n];
          assert bytes == old(Window())[pdata - old(pdata)..pdata + n - old(pdata)];
          pdata := pdata + n;
        }
      }
    }

    /** Reads one value of the given kind; if the data starts with such a value, it is the result
        and the rest of the data remains. */
    method Read(kind: Kind, ghost v: Value, ghost rest: seq<byte>) returns (ok: bool, r: Value)
      requires Writable() && v.InRange() && v.Kind() == kind && Contents() == v.Bytes() + rest
      modifies this`pdata
      ensures Writable() && ok && r == v && Contents() == rest
    {
      hide Encode, Lenient;
      ghost var junk := buf[pfree..pend];
      JoinSlices(buf[..], pdata, pfree, pend, Contents(), junk);
      ReadBack(v, rest, junk);
      match kind {
        case KindU32 =>
          var n;
          ok, n := ReadU32();
          r := U32(n);
        case KindI64 =>
          var z;
          ok, z := ReadI64();
          r := I64(z);
        case KindStr =>
          var bytes;
          ok, bytes := ReadString();
          r := Str(bytes);
      }
      assert Contents() == (v.Bytes() + rest)[|v.Bytes()|..];
    }

    /** Any interleaving of writes with reads of values that are still in the buffer returns the
        values in the order they were written. */
    method Run(ops: seq<Op>, ghost queue: seq<Value>) returns (taken: seq<Value>, ghost left: seq<Value>)
      requires Writable() && Contents() == BytesOf(queue) && AllInRange(queue) && Disciplined(Kinds(queue), ops)
      modifies this, buf
      ensures Writable() && Contents() == BytesOf(left)
      ensures taken + left == queue + Written(ops) && |taken| == Takes(ops)
    {
      hide Encode;
      taken, left := [], queue;
      assert ops[0..] == ops && ops[..0] == [];
      for i := 0 to |ops|
        invariant fresh(buf) || buf == old(buf)
        invariant Writable() && Contents() == BytesOf(left) && AllInRange(left) && Disciplined(Kinds(left), ops[i..])
        invariant taken + left == queue + Written(ops[..i]) && |taken| == Takes(ops[..i])
      {
        WrittenStep(ops, i);
        DisciplinedStep(left, ops, i);
        match ops[i] {
          case Put(v) =>
            BytesOfAppend(left, v);
            AppendBoth(taken, left, queue, Written(ops[..i]), v);
            Write(v);
            left := left + [v];
          case Take(kind) =>
            assert left == [left[0]] + left[1..] && taken + [left[0]] + left[1..] == taken + left;
            assert Written(ops[..i]) + [] == Written(ops[..i]);
            var ok, v := Read(kind, left[0], BytesOf(left[1..]));
            taken := taken + [v];
            left := left[1..];
        }
      }
      assert ops[..|ops|] == ops;
    }
  }
}
