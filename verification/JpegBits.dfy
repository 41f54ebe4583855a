/** The JPEG entropy-coded bit stream: byte unstuffing, the single-bit reader and the multi-bit reader. */
module JpegBits {
  import opened Arith
  import opened BitStream

  /** Memory from the read pointer on. */
  type Memory = nat -> byte

  const MARKER: byte := 0xFF

  /** The next data byte at p and the position after it: FF 00 stands for FF, and after any other FF xx the
    * byte xx is delivered. */
  function NextByte(memory: Memory, p: nat): (byte, nat) {
    if memory(p) != MARKER then (memory(p), p + 1)
    else if memory(p + 1) != 0 then (memory(p + 1), p + 2)
    else (MARKER, p + 2)
  }

  /** The stream of data bytes in a memory. */
  function Unstuffed(memory: Memory): Stream {
    p => NextByte(memory, p)
  }

  /** Entropy-coded bytes as an encoder writes them: 00 is stuffed behind every FF. */
  function Stuffed(data: seq<byte>): seq<byte> {
    if data == [] then [] else Stuffed(data[..|data| - 1]) + Written(data[|data| - 1])
  }

  function Written(b: byte): seq<byte> {
    if b == MARKER then [MARKER, 0] else [b]
  }

  /** Where the pointer stands after n data bytes. */
  function BytesLater(memory: Memory, p: nat, n: nat): nat {
    if n == 0 then p else NextByte(memory, BytesLater(memory, p, n - 1)).1
  }

  ghost predicate Holds(memory: Memory, p: nat, bytes: seq<byte>) {
    forall i: nat {:trigger bytes[i]} | i < |bytes| :: memory(p + i) == bytes[i]
  }

  lemma {:induction false} BytesEnd(memory: Memory, p: nat, data: seq<byte>)
    requires Holds(memory, p, Stuffed(data))
    ensures BytesLater(memory, p, |data|) == p + |Stuffed(data)|
  {
    hide Holds, NextByte, Written;
    if data != [] {
      var n := |data| - 1;
      StuffedParts(memory, p, data);
      hide Stuffed;
      BytesEnd(memory, p, data[..n]);
      OneByteBack(memory, p + |Stuffed(data[..n])|, data[n]);
    }
  }

  lemma {:induction false} ByteBack(memory: Memory, p: nat, data: seq<byte>, k: nat)
    requires Holds(memory, p, Stuffed(data)) && k < |data|
    ensures NextByte(memory, BytesLater(memory, p, k)).0 == data[k]
    decreases |data|
  {
    hide Holds, NextByte, Written, Stuffed, BytesLater;
    var n := |data| - 1;
    StuffedParts(memory, p, data);
    if k < n {
      ByteBack(memory, p, data[..n], k);
    } else {
      BytesEnd(memory, p, data[..n]);
      OneByteBack(memory, p + |Stuffed(data[..n])|, data[n]);
    }
  }

  /** Fetching undoes stuffing: byte k comes back as the k-th fetched byte. */
  lemma FetchUndoesStuffing(memory: Memory, p: nat, data: seq<byte>)
    requires Holds(memory, p, Stuffed(data))
    ensures BytesLater(memory, p, |data|) == p + |Stuffed(data)|
    ensures forall k | 0 <= k < |data| :: NextByte(memory, BytesLater(memory, p, k)).0 == data[k]
  {
    hide Holds, NextByte, Stuffed, BytesLater;
    BytesEnd(memory, p, data);
    forall k: nat | k < |data|
      ensures NextByte(memory, BytesLater(memory, p, k)).0 == data[k]
    {
      ByteBack(memory, p, data, k);
    }
  }

  lemma StuffedParts(memory: Memory, p: nat, data: seq<byte>)
    requires data != [] && Holds(memory, p, Stuffed(data))
    ensures var front, last := data[..|data| - 1], data[|data| - 1];
            && Stuffed(data) == Stuffed(front) + Written(last) && Holds(memory, p, Stuffed(front))
            && Holds(memory, p + |Stuffed(front)|, Written(last))
  {
    hide Written, Stuffed, Holds;
    StuffedUnfolded(data);
    HoldsParts(memory, p, Stuffed(data[..|data| - 1]), Written(data[|data| - 1]));
  }

  lemma HoldsParts(memory: Memory, p: nat, a: seq<byte>, b: seq<byte>)
    requires Holds(memory, p, a + b)
    ensures Holds(memory, p, a) && Holds(memory, p + |a|, b)
  {
    forall i: nat | i < |a|
      ensures memory(p + i) == a[i]
    {
      assert (a + b)[i] == a[i];
    }
    forall i: nat | i < |b|
      ensures memory(p + |a| + i) == b[i]
    {
      var k := |a| + i;
      assert (a + b)[k] == b[i];
    }
  }

  lemma StuffedUnfolded(data: seq<byte>)
    requires data != []
    ensures Stuffed(data) == Stuffed(data[..|data| - 1]) + Written(data[|data| - 1])
  {
  }

  lemma OneByteBack(memory: Memory, p: nat, b: byte)
    requires Holds(memory, p, Written(b))
    ensures NextByte(memory, p) == (b, p + |Written(b)|)
  {
    var bytes := Written(b);
    assert memory(p) == bytes[0];
    assert |bytes| == 2 ==> memory(p + 1) == bytes[1];
  }

  /** The pending bits as the low count bits of a word. */
  function InWord(pos: nat, count: nat, x: nat): (w: Pending)
    ensures w.Valid()
  {
    Pending(pos, count, Lower(x, count))
  }

  lemma RoomForByte(x: nat)
    ensures ShiftedLeft(x, 8) <= 0xFFFF_FF00
  {
    assert P2(8) == 256;
    P2Words();
    hide P2;
    P2Add(24, 8);
    ModScale(x, P2(24), P2(8));
  }

  lemma AppendByte(x: nat, count: nat, b: byte)
    requires count + 8 <= 32
    ensures Lower(ShiftedLeft(x, 8) + b, count + 8) == Lower(x, count) * 256 + b
  {
    assert P2(8) == 256;
    hide P2, Lower;
    ShiftIn(x, count, 8, b);
  }

  lemma LoadByte(stream: Stream, pos: nat, count: nat, x: nat, n: nat)
    requires count < n && count + 8 <= 32
    ensures ShiftedLeft(x, 8) + stream(pos).0 < 0x1_0000_0000
    ensures var (b, pos') := stream(pos);
            LoadUntil(stream, InWord(pos, count, x), n)
              == LoadUntil(stream, InWord(pos', count + 8, ShiftedLeft(x, 8) + b), n)
  {
    hide P2, Lower, ShiftedLeft;
    RoomForByte(x);
    AppendByte(x, count, stream(pos).0);
  }

  lemma TakeBits(stream: Stream, pos: nat, x: nat, n: nat, q: nat)
    ensures Take(LoadUntil(stream, InWord(pos, n + q, x), n), n) == (Lower(Upper(x, q), n), InWord(pos, q, x))
  {
    UpperOfLower(x, n, q);
  }

  lemma FetchAcrossWord(stream: Stream, pos: nat, x: nat, n: nat, p: nat)
    requires 1 <= p <= 8 && p < n <= 32
    ensures var (b, pos') := stream(pos);
            Take(LoadUntil(stream, InWord(pos, n - p, x), n), n)
            == (Lower(ShiftedLeft(x, p) + Upper(b, 8 - p), n), InWord(pos', 8 - p, b))
  {
    hide P2, Upper, Lower;
    var (b, pos') := stream(pos);
    var w := InWord(pos, n - p, x);
    ByteUpper(b, p);
    SplitLoaded(w.value, b, p);
    ShiftIn(x, n - p, p, Upper(b, 8 - p));
    assert LoadUntil(stream, w, n) == Load(stream, w);
  }

  /** The branch for an almost full word is entered only for reads of 26 to 32 bits, and then 1 to 7 bits are
    * missing. */
  lemma LongReadOnly(n: nat, readPosition: int, p: int)
    requires 1 <= n <= 32 && readPosition > 23 && p == n - 1 - readPosition && p > 0
    ensures 26 <= n && p <= 7
  {
  }

  /** The decoder's global reader state over the memory holding the scan. */
  class BitReader {
    const memory: Memory
    const stream: Stream
    var pos: nat
    var current: nat
    var readPosition: int

    ghost predicate Valid()
      reads this
    {
      stream == Unstuffed(memory) && current < 0x1_0000_0000 && -1 <= readPosition <= 6
    }

    /** Where the reader stands in the bit stream. */
    ghost function View(): Pending
      requires -1 <= readPosition
      reads this
    {
      InWord(pos, readPosition + 1, current)
    }

    constructor (memory: Memory, start: nat)
      ensures Valid() && this.memory == memory && View() == Pending(start, 0, 0)
    {
      this.memory, stream, pos, current, readPosition := memory, Unstuffed(memory), start, 0, -1;
    }

    /** Fetches a byte, dropping the 00 stuffed behind an FF. */
    method Pgetc() returns (temp: byte)
      modifies `pos
      ensures (temp, pos) == NextByte(memory, old(pos))
    {
      temp := memory(pos);
      pos := pos + 1;
      if temp == MARKER {
        temp := memory(pos);
        pos := pos + 1;
        if temp == 0 {
          temp := MARKER;
        }
      }
    }

    method BufGetb() returns (bit: nat)
      requires Valid()
      modifies `pos, `current, `readPosition
      ensures Valid() && (bit, View()) == GetBit(stream, old(View()))
      ensures bit < 2
    {
      if readPosition < 0 {
        current := Pgetc();
        readPosition := 7;
      }
      TestBit(current, readPosition);
      bit := Upper(current, readPosition) % 2;
      readPosition := readPosition - 1;
    }

    /** Fetches the next n bits by whole bytes. */
    method BufGetv(n: nat) returns (value: int)
      requires Valid() && 1 <= n <= 32
      modifies `pos, `current, `readPosition
      ensures Valid() && value == Wrap32(GetBits(stream, old(View()), n).0)
      ensures View() == GetBits(stream, old(View()), n).1
    {
      hide GetBits, Load, LoadUntil, Take, P2, NextByte, Wrap32, ShiftedLeft, Upper, Lower, GetBit, InWord,
           Pending.Valid;
      ghost var start := View();
      BitsAtOnce(stream, start, n);
      var p := n - 1 - readPosition;
      while p > 0
        invariant current < 0x1_0000_0000 && -1 <= readPosition <= 31 && p == n - 1 - readPosition && p >= -7
        invariant LoadUntil(stream, start, n) == LoadUntil(stream, View(), n)
        decreases p
      {
        if readPosition > 23 {
          LongReadOnly(n, readPosition, p);
          FetchAcrossWord(stream, pos, current, n, p);
          var rv := ShiftedLeft(current, p);
          current := Pgetc();
          rv := rv + Upper(current, 8 - p);
          readPosition := 7 - p;
          return Wrap32(Lower(rv, n));
        }
        LoadByte(stream, pos, readPosition + 1, current, n);
        var b := Pgetc();
        current := ShiftedLeft(current, 8) + b;
        readPosition := readPosition + 8;
        p := p - 8;
      }
      TakeBits(stream, pos, current, n, -p);
      value := Wrap32(Lower(Upper(current, -p), n));
      readPosition := -p - 1;
    }
  }
}
