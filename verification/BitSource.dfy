/** Memories made from single bits, as an encoder writes them, and read from any bit position. */
module BitSource {
  import opened Arith
  import opened BitStream
  import opened JpegBits

  type Bits = nat -> bool

  function Bit(b: bool): (v: nat)
    ensures v < 2
  {
    if b then 1 else 0
  }

  /** The n bits from position i on as a number, the most significant first. */
  function Num(h: Bits, i: nat, n: nat): nat {
    if n == 0 then 0 else 2 * Num(h, i, n - 1) + Bit(h(i + n - 1))
  }

  lemma {:induction false} NumFits(h: Bits, i: nat, n: nat)
    ensures Num(h, i, n) < P2(n)
  {
    if n > 0 {
      NumFits(h, i, n - 1);
    }
  }

  lemma NumStep(h: Bits, i: nat, n: nat)
    ensures Num(h, i, n + 1) == 2 * Num(h, i, n) + Bit(h(i + n))
  {
  }

  lemma {:induction false} NumSplit(h: Bits, i: nat, n: nat)
    ensures Num(h, i, n + 1) == Bit(h(i)) * P2(n) + Num(h, i + 1, n)
  {
    NumStep(h, i, n);
    if n == 0 {
      assert P2(0) == 1;
    } else {
      assert P2(n) == 2 * P2(n - 1);
      hide Num, P2, Bit;
      NumSplit(h, i, n - 1);
      NumStep(h, i + 1, n - 1);
      Doubled(Bit(h(i)), P2(n - 1));
    }
  }

  lemma Doubled(b: nat, p: nat)
    ensures b * (2 * p) == 2 * (b * p)
  {
  }

  /** Two sources that agree on a range show the same number there, and the other way round. */
  lemma {:induction false} NumAgrees(h: Bits, h': Bits, i: nat, n: nat)
    ensures Num(h, i, n) == Num(h', i, n) <==> forall j | i <= j < i + n :: h(j) == h'(j)
  {
    if n > 0 {
      NumAgrees(h, h', i, n - 1);
    }
  }

  lemma Halves(h: Bits, i: nat, n: nat)
    ensures Upper(Num(h, i, n + 1), n) == Bit(h(i)) && Lower(Num(h, i, n + 1), n) == Num(h, i + 1, n)
  {
    NumSplit(h, i, n);
    NumFits(h, i + 1, n);
    DivModUnique(Num(h, i, n + 1), P2(n), Bit(h(i)), Num(h, i + 1, n));
  }

  function ByteAt(h: Bits, p: nat): byte {
    NumFits(h, 8 * p, 8);
    assert P2(8) == 256;
    Num(h, 8 * p, 8)
  }

  /** The first n bytes of the bits. */
  function Bytes(h: Bits, n: nat): (data: seq<byte>)
    ensures |data| == n
  {
    if n == 0 then [] else Bytes(h, n - 1) + [ByteAt(h, n - 1)]
  }

  lemma {:induction false} BytesAt(h: Bits, n: nat, k: nat)
    requires k < n
    ensures Bytes(h, n)[k] == ByteAt(h, k)
  {
    if k < n - 1 {
      BytesAt(h, n - 1, k);
    }
  }

  lemma OneMoreStuffed(h: Bits, n: nat)
    ensures Stuffed(Bytes(h, n + 1)) == Stuffed(Bytes(h, n)) + Written(ByteAt(h, n))
  {
    assert Bytes(h, n + 1)[..n] == Bytes(h, n);
  }

  /** Stuffing more bytes changes nothing in front of them. */
  lemma {:induction false} StuffedGrows(h: Bits, m: nat, n: nat)
    requires m <= n
    ensures var (s, t) := (Stuffed(Bytes(h, m)), Stuffed(Bytes(h, n)));
            |s| + (n - m) <= |t| && s == t[..|s|]
    decreases n
  {
    hide Stuffed, Bytes;
    if m < n {
      OneMoreStuffed(h, n - 1);
      StuffedGrows(h, m, n - 1);
    }
  }

  /** The bits packed into bytes, 00 stuffed behind every FF. */
  function MemoryOf(h: Bits): Memory {
    (p: nat) => StuffedAt(h, p)
  }

  function StuffedAt(h: Bits, p: nat): byte {
    StuffedGrows(h, 0, p + 1);
    Stuffed(Bytes(h, p + 1))[p]
  }

  lemma HoldsBytes(h: Bits, n: nat)
    ensures Holds(MemoryOf(h), 0, Stuffed(Bytes(h, n)))
  {
    hide Stuffed, Bytes;
    var t := Stuffed(Bytes(h, n));
    forall i: nat | i < |t|
      ensures StuffedAt(h, i) == t[i]
    {
      StuffedGrows(h, 0, i + 1);
      if i + 1 <= n {
        StuffedGrows(h, i + 1, n);
      } else {
        StuffedGrows(h, n, i + 1);
      }
    }
  }

  /** Where data byte k lies. */
  function Pos(h: Bits, k: nat): nat {
    BytesLater(MemoryOf(h), 0, k)
  }

  /** The reader's stream over that memory. */
  function Packed(h: Bits): Stream {
    Unstuffed(MemoryOf(h))
  }

  lemma FetchAt(h: Bits, k: nat)
    ensures Packed(h)(Pos(h, k)) == (ByteAt(h, k), Pos(h, k + 1))
  {
    hide NextByte, ByteAt, Stuffed, Bytes, MemoryOf;
    HoldsBytes(h, k + 1);
    FetchUndoesStuffing(MemoryOf(h), 0, Bytes(h, k + 1));
    BytesAt(h, k + 1, k);
  }

  /** Standing in front of bit i. */
  function At(h: Bits, i: nat): (a: Pending)
    ensures i == 0 ==> a == Pending(0, 0, 0)
  {
    var left := (0 - i) % 8;
    Pending(Pos(h, (i + 7) / 8), left, Num(h, i, left))
  }

  lemma AtValid(h: Bits, i: nat)
    ensures At(h, i).Valid()
  {
    NumFits(h, i, (0 - i) % 8);
  }

  lemma NextAt(h: Bits, i: nat)
    ensures GetBit(Packed(h), At(h, i)) == (Bit(h(i)), At(h, i + 1))
  {
    hide Num, Upper, Lower, P2, Packed, Pos;
    var left := (0 - i) % 8;
    if left == 0 {
      ByteBehind(i);
      FetchAt(h, (i + 7) / 8);
      ByteSplit(h, i);
    } else {
      SameByte(i);
      Halves(h, i, left - 1);
    }
  }

  lemma ByteBehind(i: nat)
    requires (0 - i) % 8 == 0
    ensures 8 * ((i + 7) / 8) == i && (0 - (i + 1)) % 8 == 7 && (i + 8) / 8 == (i + 7) / 8 + 1
  {
    var p := i / 8;
    assert i == 8 * p;
  }

  lemma SameByte(i: nat)
    requires (0 - i) % 8 != 0
    ensures (0 - (i + 1)) % 8 == (0 - i) % 8 - 1 && (i + 8) / 8 == (i + 7) / 8
  {
    var p, r := i / 8, i % 8;
    assert i == 8 * p + r && (0 - i) % 8 == 8 - r;
  }

  lemma ByteSplit(h: Bits, i: nat)
    ensures Num(h, i, 8) / 128 == Bit(h(i)) && Num(h, i, 8) % 128 == Num(h, i + 1, 7)
  {
    Halves(h, i, 7);
    assert P2(7) == 128;
  }

  lemma {:induction false} ReadAt(h: Bits, i: nat, n: nat)
    ensures GetBits(Packed(h), At(h, i), n) == (Num(h, i, n), At(h, i + n))
  {
    hide GetBit, Packed, At;
    if n > 0 {
      ReadAt(h, i, n - 1);
      NextAt(h, i + n - 1);
    }
  }

  /** Every byte is followed by one at a later position. */
  ghost predicate Forward(stream: Stream) {
    forall p: nat :: stream(p).1 > p
  }

  lemma MemoryIsForward(memory: Memory)
    ensures Forward(Unstuffed(memory))
  {
  }

  /** a comes in front of b. */
  predicate Before(a: Pending, b: Pending) {
    a.pos < b.pos || (a.pos == b.pos && a.count > b.count)
  }

  lemma {:induction false} ReadsOn(stream: Stream, a: Pending, n: nat)
    requires Forward(stream)
    ensures if n == 0 then GetBits(stream, a, n).1 == a else Before(a, GetBits(stream, a, n).1)
  {
    if n > 0 {
      ReadsOn(stream, a, n - 1);
      var p := GetBits(stream, a, n - 1).1.pos;
      assert stream(p).1 > p;
    }
  }

  lemma LongerReadsOn(stream: Stream, a: Pending, m: nat, n: nat)
    requires Forward(stream) && m < n
    ensures GetBits(stream, a, m).1 != GetBits(stream, a, n).1
  {
    hide GetBits, Forward;
    BitsSplit(stream, a, m, n - m);
    ReadsOn(stream, GetBits(stream, a, m).1, n - m);
  }

  /** Reads from one place that end at one place are of the same length. */
  lemma SameLength(stream: Stream, a: Pending, m: nat, n: nat)
    requires Forward(stream)
    ensures GetBits(stream, a, m).1 == GetBits(stream, a, n).1 ==> m == n
  {
    hide GetBits, Forward;
    if m < n {
      LongerReadsOn(stream, a, m, n);
    } else if n < m {
      LongerReadsOn(stream, a, n, m);
    }
  }
}
