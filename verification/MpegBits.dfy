/** The MPEG-2 bit buffer: a 32-bit window kept filled to at least 25 bits from a 2048-byte read buffer. */
module MpegBits {
  import opened Arith
  import opened BitStream

  /** The bytes the decoder sees: every refill copies the same 2048 bytes of input. */
  function Refilling(input: seq<byte>): Stream
    requires |input| == 2048
  {
    (p: nat) => if p >= 2048 then (input[0], 1) else (input[p], p + 1)
  }

  /** The c pending bits v at the top of a 32-bit word, the rest of the word zero. */
  ghost predicate AtTop(word: nat, c: nat, v: nat) {
    c <= 32 && v < P2(c) && word == v * P2(32 - c)
  }

  lemma TopIsWord(word: nat, c: nat, v: nat)
    requires AtTop(word, c, v)
    ensures word < 0x1_0000_0000 && Upper(word, 32 - c) == v
  {
    P2Words();
    hide P2;
    P2Add(c, 32 - c);
    ScaleMonotone(P2(32 - c), v, P2(c));
    DivModUnique(word, P2(32 - c), v, 0);
  }

  /** The first n bits of the word are the first n pending bits. */
  lemma ShowTop(word: nat, c: nat, v: nat, n: nat)
    requires AtTop(word, c, v) && n <= c
    ensures Upper(word, 32 - n) == Upper(v, c - n)
  {
    hide P2;
    P2Add(c - n, 32 - c);
    ModScale(v, P2(c - n), P2(32 - c));
  }

  /** Shifting the word left drops the first n pending bits. */
  lemma FlushTop(word: nat, c: nat, v: nat, n: nat)
    requires AtTop(word, c, v) && n <= c
    ensures AtTop(ShiftedLeft(word, n), c - n, Lower(v, c - n))
  {
    hide P2;
    P2Add(32 - c, n);
    P2Add(c - n, 32 - c + n);
    Associate(v, P2(32 - c), P2(n));
    ModScale(v, P2(c - n), P2(32 - c + n));
  }

  /** The word with a byte or-ed in behind its c pending bits. */
  function Loaded(word: nat, c: nat, b: byte): nat
    requires c <= 24
  {
    word + b * P2(24 - c)
  }

  /** Or-ing in a byte behind the pending bits appends it. */
  lemma LoadTop(word: nat, c: nat, v: nat, b: byte)
    requires AtTop(word, c, v) && c <= 24
    ensures AtTop(Loaded(word, c, b), c + 8, v * 256 + b)
  {
    assert P2(8) == 256;
    hide P2;
    P2Add(c, 8);
    P2Add(8, 24 - c);
    ScaleMonotone(256, v + 1, P2(c));
    Appended(v, 256, P2(24 - c), b);
  }

  lemma Appended(v: nat, s: nat, p: nat, b: nat)
    ensures v * (s * p) + b * p == (v * s + b) * p
  {
  }

  lemma BitFits(b: byte, p: nat)
    requires p == 4 || p == 16
    ensures SetBit(b, p) < 256
  {
  }

  /** The first four bytes with the bits 0x0410_0000 set. */
  function FirstWindow(inRdbfr: seq<byte>): (window: nat)
    requires |inRdbfr| == 2048
    ensures window < 0x1_0000_0000
  {
    BitFits(inRdbfr[0], 4);
    BitFits(inRdbfr[1], 16);
    ((SetBit(inRdbfr[0], 0x04) * 256 + SetBit(inRdbfr[1], 0x10)) * 256 + inRdbfr[2]) * 256 + inRdbfr[3]
  }

  /** The global buffer. at is the place in the stream that the bits handed out so far have reached. */
  class BitBuffer {
    const inRdbfr: seq<byte>
    const stream: Stream
    const rdbfr: array<byte>
    var rdptr: nat
    var bfr: nat
    var incnt: int
    ghost var at: Pending

    /** The window and the read buffer behind it. */
    ghost predicate Shaped()
      reads this, rdbfr
    {
      && |inRdbfr| == 2048 && stream == Refilling(inRdbfr) && rdbfr.Length == 2048 && rdptr <= 2048
      && (forall i | rdptr <= i < 2048 :: rdbfr[i] == inRdbfr[i])
      && 0 <= incnt <= 32 && AtTop(bfr, incnt, Upper(bfr, 32 - incnt))
    }

    ghost function View(): Pending
      requires 0 <= incnt <= 32
      reads this
    {
      Pending(rdptr, incnt, Upper(bfr, 32 - incnt))
    }

    /** Between calls the window holds 25 to 32 bits: those that come next in the stream. */
    ghost predicate Valid()
      reads this, rdbfr
    {
      Shaped() && 25 <= incnt && at.Valid() && View() == LoadUntil(stream, at, 25)
    }

    /** The state Initialize_Buffer leaves: the read buffer filled once and its first four bytes or-ed into a window
      * that the test program starts with the bits 0x0410_0000. */
    constructor (inRdbfr: seq<byte>)
      requires |inRdbfr| == 2048
      ensures Valid() && fresh(rdbfr) && this.inRdbfr == inRdbfr && rdptr == 4 && rdbfr[..] == inRdbfr
      ensures at == Pending(4, 32, FirstWindow(inRdbfr)) && View() == at
    {
      this.inRdbfr, stream := inRdbfr, Refilling(inRdbfr);
      rdbfr := new byte[2048];
      incnt, at := 32, Pending(4, 32, FirstWindow(inRdbfr));
      bfr := FirstWindow(inRdbfr);
      new;
      FillBuffer();
      rdptr := 4;
      P2Words();
      assert P2(0) == 1;
      hide P2;
      DivModUnique(bfr, P2(0), bfr, 0);
    }

    /** Copies 2048 bytes of input and starts the read buffer over. */
    method FillBuffer()
      requires |inRdbfr| == 2048 && rdbfr.Length == 2048
      modifies `rdptr, rdbfr
      ensures rdptr == 0 && rdbfr[..] == inRdbfr
    {
      var n := 0;
      while n < 2048
        invariant n <= 2048 && forall i | 0 <= i < n :: rdbfr[i] == inRdbfr[i]
      {
        rdbfr[n] := inRdbfr[n];
        n := n + 1;
      }
      rdptr := 0;
    }

    method ShowBits(n: nat) returns (val: nat)
      requires Valid() && 1 <= n <= incnt
      ensures val == BitStream.GetBits(stream, at, n).0
    {
      hide P2, Upper, BitStream.GetBits, Pending.Valid;
      val := Upper(bfr, (32 - n) % 32);
      ShowTop(bfr, incnt, Upper(bfr, 32 - incnt), n);
      LoadingAhead(stream, at, 25, n);
    }

    /** One turn of the loading loops, with or without the check for a refill. */
    method LoadByte(check: bool)
      requires Shaped() && incnt <= 24 && (check || rdptr < 2048)
      modifies `rdptr, `bfr, `incnt, rdbfr
      ensures Shaped() && View() == Load(stream, old(View())) && incnt == old(incnt) + 8
      ensures !check ==> rdptr == old(rdptr) + 1
    {
      hide P2, Upper, AtTop, Loaded;
      ghost var w := View();
      if check && rdptr >= 2048 {
        FillBuffer();
      }
      var b := rdbfr[rdptr];
      LoadTop(bfr, incnt, w.value, b);
      TopIsWord(Loaded(bfr, incnt, b), incnt + 8, w.value * 256 + b);
      bfr := Loaded(bfr, incnt, b);
      rdptr := rdptr + 1;
      incnt := incnt + 8;
    }

    /** Drops n bits from the window and loads whole bytes until it holds at least 25 again. */
    method FlushBuffer(n: nat)
      requires Valid() && n <= incnt && n < 32
      modifies this, rdbfr
      ensures Valid() && at == BitStream.GetBits(stream, old(at), n).1
    {
      hide P2, Upper, Lower, ShiftedLeft, Load, BitStream.GetBits, Pending.Valid;
      LoadingAhead(stream, at, 25, n);
      StaysValid(stream, at, n);
      FlushTop(bfr, incnt, Upper(bfr, 32 - incnt), n);
      TopIsWord(ShiftedLeft(bfr, n), incnt - n, Lower(Upper(bfr, 32 - incnt), incnt - n));
      ghost var w := Take(View(), n).1;
      at := BitStream.GetBits(stream, at, n).1;
      bfr := ShiftedLeft(bfr, n);
      incnt := incnt - n;
      if rdptr < 2044 {
        while incnt <= 24
          invariant Shaped() && LoadUntil(stream, View(), 25) == LoadUntil(stream, w, 25)
                    && rdptr + (32 - incnt) / 8 < 2048
          invariant at == BitStream.GetBits(stream, old(at), n).1
          decreases 25 - incnt
        {
          LoadByte(false);
        }
      } else {
        while incnt <= 24
          invariant Shaped() && LoadUntil(stream, View(), 25) == LoadUntil(stream, w, 25)
          invariant at == BitStream.GetBits(stream, old(at), n).1
          decreases 25 - incnt
        {
          LoadByte(true);
        }
      }
    }

    /** The next n bits of the stream, for any n that the window holds; 25 bits are always there. */
    method GetBits(n: nat) returns (val: nat)
      requires Valid() && 1 <= n <= incnt && n < 32
      modifies this, rdbfr
      ensures Valid() && (val, at) == BitStream.GetBits(stream, old(at), n)
    {
      val := ShowBits(n);
      FlushBuffer(n);
    }
  }
}
