/** Examples: tables for which the wrong table number changes a block, and tables that spell differently and yet do
  * no harm. */
module JpegAcExample {
  import opened Arith
  import opened BitStream
  import opened JpegBits
  import opened JpegHuffman
  import opened JpegBlock
  import opened JpegAcTable
  import opened JpegAcExact

  /** A memory of zeros. */
  function Zero(p: nat): byte {
    0
  }

  function Zeros(): Stream {
    Unstuffed(Zero)
  }

  lemma {:induction false} ZeroBits(a: Pending, n: nat)
    requires a.value == 0
    ensures GetBits(Zeros(), a, n).0 == 0 && GetBits(Zeros(), a, n).1.value == 0
  {
    if n > 0 {
      ZeroBits(a, n - 1);
      var b := GetBits(Zeros(), a, n - 1).1;
      if b.count > 0 {
        DivModUnique(0, P2(b.count - 1), 0, 0);
      }
    }
  }

  lemma ZeroRead(a: Pending, n: nat)
    requires a.Valid() && a.value == 0
    ensures var (v, b) := GetBits(Zeros(), a, n); v == 0 && b.Valid() && b.value == 0
  {
    ZeroBits(a, n);
    StaysValid(Zeros(), a, n);
  }

  /** The one-bit code reads its symbol again and again. */
  lemma SingleSymbol(a: Pending, symbol: nat) returns (b: Pending)
    requires a.Valid() && a.value == 0
    ensures EqualCodes(1, [symbol]).Valid() && b.Valid() && b.value == 0
    ensures NextSymbol(Zeros(), a, EqualCodes(1, [symbol])) == Done((symbol, b))
  {
    var t := EqualCodes(1, [symbol]);
    EqualCodesValid(1, [symbol]);
    EqualCodeword(1, [symbol], 0, 1);
    ZeroRead(a, 1);
    b := GetBits(Zeros(), a, 1).1;
    hide GetBits, Zeros, Pending.Valid, Table.Valid, NextSymbol, Codeword, HasLength;
    SymbolOfCodeword(Zeros(), a, t, 0, 1);
  }

  lemma ExtendZero()
    ensures Extend(0, 1) == -1
  {
    assert P2(0) == 1 && P2(1) == 2;
  }

  /** The coefficients from k on all -1. */
  function MinusOnes(out: seq<int>, k: nat): seq<int>
    requires |out| == 64 && k <= 64
  {
    out[..k] + seq(64 - k, i => -1)
  }

  lemma OneMoreMinusOne(out: seq<int>, k: nat)
    requires |out| == 64 && k < 64
    ensures MinusOnes(out[k := -1], k + 1) == MinusOnes(out, k)
  {
  }

  lemma NoMinusOne(out: seq<int>)
    requires |out| == 64
    ensures MinusOnes(out, 64) == out
  {
  }

  lemma {:induction false} AllMinusOne(a: Pending, k: nat, out: seq<int>)
    requires a.Valid() && a.value == 0 && |out| == 64 && k <= 64
    ensures EqualCodes(1, [1]).Valid()
    ensures var r := DecodeAC(Zeros(), a, EqualCodes(1, [1]), k, out); r.Done? && r.value.0 == MinusOnes(out, k)
    decreases 64 - k
  {
    hide GetBits, Zeros, Pending.Valid, Table.Valid, NextSymbol, Extend, MinusOnes, EqualCodes;
    var b := SingleSymbol(a, 1);
    if k < 64 {
      ExtendZero();
      ZeroRead(b, 1);
      var c := GetBits(Zeros(), b, 1).1;
      AllMinusOne(c, k + 1, out[k := -1]);
      OneMoreMinusOne(out, k);
    } else {
      NoMinusOne(out);
    }
  }

  /** A stream of zeros carries tokens of value zero. */
  lemma {:induction false} ZeroTokens(a: Pending, tokens: seq<Token>)
    requires a.Valid() && a.value == 0 && forall i | 0 <= i < |tokens| :: tokens[i].value == 0
    ensures Carries(Zeros(), a, tokens)
    decreases |tokens|
  {
    hide GetBits, Zeros, Pending.Valid;
    if tokens != [] {
      ZeroRead(a, tokens[0].size);
      ZeroTokens(GetBits(Zeros(), a, tokens[0].size).1, tokens[1..]);
    }
  }

  lemma SingleCoded(symbol: nat)
    ensures var t := EqualCodes(1, [symbol]); Coded(t, symbol) && CodeFor(t, symbol).value == 0
  {
    var t := EqualCodes(1, [symbol]);
    hide Codeword, HasLength;
    EqualCodeword(1, [symbol], 0, 1);
    assert CodeOf(t, symbol, 0, 1);
    var k, l := CodeIsCodeword(t, symbol);
    EqualCodeword(1, [symbol], k, l);
  }

  lemma ZeroBlockItems()
    ensures RunLengths(Fresh(0), 1) == [Item(0, 0, 0)] && Difference(Fresh(0), 0) == Item(0, 0, 0)
  {
    ZeroRunIs(Fresh(0), 1, 63);
  }

  /** Both tables valid and complete for the zero block, the stream carrying just that block as the component's own
    * tables send it, and the block comes back with every AC coefficient -1: the picked table has a coefficient where
    * the named one has the end of block. */
  lemma WrongTableHarms()
    ensures var (dc, ac) := ([EqualCodes(1, [0])], [EqualCodes(1, [1]), EqualCodes(1, [0])]);
            var (comp, start) := (Component(0, 1), Pending(0, 0, 0));
            var (named, picked) := (ac[comp.acTblNo], ac[comp.dcTblNo]);
            && dc[comp.dcTblNo].Valid() && named.Valid() && picked.Valid() && Encodable(dc[0], named, Fresh(0), 0)
            && Carries(Zeros(), start, Encoded(dc[0], named, Fresh(0), 0))
            && (var right := DecodeBlock(Zeros(), start, dc[0], named, 0); right.Done? && right.value.0 == Fresh(0))
            && var wrong := DecodeBlock(Zeros(), start, dc[0], picked, 0);
               wrong.Done? && wrong.value.0 == MinusOnes(Fresh(0), 1)
  {
    hide GetBits, Zeros, Pending.Valid, Table.Valid, NextSymbol, DecodeAC, Fresh, RunLengths, Coded, CodeFor, Carries,
         EqualCodes;
    var (t, start) := (EqualCodes(1, [0]), Pending(0, 0, 0));
    EqualCodesValid(1, [0]);
    EqualCodesValid(1, [1]);
    StartValid(start);
    SingleCoded(0);
    ZeroBlockItems();
    SizeOfZero();
    var tokens := Encoded(t, t, Fresh(0), 0);
    ZeroTokens(start, tokens);
    var b := SingleSymbol(start, 0);
    AllMinusOne(b, 1, Fresh(0));
    DecodingUndoesEncoding(Zeros(), start, t, t, Fresh(0), 0);
  }

  /** A table that codes nothing but the end of block, as 01; 16 stands for a symbol no block needs. */
  function LongEnd(): Table {
    EqualCodes(2, [16, 0])
  }

  /** A table with the code 0 for 16 zeros and 1 for the end of block. */
  function ShortEnd(): Table {
    EqualCodes(1, [0xF0, 0])
  }

  lemma LongEndCodes(symbol: nat)
    ensures Coded(LongEnd(), symbol) ==> symbol == 16 || symbol == 0
    ensures Coded(LongEnd(), 0) && CodeFor(LongEnd(), 0) == Token(1, 2)
  {
    var t := LongEnd();
    hide Codeword, HasLength, CodeFor;
    EqualCodeword(2, [16, 0], 1, 2);
    assert CodeOf(t, 0, 1, 2);
    var k, l := CodeIsCodeword(t, 0);
    EqualCodeword(2, [16, 0], k, l);
    if Coded(t, symbol) {
      var i, m := CodeIsCodeword(t, symbol);
      EqualCodeword(2, [16, 0], i, m);
    }
  }

  lemma ShortEndCodes()
    ensures IsCode(ShortEnd(), Token(0, 1), Skip) && IsCode(ShortEnd(), Token(1, 1), Stop)
    ensures !IsCode(ShortEnd(), Token(1, 2), Stop)
  {
    hide ShortEnd, CodeAt;
    ShortCode(0);
    ShortCode(1);
    forall k: nat
      ensures !CodeAt(ShortEnd(), Token(1, 2), Stop, k)
    {
      OneBitOnly(k);
    }
  }

  lemma ShortCode(k: nat)
    requires k < 2
    ensures CodeAt(ShortEnd(), Token(k, 1), if k == 0 then Skip else Stop, k)
  {
    assert P2(1) == 2 && ActionOf(0xF0) == Skip && ActionOf(0) == Stop;
    hide Codeword, HasLength, P2, ActionOf;
    EqualCodeword(1, [0xF0, 0], k, 1);
  }

  lemma OneBitOnly(k: nat)
    ensures !CodeAt(ShortEnd(), Token(1, 2), Stop, k)
  {
    hide Codeword, HasLength, P2;
    EqualCodeword(1, [0xF0, 0], k, 2);
  }

  /** The only blocks the first table can send have no AC coefficient. */
  lemma OnlyZeroBlocks(block: seq<int>)
    requires Sendable(block) && AllCoded(LongEnd(), RunLengths(block, 1))
    ensures ZeroRun(block, 1) == 63 && block == Fresh(block[0])
  {
    hide Coded, LongEnd;
    var (t, run, items) := (LongEnd(), ZeroRun(block, 1), RunLengths(block, 1));
    assert Coded(t, items[0].symbol);
    LongEndCodes(items[0].symbol);
    if run < 63 {
      SizeInRange(block[1 + run]);
      hide Size;
      assert false;
    }
  }

  lemma TwoBits(stream: Stream, a: Pending)
    requires a.Valid() && GetBits(stream, a, 2).0 == 1
    ensures var (v, b) := GetBits(stream, a, 1); var (w, c) := GetBits(stream, b, 1);
            v == 0 && w == 1 && b.Valid() && c == GetBits(stream, a, 2).1
  {
    hide GetBit, Pending.Valid;
    NextBit(stream, a, 1);
    StaysValid(stream, a, 1);
    var (v, b) := GetBits(stream, a, 1);
    NextIsABit(stream, b);
    NextBit(stream, b, 0);
    NoBits(stream, b);
  }

  lemma SkipThenStop(stream: Stream, a: Pending, out: seq<int>)
    requires a.Valid() && GetBits(stream, a, 2).0 == 1 && |out| == 64 && ShortEnd().Valid()
    ensures DecodeAC(stream, a, ShortEnd(), 1, out) == Done((out, GetBits(stream, a, 2).1))
  {
    hide GetBits, Pending.Valid, Table.Valid, NextSymbol, IsCode, ShortEnd;
    TwoBits(stream, a);
    ShortEndCodes();
    var b := GetBits(stream, a, 1).1;
    CodeRead(stream, a, ShortEnd(), Token(0, 1), Skip);
    CodeRead(stream, b, ShortEnd(), Token(1, 1), Stop);
  }

  /** A block sent with the first table comes back through the second. */
  lemma ZeroBlockReturns(stream: Stream, a: Pending, dc: Table, block: seq<int>, previous: int)
    requires dc.Valid() && LongEnd().Valid() && ShortEnd().Valid()
    ensures Returns(stream, a, dc, LongEnd(), ShortEnd(), block, previous)
  {
    var (named, picked) := (LongEnd(), ShortEnd());
    hide GetBits, Pending.Valid, Table.Valid, DecodeAC, DecodeBlock, LongEnd, ShortEnd, Coded, Size, AllCoded, Carries,
         Behind, End, Encoded, RunLengths, CodeFor, Fresh;
    if && a.Valid() && Sendable(block) && -0x8000_0000 <= block[0] < 0x8000_0000
      && Encodable(dc, named, block, previous)
       && Carries(stream, a, Encoded(dc, named, block, previous)) {
      var c := DcReadBack(stream, a, dc, named, picked, block, previous);
      OnlyZeroBlocks(block);
      ReadyValid(stream, c, named, block, 1);
      EndSent(stream, c, named, block, 1);
      LongEndCodes(0);
      SkipThenStop(stream, c, Fresh(block[0]));
    }
  }

  /** Without coefficients in the named table the codewords need not match: its end of block is read as 16 zeros and
    * an end of block, and every block it can send comes back. */
  lemma DifferentYetHarmless(dc: Table)
    requires dc.Valid()
    ensures LongEnd().Valid() && ShortEnd().Valid() && Coded(LongEnd(), 0)
    ensures AllReturn(dc, LongEnd(), ShortEnd()) && !Interchangeable(LongEnd(), ShortEnd())
  {
    EqualCodesValid(2, [16, 0]);
    EqualCodesValid(1, [0xF0, 0]);
    hide Table.Valid, LongEnd, ShortEnd, Coded, CodeFor, IsCode, RunAlike, Returns;
    LongEndCodes(0);
    ShortEndCodes();
    forall stream, a, block, previous
      ensures Returns(stream, a, dc, LongEnd(), ShortEnd(), block, previous)
    {
      ZeroBlockReturns(stream, a, dc, block, previous);
    }
  }

  /** Two codewords of one bit, 0 and 1. */
  function TwoCodes(first: nat, second: nat): Table {
    EqualCodes(1, [first, second])
  }

  lemma TwoCodesKraft(first: nat, second: nat)
    ensures TwoCodes(first, second).Valid() && |TwoCodes(first, second).bits| == 17
    ensures KraftSum(TwoCodes(first, second).bits, 16) <= P2(16)
  {
    var bits := TwoCodes(first, second).bits;
    EqualCodesValid(1, [first, second]);
    EqualCount(1, 2, 1);
    EqualCount(1, 2, 16);
    UnusedLengths(bits, 1, 16);
    KraftSumIsNextCode(bits, 16);
    assert P2(0) == 1 && P2(16) == 2 * P2(15);
  }

  lemma TwoCodesCode(first: nat, second: nat, k: nat)
    requires k < 2 && first != second
    ensures var symbol := if k == 0 then first else second;
            Coded(TwoCodes(first, second), symbol) && CodeFor(TwoCodes(first, second), symbol) == Token(k, 1)
  {
    var (t, symbols) := (TwoCodes(first, second), [first, second]);
    hide Codeword, HasLength, CodeFor;
    EqualCodeword(1, symbols, k, 1);
    assert CodeOf(t, symbols[k], k, 1);
    var i, l := CodeIsCodeword(t, symbols[k]);
    EqualCodeword(1, symbols, i, l);
  }

  lemma ZeroIsWrite()
    ensures !IsCode(TwoCodes(1, 0), Token(0, 1), Stop)
  {
    hide Codeword, HasLength, P2;
    forall k: nat
      ensures !CodeAt(TwoCodes(1, 0), Token(0, 1), Stop, k)
    {
      EqualCodeword(1, [1, 0], k, 1);
    }
  }

  /** Tables that meet every demand of the exact condition: with the two codewords swapped some block is lost. */
  lemma SwappedCodesHarm()
    ensures var (dc, ac, comp) := ([TwoCodes(0, 1)], [TwoCodes(1, 0), TwoCodes(0, 1)], Component(0, 1));
            && Numbered(dc, ac, comp) && dc[0].Valid() && ac[0].Valid() && ac[1].Valid()
            && Coded(dc[0], 0) && Coded(ac[1], 0) && Anchor(ac[1], ac[0], 1) && !AllReturn(dc[0], ac[1], ac[0])
  {
    hide Table.Valid, KraftSum, P2, TwoCodes, IsCode, AllReturn, RunAlike, Coded, CodeFor;
    TwoCodesKraft(0, 1);
    TwoCodesKraft(1, 0);
    TwoCodesCode(0, 1, 0);
    TwoCodesCode(0, 1, 1);
    ZeroIsWrite();
    BlocksReturnExactly([TwoCodes(0, 1)], [TwoCodes(1, 0), TwoCodes(0, 1)], Component(0, 1), 1);
  }
}
