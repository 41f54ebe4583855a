/** One 8x8 block: DC difference, zero runs and sign extension, against the block encoder of sections F.1.2.1 and
  * F.1.2.2 of ITU-T T.81. */
module JpegBlock {
  import opened Arith
  import opened BitStream
  import opened JpegBits
  import opened JpegHuffman

  const DCTSIZE2: nat := 64

  /** The value the decoder makes of the s additional bits v: a clear top bit marks a negative value. */
  function Extend(v: int, s: nat): int
    requires s > 0
  {
    if v < P2(s - 1) then v - P2(s) + 1 else v
  }

  /** The AC part of the decoder: coefficients k.. of the block. */
  ghost function DecodeAC(stream: Stream, a: Pending, ac: Table, k: nat, block: seq<int>): Outcome<(seq<int>, Pending)>
    requires ac.Valid() && |block| == 64
    decreases 64 - k
  {
    if k >= 64 then Done((block, a))
    else
      match NextSymbol(stream, a, ac)
      case ReadError => ReadError
      case LeftTable => LeftTable
      case Done((symbol, b)) =>
        var (n, s) := (symbol / 16 % 16, symbol % 16);
        if s > 0 then
          if k + n >= 64 then Done((block, b))
          else
            var (v, c) := GetBits(stream, b, s);
            DecodeAC(stream, c, ac, k + n + 1, block[k + n := Extend(v, s)])
        else if n == 15 then DecodeAC(stream, b, ac, k + 16, block)
        else Done((block, b))
  }

  /** The whole decoder: the new block and position, given the previous DC value. */
  ghost function DecodeBlock(stream: Stream, a: Pending, dc: Table, ac: Table, previous: int):
    Outcome<(seq<int>, Pending)>
    requires dc.Valid() && ac.Valid()
  {
    match NextSymbol(stream, a, dc)
    case ReadError => ReadError
    case LeftTable => LeftTable
    case Done((s, b)) =>
      if s == 0 then DecodeAC(stream, b, ac, 1, Fresh(previous))
      else
        var (v, c) := GetBits(stream, b, s);
        DecodeAC(stream, c, ac, 1, Fresh(Wrap32(Extend(v, s) + previous)))
  }

  /** A block with all AC coefficients zero. */
  function Fresh(first: int): (block: seq<int>)
    ensures |block| == 64 && block[0] == first && forall i | 1 <= i < 64 :: block[i] == 0
  {
    [first] + seq(63, i => 0)
  }

  /** A DC table whose categories the sign extension masks cover. */
  ghost predicate DcTable(t: Table) {
    t.Valid() && forall i | 0 <= i < |t.huffval| :: t.huffval[i] <= 20
  }

  lemma SignBit(v: nat, s: nat)
    requires s > 0 && v < P2(s)
    ensures Upper(v, s - 1) % 2 == 0 <==> v < P2(s - 1)
  {
    var p := P2(s - 1);
    assert P2(s) == 2 * p;
    hide P2;
    if v < p {
      DivModUnique(v, p, 0, v);
    } else {
      DivModUnique(v, p, 1, v - p);
    }
  }

  lemma CategoryBits(stream: Stream, a: Pending, s: nat)
    requires a.Valid() && s <= 20
    ensures GetBits(stream, a, s).0 < P2(s) <= 0x10_0000
  {
    BitsFit(stream, a, s);
    P2Monotone(s, 20);
    assert P2(10) == 1024;
    P2Square(10, 1024);
  }

  /** Reads s bits and extends their sign: or-ing in the mask of ones above bit s - 1 subtracts 2^s. */
  method GetExtended(reader: BitReader, s: nat) returns (value: int)
    requires reader.Valid() && 1 <= s <= 20
    modifies reader
    ensures reader.Valid() && value == Extend(GetBits(reader.stream, old(reader.View()), s).0, s)
    ensures reader.View() == GetBits(reader.stream, old(reader.View()), s).1
  {
    hide GetBits, P2, Wrap32, InWord;
    CategoryBits(reader.stream, reader.View(), s);
    value := reader.BufGetv(s);
    SignBit(value, s);
    if Upper(value, s - 1) % 2 == 0 {
      value := value - P2(s);
      value := value + 1;
    }
  }

  lemma DcSymbols(stream: Stream, a: Pending, t: Table)
    requires DcTable(t)
    ensures NextSymbol(stream, a, t).Done? ==> NextSymbol(stream, a, t).value.0 <= 20
  {
  }

  /** The AC loop: k runs over the coefficients, every write stays inside the block. */
  method DecodeCoefficients(reader: BitReader, ac: Table, outBuf: array<int>) returns (end: Outcome<()>)
    requires reader.Valid() && outBuf.Length == DCTSIZE2 && ac.Valid()
    modifies reader, outBuf
    ensures reader.Valid()
    ensures var r := DecodeAC(reader.stream, old(reader.View()), ac, 1, old(outBuf[..]));
            match end
            case Done(_) => r == Done((outBuf[..], reader.View()))
            case ReadError => r == ReadError
            case LeftTable => r == LeftTable
  {
    hide GetBits, Table.Valid, NextSymbol, InWord, Extend;
    ghost var goal := DecodeAC(reader.stream, reader.View(), ac, 1, outBuf[..]);
    var k := 1;
    while k < DCTSIZE2
      invariant reader.Valid() && k >= 1
      invariant goal == DecodeAC(reader.stream, reader.View(), ac, k, outBuf[..])
      decreases 64 - k
    {
      ghost var block := outBuf[..];
      var r := DecodeHuffman(reader, ac);
      if !r.Done? {
        return if r.ReadError? then ReadError else LeftTable;
      }
      var s, n := r.value % 16, r.value / 16 % 16;
      if s != 0 {
        k := k + n;
        if k >= DCTSIZE2 {
          break;
        }
        outBuf[k] := GetExtended(reader, s);
        assert outBuf[..] == block[k := outBuf[k]];
        k := k + 1;
      } else if n == 15 {
        k := k + 16;
      } else {
        break;
      }
    }
    end := Done(());
  }

  /** A component as the frame and scan headers describe it: the numbers of its two tables. */
  datatype Component = Component(dcTblNo: nat, acTblNo: nat)

  /** Decodes one block over outBuf, whose first entry holds the previous DC value. The AC table is picked by the
    * component's DC table number, as the source does; its AC table number is not looked at. */
  method DecodeHuffMCU(reader: BitReader, dc: seq<Table>, ac: seq<Table>, comps: seq<Component>, numCmp: nat,
                       outBuf: array<int>)
    returns (end: Outcome<()>)
    requires reader.Valid() && outBuf.Length == DCTSIZE2 && numCmp < |comps|
    requires var tbl := comps[numCmp].dcTblNo; tbl < |dc| && tbl < |ac| && DcTable(dc[tbl]) && ac[tbl].Valid()
    modifies reader, outBuf
    ensures reader.Valid()
    ensures var tbl := comps[numCmp].dcTblNo;
            var r := DecodeBlock(reader.stream, old(reader.View()), dc[tbl], ac[tbl], old(outBuf[0]));
            match end
            case Done(_) => r == Done((outBuf[..], reader.View()))
            case ReadError => r == ReadError
            case LeftTable => r == LeftTable
  {
    hide GetBits, Table.Valid, NextSymbol, DecodeAC, InWord, Extend, Wrap32;
    var tblNo := comps[numCmp].dcTblNo;
    DcSymbols(reader.stream, reader.View(), dc[tblNo]);
    var dcSymbol := DecodeHuffman(reader, dc[tblNo]);
    if !dcSymbol.Done? {
      return if dcSymbol.ReadError? then ReadError else LeftTable;
    }
    var s := dcSymbol.value;
    if s != 0 {
      var diff := GetExtended(reader, s);
      outBuf[0] := Wrap32(diff + outBuf[0]);
    }
    ghost var (first, here) := (outBuf[0], reader.View());
    var m := 1;
    while m < DCTSIZE2
      invariant 1 <= m <= 64 && outBuf[0] == first && reader.Valid() && reader.View() == here
      invariant forall i | 1 <= i < m :: outBuf[i] == 0
    {
      outBuf[m] := 0;
      m := m + 1;
    }
    assert outBuf[..] == Fresh(first);
    end := DecodeCoefficients(reader, ac[tblNo], outBuf);
  }

  /** The number of bits of the magnitude m. */
  function Category(m: nat): (s: nat)
    ensures m < P2(s) && (m > 0 ==> s > 0 && P2(s - 1) <= m)
  {
    if m == 0 then 0 else 1 + Category(m / 2)
  }

  function Size(x: int): nat {
    Category(if x >= 0 then x else -x)
  }

  /** The additional bits sent for x: x itself, or the low bits of x - 1 when x is negative. */
  function AdditionalBits(x: int): (v: nat)
    ensures v < P2(Size(x))
  {
    if x >= 0 then x else x + P2(Size(x)) - 1
  }

  lemma ExtendUndoesCoding(x: int)
    requires x != 0
    ensures Size(x) > 0 && Extend(AdditionalBits(x), Size(x)) == x
  {
    var s := Size(x);
    assert P2(s) == 2 * P2(s - 1);
  }

  /** A Huffman-coded symbol followed by size additional bits. */
  datatype Item = Item(symbol: nat, value: nat, size: nat)

  /** How many coefficients from k on are zero before the next nonzero one or the end of the block. */
  function ZeroRun(block: seq<int>, k: nat): (r: nat)
    requires k <= |block|
    ensures k + r <= |block| && (forall i | k <= i < k + r :: block[i] == 0)
    ensures k + r < |block| ==> block[k + r] != 0
    decreases |block| - k
  {
    if k == |block| || block[k] != 0 then 0 else 1 + ZeroRun(block, k + 1)
  }

  lemma {:induction false} ZeroRunIs(block: seq<int>, k: nat, r: nat)
    requires k + r <= |block| && (forall i | k <= i < k + r :: block[i] == 0) && (k + r < |block| ==> block[k + r] != 0)
    ensures ZeroRun(block, k) == r
    decreases r
  {
    if r > 0 {
      ZeroRunIs(block, k + 1, r - 1);
    }
  }

  /** The AC items of section F.1.2.2: a run of zeros and the next coefficient, 16 zeros, or the end of the block. */
  function RunLengths(block: seq<int>, k: nat): seq<Item>
    requires k <= |block|
    decreases |block| - k
  {
    var r := ZeroRun(block, k);
    if k == |block| then []
    else if k + r == |block| then [Item(0, 0, 0)]
    else if r > 15 then [Item(0xF0, 0, 0)] + RunLengths(block, k + 16)
    else
      var x := block[k + r];
      [Item(16 * r + Size(x), AdditionalBits(x), Size(x))] + RunLengths(block, k + r + 1)
  }

  /** The DC item of section F.1.2.1. */
  function Difference(block: seq<int>, previous: int): Item
    requires |block| == 64
  {
    var d := block[0] - previous;
    Item(Size(d), AdditionalBits(d), Size(d))
  }

  /** The table has a codeword for the symbol. */
  ghost predicate Coded(t: Table, symbol: nat) {
    exists k, l :: CodeOf(t, symbol, k, l)
  }

  ghost predicate CodeOf(t: Table, symbol: nat, k: int, l: int) {
    HasLength(t.bits, k, l) && k < |t.huffval| && t.huffval[k] == symbol
  }

  ghost function CodeFor(t: Table, symbol: nat): Token
    requires Coded(t, symbol)
  {
    var k, l :| CodeOf(t, symbol, k, l);
    Token(Codeword(t.bits, k, l), l)
  }

  lemma CodeIsCodeword(t: Table, symbol: nat) returns (k: int, l: nat)
    requires Coded(t, symbol)
    ensures CodeOf(t, symbol, k, l) && CodeFor(t, symbol) == Token(Codeword(t.bits, k, l), l)
  {
    var k', l' :| CodeOf(t, symbol, k', l') && CodeFor(t, symbol) == Token(Codeword(t.bits, k', l'), l');
    k, l := k', l';
  }

  /** The bits an item is sent as. */
  ghost function Sent(t: Table, item: Item): seq<Token>
    requires Coded(t, item.symbol)
  {
    [CodeFor(t, item.symbol), Token(item.value, item.size)]
  }

  ghost predicate AllCoded(t: Table, items: seq<Item>) {
    forall i | 0 <= i < |items| :: Coded(t, items[i].symbol)
  }

  ghost function AllSent(t: Table, items: seq<Item>): seq<Token>
    requires AllCoded(t, items)
  {
    if items == [] then [] else Sent(t, items[0]) + AllSent(t, items[1..])
  }

  /** One item read back: its symbol, then its additional bits. */
  lemma ItemReadBack(stream: Stream, a: Pending, t: Table, item: Item, rest: seq<Token>)
    requires a.Valid() && t.Valid() && Coded(t, item.symbol) && Carries(stream, a, Sent(t, item) + rest)
    ensures NextSymbol(stream, a, t).Done? && NextSymbol(stream, a, t).value.0 == item.symbol
    ensures var b := NextSymbol(stream, a, t).value.1; var (v, c) := GetBits(stream, b, item.size);
            b.Valid() && c.Valid() && v == item.value && Carries(stream, c, rest)
            && Behind(stream, a, Sent(t, item) + rest) == Behind(stream, c, rest)
  {
    hide GetBits, Pending.Valid, Table.Valid, NextSymbol, Codeword;
    var tokens := Sent(t, item) + rest;
    var k, l :| CodeOf(t, item.symbol, k, l) && CodeFor(t, item.symbol) == Token(Codeword(t.bits, k, l), l);
    assert tokens[0] == Token(Codeword(t.bits, k, l), l);
    assert tokens[1..][0] == Token(item.value, item.size) && tokens[1..][1..] == rest;
    SymbolOfCodeword(stream, a, t, k, l);
    StaysValid(stream, a, l);
    StaysValid(stream, GetBits(stream, a, l).1, item.size);
  }

  /** The coefficients before k are in place and the rest are still zero. */
  predicate Partial(block: seq<int>, out: seq<int>, k: nat) {
    |block| == |out| == 64 && k <= 64 && out[..k] == block[..k] && forall i | k <= i < 64 :: out[i] == 0
  }

  lemma PartialAfterRun(block: seq<int>, out: seq<int>, k: nat, r: nat)
    requires Partial(block, out, k) && r <= ZeroRun(block, k)
    ensures Partial(block, out, k + r)
  {
    assert forall i | 0 <= i < k :: out[..k][i] == block[..k][i];
  }

  lemma PartialAfterCoefficient(block: seq<int>, out: seq<int>, k: nat)
    requires Partial(block, out, k) && k < 64
    ensures Partial(block, out[k := block[k]], k + 1)
  {
    var out' := out[k := block[k]];
    assert forall i | 0 <= i < k :: out[..k][i] == block[..k][i];
    assert out'[..k + 1] == block[..k + 1];
  }

  lemma NothingLeft(block: seq<int>, out: seq<int>, k: nat)
    requires Partial(block, out, k) && k + ZeroRun(block, k) == 64
    ensures out == block
  {
    assert forall i | 0 <= i < k :: out[..k][i] == block[..k][i];
  }

  /** The stream from a carries the items for the coefficients from k on. */
  ghost predicate Ready(stream: Stream, a: Pending, t: Table, block: seq<int>, k: nat) {
    && a.Valid() && t.Valid() && |block| == 64 && 1 <= k <= 64
    && AllCoded(t, RunLengths(block, k)) && Carries(stream, a, AllSent(t, RunLengths(block, k)))
  }

  /** Where those items end. */
  ghost function End(stream: Stream, a: Pending, t: Table, block: seq<int>, k: nat): Pending
    requires Ready(stream, a, t, block, k)
  {
    Behind(stream, a, AllSent(t, RunLengths(block, k)))
  }

  /** The next item, read back. */
  ghost predicate Reads(stream: Stream, a: Pending, t: Table, item: Item, b: Pending, c: Pending) {
    a.Valid() && t.Valid() && NextSymbol(stream, a, t) == Done((item.symbol, b))
      && GetBits(stream, b, item.size) == (item.value, c)
  }

  lemma FirstItem(stream: Stream, a: Pending, t: Table, item: Item, items: seq<Item>) returns (b: Pending, c: Pending)
    requires a.Valid() && t.Valid() && AllCoded(t, [item] + items) && Carries(stream, a, AllSent(t, [item] + items))
    ensures Reads(stream, a, t, item, b, c) && c.Valid() && AllCoded(t, items) && Carries(stream, c, AllSent(t, items))
    ensures Behind(stream, a, AllSent(t, [item] + items)) == Behind(stream, c, AllSent(t, items))
  {
    hide GetBits, Pending.Valid, Table.Valid, NextSymbol, Coded, CodeFor, Sent, Behind, Carries;
    var all := [item] + items;
    assert all[0] == item && all[1..] == items;
    assert Coded(t, all[0].symbol);
    assert forall i | 0 <= i < |items| :: items[i] == all[i + 1];
    ItemReadBack(stream, a, t, item, AllSent(t, items));
    b := NextSymbol(stream, a, t).value.1;
    c := GetBits(stream, b, item.size).1;
  }

  lemma NoBits(stream: Stream, a: Pending)
    ensures GetBits(stream, a, 0) == (0, a)
  {
  }

  lemma SixteenZeros(stream: Stream, a: Pending, t: Table, block: seq<int>, k: nat, out: seq<int>) returns (b: Pending)
    requires Ready(stream, a, t, block, k) && |block| == |out| == 64 && 1 <= k && k + ZeroRun(block, k) < 64
    requires ZeroRun(block, k) > 15 && t.Valid()
    ensures Ready(stream, b, t, block, k + 16) && End(stream, a, t, block, k) == End(stream, b, t, block, k + 16)
    ensures DecodeAC(stream, a, t, k, out) == DecodeAC(stream, b, t, k + 16, out)
  {
    hide GetBits, Pending.Valid, Table.Valid, NextSymbol, AllCoded, AllSent, Behind, Carries, ZeroRun, Size,
         AdditionalBits, Extend;
    var c;
    b, c := FirstItem(stream, a, t, Item(0xF0, 0, 0), RunLengths(block, k + 16));
    NoBits(stream, b);
  }

  /** A run and a coefficient, read back, take the decoder behind the coefficient. */
  lemma CoefficientDecodes(stream: Stream, a: Pending, t: Table, item: Item, b: Pending, c: Pending, k: nat, r: nat,
                           out: seq<int>)
    requires Reads(stream, a, t, item, b, c) && t.Valid() && item.symbol == 16 * r + item.size && r <= 15
             && 1 <= item.size <= 15
    requires k + r < 64 && |out| == 64
    ensures DecodeAC(stream, a, t, k, out) ==
            DecodeAC(stream, c, t, k + r + 1, out[k + r := Extend(item.value, item.size)])
  {
    hide GetBits, Pending.Valid, Table.Valid, NextSymbol, Extend;
    SymbolParts(r, item.size);
  }

  lemma SymbolParts(r: nat, s: nat)
    requires r <= 15 && s <= 15
    ensures (16 * r + s) / 16 % 16 == r && (16 * r + s) % 16 == s
  {
  }

  /** The first item at k, where a coefficient follows a run of at most 15 zeros. */
  lemma CoefficientSent(stream: Stream, a: Pending, t: Table, block: seq<int>, k: nat, item: Item)
    returns (b: Pending, c: Pending)
    requires Ready(stream, a, t, block, k) && |block| == 64 && 1 <= k <= 64 && k + ZeroRun(block, k) < 64
    requires ZeroRun(block, k) <= 15 && t.Valid()
    requires var (r, x) := (ZeroRun(block, k), block[k + ZeroRun(block, k)]);
             item == Item(16 * r + Size(x), AdditionalBits(x), Size(x))
    ensures var i := k + ZeroRun(block, k);
            && Reads(stream, a, t, item, b, c) && Ready(stream, c, t, block, i + 1)
            && End(stream, a, t, block, k) == End(stream, c, t, block, i + 1)
  {
    hide GetBits, Pending.Valid, Table.Valid, NextSymbol, AllCoded, AllSent, Behind, Carries, Size, AdditionalBits,
         ZeroRun;
    b, c := FirstItem(stream, a, t, item, RunLengths(block, k + ZeroRun(block, k) + 1));
  }

  lemma NextCoefficient(stream: Stream, a: Pending, t: Table, block: seq<int>, k: nat, out: seq<int>)
    returns (c: Pending)
    requires Ready(stream, a, t, block, k) && |block| == |out| == 64 && 1 <= k <= 64 && k + ZeroRun(block, k) < 64
    requires ZeroRun(block, k) <= 15 && t.Valid() && Size(block[k + ZeroRun(block, k)]) <= 15
    ensures var i := k + ZeroRun(block, k);
            && Ready(stream, c, t, block, i + 1) && End(stream, a, t, block, k) == End(stream, c, t, block, i + 1)
            && DecodeAC(stream, a, t, k, out) == DecodeAC(stream, c, t, i + 1, out[i := block[i]])
  {
    hide Ready, End, Reads, Table.Valid, Size, AdditionalBits, Extend, DecodeAC;
    var r := ZeroRun(block, k);
    var x := block[k + r];
    ExtendUndoesCoding(x);
    var item, b := Item(16 * r + Size(x), AdditionalBits(x), Size(x)), a;
    b, c := CoefficientSent(stream, a, t, block, k, item);
    CoefficientDecodes(stream, a, t, item, b, c, k, r, out);
  }

  lemma EndOfBlock(stream: Stream, a: Pending, t: Table, block: seq<int>, k: nat, out: seq<int>)
    requires Ready(stream, a, t, block, k) && |block| == |out| == 64 && 1 <= k && k + ZeroRun(block, k) == 64
             && t.Valid()
    ensures DecodeAC(stream, a, t, k, out) == Done((out, End(stream, a, t, block, k)))
  {
    hide GetBits, Pending.Valid, Table.Valid, NextSymbol, AllCoded, Carries;
    if k < 64 {
      assert RunLengths(block, k) == [Item(0, 0, 0)] + [];
      var b, c := FirstItem(stream, a, t, Item(0, 0, 0), []);
      NoBits(stream, b);
    }
  }

  /** The AC decoder restores the coefficients from k on. */
  lemma {:induction false} AcReadBack(stream: Stream, a: Pending, t: Table, block: seq<int>, k: nat, out: seq<int>)
    requires Ready(stream, a, t, block, k) && t.Valid() && |block| == |out| == 64 && Partial(block, out, k)
             && 1 <= k <= 64
    requires forall i | 1 <= i < 64 :: Size(block[i]) <= 15
    ensures DecodeAC(stream, a, t, k, out) == Done((block, End(stream, a, t, block, k)))
    decreases 64 - k
  {
    hide Ready, End, DecodeAC, Table.Valid, Partial, Size, ZeroRun;
    var r := ZeroRun(block, k);
    if k + r == 64 {
      NothingLeft(block, out, k);
      EndOfBlock(stream, a, t, block, k, out);
    } else if r > 15 {
      var b := SixteenZeros(stream, a, t, block, k, out);
      PartialAfterRun(block, out, k, 16);
      AcReadBack(stream, b, t, block, k + 16, out);
    } else {
      var c := NextCoefficient(stream, a, t, block, k, out);
      PartialAfterRun(block, out, k, r);
      PartialAfterCoefficient(block, out, k + r);
      AcReadBack(stream, c, t, block, k + r + 1, out[k + r := block[k + r]]);
    }
  }

  /** A block as the encoder sends it, after a block with the given DC value. */
  ghost function Encoded(dc: Table, ac: Table, block: seq<int>, previous: int): seq<Token>
    requires Encodable(dc, ac, block, previous)
  {
    Sent(dc, Difference(block, previous)) + AllSent(ac, RunLengths(block, 1))
  }

  /** The tables have a code for every symbol the block needs. */
  ghost predicate Encodable(dc: Table, ac: Table, block: seq<int>, previous: int) {
    |block| == 64 && Coded(dc, Difference(block, previous).symbol) && AllCoded(ac, RunLengths(block, 1))
  }

  /** The DC difference read back: whatever AC table is used from there on, it starts where the AC items start. */
  lemma DcReadBack(stream: Stream, a: Pending, dc: Table, ac: Table, picked: Table, block: seq<int>, previous: int)
    returns (c: Pending)
    requires a.Valid() && dc.Valid() && ac.Valid() && picked.Valid() && Encodable(dc, ac, block, previous)
    requires -0x8000_0000 <= block[0] < 0x8000_0000
    requires Carries(stream, a, Encoded(dc, ac, block, previous))
    ensures Ready(stream, c, ac, block, 1)
    ensures End(stream, c, ac, block, 1) == Behind(stream, a, Encoded(dc, ac, block, previous))
    ensures DecodeBlock(stream, a, dc, picked, previous) == DecodeAC(stream, c, picked, 1, Fresh(block[0]))
  {
    hide GetBits, Pending.Valid, Table.Valid, NextSymbol, DecodeAC, RunLengths, Coded, AllCoded, AllSent, Behind,
         Carries, Sent, Size, AdditionalBits, Extend, Wrap32, Fresh;
    var d := block[0] - previous;
    var item := Difference(block, previous);
    ItemReadBack(stream, a, dc, item, AllSent(ac, RunLengths(block, 1)));
    var b := NextSymbol(stream, a, dc).value.1;
    c := GetBits(stream, b, item.size).1;
    if d == 0 {
      SizeOfZero();
      NoBits(stream, b);
    } else {
      ExtendUndoesCoding(d);
      WrapKeeps(block[0]);
    }
  }

  lemma WrapKeeps(x: int)
    requires -0x8000_0000 <= x < 0x8000_0000
    ensures Wrap32(x) == x
  {
  }

  /** Decoding undoes encoding: all 64 coefficients come back and exactly the block's bits are consumed. */
  lemma DecodingUndoesEncoding(stream: Stream, a: Pending, dc: Table, ac: Table, block: seq<int>, previous: int)
    requires a.Valid() && dc.Valid() && ac.Valid() && Encodable(dc, ac, block, previous)
    requires forall i | 1 <= i < 64 :: Size(block[i]) <= 15
    requires -0x8000_0000 <= block[0] < 0x8000_0000
    requires Carries(stream, a, Encoded(dc, ac, block, previous))
    ensures DecodeBlock(stream, a, dc, ac, previous)
            == Done((block, Behind(stream, a, Encoded(dc, ac, block, previous))))
  {
    hide GetBits, Pending.Valid, Table.Valid, DecodeBlock, DecodeAC, RunLengths, Behind, Carries, Size, Partial, Ready,
         End;
    var c := DcReadBack(stream, a, dc, ac, ac, block, previous);
    FreshIsPartial(block);
    AcReadBack(stream, c, ac, block, 1, Fresh(block[0]));
  }

  lemma SizeOfZero()
    ensures Size(0) == 0
  {
  }

  lemma FreshIsPartial(block: seq<int>)
    requires |block| == 64
    ensures Partial(block, Fresh(block[0]), 1)
  {
    assert Fresh(block[0])[..1] == block[..1];
  }

  ghost predicate Fits(tokens: seq<Token>) {
    forall token | token in tokens :: token.value < P2(token.size)
  }

  lemma SentFits(t: Table, item: Item)
    requires Coded(t, item.symbol) && item.value < P2(item.size) && |t.bits| == 17 && KraftSum(t.bits, 16) <= P2(16)
    ensures Fits(Sent(t, item))
  {
    hide KraftSum, P2, Codeword;
    var k, l :| CodeOf(t, item.symbol, k, l) && CodeFor(t, item.symbol) == Token(Codeword(t.bits, k, l), l);
    CodewordsFit(t.bits, k, l);
  }

  lemma {:induction false} AllSentFits(t: Table, items: seq<Item>)
    requires AllCoded(t, items) && |t.bits| == 17 && KraftSum(t.bits, 16) <= P2(16)
    requires forall i | 0 <= i < |items| :: items[i].value < P2(items[i].size)
    ensures Fits(AllSent(t, items))
  {
    hide Sent, KraftSum, P2, Coded;
    if items != [] {
      SentFits(t, items[0]);
      AllSentFits(t, items[1..]);
    }
  }

  lemma {:induction false} RunLengthsFit(block: seq<int>, k: nat)
    requires k <= |block|
    ensures forall i | 0 <= i < |RunLengths(block, k)| ::
      RunLengths(block, k)[i].value < P2(RunLengths(block, k)[i].size)
    decreases |block| - k
  {
    hide P2, Size, AdditionalBits;
    var r := ZeroRun(block, k);
    if k + r < |block| {
      RunLengthsFit(block, if r > 15 then k + 16 else k + r + 1);
    }
  }

  /** With tables that meet the Kraft inequality every encoded block is a bit string a stream can carry. */
  lemma EncodedFits(dc: Table, ac: Table, block: seq<int>, previous: int)
    requires Encodable(dc, ac, block, previous) && |dc.bits| == |ac.bits| == 17
    requires KraftSum(dc.bits, 16) <= P2(16) && KraftSum(ac.bits, 16) <= P2(16)
    ensures Fits(Encoded(dc, ac, block, previous))
  {
    hide Sent, AllSent, KraftSum, P2, Coded, RunLengths, Size, AdditionalBits;
    SentFits(dc, Difference(block, previous));
    RunLengthsFit(block, 1);
    AllSentFits(ac, RunLengths(block, 1));
  }

  /** The decoder never touches a coefficient it has passed. */
  lemma {:induction false} EarlierKept(stream: Stream, a: Pending, ac: Table, k: nat, block: seq<int>, i: nat)
    requires ac.Valid() && |block| == 64 && i < k && i < 64
    ensures var r := DecodeAC(stream, a, ac, k, block); r.Done? ==> |r.value.0| == 64 && r.value.0[i] == block[i]
    decreases 64 - k
  {
    hide GetBits, Table.Valid, NextSymbol, Extend;
    if k < 64 && NextSymbol(stream, a, ac).Done? {
      var (symbol, b) := NextSymbol(stream, a, ac).value;
      var (n, s) := (symbol / 16 % 16, symbol % 16);
      if s > 0 && k + n < 64 {
        var (v, c) := GetBits(stream, b, s);
        EarlierKept(stream, c, ac, k + n + 1, block[k + n := Extend(v, s)], i);
      } else if s == 0 && n == 15 {
        EarlierKept(stream, b, ac, k + 16, block, i);
      }
    }
  }
}
