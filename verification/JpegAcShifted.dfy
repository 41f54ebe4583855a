/** Two tables without a coefficient codeword in common, one reading out of step what was sent with the other: behind
  * every coefficient it stands two or three bits into the next codeword, and yet every block comes back. */
module JpegAcShifted {
  import opened Arith
  import opened BitStream
  import opened BitSource
  import opened JpegBits
  import opened JpegHuffman
  import opened JpegBlock
  import opened JpegAcTable

  /** One zero and a coefficient of size 1. */
  const PAIR: nat := 0x11

  /** A symbol no block needs. */
  const UNUSED: nat := 0x10

  function SentBits(): (bits: seq<nat>)
    ensures |bits| == 17
  {
    [0, 0, 0, 0, 0, 0, 41, 0, 0, 1, 0, 0, 0, 0, 0, 0, 0]
  }

  function SentSymbols(): (symbols: seq<nat>)
    ensures |symbols| == 42
  {
    seq(42, k => if k == 40 then PAIR else if k == 41 then 0 else UNUSED)
  }

  /** The table blocks are sent with: 101000 for the pair and 101001000 for the end of block. */
  function SentTable(): Table {
    TableOf(SentBits(), SentSymbols(), 9)
  }

  function ReadBits(): (bits: seq<nat>)
    ensures |bits| == 17
  {
    [0, 0, 0, 0, 0, 2, 30, 5, 16, 5, 0, 0, 0, 0, 0, 0, 0]
  }

  function ReadSymbol(k: nat): nat {
    match k
    case 1 => PAIR
    case 4 => PAIR
    case 31 => PAIR
    case 34 => PAIR
    case 52 => PAIR
    case 55 => PAIR
    case 6 => 0
    case 36 => 0
    case 57 => 0
    case _ => UNUSED
  }

  function ReadSymbols(): (symbols: seq<nat>)
    ensures |symbols| == 58
  {
    seq(58, k requires 0 <= k < 58 => ReadSymbol(k))
  }

  /** The table they are read with. */
  function ReadTable(): Table {
    TableOf(ReadBits(), ReadSymbols(), 9)
  }

  lemma {:induction false} SentCount(l: nat)
    requires l <= 16
    ensures Count(SentBits(), l) == (if l < 6 then 0 else if l < 9 then 41 else 42)
    ensures l <= 8 ==> NextCode(SentBits(), l) == if l < 6 then 0 else if l == 6 then 41 else if l == 7 then 82 else 164
  {
    if l > 0 {
      SentCount(l - 1);
      assert SentBits()[l] == if l == 6 then 41 else if l == 9 then 1 else 0;
    }
  }

  lemma ReadCounts()
    ensures var bits := ReadBits();
            && Count(bits, 4) == 0 && Count(bits, 5) == 2 && Count(bits, 6) == 32 && Count(bits, 7) == 37
            && Count(bits, 8) == 53 && Count(bits, 9) == 58
            && NextCode(bits, 4) == 0 && NextCode(bits, 5) == 2 && NextCode(bits, 6) == 34 && NextCode(bits, 7) == 73
            && NextCode(bits, 8) == 162
  {
    var bits := ReadBits();
    assert Count(bits, 2) == 0 && NextCode(bits, 2) == 0;
    assert Count(bits, 4) == 0 && NextCode(bits, 4) == 0;
    assert Count(bits, 6) == 32 && NextCode(bits, 6) == 34;
  }

  lemma TablesValid()
    ensures SentTable().Valid() && ReadTable().Valid()
  {
    SentCount(16);
    ReadCounts();
    ConstantCount(ReadBits(), 9, 16);
    hide Count;
    TableOfValid(SentBits(), SentSymbols(), 9);
    TableOfValid(ReadBits(), ReadSymbols(), 9);
  }

  lemma {:induction false} ConstantCount(bits: seq<nat>, l: nat, m: nat)
    requires l <= m < |bits| && forall i | l < i <= m :: bits[i] == 0
    ensures Count(bits, m) == Count(bits, l)
  {
    if l < m {
      ConstantCount(bits, l, m - 1);
    }
  }

  /** The codewords of the first table. */
  lemma SentCodeword(k: int, l: int)
    ensures HasLength(SentBits(), k, l) <==> (l == 6 && 0 <= k < 41) || (l == 9 && k == 41)
    ensures HasLength(SentBits(), k, l) ==> Codeword(SentBits(), k, l) == if k < 41 then k else 328
  {
    if 1 <= l <= 16 {
      SentCount(l);
      SentCount(l - 1);
    }
    hide Count, NextCode, SentBits;
  }

  lemma SentCodes(symbol: nat)
    ensures var t := SentTable();
            && (Coded(t, symbol) ==> symbol == PAIR || symbol == 0 || symbol == UNUSED)
            && Coded(t, PAIR) && CodeFor(t, PAIR) == Token(40, 6) && Coded(t, 0) && CodeFor(t, 0) == Token(328, 9)
  {
    var t := SentTable();
    hide Codeword, HasLength, CodeFor, SentBits;
    SentCodeword(40, 6);
    SentCodeword(41, 9);
    assert CodeOf(t, PAIR, 40, 6) && CodeOf(t, 0, 41, 9);
    var k, l := CodeIsCodeword(t, PAIR);
    SentCodeword(k, l);
    var i, m := CodeIsCodeword(t, 0);
    SentCodeword(i, m);
    if Coded(t, symbol) {
      var n, o := CodeIsCodeword(t, symbol);
      SentCodeword(n, o);
    }
  }

  /** Codeword k of the second table has l bits and the value v. */
  ghost predicate Lies(k: nat, l: nat, v: nat) {
    && 5 <= l <= 9 && Count(ReadBits(), l - 1) <= k < Count(ReadBits(), l) && k < 58
    && v == 2 * NextCode(ReadBits(), l - 1) + k - Count(ReadBits(), l - 1) && v < P2(l)
  }

  lemma ReadCode(k: nat, l: nat, v: nat)
    requires Lies(k, l, v)
    ensures k < 58 && CodeAt(ReadTable(), Token(v, l), ActionOf(ReadSymbol(k)), k)
  {
    hide Count, NextCode, ReadBits, P2, ActionOf, ReadSymbol;
  }

  /** Whether v and l are a codeword of the second table for the pair, or for the end of block. */
  ghost predicate PairCode(v: nat, l: nat) {
    IsCode(ReadTable(), Token(v, l), Write(1, 1))
  }

  ghost predicate EndCode(v: nat, l: nat) {
    IsCode(ReadTable(), Token(v, l), Stop)
  }

  lemma ReadPair(k: nat, l: nat, v: nat)
    requires Lies(k, l, v) && ReadSymbol(k) == PAIR
    ensures PairCode(v, l)
  {
    assert ActionOf(PAIR) == Write(1, 1);
    hide Lies, ActionOf, ReadTable, CodeAt, ReadSymbol, PAIR;
    ReadCode(k, l, v);
  }

  lemma ReadEnd(k: nat, l: nat, v: nat)
    requires Lies(k, l, v) && ReadSymbol(k) == 0
    ensures EndCode(v, l)
  {
    assert ActionOf(0) == Stop;
    hide Lies, ActionOf, ReadTable, CodeAt, ReadSymbol;
    ReadCode(k, l, v);
  }

  lemma Places()
    ensures Lies(1, 5, 1) && Lies(4, 6, 6) && Lies(6, 6, 8) && Lies(31, 6, 33) && Lies(34, 7, 70) && Lies(36, 7, 72)
    ensures Lies(52, 8, 161) && Lies(55, 9, 326) && Lies(57, 9, 328)
  {
    ReadCounts();
    Powers();
    hide Count, NextCode, ReadBits, P2;
  }

  lemma ShortCodes()
    ensures PairCode(1, 5) && PairCode(6, 6) && PairCode(33, 6) && PairCode(70, 7) && EndCode(8, 6) && EndCode(72, 7)
  {
    hide Lies, PairCode, EndCode;
    Places();
    ReadPair(1, 5, 1);
    ReadPair(4, 6, 6);
    ReadPair(31, 6, 33);
    ReadPair(34, 7, 70);
    ReadEnd(6, 6, 8);
    ReadEnd(36, 7, 72);
  }

  lemma LongCodes()
    ensures PairCode(161, 8) && PairCode(326, 9) && EndCode(328, 9)
  {
    hide Lies, PairCode, EndCode;
    Places();
    ReadPair(52, 8, 161);
    ReadPair(55, 9, 326);
    ReadEnd(57, 9, 328);
  }

  lemma Powers()
    ensures P2(1) == 2 && P2(2) == 4 && P2(3) == 8 && P2(4) == 16 && P2(5) == 32 && P2(6) == 64
    ensures P2(7) == 128 && P2(8) == 256 && P2(9) == 512
  {
    assert P2(3) == 8;
    assert P2(6) == 64;
  }

  lemma AppendParts(v: nat, n: nat, w: nat)
    requires w < P2(n)
    ensures Append(v, n, w) / P2(n) == v && Append(v, n, w) % P2(n) == w
  {
    hide P2;
    DivModUnique(v * P2(n) + w, P2(n), v, w);
  }

  /** Some bits inside a longer read. */
  lemma Inside(stream: Stream, a: Pending, total: nat, p: nat, m: nat)
    requires a.Valid() && p + m <= total
    ensures var (w, c) := GetBits(stream, GetBits(stream, a, p).1, m);
            w == GetBits(stream, a, total).0 / P2(total - p - m) % P2(m) && c == GetBits(stream, a, p + m).1
  {
    hide P2, GetBits, Pending.Valid, Append;
    var rest := total - p - m;
    BitsSplit(stream, a, p + m, rest);
    BitsSplit(stream, a, p, m);
    var (b, c) := (GetBits(stream, a, p).1, GetBits(stream, a, p + m).1);
    StaysValid(stream, a, p);
    StaysValid(stream, a, p + m);
    BitsFit(stream, b, m);
    BitsFit(stream, c, rest);
    AppendParts(GetBits(stream, a, p + m).0, rest, GetBits(stream, c, rest).0);
    AppendParts(GetBits(stream, a, p).0, m, GetBits(stream, b, m).0);
  }

  /** How far the reader may stand inside a codeword. */
  predicate OutBy(p: nat) {
    p == 0 || p == 2 || p == 3
  }

  /** The codeword read from inside the pair's codeword, its additional bit v, and 10100 of the next codeword. */
  lemma PairCodeFrom(p: nat, v: nat)
    requires OutBy(p) && v < 2
    ensures var n := (80 + v) * 32 + 20;
            PairCode(n / P2(4 - v) % P2(8 + v - p), 8 + v - p) && n / P2(3 - v) % P2(1) == v
  {
    Powers();
    hide P2, PairCode, EndCode;
    ShortCodes();
    LongCodes();
  }

  lemma PairRead(stream: Stream, a: Pending, p: nat, v: nat) returns (b: Pending)
    requires a.Valid() && OutBy(p) && v < 2 && GetBits(stream, a, 12).0 == (80 + v) * 32 + 20 && ReadTable().Valid()
    ensures ReadsRun(stream, GetBits(stream, a, p).1, ReadTable(), 1, 1, b)
    ensures GetBits(stream, b, 1) == (v, GetBits(stream, a, 9 + v).1)
  {
    hide GetBits, Table.Valid, ReadTable, NextSymbol, Pending.Valid, P2, IsCode;
    PairCodeFrom(p, v);
    Inside(stream, a, 12, p, 8 + v - p);
    Inside(stream, a, 12, 8 + v, 1);
    StaysValid(stream, a, p);
    b := GetBits(stream, a, 8 + v).1;
    var token := Token(GetBits(stream, GetBits(stream, a, p).1, 8 + v - p).0, 8 + v - p);
    CodeRead(stream, GetBits(stream, a, p).1, ReadTable(), token, Write(1, 1));
  }

  lemma EndFrom(p: nat)
    requires OutBy(p)
    ensures 328 / P2(0) % P2(9 - p) == if p == 0 then 328 else if p == 2 then 72 else 8
  {
    Powers();
    assert P2(0) == 1;
    hide P2;
  }

  lemma EndCodeFrom(p: nat)
    requires OutBy(p)
    ensures EndCode(328 / P2(0) % P2(9 - p), 9 - p)
  {
    hide P2, PairCode, EndCode;
    EndFrom(p);
    ShortCodes();
    LongCodes();
  }

  lemma EndRead(stream: Stream, a: Pending, p: nat, k: nat, out: seq<int>)
    requires a.Valid() && OutBy(p) && GetBits(stream, a, 9).0 == 328 && ReadTable().Valid() && k < 64 && |out| == 64
    ensures DecodeAC(stream, GetBits(stream, a, p).1, ReadTable(), k, out) == Done((out, GetBits(stream, a, 9).1))
  {
    hide GetBits, Table.Valid, ReadTable, NextSymbol, Pending.Valid, P2, IsCode, DecodeAC;
    EndCodeFrom(p);
    Inside(stream, a, 9, p, 9 - p);
    StaysValid(stream, a, p);
    var token := Token(GetBits(stream, GetBits(stream, a, p).1, 9 - p).0, 9 - p);
    StopDecodes(stream, GetBits(stream, a, p).1, ReadTable(), token, k, out);
  }

  /** Every coefficient the first table can send follows one zero and has size 1. */
  lemma OnlyPairs(block: seq<int>, k: nat)
    requires Sendable(block) && 1 <= k < 64 && AllCoded(SentTable(), RunLengths(block, k))
    ensures k + ZeroRun(block, k) < 64 ==> ZeroRun(block, k) == 1 && Size(block[k + 1]) == 1
  {
    hide Coded, SentTable, Size, AdditionalBits;
    var (run, items) := (ZeroRun(block, k), RunLengths(block, k));
    if k + run < 64 {
      assert Coded(SentTable(), items[0].symbol);
      SentCodes(items[0].symbol);
      SizeInRange(block[k + run]);
    }
  }

  lemma ReadyPairs(stream: Stream, a: Pending, block: seq<int>, k: nat)
    requires Ready(stream, a, SentTable(), block, k) && Sendable(block) && |block| == 64 && k < 64
    ensures a.Valid() && 1 <= k && (k + ZeroRun(block, k) < 64 ==> ZeroRun(block, k) == 1 && Size(block[k + 1]) == 1)
  {
    assert a.Valid() && 1 <= k && AllCoded(SentTable(), RunLengths(block, k));
    hide *;
    OnlyPairs(block, k);
  }

  lemma FiveOfSix(stream: Stream, c: Pending)
    requires c.Valid() && GetBits(stream, c, 6).0 == 40
    ensures GetBits(stream, c, 5).0 == 20
  {
    Powers();
    hide GetBits, Pending.Valid, P2;
    NoBits(stream, c);
    Inside(stream, c, 6, 0, 5);
  }

  lemma FiveOfNine(stream: Stream, c: Pending)
    requires c.Valid() && GetBits(stream, c, 9).0 == 328
    ensures GetBits(stream, c, 5).0 == 20
  {
    Powers();
    hide GetBits, Pending.Valid, P2;
    NoBits(stream, c);
    Inside(stream, c, 9, 0, 5);
  }

  lemma PairBits(stream: Stream, a: Pending, block: seq<int>, k: nat) returns (b: Pending, c: Pending)
    requires Ready(stream, a, SentTable(), block, k) && Sendable(block) && |block| == 64 && 1 <= k < 64
    requires ZeroRun(block, k) == 1 && k + 1 < 64 && Size(block[k + 1]) == 1
    ensures GetBits(stream, a, 6) == (40, b) && GetBits(stream, b, 1) == (AdditionalBits(block[k + 1]), c)
    ensures Leads(stream, a, c, SentTable(), block, k, k + 2)
  {
    assert PAIR == 17;
    hide *;
    SentCodes(0);
    b, c := LastSent(stream, a, SentTable(), block, k);
  }

  lemma EndBits(stream: Stream, a: Pending, block: seq<int>, k: nat)
    requires Ready(stream, a, SentTable(), block, k) && |block| == 64 && 1 <= k < 64 && k + ZeroRun(block, k) == 64
    ensures GetBits(stream, a, 9) == (328, End(stream, a, SentTable(), block, k))
  {
    hide *;
    SentCodes(0);
    EndSent(stream, a, SentTable(), block, k);
  }

  /** Both codewords of the first table begin with 10100. */
  lemma NextBegins(stream: Stream, c: Pending, block: seq<int>, k: nat)
    requires Ready(stream, c, SentTable(), block, k) && Sendable(block) && |block| == 64 && k < 64
    ensures GetBits(stream, c, 5).0 == 20
  {
    hide *;
    ReadyPairs(stream, c, block, k);
    if k + ZeroRun(block, k) < 64 {
      var b, d := PairBits(stream, c, block, k);
      FiveOfSix(stream, c);
    } else {
      EndBits(stream, c, block, k);
      FiveOfNine(stream, c);
    }
  }

  /** The pair at k, its additional bit, and the beginning of the next codeword. */
  lemma PairSent(stream: Stream, a: Pending, block: seq<int>, k: nat) returns (v: nat, c: Pending)
    requires Ready(stream, a, SentTable(), block, k) && |block| == 64 && Sendable(block) && 1 <= k <= 61
    requires k + ZeroRun(block, k) < 64
    ensures ZeroRun(block, k) == 1 && v < 2 && block[k + 1] == Extend(v, 1) && c == GetBits(stream, a, 7).1
    ensures Leads(stream, a, c, SentTable(), block, k, k + 2) && GetBits(stream, a, 12).0 == (80 + v) * 32 + 20
  {
    hide *;
    ReadyPairs(stream, a, block, k);
    var b;
    b, c := PairBits(stream, a, block, k);
    v := AdditionalBits(block[k + 1]);
    PowerOne();
    ExtendUndoesCoding(block[k + 1]);
    LeadsTo(stream, a, c, SentTable(), block, k, k + 2);
    NextBegins(stream, c, block, k + 2);
    BitsSplit(stream, a, 6, 1);
    BitsSplit(stream, a, 7, 5);
    Appended(v);
  }

  lemma PowerOne()
    ensures P2(1) == 2
  {
  }

  lemma LeadsTo(stream: Stream, a: Pending, c: Pending, t: Table, block: seq<int>, k: nat, k': nat)
    requires Leads(stream, a, c, t, block, k, k')
    ensures Ready(stream, c, t, block, k')
  {
  }

  lemma Appended(v: nat)
    ensures Append(40, 1, v) == 80 + v && Append(80 + v, 5, 20) == (80 + v) * 32 + 20
  {
    Powers();
    hide P2;
  }

  /** From two or three bits inside the codeword, or from its start, the second table reads the rest of the block. */
  lemma {:induction false} OutOfStep(stream: Stream, a: Pending, block: seq<int>, k: nat, out: seq<int>, p: nat)
    requires Ready(stream, a, SentTable(), block, k) && Sendable(block) && k % 2 == 1 && k < 64 && OutBy(p)
    requires |block| == |out| == 64 && Partial(block, out, k) && ReadTable().Valid()
    ensures DecodeAC(stream, GetBits(stream, a, p).1, ReadTable(), k, out)
            == Done((block, End(stream, a, SentTable(), block, k)))
    decreases 64 - k
  {
    hide GetBits, Pending.Valid, Ready, End, SentTable, ReadTable, Table.Valid, Partial, DecodeAC, Extend, CodeFor;
    ReadyValid(stream, a, SentTable(), block, k);
    if k + ZeroRun(block, k) < 64 {
      ReadyPairs(stream, a, block, k);
      var v, c := PairSent(stream, a, block, k);
      var b := PairRead(stream, a, p, v);
      RunDecodes(stream, GetBits(stream, a, p).1, ReadTable(), k, 1, 1, b, out);
      BitsSplit(stream, a, 7, 2 + v);
      PartialAfterRun(block, out, k, 1);
      PartialAfterCoefficient(block, out, k + 1);
      OutOfStep(stream, c, block, k + 2, out[k + 1 := block[k + 1]], 2 + v);
    } else {
      EndBits(stream, a, block, k);
      NothingLeft(block, out, k);
      EndRead(stream, a, p, k, out);
    }
  }

  lemma ShiftedReturns(stream: Stream, a: Pending, dc: Table, block: seq<int>, previous: int)
    requires dc.Valid() && SentTable().Valid() && ReadTable().Valid()
    ensures Returns(stream, a, dc, SentTable(), ReadTable(), block, previous)
  {
    var (named, picked) := (SentTable(), ReadTable());
    hide GetBits, Pending.Valid, Table.Valid, DecodeAC, DecodeBlock, SentTable, ReadTable, Coded, Size, AllCoded,
         Carries, Behind, End, Ready, Encoded, RunLengths, CodeFor, Partial;
    if && a.Valid() && Sendable(block) && -0x8000_0000 <= block[0] < 0x8000_0000
      && Encodable(dc, named, block, previous)
       && Carries(stream, a, Encoded(dc, named, block, previous)) {
      var c := DcReadBack(stream, a, dc, named, picked, block, previous);
      FreshIsPartial(block);
      NoBits(stream, c);
      OutOfStep(stream, c, block, 1, Fresh(block[0]), 0);
    }
  }

  lemma NotAlike()
    ensures !RunAlike(SentTable(), ReadTable(), 1, 1)
  {
    assert PAIR == 17;
    hide CodeFor, Coded, SentTable, ReadTable, Joined, IsCode;
    SentCodes(0);
    NoSuchCode();
    forall codes | RunCodes(ReadTable(), codes, 1, 1)
      ensures Joined(codes) != Joined(RunTokens(SentTable(), 1, 1))
    {
      JoinedOne(codes[0]);
      JoinedOne(Token(40, 6));
      assert codes == [codes[0]];
    }
  }

  lemma JoinedOne(token: Token)
    ensures Joined([token]) == token
  {
    AppendNothing(token.value);
    hide Append;
  }

  lemma NoSuchCode()
    ensures !IsCode(ReadTable(), Token(40, 6), Write(1, 1))
  {
    ReadCounts();
    hide Count, NextCode, ReadBits, P2, ReadSymbols, ActionOf;
  }

  /** Even for a table that codes coefficients the codewords need not match where none of them comes without a run:
    * every block comes back through a table that does not have its coefficient codeword. */
  lemma ShiftedYetHarmless(dc: Table)
    requires dc.Valid()
    ensures SentTable().Valid() && ReadTable().Valid() && Coded(SentTable(), 0) && RunCoded(SentTable(), 1, 1)
    ensures forall s | 1 <= s <= 15 :: !RunCoded(SentTable(), 0, s)
    ensures AllReturn(dc, SentTable(), ReadTable()) && !Interchangeable(SentTable(), ReadTable())
  {
    TablesValid();
    hide Table.Valid, SentTable, ReadTable, Coded, CodeFor, IsCode, RunAlike, Returns, Unstuffed;
    SentCodes(0);
    NotAlike();
    forall s | 1 <= s <= 15
      ensures !Coded(SentTable(), s)
    {
      SentCodes(s);
    }
    forall memory: Memory, a: Pending, block, previous | a.count < 8
      ensures Returns(Unstuffed(memory), a, dc, SentTable(), ReadTable(), block, previous)
    {
      ShiftedReturns(Unstuffed(memory), a, dc, block, previous);
    }
  }
}
