/** From the blocks that come back to the codewords: the exact condition under which reading with the table of the wrong
  * number does no harm. */
module JpegAcExact {
  import opened Arith
  import opened BitStream
  import opened BitSource
  import opened JpegBits
  import opened JpegHuffman
  import opened JpegBlock
  import opened JpegAcTable

  /** Bit j of a token, the most significant first. */
  function BitIn(token: Token, j: nat): bool {
    j < token.size && Upper(token.value, token.size - 1 - j) % 2 == 1
  }

  /** From bit i on the source holds the first n bits of the token. */
  ghost predicate Holds(h: Bits, i: nat, token: Token, n: nat) {
    forall j: nat | j < n :: h(i + j) == BitIn(token, j)
  }

  lemma UpperStep(x: nat, m: nat)
    ensures Upper(x, m) == 2 * Upper(x, m + 1) + Upper(x, m) % 2
  {
    assert P2(m + 1) == P2(m) * 2;
    hide P2;
    ModOfMod(x, P2(m), 2);
  }

  lemma UpperEnds(x: nat, n: nat)
    ensures Upper(x, 0) == x && (x < P2(n) ==> Upper(x, n) == 0)
  {
    assert P2(0) == 1;
    hide P2;
    DivModUnique(x, P2(0), x, 0);
    if x < P2(n) {
      DivModUnique(x, P2(n), 0, x);
    }
  }

  lemma {:induction false} LeadingBits(h: Bits, i: nat, token: Token, n: nat)
    requires n <= token.size && token.value < P2(token.size) && Holds(h, i, token, n)
    ensures Num(h, i, n) == Upper(token.value, token.size - n)
  {
    hide Upper, P2;
    if n == 0 {
      UpperEnds(token.value, token.size);
    } else {
      LeadingBits(h, i, token, n - 1);
      UpperStep(token.value, token.size - n);
      assert h(i + (n - 1)) == BitIn(token, n - 1);
    }
  }

  lemma TokenRead(h: Bits, i: nat, token: Token)
    requires token.value < P2(token.size) && Holds(h, i, token, token.size)
    ensures GetBits(Packed(h), At(h, i), token.size) == (token.value, At(h, i + token.size))
  {
    hide Upper, P2, GetBits, Packed, At;
    LeadingBits(h, i, token, token.size);
    UpperEnds(token.value, 0);
    ReadAt(h, i, token.size);
  }

  /** The bits of a list of tokens. */
  function BitOf(tokens: seq<Token>, j: nat): bool {
    if tokens == [] then false
    else if j < tokens[0].size then BitIn(tokens[0], j)
    else BitOf(tokens[1..], j - tokens[0].size)
  }

  ghost predicate HoldsAll(h: Bits, i: nat, tokens: seq<Token>) {
    forall j: nat :: h(i + j) == BitOf(tokens, j)
  }

  lemma HoldsFirst(h: Bits, i: nat, tokens: seq<Token>)
    requires HoldsAll(h, i, tokens) && tokens != []
    ensures Holds(h, i, tokens[0], tokens[0].size) && HoldsAll(h, i + tokens[0].size, tokens[1..])
  {
    var n := tokens[0].size;
    forall j: nat | j < n
      ensures h(i + j) == BitIn(tokens[0], j)
    {
      assert h(i + j) == BitOf(tokens, j);
    }
    forall j: nat
      ensures h(i + n + j) == BitOf(tokens[1..], j)
    {
      assert h(i + (n + j)) == BitOf(tokens, n + j);
    }
  }

  lemma {:induction false} TokensCarried(h: Bits, i: nat, tokens: seq<Token>)
    requires Fits(tokens) && HoldsAll(h, i, tokens)
    ensures Carries(Packed(h), At(h, i), tokens)
    decreases |tokens|
  {
    hide GetBits, At, P2, Packed, Holds, HoldsAll;
    if tokens != [] {
      assert tokens[0] in tokens;
      HoldsFirst(h, i, tokens);
      TokenRead(h, i, tokens[0]);
      TokensCarried(h, i + tokens[0].size, tokens[1..]);
    }
  }

  /** Every list of fitting tokens is what some memory begins with. */
  lemma Carriable(tokens: seq<Token>) returns (memory: Memory)
    requires Fits(tokens)
    ensures Carries(Unstuffed(memory), Pending(0, 0, 0), tokens)
  {
    var h: Bits := (j: nat) => BitOf(tokens, j);
    hide BitOf, Unstuffed, MemoryOf;
    memory := MemoryOf(h);
    TokensCarried(h, 0, tokens);
  }

  lemma ExtendNonzero(v: nat, s: nat)
    requires s > 0 && v < P2(s)
    ensures Extend(v, s) != 0 && Size(Extend(v, s)) == s && AdditionalBits(Extend(v, s)) == v
  {
    hide Size, AdditionalBits, Extend, P2;
    ExtendSplit(v, s);
    SizeIs(Extend(v, s), s);
    BitsAre(Extend(v, s), s);
  }

  lemma ExtendSplit(v: nat, s: nat)
    requires s > 0 && v < P2(s)
    ensures var (x, p) := (Extend(v, s), P2(s - 1));
            && x != 0 && p <= (if x < 0 then 0 - x else x) < P2(s) && v == if x >= 0 then x else x + P2(s) - 1
  {
    Halved(s);
    hide P2;
  }

  lemma SizeIs(x: int, s: nat)
    requires s > 0 && P2(s - 1) <= (if x < 0 then 0 - x else x) < P2(s)
    ensures Size(x) == s
  {
    hide P2, Category;
    CategoryUnique(if x < 0 then 0 - x else x, s);
  }

  lemma BitsAre(x: int, s: nat)
    requires Size(x) == s
    ensures AdditionalBits(x) == if x >= 0 then x else x + P2(s) - 1
  {
    hide P2, Size;
  }

  lemma Halved(s: nat)
    requires s > 0
    ensures P2(s) == 2 * P2(s - 1)
  {
  }

  lemma {:induction false} CategoryUnique(m: nat, s: nat)
    requires s > 0 && P2(s - 1) <= m < P2(s)
    ensures Category(m) == s
  {
    if s > 1 {
      assert P2(s - 1) == 2 * P2(s - 2);
      CategoryUnique(m / 2, s - 1);
    }
  }

  /** Where coefficients come out of zeros, the symbols read for them are a run and a coefficient of that place and
    * value. */
  lemma {:induction false} RunDecoded(stream: Stream, a: Pending, t: Table, k: nat, run: nat, out: seq<int>,
                                      block: seq<int>, end: Pending) returns (b: Pending)
    requires a.Valid() && t.Valid() && |out| == |block| == 64 && k + run < 64
    requires DecodeAC(stream, a, t, k, out) == Done((block, end))
    requires forall i | k <= i < 64 :: out[i] == 0
    requires block[k + run] != 0 && forall i | k <= i < k + run :: block[i] == 0
    ensures var s := Size(block[k + run]);
            && ReadsRun(stream, a, t, run, s, b) && GetBits(stream, b, s).0 == AdditionalBits(block[k + run])
            && DecodeAC(stream, GetBits(stream, b, s).1, t, k + run + 1, out[k + run := block[k + run]])
              == Done((block, end))
    decreases run
  {
    hide GetBits, Table.Valid, NextSymbol, Extend, Pending.Valid, Size, AdditionalBits, P2;
    var token := CodeOfSymbol(stream, a, t);
    var (y, c) := NextSymbol(stream, a, t).value;
    StaysValid(stream, a, token.size);
    var (n, s) := (y / 16 % 16, y % 16);
    if s > 0 && k + n < 64 {
      var (v, d) := GetBits(stream, c, s);
      BitsFit(stream, c, s);
      ExtendNonzero(v, s);
      var i := if n < run then k + n else k + run;
      if n != run {
        EarlierKept(stream, d, t, k + n + 1, out[k + n := Extend(v, s)], i);
        assert false;
      }
      EarlierKept(stream, d, t, k + n + 1, out[k + n := Extend(v, s)], k + run);
      b := c;
    } else if s == 0 && n == 15 {
      if run <= 15 {
        EarlierKept(stream, c, t, k + 16, out, k + run);
        assert false;
      }
      b := RunDecoded(stream, c, t, k + 16, run - 16, out, block, end);
    } else {
      assert false;
    }
  }

  /** Reading coefficients takes bits. */
  lemma {:induction false} Advances(stream: Stream, a: Pending, t: Table, k: nat, out: seq<int>)
    requires Forward(stream) && a.Valid() && t.Valid() && |out| == 64 && DecodeAC(stream, a, t, k, out).Done?
    ensures var end := DecodeAC(stream, a, t, k, out).value.1; if k < 64 then Before(a, end) else end == a
    decreases 64 - k
  {
    hide GetBits, Table.Valid, NextSymbol, Extend, Pending.Valid, Forward;
    if k < 64 {
      var token := CodeOfSymbol(stream, a, t);
      var (y, b) := NextSymbol(stream, a, t).value;
      StaysValid(stream, a, token.size);
      ReadsOn(stream, a, token.size);
      var (n, s) := (y / 16 % 16, y % 16);
      if s > 0 && k + n < 64 {
        var (v, c) := GetBits(stream, b, s);
        StaysValid(stream, b, s);
        ReadsOn(stream, b, s);
        Advances(stream, c, t, k + n + 1, out[k + n := Extend(v, s)]);
      } else if s == 0 && n == 15 {
        Advances(stream, b, t, k + 16, out);
      }
    }
  }

  /** Two lists of tokens that a stream carries, and s bits behind either up to the same place, are the same bits. */
  lemma SameBits(stream: Stream, a: Pending, x: seq<Token>, y: seq<Token>, s: nat)
    requires Forward(stream) && Carries(stream, a, x) && Carries(stream, a, y)
    requires GetBits(stream, Behind(stream, a, x), s).1 == GetBits(stream, Behind(stream, a, y), s).1
    ensures Joined(x) == Joined(y)
  {
    hide GetBits, Carries, Behind, Forward, Joined;
    JoinedRead(stream, a, x);
    JoinedRead(stream, a, y);
    BitsSplit(stream, a, Joined(x).size, s);
    BitsSplit(stream, a, Joined(y).size, s);
    SameLength(stream, a, Joined(x).size + s, Joined(y).size + s);
  }

  lemma EndAtLast(stream: Stream, a: Pending, t: Table, block: seq<int>)
    requires Ready(stream, a, t, block, 64)
    ensures End(stream, a, t, block, 64) == a
  {
  }

  lemma DecodedAtLast(stream: Stream, a: Pending, t: Table, out: seq<int>)
    requires t.Valid() && |out| == 64
    ensures DecodeAC(stream, a, t, 64, out) == Done((out, a))
  {
  }

  /** A block whose last coefficient is nonzero, read from the run in front of it on. */
  lemma LastRunAlike(stream: Stream, a: Pending, named: Table, picked: Table, block: seq<int>, k: nat, out: seq<int>)
    requires |block| == |out| == 64 && 1 <= k < 64 && Forward(stream) && picked.Valid()
    requires Ready(stream, a, named, block, k) && Partial(block, out, k) && k + ZeroRun(block, k) == 63
    requires DecodeAC(stream, a, picked, k, out) == Done((block, End(stream, a, named, block, k)))
    ensures RunAlike(named, picked, ZeroRun(block, k), Size(block[63]))
  {
    hide GetBits, Table.Valid, Pending.Valid, Size, AdditionalBits, Carries, Behind, Forward, Joined, RunCodes,
         RunTokens, RunCoded, ReadsRun;
    var (run, s) := (ZeroRun(block, k), Size(block[63]));
    var end := End(stream, a, named, block, k);
    var b, c := RunSent(stream, a, named, block, k);
    var b' := RunDecoded(stream, a, picked, k, run, out, block, end);
    hide Ready, End;
    EndAtLast(stream, c, named, block);
    DecodedAtLast(stream, GetBits(stream, b', s).1, picked, out[63 := block[63]]);
    var codes := CodesOfRun(stream, a, picked, run, s, b');
    SameBits(stream, a, codes, RunTokens(named, run, s), s);
  }

  /** A block with the AC coefficients before m all of size z, then zeros, and x at the end. */
  function TestBlock(z: nat, m: nat, x: int): (block: seq<int>)
    requires z > 0
    ensures |block| == 64
  {
    seq(64, i => if 1 <= i < m then P2(z - 1) else if i == 63 then x else 0)
  }

  lemma SizeOfPower(s: nat)
    requires s > 0
    ensures Size(P2(s - 1)) == s
  {
    Halved(s);
    hide P2;
    SizeIs(P2(s - 1), s);
  }

  lemma {:induction false} RunItemsCoded(t: Table, block: seq<int>, k: nat)
    requires |block| == 64 && k <= 64 && k + ZeroRun(block, k) < 64
    requires RunCoded(t, ZeroRun(block, k), Size(block[k + ZeroRun(block, k)]))
    requires AllCoded(t, RunLengths(block, k + ZeroRun(block, k) + 1))
    ensures AllCoded(t, RunLengths(block, k))
    decreases 64 - k
  {
    hide Coded, Size, AdditionalBits, ZeroRun;
    if ZeroRun(block, k) > 15 {
      ShorterRun(block, k);
      RunItemsCoded(t, block, k + 16);
    }
  }

  lemma {:induction false} TestBlockCoded(t: Table, z: nat, m: nat, x: int, k: nat)
    requires 1 <= z <= 15 && 1 <= k <= m <= 63 && RunCoded(t, 0, z)
    requires if x == 0 then Coded(t, 0) else RunCoded(t, 63 - m, Size(x))
    ensures AllCoded(t, RunLengths(TestBlock(z, m, x), k))
    decreases m - k
  {
    hide Coded, Size, AdditionalBits, P2, RunCoded;
    var block := TestBlock(z, m, x);
    if k < m {
      TestBlockCoded(t, z, m, x, k + 1);
      assert block[k] == P2(z - 1);
      ZeroRunIs(block, k, 0);
      SizeOfPower(z);
      RunItemsCoded(t, block, k);
    } else if x == 0 {
      ZeroRunIs(block, k, 64 - k);
    } else {
      ZeroRunIs(block, k, 63 - m);
      RunItemsCoded(t, block, k);
    }
  }

  lemma TestBlockSendable(z: nat, m: nat, x: int)
    requires 1 <= z <= 15 && Size(x) <= 15
    ensures Sendable(TestBlock(z, m, x))
  {
    SizeOfPower(z);
    SizeOfZero();
    hide Size, P2;
  }

  /** The tables that matter: all valid, DC and named AC table meeting the Kraft inequality, and the blocks coming
    * back. */
  ghost predicate Agreeing(dc: Table, named: Table, picked: Table) {
    && dc.Valid() && named.Valid() && picked.Valid() && |dc.bits| == |named.bits| == 17
    && KraftSum(dc.bits, 16) <= P2(16) && KraftSum(named.bits, 16) <= P2(16) && Coded(dc, 0)
    && AllReturn(dc, named, picked)
  }

  /** Blocks coming back, seen from the AC part of one block. */
  lemma Instance(dc: Table, named: Table, picked: Table, block: seq<int>) returns (stream: Stream, c: Pending)
    requires Agreeing(dc, named, picked) && Sendable(block) && block[0] == 0 && AllCoded(named, RunLengths(block, 1))
    ensures named.Valid() && picked.Valid() && Forward(stream) && Ready(stream, c, named, block, 1)
    ensures DecodeAC(stream, c, picked, 1, Fresh(0)) == Done((block, End(stream, c, named, block, 1)))
  {
    SizeOfZero();
    assert |block| == 64;
    hide Table.Valid, Pending.Valid, KraftSum, P2, Coded, AllCoded, RunLengths, Sendable, DecodeAC, DecodeBlock,
         Carries, Behind, End, Ready, Size, Forward, Fits, Unstuffed;
    assert Difference(block, 0).symbol == 0;
    EncodedFits(dc, named, block, 0);
    var memory := Carriable(Encoded(dc, named, block, 0));
    MemoryIsForward(memory);
    stream := Unstuffed(memory);
    StartValid(Pending(0, 0, 0));
    assert Returns(Unstuffed(memory), Pending(0, 0, 0), dc, named, picked, block, 0);
    c := DcReadBack(stream, Pending(0, 0, 0), dc, named, picked, block, 0);
  }

  /** Through the coefficients before m both tables lead to the same place. */
  lemma {:induction false} Through(stream: Stream, a: Pending, named: Table, picked: Table, z: nat, m: nat, x: int,
                                   k: nat, out: seq<int>) returns (c: Pending, out': seq<int>)
    requires 1 <= z <= 15 && 1 <= k <= m <= 63 && picked.Valid() && RunAlike(named, picked, 0, z) && |out| == 64
    requires Size(x) <= 15 && Ready(stream, a, named, TestBlock(z, m, x), k) && Partial(TestBlock(z, m, x), out, k)
    ensures Leads(stream, a, c, named, TestBlock(z, m, x), k, m) && |out'| == 64 && Partial(TestBlock(z, m, x), out', m)
    ensures DecodeAC(stream, a, picked, k, out) == DecodeAC(stream, c, picked, m, out')
    decreases m - k
  {
    hide RunAlike, Ready, End, DecodeAC, Table.Valid, Size, P2, Partial, Pending.Valid;
    var block := TestBlock(z, m, x);
    if k == m {
      c, out' := a, out;
    } else {
      assert block[k] == P2(z - 1);
      ZeroRunIs(block, k, 0);
      SizeOfPower(z);
      TestBlockSendable(z, m, x);
      var b := AlikeStep(stream, a, named, picked, block, k, out);
      PartialAfterCoefficient(block, out, k);
      c, out' := Through(stream, b, named, picked, z, m, x, k + 1, out[k := block[k]]);
    }
  }

  /** If all blocks come back and one size of coefficient without a run is spelled alike, so is every run and size. */
  lemma RunsMustBeAlike(dc: Table, named: Table, picked: Table, z: nat, run: nat, s: nat)
    requires Agreeing(dc, named, picked) && 1 <= z <= 15 && RunCoded(named, 0, z) && RunAlike(named, picked, 0, z)
    requires run <= 62 && 1 <= s <= 15
    ensures RunAlike(named, picked, run, s)
  {
    hide Agreeing, Ready, End, DecodeAC, Table.Valid, Size, P2, Partial, Pending.Valid, Forward, RunAlike, Sendable,
         AllCoded;
    if RunCoded(named, run, s) {
      var (m, x) := (63 - run, P2(s - 1));
      var block := TestBlock(z, m, x);
      SizeOfPower(s);
      TestBlockCoded(named, z, m, x, 1);
      TestBlockSendable(z, m, x);
      var stream, a := Instance(dc, named, picked, block);
      FreshIsPartial(block);
      var c, out := Through(stream, a, named, picked, z, m, x, 1, Fresh(0));
      ZeroRunIs(block, m, run);
      LastRunAlike(stream, c, named, picked, block, m, out);
    } else {
      NotCoded(named, picked, run, s);
    }
  }

  lemma NotCoded(named: Table, picked: Table, run: nat, s: nat)
    requires !RunCoded(named, run, s)
    ensures RunAlike(named, picked, run, s)
  {
  }

  /** At the last coefficient one symbol that writes nothing ends the block. */
  lemma LastSymbol(stream: Stream, a: Pending, t: Table, out: seq<int>, end: Pending)
    requires a.Valid() && t.Valid() && |out| == 64 && out[63] == 0
             && DecodeAC(stream, a, t, 63, out) == Done((out, end))
    ensures var r := NextSymbol(stream, a, t);
            r.Done? && r.value.1 == end && forall s :: ActionOf(r.value.0) != Write(0, s)
  {
    hide GetBits, Table.Valid, NextSymbol, Extend, Pending.Valid, P2;
    var token := CodeOfSymbol(stream, a, t);
    var (y, b) := NextSymbol(stream, a, t).value;
    StaysValid(stream, a, token.size);
    var (n, s) := (y / 16 % 16, y % 16);
    if s > 0 && n == 0 {
      var v := GetBits(stream, b, s).0;
      BitsFit(stream, b, s);
      ExtendNonzero(v, s);
      assert false;
    }
  }

  /** A symbol that ends a zero block at once is an end of block. */
  lemma FirstIsStop(stream: Stream, a: Pending, t: Table, y: nat, out: seq<int>, block: seq<int>, end: Pending)
    requires a.Valid() && t.Valid() && Forward(stream) && |out| == |block| == 64
    requires NextSymbol(stream, a, t) == Done((y, end)) && DecodeAC(stream, a, t, 1, out) == Done((block, end))
    requires forall i | 1 <= i < 64 :: block[i] == 0
    ensures ActionOf(y) == Stop
  {
    hide GetBits, Table.Valid, NextSymbol, Extend, Pending.Valid, P2, Forward;
    var token := CodeOfSymbol(stream, a, t);
    StaysValid(stream, a, token.size);
    var (n, s) := (y / 16 % 16, y % 16);
    if s > 0 {
      var (v, c) := GetBits(stream, end, s);
      BitsFit(stream, end, s);
      ExtendNonzero(v, s);
      EarlierKept(stream, c, t, 1 + n + 1, out[1 + n := Extend(v, s)], 1 + n);
      assert false;
    } else if n == 15 {
      Advances(stream, end, t, 17, out);
      assert false;
    }
  }

  /** A block whose last coefficient is zero: where the named table sends its end of block, the picked one reads a
    * codeword of the same bits. */
  lemma EndCode(stream: Stream, a: Pending, named: Table, picked: Table, out: seq<int>) returns (action: Action)
    requires picked.Valid() && |out| == 64 && out[63] == 0 && Forward(stream) && Ready(stream, a, named, out, 63)
    requires DecodeAC(stream, a, picked, 63, out) == Done((out, End(stream, a, named, out, 63)))
    ensures Coded(named, 0) && IsCode(picked, CodeFor(named, 0), action)
  {
    hide GetBits, Table.Valid, NextSymbol, Pending.Valid, Forward, IsCode, ActionOf;
    ZeroRunIs(out, 63, 1);
    EndSent(stream, a, named, out, 63);
    LastSymbol(stream, a, picked, out, End(stream, a, named, out, 63));
    var token := CodeOfSymbol(stream, a, picked);
    SameLength(stream, a, token.size, CodeFor(named, 0).size);
    assert token == CodeFor(named, 0);
    action := ActionOf(NextSymbol(stream, a, picked).value.0);
  }

  /** The end of block is spelled alike, too. */
  lemma EndMustBeAlike(dc: Table, named: Table, picked: Table, z: nat)
    requires Agreeing(dc, named, picked) && 1 <= z <= 15 && RunCoded(named, 0, z) && RunAlike(named, picked, 0, z)
    requires Coded(named, 0)
    ensures IsCode(picked, CodeFor(named, 0), Stop)
  {
    hide Agreeing, Ready, End, DecodeAC, Table.Valid, Size, P2, Partial, Pending.Valid, Forward, RunAlike, Sendable,
         AllCoded, RunCoded, Coded, IsCode, ActionOf, NextSymbol, GetBits;
    SizeOfZero();
    var block := TestBlock(z, 63, 0);
    TestBlockCoded(named, z, 63, 0, 1);
    TestBlockSendable(z, 63, 0);
    var stream, a := Instance(dc, named, picked, block);
    FreshIsPartial(block);
    var c, out := Through(stream, a, named, picked, z, 63, 0, 1, Fresh(0));
    ZeroRunIs(block, 63, 1);
    NothingLeft(block, out, 63);
    var action := EndCode(stream, c, named, picked, block);
    EndAtOnce(dc, named, picked, z, action);
  }

  lemma EndAtOnce(dc: Table, named: Table, picked: Table, z: nat, action: Action)
    requires Agreeing(dc, named, picked) && 1 <= z <= 15 && RunCoded(named, 0, z) && Coded(named, 0)
    requires IsCode(picked, CodeFor(named, 0), action)
    ensures action == Stop
  {
    hide Agreeing, Ready, DecodeAC, Table.Valid, Size, P2, Forward, Sendable, AllCoded,
         RunCoded, Coded, IsCode, ActionOf, NextSymbol, GetBits;
    SizeOfZero();
    var block := TestBlock(z, 1, 0);
    TestBlockCoded(named, z, 1, 0, 1);
    TestBlockSendable(z, 1, 0);
    var stream, a := Instance(dc, named, picked, block);
    ReadyValid(stream, a, named, block, 1);
    ZeroRunIs(block, 1, 63);
    EndSent(stream, a, named, block, 1);
    CodeRead(stream, a, picked, CodeFor(named, 0), action);
    var y := NextSymbol(stream, a, picked).value.0;
    FirstIsStop(stream, a, picked, y, Fresh(0), block, End(stream, a, named, block, 1));
  }

  /** Bits for blocks without zeros: d, then 63 times w and s bits, those of v the first time and after that zeros up
    * to the cut and ones from there on. */
  function DenseBit(d: Token, w: Token, v: Token, cut: nat, j: nat): bool
    requires v.size > 0
  {
    if j < d.size then BitIn(d, j)
    else
      var (q, o) := ((j - d.size) / (w.size + v.size), (j - d.size) % (w.size + v.size));
      if o < w.size then BitIn(w, o) else if q == 0 then BitIn(v, o - w.size) else j >= cut
  }

  function Dense(d: Token, w: Token, v: Token, cut: nat): Bits
    requires v.size > 0
  {
    (j: nat) => DenseBit(d, w, v, cut, j)
  }

  lemma DenseAt(d: Token, w: Token, v: Token, cut: nat, q: nat, o: nat, j: nat)
    requires v.size > 0 && o < w.size + v.size && j == d.size + q * (w.size + v.size) + o
    ensures Dense(d, w, v, cut)(j) == if o < w.size then BitIn(w, o) else if q == 0 then BitIn(v, o - w.size)
            else j >= cut
  {
    hide BitIn;
    DivModUnique(j - d.size, w.size + v.size, q, o);
  }

  /** Every unit begins with w, the first goes on with v. */
  lemma DenseUnit(d: Token, w: Token, v: Token, cut: nat, q: nat, i: nat)
    requires v.size > 0 && i == d.size + q * (w.size + v.size)
    ensures Holds(Dense(d, w, v, cut), i, w, w.size) && (q == 0 ==> Holds(Dense(d, w, v, cut), i + w.size, v, v.size))
  {
    hide BitIn, Dense;
    forall o: nat | o < w.size + v.size
      ensures Dense(d, w, v, cut)(i + o) == if o < w.size then BitIn(w, o) else if q == 0 then BitIn(v, o - w.size)
              else i + o >= cut
    {
      DenseAt(d, w, v, cut, q, o, i + o);
    }
    forall o: nat | o < v.size && q == 0
      ensures Dense(d, w, v, cut)(i + w.size + o) == BitIn(v, o)
    {
      DenseAt(d, w, v, cut, q, w.size + o, i + w.size + o);
    }
  }

  lemma DenseStart(d: Token, w: Token, v: Token, cut: nat)
    requires v.size > 0
    ensures Holds(Dense(d, w, v, cut), 0, d, d.size)
  {
    hide BitIn;
  }

  /** The block sent by those bits. */
  function DenseBlock(d: Token, w: Token, v: Token, cut: nat): (block: seq<int>)
    requires v.size > 0
    ensures |block| == 64 && block[0] == 0
  {
    seq(64, k requires 0 <= k < 64 => if k == 0 then 0 else
      Extend(Num(Dense(d, w, v, cut), d.size + (k - 1) * (w.size + v.size) + w.size, v.size), v.size))
  }

  /** One more item in front. */
  lemma SentBefore(stream: Stream, a: Pending, t: Table, item: Item, items: seq<Item>, b: Pending, c: Pending)
    requires Coded(t, item.symbol) && AllCoded(t, items) && Carries(stream, c, AllSent(t, items))
    requires GetBits(stream, a, CodeFor(t, item.symbol).size) == (CodeFor(t, item.symbol).value, b)
    requires GetBits(stream, b, item.size) == (item.value, c)
    ensures AllCoded(t, [item] + items) && Carries(stream, a, AllSent(t, [item] + items))
  {
    hide GetBits, Coded, CodeFor;
    var all := [item] + items;
    assert all[0] == item && all[1..] == items;
    var tokens := AllSent(t, all);
    assert tokens == Sent(t, item) + AllSent(t, items);
    assert tokens[0] == CodeFor(t, item.symbol) && tokens[1..][0] == Token(item.value, item.size);
    assert tokens[1..][1..] == AllSent(t, items);
  }

  lemma DenseValue(d: Token, w: Token, v: Token, cut: nat, k: nat)
    requires v.size > 0 && 1 <= k < 64
    ensures var (x, n) := (DenseBlock(d, w, v, cut)[k],
                           Num(Dense(d, w, v, cut), d.size + (k - 1) * (w.size + v.size) + w.size, v.size));
            x == Extend(n, v.size) && x != 0 && Size(x) == v.size && AdditionalBits(x) == n
  {
    hide Dense, Num, Size, AdditionalBits, Extend;
    var n := Num(Dense(d, w, v, cut), d.size + (k - 1) * (w.size + v.size) + w.size, v.size);
    NumFits(Dense(d, w, v, cut), d.size + (k - 1) * (w.size + v.size) + w.size, v.size);
    ExtendNonzero(n, v.size);
  }

  lemma {:induction false} DenseCarried(t: Table, d: Token, w: Token, v: Token, cut: nat, k: nat, i: nat)
    requires 1 <= v.size && Coded(t, v.size) && CodeFor(t, v.size) == w && w.value < P2(w.size)
    requires 1 <= k <= 64 && i == d.size + (k - 1) * (w.size + v.size)
    ensures var (h, items) := (Dense(d, w, v, cut), RunLengths(DenseBlock(d, w, v, cut), k));
            AllCoded(t, items) && Carries(Packed(h), At(h, i), AllSent(t, items))
    decreases 64 - k
  {
    hide Dense, DenseBlock, Num, Size, AdditionalBits, Coded, CodeFor, P2, At, Packed, GetBits, Holds;
    var h, block := Dense(d, w, v, cut), DenseBlock(d, w, v, cut);
    if k < 64 {
      NextUnit(k, w.size + v.size);
      DenseCarried(t, d, w, v, cut, k + 1, i + w.size + v.size);
      DenseUnit(d, w, v, cut, k - 1, i);
      TokenRead(h, i, w);
      DenseValue(d, w, v, cut, k);
      ReadAt(h, i + w.size, v.size);
      ZeroRunIs(block, k, 0);
      SentBefore(Packed(h), At(h, i), t, Item(v.size, Num(h, i + w.size, v.size), v.size), RunLengths(block, k + 1),
                 At(h, i + w.size), At(h, i + w.size + v.size));
    }
  }

  lemma NextUnit(k: nat, u: nat)
    requires k >= 1
    ensures (k - 1) * u + u == k * u
  {
  }

  lemma DenseSendable(d: Token, w: Token, v: Token, cut: nat)
    requires 1 <= v.size <= 15
    ensures Sendable(DenseBlock(d, w, v, cut))
  {
    hide Dense, DenseBlock, Num, Size, AdditionalBits, Extend;
    forall k | 1 <= k < 64
      ensures Size(DenseBlock(d, w, v, cut)[k]) <= 15
    {
      DenseValue(d, w, v, cut, k);
    }
  }

  /** The DC codeword for no difference, read from the front. */
  lemma NoDifference(h: Bits, dc: Table)
    requires dc.Valid() && |dc.bits| == 17 && KraftSum(dc.bits, 16) <= P2(16) && Coded(dc, 0)
    requires Holds(h, 0, CodeFor(dc, 0), CodeFor(dc, 0).size)
    ensures var d := CodeFor(dc, 0);
            && GetBits(Packed(h), At(h, 0), d.size) == (d.value, At(h, d.size)) && At(h, 0).Valid()
            && NextSymbol(Packed(h), At(h, 0), dc) == Done((0, At(h, d.size)))
  {
    hide GetBits, Table.Valid, NextSymbol, P2, Packed, At, Holds, Codeword, KraftSum;
    var d := CodeFor(dc, 0);
    var k, l :| CodeOf(dc, 0, k, l) && d == Token(Codeword(dc.bits, k, l), l);
    CodewordsFit(dc.bits, k, l);
    TokenRead(h, 0, d);
    AtValid(h, 0);
    SymbolOfCodeword(Packed(h), At(h, 0), dc, k, l);
  }

  lemma DifferenceSent(stream: Stream, a: Pending, dc: Table, named: Table, block: seq<int>)
    requires |block| == 64 && block[0] == 0 && Coded(dc, 0) && AllCoded(named, RunLengths(block, 1))
    requires var (v, c) := GetBits(stream, a, CodeFor(dc, 0).size);
             v == CodeFor(dc, 0).value && Carries(stream, c, AllSent(named, RunLengths(block, 1)))
    ensures Encodable(dc, named, block, 0) && Carries(stream, a, Encoded(dc, named, block, 0))
  {
    SizeOfZero();
    hide GetBits, Coded, CodeFor, AllCoded, AllSent, RunLengths, Size;
    var c := GetBits(stream, a, CodeFor(dc, 0).size).1;
    NoBits(stream, c);
    assert Difference(block, 0) == Item(0, 0, 0);
    var tokens := Encoded(dc, named, block, 0);
    assert tokens[0] == CodeFor(dc, 0) && tokens[1..][0] == Token(0, 0);
    assert tokens[1..][1..] == AllSent(named, RunLengths(block, 1));
  }

  /** The block without zeros comes back, seen from its AC part. */
  lemma DenseInstance(dc: Table, named: Table, picked: Table, v: Token, cut: nat)
    requires Agreeing(dc, named, picked) && 1 <= v.size <= 15 && Coded(named, v.size)
    requires CodeFor(named, v.size).value < P2(CodeFor(named, v.size).size)
    ensures var (d, w) := (CodeFor(dc, 0), CodeFor(named, v.size));
            var (h, block) := (Dense(d, w, v, cut), DenseBlock(d, w, v, cut));
            var r := DecodeAC(Packed(h), At(h, d.size), picked, 1, Fresh(0));
            r.Done? && r.value.0 == block
  {
    var (d, w) := (CodeFor(dc, 0), CodeFor(named, v.size));
    var (h, block) := (Dense(d, w, v, cut), DenseBlock(d, w, v, cut));
    hide GetBits, Table.Valid, NextSymbol, P2, Packed, At, Holds, KraftSum, Dense, DenseBlock, Coded, CodeFor,
         DecodeAC, Carries, AllCoded, AllSent, RunLengths, Fresh, Sendable, Encodable, Encoded, Pending.Valid;
    DenseStart(d, w, v, cut);
    NoDifference(h, dc);
    DenseCarried(named, d, w, v, cut, 1, d.size);
    DifferenceSent(Packed(h), At(h, 0), dc, named, block);
    DenseSendable(d, w, v, cut);
    assert Returns(Unstuffed(MemoryOf(h)), At(h, 0), dc, named, picked, block, 0);
  }

  /** The picked table reads those bits as a codeword for a coefficient without a run, and v behind it. */
  lemma DenseRead(dc: Table, named: Table, picked: Table, v: Token, cut: nat) returns (token: Token)
    requires Agreeing(dc, named, picked) && 1 <= v.size <= 15 && Coded(named, v.size) && v.value < P2(v.size)
    requires CodeFor(named, v.size).value < P2(CodeFor(named, v.size).size)
    ensures var d := CodeFor(dc, 0); var h := Dense(d, CodeFor(named, v.size), v, cut);
            && IsCode(picked, token, Write(0, v.size)) && Num(h, d.size, token.size) == token.value
            && Num(h, d.size + token.size, v.size) == v.value
  {
    hide *;
    DenseInstance(dc, named, picked, v, cut);
    AgreeingValid(dc, named, picked);
    var (d, w) := (CodeFor(dc, 0), CodeFor(named, v.size));
    FirstDense(d, w, v, cut);
    token := FirstRead(Dense(d, w, v, cut), d.size, picked, DenseBlock(d, w, v, cut));
  }

  /** The first coefficient of a block, read from a bit position. */
  lemma FirstRead(h: Bits, i: nat, t: Table, block: seq<int>) returns (token: Token)
    requires t.Valid() && |block| == 64 && block[1] != 0
    requires var r := DecodeAC(Packed(h), At(h, i), t, 1, Fresh(0)); r.Done? && r.value.0 == block
    ensures IsCode(t, token, Write(0, Size(block[1]))) && Num(h, i, token.size) == token.value
    ensures Num(h, i + token.size, Size(block[1])) == AdditionalBits(block[1])
  {
    hide GetBits, Table.Valid, NextSymbol, P2, Packed, At, DecodeAC, Size, AdditionalBits, Pending.Valid, IsCode, Num;
    var a, s := At(h, i), Size(block[1]);
    AtValid(h, i);
    var b := RunDecoded(Packed(h), a, t, 1, 0, Fresh(0), block, DecodeAC(Packed(h), a, t, 1, Fresh(0)).value.1);
    var codes := CodesOfRun(Packed(h), a, t, 0, s, b);
    token := codes[0];
    assert codes[1..] == [];
    ReadAt(h, i, token.size);
    ReadAt(h, i + token.size, s);
  }

  lemma AgreeingValid(dc: Table, named: Table, picked: Table)
    requires Agreeing(dc, named, picked)
    ensures dc.Valid() && named.Valid() && picked.Valid() && Coded(dc, 0)
  {
  }

  lemma FirstDense(d: Token, w: Token, v: Token, cut: nat)
    requires 1 <= v.size && v.value < P2(v.size)
    ensures var x := DenseBlock(d, w, v, cut)[1]; x != 0 && Size(x) == v.size && AdditionalBits(x) == v.value
  {
    hide P2, Dense, DenseBlock, Num, Size, AdditionalBits, Extend, Holds;
    DenseValue(d, w, v, cut, 1);
    DenseUnit(d, w, v, cut, 0, d.size);
    NumOfToken(Dense(d, w, v, cut), d.size + w.size, v);
  }

  lemma NumOfToken(h: Bits, i: nat, token: Token)
    requires token.value < P2(token.size) && Holds(h, i, token, token.size)
    ensures Num(h, i, token.size) == token.value
  {
    hide P2, Holds, Upper;
    LeadingBits(h, i, token, token.size);
    UpperEnds(token.value, 0);
  }

  /** Bits that show the value of a token are its bits. */
  lemma BitsOfNum(h: Bits, i: nat, token: Token)
    requires token.value < P2(token.size) && Num(h, i, token.size) == token.value
    ensures Holds(h, i, token, token.size)
  {
    hide P2, BitIn;
    var g: Bits := (j: nat) => j >= i && BitIn(token, j - i);
    NumOfToken(g, i, token);
    NumAgrees(h, g, i, token.size);
  }

  /** Of the codewords of a table only one begins a stream. */
  lemma OneToken(h: Bits, i: nat, t: Table, token: Token, token': Token, action: Action, action': Action)
    requires t.Valid() && IsCode(t, token, action) && IsCode(t, token', action')
    requires Num(h, i, token.size) == token.value && Num(h, i, token'.size) == token'.value
    ensures token == token'
  {
    hide Table.Valid, P2, Codeword, HasLength, Num, At, Packed, GetBits;
    var k: nat :| CodeAt(t, token, action, k);
    var k': nat :| CodeAt(t, token', action', k');
    AtValid(h, i);
    ReadAt(h, i, token.size);
    ReadAt(h, i, token'.size);
    OnlyOneBegins(Packed(h), At(h, i), t.bits, k, token.size, k', token'.size);
  }

  /** Dense bits agree up to the cuts. */
  lemma CutsAgree(d: Token, w: Token, v: Token, cut: nat, cut': nat, n: nat)
    requires v.size > 0 && d.size + n <= cut && d.size + n <= cut'
    ensures Num(Dense(d, w, v, cut), d.size, n) == Num(Dense(d, w, v, cut'), d.size, n)
  {
    hide BitIn;
    NumAgrees(Dense(d, w, v, cut), Dense(d, w, v, cut'), d.size, n);
  }

  /** Whatever v is, the bits begin with w. */
  lemma WordsAgree(d: Token, w: Token, v: Token, v': Token, cut: nat, n: nat)
    requires v.size == v'.size > 0 && n <= w.size
    ensures Num(Dense(d, w, v, cut), d.size, n) == Num(Dense(d, w, v', cut), d.size, n)
  {
    hide BitIn, Dense, Num;
    var h, h' := Dense(d, w, v, cut), Dense(d, w, v', cut);
    forall j | d.size <= j < d.size + n
      ensures h(j) == h'(j)
    {
      DenseAt(d, w, v, cut, 0, j - d.size, j);
      DenseAt(d, w, v', cut, 0, j - d.size, j);
    }
    NumAgrees(h, h', d.size, n);
  }

  /** A one and then zeros, or a zero and then ones. */
  predicate Edge(v: Token) {
    v.size > 0 && v.value < P2(v.size) && forall j | 1 <= j < v.size :: BitIn(v, j) != BitIn(v, 0)
  }

  lemma UpperOfPower(n: nat, k: nat)
    ensures Upper(P2(n), k) == if k <= n then P2(n - k) else 0
  {
    if k <= n {
      P2Add(n - k, k);
      hide P2;
      DivModUnique(P2(n), P2(k), P2(n - k), 0);
    } else {
      P2Monotone(n, k);
      hide P2;
      DivModUnique(P2(n), P2(k), 0, P2(n));
    }
  }

  lemma RisingEdge(s: nat)
    requires s > 0
    ensures var v := Token(P2(s - 1), s); Edge(v) && BitIn(v, 0)
  {
    var v := Token(P2(s - 1), s);
    OneIsOdd();
    Halved(s);
    hide P2, Upper;
    forall j: nat | j < s
      ensures BitIn(v, j) == (j == 0)
    {
      UpperOfPower(s - 1, s - 1 - j);
      if j > 0 {
        PowerIsEven(j);
      }
    }
  }

  lemma PowerIsEven(j: nat)
    requires j > 0
    ensures P2(j) % 2 == 0 && (P2(j) - 1) % 2 == 1
  {
    Halved(j);
    hide P2;
    TwiceIsEven(P2(j - 1));
  }

  lemma TwiceIsEven(y: nat)
    requires y > 0
    ensures 2 * y % 2 == 0 && (2 * y - 1) % 2 == 1
  {
    assert 2 * y - 1 == 2 * (y - 1) + 1;
  }

  lemma OneIsOdd()
    ensures P2(0) == 1
  {
  }

  lemma UpperOfOnes(n: nat, k: nat)
    ensures Upper(P2(n) - 1, k) == if k <= n then P2(n - k) - 1 else 0
  {
    if k <= n {
      P2Add(n - k, k);
      hide P2;
      OnesSplit(P2(n - k), P2(k));
      DivTimesUnique(P2(n) - 1, P2(k), P2(n - k) - 1, P2(k) - 1);
    } else {
      P2Monotone(n, k);
      hide P2;
      OnesSplit(1, P2(k));
      DivTimesUnique(P2(n) - 1, P2(k), 0, P2(n) - 1);
    }
  }

  lemma OnesSplit(x: nat, y: nat)
    requires x > 0
    ensures x * y == Times(x - 1, y) + y && Times(0, y) == 0
  {
    assert (x - 1) * y == x * y - y;
  }

  lemma FallingEdge(s: nat)
    requires s > 0
    ensures var v := Token(P2(s - 1) - 1, s); Edge(v) && !BitIn(v, 0)
  {
    var v := Token(P2(s - 1) - 1, s);
    Halved(s);
    forall j: nat | j < s
      ensures BitIn(v, j) == (j > 0)
    {
      hide P2, Upper;
      UpperOfOnes(s - 1, s - 1 - j);
      if j > 0 {
        PowerIsEven(j);
      } else {
        OneIsOdd();
      }
    }
    hide P2, BitIn;
  }

  lemma ShowsAt(h: Bits, i: nat, v: Token, t: nat)
    requires v.value < P2(v.size) && Num(h, i, v.size) == v.value && t < v.size
    ensures h(i + t) == BitIn(v, t)
  {
    hide BitIn, Num, P2;
    BitsOfNum(h, i, v);
  }

  /** Behind a codeword longer than w the bits cannot show v again for both cuts: they would touch a bit of the
    * second or a later unit that differs, or they would be the edge shifted against itself, or w. */
  lemma NoLonger(d: Token, w: Token, v: Token, n: nat, cut: nat)
    requires Edge(v) && w.size <= v.size && w != v && w.value < P2(w.size) && w.size < n && d.size + n + v.size <= cut
    requires Num(Dense(d, w, v, cut), d.size + n, v.size) == v.value
    ensures Num(Dense(d, w, v, d.size + n), d.size + n, v.size) != v.value
  {
    hide BitIn, Dense, Num, Upper, P2;
    var (h, h', u) := (Dense(d, w, v, cut), Dense(d, w, v, d.size + n), w.size + v.size);
    var (q, o) := (n / u, n % u);
    DivMod(n, u);
    if Num(h', d.size + n, v.size) == v.value {
      if q == 0 {
        ShowsAt(h, d.size + n, v, 0);
        DenseAt(d, w, v, cut, 0, n, d.size + n);
      } else if o + v.size > w.size {
        var t := if o >= w.size then 0 else w.size - o;
        ShowsAt(h, d.size + n, v, t);
        ShowsAt(h', d.size + n, v, t);
        DenseAt(d, w, v, cut, q, o + t, d.size + n + t);
        DenseAt(d, w, v, d.size + n, q, o + t, d.size + n + t);
      } else {
        DenseUnit(d, w, v, cut, q, d.size + n);
        NumOfToken(h, d.size + n, w);
      }
      assert false;
    }
  }

  lemma CodeFits(t: Table, symbol: nat)
    requires |t.bits| == 17 && KraftSum(t.bits, 16) <= P2(16) && Coded(t, symbol)
    ensures CodeFor(t, symbol).value < P2(CodeFor(t, symbol).size)
  {
    hide P2, Codeword, KraftSum;
    var k, l :| CodeOf(t, symbol, k, l) && CodeFor(t, symbol) == Token(Codeword(t.bits, k, l), l);
    CodewordsFit(t.bits, k, l);
  }

  lemma CodeLength(t: Table, token: Token, action: Action)
    requires IsCode(t, token, action)
    ensures 1 <= token.size <= 16
  {
    hide P2, Codeword;
  }

  /** Two cuts with the same codeword read, longer than w. */
  lemma TooLong(t: Table, d: Token, w: Token, v: Token, cut: nat, token: Token, token': Token)
    requires t.Valid() && v.size > 0 && Edge(v) && w.value < P2(w.size) && w.size <= v.size && w != v
             && w.size < token.size
    requires IsCode(t, token, Write(0, v.size)) && IsCode(t, token', Write(0, v.size))
             && d.size + token.size + v.size <= cut
    requires var h := Dense(d, w, v, cut);
             Num(h, d.size, token.size) == token.value && Num(h, d.size + token.size, v.size) == v.value
    requires Num(Dense(d, w, v, d.size + token.size), d.size, token'.size) == token'.value
    ensures Num(Dense(d, w, v, d.size + token.size), d.size + token'.size, v.size) != v.value
  {
    hide *;
    CutsAgree(d, w, v, cut, d.size + token.size, token.size);
    OneToken(Dense(d, w, v, d.size + token.size), d.size, t, token, token', Write(0, v.size), Write(0, v.size));
    NoLonger(d, w, v, token.size, cut);
  }

  /** A codeword that is read instead of w, no matter what follows, is not longer than w. */
  lemma NotLonger(dc: Table, named: Table, picked: Table, v: Token) returns (token: Token)
    requires Agreeing(dc, named, picked) && 1 <= v.size <= 15 && Coded(named, v.size) && Edge(v)
    requires var w := CodeFor(named, v.size); w.value < P2(w.size) && w.size <= v.size && w != v
    ensures var d := CodeFor(dc, 0); var h := Dense(d, CodeFor(named, v.size), v, d.size + 32);
            && IsCode(picked, token, Write(0, v.size)) && token.size <= CodeFor(named, v.size).size
            && Num(h, d.size, token.size) == token.value && Num(h, d.size + token.size, v.size) == v.value
  {
    hide *;
    EdgeFits(v);
    AgreeingValid(dc, named, picked);
    var (d, w) := (CodeFor(dc, 0), CodeFor(named, v.size));
    token := DenseRead(dc, named, picked, v, d.size + 32);
    CodeLength(picked, token, Write(0, v.size));
    var token' := DenseRead(dc, named, picked, v, d.size + token.size);
    if token.size > w.size {
      TooLong(picked, d, w, v, d.size + 32, token, token');
      assert false;
    }
  }

  lemma EdgeFits(v: Token)
    requires Edge(v)
    ensures v.value < P2(v.size)
  {
  }

  /** A codeword shorter than w would have to be followed by values with either first bit. */
  lemma TooShort(t: Table, d: Token, w: Token, v: Token, v': Token, cut: nat, token: Token, token': Token)
    requires t.Valid() && Edge(v) && Edge(v') && v.size == v'.size > 0 && BitIn(v, 0) != BitIn(v', 0)
             && token.size < w.size
    requires IsCode(t, token, Write(0, v.size)) && IsCode(t, token', Write(0, v.size))
    requires var h := Dense(d, w, v, cut);
             Num(h, d.size, token.size) == token.value && Num(h, d.size + token.size, v.size) == v.value
    requires Num(Dense(d, w, v', cut), d.size, token'.size) == token'.value
    ensures Num(Dense(d, w, v', cut), d.size + token'.size, v.size) != v'.value
  {
    hide *;
    var (h, h', n) := (Dense(d, w, v, cut), Dense(d, w, v', cut), token.size);
    WordsAgree(d, w, v, v', cut, n);
    OneToken(h', d.size, t, token, token', Write(0, v.size), Write(0, v.size));
    EdgeFits(v);
    EdgeFits(v');
    ShowsAt(h, d.size + n, v, 0);
    DenseAt(d, w, v, cut, 0, n, d.size + n);
    DenseAt(d, w, v', cut, 0, n, d.size + n);
    if Num(h', d.size + n, v.size) == v'.value {
      ShowsAt(h', d.size + n, v', 0);
      assert false;
    }
  }

  lemma WordRead(dc: Table, named: Table, picked: Table, v: Token, v': Token)
    requires Agreeing(dc, named, picked) && 1 <= v.size <= 15 && Coded(named, v.size)
    requires Edge(v) && Edge(v') && v'.size == v.size && BitIn(v, 0) != BitIn(v', 0)
    requires var w := CodeFor(named, v.size); w.value < P2(w.size) && w.size <= v.size && w != v
    ensures IsCode(picked, CodeFor(named, v.size), Write(0, v.size))
  {
    hide *;
    EdgeFits(v);
    EdgeFits(v');
    AgreeingValid(dc, named, picked);
    var (d, w) := (CodeFor(dc, 0), CodeFor(named, v.size));
    var token := NotLonger(dc, named, picked, v);
    var token' := DenseRead(dc, named, picked, v', d.size + 32);
    if token.size < w.size {
      TooShort(picked, d, w, v, v', d.size + 32, token, token');
      assert false;
    }
    DenseUnit(d, w, v, d.size + 32, 0, d.size);
    NumOfToken(Dense(d, w, v, d.size + 32), d.size, w);
    assert token == w;
  }

  /** If all blocks come back, a coefficient without a run whose codeword is no longer than its value is spelled
    * alike. */
  lemma AnchorMustBeAlike(dc: Table, named: Table, picked: Table, s: nat)
    requires Agreeing(dc, named, picked) && 1 <= s <= 15 && Coded(named, s) && CodeFor(named, s).size <= s
    ensures RunAlike(named, picked, 0, s)
  {
    AgreeingFits(dc, named, picked, s);
    hide *;
    RisingEdge(s);
    FallingEdge(s);
    var (rise, fall, w) := (Token(P2(s - 1), s), Token(P2(s - 1) - 1, s), CodeFor(named, s));
    if w != rise {
      WordRead(dc, named, picked, rise, fall);
    } else {
      WordRead(dc, named, picked, fall, rise);
    }
    AloneAlike(named, picked, s);
  }

  lemma AgreeingFits(dc: Table, named: Table, picked: Table, symbol: nat)
    requires Agreeing(dc, named, picked) && Coded(named, symbol)
    ensures CodeFor(named, symbol).value < P2(CodeFor(named, symbol).size)
  {
    hide KraftSum, P2, Coded, CodeFor, AllReturn;
    CodeFits(named, symbol);
  }

  lemma AloneAlike(named: Table, picked: Table, s: nat)
    requires Coded(named, s) && IsCode(picked, CodeFor(named, s), Write(0, s))
    ensures RunAlike(named, picked, 0, s)
  {
    hide IsCode, Coded, CodeFor, Joined;
    var codes := [CodeFor(named, s)];
    assert RunCodes(picked, codes, 0, s) && codes == RunTokens(named, 0, s);
  }

  /** A size by which the two tables can be told apart or must agree: the named table codes it without a run, and the
    * picked one spells it alike or its codeword is no longer than the value behind it. */
  ghost predicate Anchor(named: Table, picked: Table, s: nat) {
    1 <= s <= 15 && Coded(named, s) && (RunAlike(named, picked, 0, s) || CodeFor(named, s).size <= s)
  }

  /** The tables a component's numbers stand for. */
  ghost predicate Numbered(dc: seq<Table>, ac: seq<Table>, comp: Component) {
    comp.dcTblNo < |dc| && comp.dcTblNo < |ac| && comp.acTblNo < |ac|
  }

  /** Picking the AC table by the component's DC table number is harmless exactly when it spells alike everything the
    * encoder sends with the table of the AC number: the end of block, and every run and size that table codes. */
  lemma BlocksReturnExactly(dc: seq<Table>, ac: seq<Table>, comp: Component, s: nat)
    requires Numbered(dc, ac, comp)
    requires var (difference, named, picked) := (dc[comp.dcTblNo], ac[comp.acTblNo], ac[comp.dcTblNo]);
             && difference.Valid() && named.Valid() && picked.Valid() && |difference.bits| == |named.bits| == 17
             && KraftSum(difference.bits, 16) <= P2(16) && KraftSum(named.bits, 16) <= P2(16)
             && Coded(difference, 0) && Coded(named, 0) && Anchor(named, picked, s)
    ensures AllReturn(dc[comp.dcTblNo], ac[comp.acTblNo], ac[comp.dcTblNo]) <==>
              Interchangeable(ac[comp.acTblNo], ac[comp.dcTblNo])
  {
    var (difference, named, picked) := (dc[comp.dcTblNo], ac[comp.acTblNo], ac[comp.dcTblNo]);
    if Interchangeable(named, picked) {
      hide *;
      InterchangeableReturns(difference, named, picked);
    } else if AllReturn(difference, named, picked) {
      IsAgreeing(difference, named, picked);
      hide Agreeing, RunAlike, Interchangeable, AllReturn;
      if !RunAlike(named, picked, 0, s) {
        AnchorMustBeAlike(difference, named, picked, s);
      }
      MustBeInterchangeable(difference, named, picked, s);
      assert false;
    }
  }

  lemma IsAgreeing(dc: Table, named: Table, picked: Table)
    requires dc.Valid() && named.Valid() && picked.Valid() && |dc.bits| == |named.bits| == 17
    requires KraftSum(dc.bits, 16) <= P2(16) && KraftSum(named.bits, 16) <= P2(16) && Coded(dc, 0)
    requires AllReturn(dc, named, picked)
    ensures Agreeing(dc, named, picked)
  {
    hide P2, KraftSum, Table.Valid, AllReturn, Coded;
  }

  lemma MustBeInterchangeable(dc: Table, named: Table, picked: Table, s: nat)
    requires Agreeing(dc, named, picked) && 1 <= s <= 15 && Coded(named, s) && Coded(named, 0)
             && RunAlike(named, picked, 0, s)
    ensures Interchangeable(named, picked)
  {
    hide Agreeing, Coded, RunAlike, IsCode;
    EndMustBeAlike(dc, named, picked, s);
    forall run: nat, size: nat | run <= 62 && 1 <= size <= 15
      ensures RunAlike(named, picked, run, size)
    {
      RunsMustBeAlike(dc, named, picked, s, run, size);
    }
  }
}
