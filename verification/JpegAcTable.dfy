/** Reading blocks with another AC table than the one they were sent with: the decoder picks the AC table by the
  * component's DC table number. */
module JpegAcTable {
  import opened Arith
  import opened BitStream
  import opened BitSource
  import opened JpegBits
  import opened JpegHuffman
  import opened JpegBlock

  /** What the AC loop does with a symbol. */
  datatype Action = Write(run: nat, size: nat) | Skip | Stop

  function ActionOf(symbol: nat): Action {
    var (n, s) := (symbol / 16 % 16, symbol % 16);
    if s > 0 then Write(n, s) else if n == 15 then Skip else Stop
  }

  /** The token is a codeword of the table for a symbol with the given action. */
  ghost predicate IsCode(t: Table, token: Token, action: Action) {
    exists k: nat :: CodeAt(t, token, action, k)
  }

  ghost predicate CodeAt(t: Table, token: Token, action: Action, k: nat) {
    && HasLength(t.bits, k, token.size) && k < |t.huffval| && Codeword(t.bits, k, token.size) == token.value
    && token.value < P2(token.size) && ActionOf(t.huffval[k]) == action
  }

  /** Reading a run of zeros in front of a coefficient of size s: skips of 16 and a symbol that writes. */
  ghost predicate ReadsRun(stream: Stream, a: Pending, t: Table, run: nat, s: nat, b: Pending)
    requires t.Valid()
    decreases run
  {
    var r := NextSymbol(stream, a, t);
    && r.Done?
    && if run > 15 then ActionOf(r.value.0) == Skip && ReadsRun(stream, r.value.1, t, run - 16, s, b)
       else ActionOf(r.value.0) == Write(run, s) && r.value.1 == b
  }

  /** The codewords that are read so. */
  ghost predicate RunCodes(t: Table, codes: seq<Token>, run: nat, s: nat)
    decreases run
  {
    if run > 15 then |codes| > 0 && IsCode(t, codes[0], Skip) && RunCodes(t, codes[1..], run - 16, s)
    else |codes| == 1 && IsCode(t, codes[0], Write(run, s))
  }

  /** The table has the symbols to send a coefficient of size s behind a run of zeros. */
  ghost predicate RunCoded(t: Table, run: nat, s: nat)
    decreases run
  {
    if run > 15 then Coded(t, 0xF0) && RunCoded(t, run - 16, s) else Coded(t, 16 * run + s)
  }

  /** The codewords these symbols are sent as. */
  ghost function RunTokens(t: Table, run: nat, s: nat): seq<Token>
    requires RunCoded(t, run, s)
    decreases run
  {
    if run > 15 then [CodeFor(t, 0xF0)] + RunTokens(t, run - 16, s) else [CodeFor(t, 16 * run + s)]
  }

  /** Tokens as one bit string. */
  function Joined(tokens: seq<Token>): Token {
    if tokens == [] then Token(0, 0)
    else
      var rest := Joined(tokens[1..]);
      Token(Append(tokens[0].value, rest.size, rest.value), tokens[0].size + rest.size)
  }

  lemma {:induction false} JoinedRead(stream: Stream, a: Pending, tokens: seq<Token>)
    requires Carries(stream, a, tokens)
    ensures GetBits(stream, a, Joined(tokens).size) == (Joined(tokens).value, Behind(stream, a, tokens))
    decreases |tokens|
  {
    hide Append, GetBits, P2;
    if tokens == [] {
      NoBits(stream, a);
    } else {
      var b := GetBits(stream, a, tokens[0].size).1;
      BitsSplit(stream, a, tokens[0].size, Joined(tokens[1..]).size);
      JoinedRead(stream, b, tokens[1..]);
    }
  }

  lemma AppendFits(v: nat, m: nat, n: nat, w: nat)
    requires v < P2(m) && w < P2(n)
    ensures Append(v, n, w) < P2(m + n)
  {
    P2Add(m, n);
    hide P2;
    TimesBelow(v, w, P2(n), P2(m));
  }

  lemma AppendUnique(v: nat, w: nat, v': nat, w': nat, n: nat)
    requires w < P2(n) && w' < P2(n) && Append(v, n, w) == Append(v', n, w')
    ensures v == v' && w == w'
  {
    DivModUnique(Append(v, n, w), P2(n), v, w);
    DivModUnique(Append(v, n, w), P2(n), v', w');
  }

  lemma {:induction false} JoinedFits(tokens: seq<Token>)
    requires Fits(tokens)
    ensures Joined(tokens).value < P2(Joined(tokens).size)
  {
    hide Append, P2;
    if tokens == [] {
    } else {
      assert tokens[0] in tokens;
      JoinedFits(tokens[1..]);
      AppendFits(tokens[0].value, tokens[0].size, Joined(tokens[1..]).size, Joined(tokens[1..]).value);
    }
  }

  /** A stream that begins with the joined bits carries the tokens one by one. */
  lemma {:induction false} JoinedCarried(stream: Stream, a: Pending, tokens: seq<Token>)
    requires a.Valid() && Fits(tokens) && GetBits(stream, a, Joined(tokens).size).0 == Joined(tokens).value
    ensures Carries(stream, a, tokens)
    decreases |tokens|
  {
    hide Append, P2, GetBits, Pending.Valid;
    if tokens != [] {
      var (m, n) := (tokens[0].size, Joined(tokens[1..]).size);
      assert tokens[0] in tokens;
      JoinedFits(tokens[1..]);
      BitsSplit(stream, a, m, n);
      StaysValid(stream, a, m);
      var (v, b) := GetBits(stream, a, m);
      BitsFit(stream, b, n);
      AppendUnique(v, GetBits(stream, b, n).0, tokens[0].value, Joined(tokens[1..]).value, n);
      JoinedCarried(stream, b, tokens[1..]);
    }
  }

  lemma {:induction false} RunCodesFit(t: Table, codes: seq<Token>, run: nat, s: nat)
    requires RunCodes(t, codes, run, s)
    ensures Fits(codes)
    decreases run
  {
    hide P2, Codeword;
    if run > 15 {
      RunCodesFit(t, codes[1..], run - 16, s);
    }
  }

  /** A codeword read from the stream. */
  lemma CodeRead(stream: Stream, a: Pending, t: Table, token: Token, action: Action)
    requires a.Valid() && t.Valid() && IsCode(t, token, action) && GetBits(stream, a, token.size).0 == token.value
    ensures var r := NextSymbol(stream, a, t);
            r.Done? && ActionOf(r.value.0) == action && r.value.1 == GetBits(stream, a, token.size).1
  {
    hide GetBits, Table.Valid, NextSymbol, Pending.Valid, P2, Codeword;
    var k: nat :| CodeAt(t, token, action, k);
    SymbolOfCodeword(stream, a, t, k, token.size);
  }

  lemma Beginning(stream: Stream, a: Pending, t: Table) returns (k: nat, l: nat)
    requires t.Valid() && NextSymbol(stream, a, t).Done?
    ensures Begins(stream, a, t.bits, k, l)
  {
    var k', l' :| Begins(stream, a, t.bits, k', l');
    k, l := k', l';
  }

  /** The codeword behind a symbol that was read. */
  lemma CodeOfSymbol(stream: Stream, a: Pending, t: Table) returns (token: Token)
    requires a.Valid() && t.Valid() && NextSymbol(stream, a, t).Done?
    ensures var (y, b) := NextSymbol(stream, a, t).value;
            IsCode(t, token, ActionOf(y)) && GetBits(stream, a, token.size) == (token.value, b) && token.size > 0
  {
    var k, l := Beginning(stream, a, t);
    token := Token(Codeword(t.bits, k, l), l);
    hide GetBits, Table.Valid, Pending.Valid, P2, Codeword, NextSymbol;
    BitsFit(stream, a, l);
    SymbolOfCodeword(stream, a, t, k, l);
    assert CodeAt(t, token, ActionOf(t.huffval[k]), k);
  }

  lemma {:induction false} CodesRead(stream: Stream, a: Pending, t: Table, codes: seq<Token>, run: nat, s: nat)
    requires a.Valid() && t.Valid() && RunCodes(t, codes, run, s) && Carries(stream, a, codes)
    ensures ReadsRun(stream, a, t, run, s, Behind(stream, a, codes))
    decreases run
  {
    hide GetBits, Table.Valid, NextSymbol, Pending.Valid, IsCode;
    var b := GetBits(stream, a, codes[0].size).1;
    StaysValid(stream, a, codes[0].size);
    if run > 15 {
      CodeRead(stream, a, t, codes[0], Skip);
      CodesRead(stream, b, t, codes[1..], run - 16, s);
    } else {
      CodeRead(stream, a, t, codes[0], Write(run, s));
      assert codes[1..] == [];
    }
  }

  lemma {:induction false} CodesOfRun(stream: Stream, a: Pending, t: Table, run: nat, s: nat, b: Pending)
    returns (codes: seq<Token>)
    requires a.Valid() && t.Valid() && ReadsRun(stream, a, t, run, s, b)
    ensures RunCodes(t, codes, run, s) && Carries(stream, a, codes) && Behind(stream, a, codes) == b
    decreases run
  {
    hide GetBits, Table.Valid, NextSymbol, Pending.Valid, IsCode;
    var token := CodeOfSymbol(stream, a, t);
    var c := NextSymbol(stream, a, t).value.1;
    StaysValid(stream, a, token.size);
    codes := [token];
    assert codes[1..] == [];
    if run > 15 {
      var rest := CodesOfRun(stream, c, t, run - 16, s, b);
      codes := [token] + rest;
      assert codes[1..] == rest;
    }
  }

  /** The picked table reads the end-of-block codeword as an end of block. */
  ghost predicate EndAlike(named: Table, picked: Table) {
    Coded(named, 0) ==> IsCode(picked, CodeFor(named, 0), Stop)
  }

  /** The picked table spells a run and a coefficient with the same bits. */
  ghost predicate RunAlike(named: Table, picked: Table, run: nat, s: nat) {
    RunCoded(named, run, s) ==>
      exists codes :: RunCodes(picked, codes, run, s) && Joined(codes) == Joined(RunTokens(named, run, s))
  }

  /** Everything the encoder may send with the named table is spelled alike in the picked one. */
  ghost predicate Interchangeable(named: Table, picked: Table) {
    EndAlike(named, picked) && forall run: nat, s: nat | run <= 62 && 1 <= s <= 15 :: RunAlike(named, picked, run, s)
  }

  /** Coefficients the 15 size categories of the AC symbols can send. */
  ghost predicate Sendable(block: seq<int>) {
    |block| == 64 && forall i | 1 <= i < 64 :: Size(block[i]) <= 15
  }

  /** The first item of a list, its codeword first. */
  lemma FirstSent(stream: Stream, a: Pending, t: Table, item: Item, items: seq<Item>)
    requires AllCoded(t, [item] + items) && Carries(stream, a, AllSent(t, [item] + items))
    ensures Coded(t, item.symbol) && AllCoded(t, items)
    ensures var code := CodeFor(t, item.symbol); var (v, b) := GetBits(stream, a, code.size);
            var (w, c) := GetBits(stream, b, item.size);
            && v == code.value && w == item.value && Carries(stream, c, AllSent(t, items))
            && Behind(stream, a, AllSent(t, [item] + items)) == Behind(stream, c, AllSent(t, items))
  {
    hide GetBits, Coded, CodeFor;
    var all := [item] + items;
    assert all[0] == item && all[1..] == items;
    assert forall i | 0 <= i < |items| :: items[i] == all[i + 1];
    var tokens := AllSent(t, all);
    assert tokens == Sent(t, item) + AllSent(t, items);
    assert tokens[0] == CodeFor(t, item.symbol) && tokens[1..][0] == Token(item.value, item.size);
    assert tokens[1..][1..] == AllSent(t, items);
  }

  /** With the items before coefficient k' read, the stream stands at c. */
  ghost predicate Leads(stream: Stream, a: Pending, c: Pending, t: Table, block: seq<int>, k: nat, k': nat) {
    && Ready(stream, a, t, block, k) && Ready(stream, c, t, block, k')
    && End(stream, c, t, block, k') == End(stream, a, t, block, k)
  }

  lemma SkipSent(stream: Stream, a: Pending, t: Table, block: seq<int>, k: nat) returns (b: Pending)
    requires |block| == 64 && 1 <= k < 64 && Ready(stream, a, t, block, k) && ZeroRun(block, k) > 15
             && k + ZeroRun(block, k) < 64
    ensures Coded(t, 0xF0) && GetBits(stream, a, CodeFor(t, 0xF0).size) == (CodeFor(t, 0xF0).value, b)
    ensures k + 16 < 64 && Leads(stream, a, b, t, block, k, k + 16)
  {
    hide GetBits, Pending.Valid, Table.Valid, Coded, CodeFor, AllCoded, AllSent, ZeroRun;
    FirstSent(stream, a, t, Item(0xF0, 0, 0), RunLengths(block, k + 16));
    b := GetBits(stream, a, CodeFor(t, 0xF0).size).1;
    StaysValid(stream, a, CodeFor(t, 0xF0).size);
    NoBits(stream, b);
  }

  lemma LastSent(stream: Stream, a: Pending, t: Table, block: seq<int>, k: nat) returns (b: Pending, c: Pending)
    requires |block| == 64 && 1 <= k < 64 && Ready(stream, a, t, block, k) && ZeroRun(block, k) <= 15
             && k + ZeroRun(block, k) < 64
    ensures var (i, x) := (k + ZeroRun(block, k), block[k + ZeroRun(block, k)]);
            var symbol := 16 * ZeroRun(block, k) + Size(x);
            && Coded(t, symbol) && GetBits(stream, a, CodeFor(t, symbol).size) == (CodeFor(t, symbol).value, b)
            && GetBits(stream, b, Size(x)) == (AdditionalBits(x), c)
            && Leads(stream, a, c, t, block, k, i + 1)
  {
    hide GetBits, Pending.Valid, Table.Valid, Coded, CodeFor, AllCoded, AllSent, ZeroRun, Size, AdditionalBits;
    var (i, x) := (k + ZeroRun(block, k), block[k + ZeroRun(block, k)]);
    var symbol := 16 * ZeroRun(block, k) + Size(x);
    FirstSent(stream, a, t, Item(symbol, AdditionalBits(x), Size(x)), RunLengths(block, i + 1));
    b := GetBits(stream, a, CodeFor(t, symbol).size).1;
    c := GetBits(stream, b, Size(x)).1;
    StaysValid(stream, a, CodeFor(t, symbol).size);
    StaysValid(stream, b, Size(x));
  }

  /** What the encoder sends for the coefficients from k on begins with the tokens of the next run and coefficient. */
  lemma {:induction false} RunSent(stream: Stream, a: Pending, t: Table, block: seq<int>, k: nat)
    returns (b: Pending, c: Pending)
    requires |block| == 64 && 1 <= k < 64 && Ready(stream, a, t, block, k) && k + ZeroRun(block, k) < 64
    ensures var (run, x) := (ZeroRun(block, k), block[k + ZeroRun(block, k)]);
            && RunCoded(t, run, Size(x)) && Carries(stream, a, RunTokens(t, run, Size(x)))
            && b == Behind(stream, a, RunTokens(t, run, Size(x)))
              && GetBits(stream, b, Size(x)) == (AdditionalBits(x), c)
            && Leads(stream, a, c, t, block, k, k + run + 1)
    decreases 64 - k
  {
    hide GetBits, Ready, End, Coded, CodeFor, Size, AdditionalBits, ZeroRun;
    if ZeroRun(block, k) > 15 {
      var a' := SkipSent(stream, a, t, block, k);
      ShorterRun(block, k);
      b, c := RunSent(stream, a', t, block, k + 16);
      RunFirst(stream, a, t, ZeroRun(block, k), Size(block[k + ZeroRun(block, k)]), a');
    } else {
      b, c := LastSent(stream, a, t, block, k);
      LastFirst(stream, a, t, ZeroRun(block, k), Size(block[k + ZeroRun(block, k)]), b);
    }
  }

  lemma RunFirst(stream: Stream, a: Pending, t: Table, run: nat, s: nat, b: Pending)
    requires run > 15 && Coded(t, 0xF0) && GetBits(stream, a, CodeFor(t, 0xF0).size) == (CodeFor(t, 0xF0).value, b)
    requires RunCoded(t, run - 16, s) && Carries(stream, b, RunTokens(t, run - 16, s))
    ensures RunCoded(t, run, s) && Carries(stream, a, RunTokens(t, run, s))
    ensures Behind(stream, a, RunTokens(t, run, s)) == Behind(stream, b, RunTokens(t, run - 16, s))
  {
    hide GetBits, Coded, CodeFor;
    assert RunTokens(t, run, s)[1..] == RunTokens(t, run - 16, s);
  }

  lemma LastFirst(stream: Stream, a: Pending, t: Table, run: nat, s: nat, b: Pending)
    requires run <= 15 && Coded(t, 16 * run + s)
    requires GetBits(stream, a, CodeFor(t, 16 * run + s).size) == (CodeFor(t, 16 * run + s).value, b)
    ensures RunCoded(t, run, s) && Carries(stream, a, RunTokens(t, run, s))
            && Behind(stream, a, RunTokens(t, run, s)) == b
  {
    hide GetBits, Coded, CodeFor;
    assert RunTokens(t, run, s)[1..] == [];
  }

  lemma ReadyValid(stream: Stream, a: Pending, t: Table, block: seq<int>, k: nat)
    requires Ready(stream, a, t, block, k)
    ensures a.Valid()
  {
  }

  lemma ShorterRun(block: seq<int>, k: nat)
    requires k <= |block| && ZeroRun(block, k) > 15
    ensures k + 16 <= |block| && ZeroRun(block, k + 16) == ZeroRun(block, k) - 16
  {
    RunFrom(block, k, 16);
  }

  lemma {:induction false} RunFrom(block: seq<int>, k: nat, n: nat)
    requires k <= |block| && n <= ZeroRun(block, k)
    ensures k + n <= |block| && ZeroRun(block, k + n) == ZeroRun(block, k) - n
  {
    if n > 0 {
      RunFrom(block, k, n - 1);
    }
  }

  /** At the end of the nonzero coefficients the encoder sends the end-of-block codeword. */
  lemma EndSent(stream: Stream, a: Pending, t: Table, block: seq<int>, k: nat)
    requires Ready(stream, a, t, block, k) && k < 64 && k + ZeroRun(block, k) == 64
    ensures Coded(t, 0) && GetBits(stream, a, CodeFor(t, 0).size) == (CodeFor(t, 0).value, End(stream, a, t, block, k))
  {
    hide GetBits, Pending.Valid, Table.Valid, Coded, CodeFor, AllCoded, Sent, ZeroRun;
    assert RunLengths(block, k) == [Item(0, 0, 0)] + [];
    FirstSent(stream, a, t, Item(0, 0, 0), []);
    NoBits(stream, GetBits(stream, a, CodeFor(t, 0).size).1);
  }

  /** Reading a run and a coefficient takes the decoder from k to the place behind the coefficient. */
  lemma {:induction false} RunDecodes(stream: Stream, a: Pending, t: Table, k: nat, run: nat, s: nat, b: Pending,
                                      out: seq<int>)
    requires t.Valid() && |out| == 64 && k + run < 64 && s > 0 && ReadsRun(stream, a, t, run, s, b)
    ensures var (v, c) := GetBits(stream, b, s);
            DecodeAC(stream, a, t, k, out) == DecodeAC(stream, c, t, k + run + 1, out[k + run := Extend(v, s)])
    decreases run
  {
    hide GetBits, Table.Valid, NextSymbol, Extend;
    if run > 15 {
      RunDecodes(stream, NextSymbol(stream, a, t).value.1, t, k + 16, run - 16, s, b, out);
    }
  }

  /** The picked table reads what the named one was used to send. */
  lemma AlikeRead(stream: Stream, a: Pending, named: Table, picked: Table, run: nat, s: nat)
    requires a.Valid() && picked.Valid() && RunCoded(named, run, s) && RunAlike(named, picked, run, s)
    requires Carries(stream, a, RunTokens(named, run, s))
    ensures ReadsRun(stream, a, picked, run, s, Behind(stream, a, RunTokens(named, run, s)))
  {
    hide GetBits, Table.Valid, Pending.Valid, ReadsRun, RunCodes, RunTokens, RunCoded, Joined, Carries, Behind;
    var codes :| RunCodes(picked, codes, run, s) && Joined(codes) == Joined(RunTokens(named, run, s));
    JoinedRead(stream, a, RunTokens(named, run, s));
    RunCodesFit(picked, codes, run, s);
    JoinedCarried(stream, a, codes);
    JoinedRead(stream, a, codes);
    CodesRead(stream, a, picked, codes, run, s);
  }

  /** One run and coefficient of a block, read with the picked table. */
  lemma AlikeStep(stream: Stream, a: Pending, named: Table, picked: Table, block: seq<int>, k: nat, out: seq<int>)
    returns (c: Pending)
    requires Ready(stream, a, named, block, k) && Sendable(block) && k + ZeroRun(block, k) < 64 && picked.Valid()
    requires RunAlike(named, picked, ZeroRun(block, k), Size(block[k + ZeroRun(block, k)])) && |out| == 64
    ensures var i := k + ZeroRun(block, k);
            && Leads(stream, a, c, named, block, k, i + 1)
            && DecodeAC(stream, a, picked, k, out) == DecodeAC(stream, c, picked, i + 1, out[i := block[i]])
  {
    hide GetBits, Table.Valid, Pending.Valid, ReadsRun, RunTokens, RunCoded, Carries, Behind, Size, AdditionalBits,
         Extend, DecodeAC, End, RunAlike, AllCoded, AllSent;
    var (run, x) := (ZeroRun(block, k), block[k + ZeroRun(block, k)]);
    var b;
    b, c := RunSent(stream, a, named, block, k);
    ExtendUndoesCoding(x);
    AlikeRead(stream, a, named, picked, run, Size(x));
    RunDecodes(stream, a, picked, k, run, Size(x), b, out);
  }

  lemma StopDecodes(stream: Stream, a: Pending, t: Table, code: Token, k: nat, out: seq<int>)
    requires a.Valid() && t.Valid() && IsCode(t, code, Stop) && GetBits(stream, a, code.size).0 == code.value
    requires k < 64 && |out| == 64
    ensures DecodeAC(stream, a, t, k, out) == Done((out, GetBits(stream, a, code.size).1))
  {
    hide GetBits, Table.Valid, Pending.Valid, IsCode, NextSymbol;
    CodeRead(stream, a, t, code, Stop);
  }

  /** Read with a picked table that spells everything alike, the AC coefficients come back. */
  lemma {:induction false} AlikeReadBack(stream: Stream, a: Pending, named: Table, picked: Table, block: seq<int>,
                                         k: nat, out: seq<int>)
    requires Ready(stream, a, named, block, k) && picked.Valid() && Sendable(block) && Interchangeable(named, picked)
    requires Partial(block, out, k) && |out| == 64
    ensures DecodeAC(stream, a, picked, k, out) == Done((block, End(stream, a, named, block, k)))
    decreases 64 - k
  {
    hide End, Table.Valid, Pending.Valid, Partial, Size, ZeroRun, IsCode, RunAlike, Carries, AllCoded, AllSent, Behind,
         CodeFor, Coded, DecodeAC, GetBits;
    var run := ZeroRun(block, k);
    if k + run == 64 {
      NothingLeft(block, out, k);
      if k < 64 {
        EndSent(stream, a, named, block, k);
        StopDecodes(stream, a, picked, CodeFor(named, 0), k, out);
      } else {
        NothingSent(stream, a, named, picked, block, out);
      }
    } else {
      SizeInRange(block[k + run]);
      var c := AlikeStep(stream, a, named, picked, block, k, out);
      PartialAfterRun(block, out, k, run);
      PartialAfterCoefficient(block, out, k + run);
      AlikeReadBack(stream, c, named, picked, block, k + run + 1, out[k + run := block[k + run]]);
    }
  }

  lemma SizeInRange(x: int)
    requires x != 0
    ensures Size(x) >= 1
  {
  }

  lemma NothingSent(stream: Stream, a: Pending, named: Table, picked: Table, block: seq<int>, out: seq<int>)
    requires Ready(stream, a, named, block, 64) && picked.Valid() && |out| == 64
    ensures DecodeAC(stream, a, picked, 64, out) == Done((out, End(stream, a, named, block, 64)))
  {
  }

  /** A block sent with the named AC table, where the picked one is used to read it, comes back. */
  ghost predicate Returns(stream: Stream, a: Pending, dc: Table, named: Table, picked: Table, block: seq<int>,
                          previous: int)
    requires dc.Valid() && picked.Valid()
  {
    && a.Valid() && Sendable(block) && -0x8000_0000 <= block[0] < 0x8000_0000 && Encodable(dc, named, block, previous)
    && Carries(stream, a, Encoded(dc, named, block, previous))
    ==>
      DecodeBlock(stream, a, dc, picked, previous) ==
      Done((block, Behind(stream, a, Encoded(dc, named, block, previous))))
  }

  /** Every block comes back from every memory, wherever in a byte a reader stands. */
  ghost predicate AllReturn(dc: Table, named: Table, picked: Table)
    requires dc.Valid() && picked.Valid()
  {
    forall memory: Memory, a: Pending, block, previous | a.count < 8 ::
      Returns(Unstuffed(memory), a, dc, named, picked, block, previous)
  }

  /** Where both tables spell alike, the table picked by the wrong number does no harm. */
  lemma InterchangeableReturns(dc: Table, named: Table, picked: Table)
    requires dc.Valid() && named.Valid() && picked.Valid() && Interchangeable(named, picked)
    ensures forall stream, a, block, previous :: Returns(stream, a, dc, named, picked, block, previous)
    ensures AllReturn(dc, named, picked)
  {
    hide Table.Valid, Pending.Valid, Interchangeable, Encoded, Encodable, Carries, DecodeBlock, DecodeAC, Behind,
         Partial, Size;
    forall stream, a: Pending, block, previous
      | && a.Valid() && Sendable(block) && -0x8000_0000 <= block[0] < 0x8000_0000
        && Encodable(dc, named, block, previous)
        && Carries(stream, a, Encoded(dc, named, block, previous))
      ensures DecodeBlock(stream, a, dc, picked, previous) ==
              Done((block, Behind(stream, a, Encoded(dc, named, block, previous))))
    {
      var c := DcReadBack(stream, a, dc, named, picked, block, previous);
      FreshIsPartial(block);
      AlikeReadBack(stream, c, named, picked, block, 1, Fresh(block[0]));
    }
  }
}
