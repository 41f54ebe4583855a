/** The interpreter's fixed program sorts the eight data words, from any initial content. */
module MipsSort {
  import opened Arith
  import opened Mips

  /** The instruction about to be fetched lies in program memory. */
  predicate InProgram(s: State) {
    WordIndex(s.pc) < 44
  }

  /** The machine after instruction i at s.pc. */
  function Advance(s: State, i: Instr): (t: State)
    requires s.Valid() && RegistersInRange(i)
    ensures t.Valid()
  {
    Execute(i, s.(pc := s.pc + 4))
  }

  /** One turn of the interpreter's loop. */
  function Step(s: State): (t: State)
    requires s.Valid() && InProgram(s)
    ensures t.Valid() && t.reg[0] == 0
  {
    DecodedRegisters(Imem(WordIndex(s.pc)));
    Advance(s, Decode(Imem(WordIndex(s.pc))))
  }

  /** k turns lead from s to t; before each the loop goes on (pc is not 0) and the fetch stays in the program. */
  ghost predicate Runs(s: State, k: nat, t: State)
    decreases k
  {
    if k == 0 then s == t
    else s.Valid() && s.pc != 0 && InProgram(s) && Runs(Step(s), k - 1, t)
  }

  lemma {:induction false} RunsJoin(s: State, k: nat, t: State, m: nat, u: State)
    requires Runs(s, k, t) && Runs(t, m, u)
    ensures Runs(s, k + m, u)
    decreases k
  {
    hide Step;
    if k > 0 {
      RunsJoin(Step(s), k - 1, t, m, u);
    }
  }

  const PROGRAM: int := 0x0040_0000

  /** Word k of the program is instruction i. */
  predicate Fetches(k: nat, i: Instr) {
    k < 44 && Decode(Imem(k)) == i
  }

  /** The effect of the instructions the program uses, one clause each. */
  ghost predicate Effect(a: State, i: Instr, b: State)
    requires a.Valid()
  {
    var g, n := a.reg, a.(pc := a.pc + 4);
    var z := n.(reg := g[0 := 0]);
    && (i.Addu? ==> i.rd < 32 && i.rs < 32 && i.rt < 32 && b == Write(n, i.rd, Wrap32(g[i.rs] + g[i.rt])))
    && (i.Sll? ==> i.rd < 32 && i.rt < 32 && b == Write(n, i.rd, Wrap32(g[i.rt] * P2(i.shamt))))
    && (i.Slt? ==> i.rd < 32 && i.rs < 32 && i.rt < 32 && b == Write(n, i.rd, if g[i.rs] < g[i.rt] then 1 else 0))
    && (i.Addiu? ==> i.rt < 32 && i.rs < 32 && b == Write(n, i.rt, Wrap32(g[i.rs] + i.imm)))
    && (i.Slti? ==> i.rt < 32 && i.rs < 32 && b == Write(n, i.rt, if g[i.rs] < i.imm then 1 else 0))
    && (i.Ori? ==> i.rt < 32 && i.rs < 32 && b == Write(n, i.rt, Logic(OrOp, g[i.rs], i.imm % 0x1_0000)))
    && (i.Lui? ==> i.rt < 32 && b == Write(n, i.rt, Wrap32(i.imm * 0x1_0000)))
    && (i.Lw? ==> i.rt < 32 && i.rs < 32 && b == Write(n, i.rt, a.dmem[WordIndex(g[i.rs] + i.imm)]))
    && (i.Sw? ==> i.rt < 32 && i.rs < 32 && b == z.(dmem := a.dmem[WordIndex(g[i.rs] + i.imm) := g[i.rt]]))
    && (i.Jr? ==> i.rs < 32 && b == z.(pc := g[i.rs]))
    && (i.J? ==> b == z.(pc := i.target))
    && (i.Jal? ==> b == Write(n, 31, n.pc).(pc := i.target))
    && (i.Beq? ==> i.rs < 32 && i.rt < 32 && b == if g[i.rs] == g[i.rt] then z.(pc := a.pc + i.imm * 4) else z)
    && (i.Bad? ==> b == z.(pc := 0))
  }

  lemma AdvanceHasEffect(a: State, i: Instr)
    requires a.Valid() && RegistersInRange(i)
    ensures Effect(a, i, Advance(a, i))
  {
    hide P2, Logic, Wrap32, WordIndex;
  }

  /** The run continues with the instruction i. */
  lemma Then(s: State, n: nat, a: State, k: nat, i: Instr) returns (b: State)
    requires Runs(s, n, a) && a.Valid() && a.pc == PROGRAM + 4 * k && Fetches(k, i)
    ensures b.Valid() && Effect(a, i, b) && Runs(s, n + 1, b)
  {
    hide Decode, Execute, Imem, Effect;
    assert WordIndex(a.pc) == k;
    DecodedRegisters(Imem(k));
    AdvanceHasEffect(a, i);
    b := Step(a);
    assert Runs(a, 1, b);
    RunsJoin(s, n, a, 1, b);
  }

  // The program, address by address.

  lemma StartCode()
    ensures Fetches(0, Lw(4, 29, 0))
    ensures Fetches(1, Addiu(5, 29, 4))
    ensures Fetches(2, Addiu(6, 5, 4))
    ensures Fetches(3, Sll(2, 4, 2))
    ensures Fetches(4, Addu(6, 6, 2))
    ensures Fetches(5, Jal(0x400058))
    ensures Fetches(6, Sll(0, 0, 0))
    ensures Fetches(7, Ori(2, 0, 10))
    ensures Fetches(8, Bad)
  {
    hide Decode;
    StartWords();
  }

  lemma CompareCode()
    ensures Fetches(9, Lui(1, 4097))
    ensures Fetches(10, Ori(8, 1, 0))
    ensures Fetches(11, Sll(9, 4, 2))
    ensures Fetches(12, Addu(9, 8, 9))
    ensures Fetches(13, Lw(10, 9, 0))
    ensures Fetches(14, Sll(11, 5, 2))
    ensures Fetches(15, Addu(11, 8, 11))
  {
    hide Decode;
    CompareWords();
  }

  lemma SwapCode()
    ensures Fetches(16, Lw(12, 11, 0))
    ensures Fetches(17, Slt(13, 12, 10))
    ensures Fetches(18, Beq(13, 0, 3))
    ensures Fetches(19, Sw(12, 9, 0))
    ensures Fetches(20, Sw(10, 11, 0))
    ensures Fetches(21, Jr(31))
  {
    hide Decode;
    SwapWords();
  }

  lemma EntryCode()
    ensures Fetches(22, Addiu(29, 29, -12))
    ensures Fetches(23, Sw(31, 29, 8))
    ensures Fetches(24, Sw(17, 29, 4))
    ensures Fetches(25, Sw(16, 29, 0))
    ensures Fetches(26, Addiu(16, 0, 0))
    ensures Fetches(27, Slti(8, 16, 8))
    ensures Fetches(28, Beq(8, 0, 11))
    ensures Fetches(29, Addiu(17, 16, 1))
  {
    hide Decode;
    EntryWords();
  }

  lemma LoopCode()
    ensures Fetches(30, Slti(8, 17, 8))
    ensures Fetches(31, Beq(8, 0, 6))
    ensures Fetches(32, Addiu(4, 16, 0))
    ensures Fetches(33, Addiu(5, 17, 0))
    ensures Fetches(34, Jal(0x400024))
    ensures Fetches(35, Addiu(17, 17, 1))
    ensures Fetches(36, J(0x400078))
  {
    hide Decode;
    LoopWords();
  }

  lemma ExitCode()
    ensures Fetches(37, Addiu(16, 16, 1))
    ensures Fetches(38, J(0x40006c))
    ensures Fetches(39, Lw(31, 29, 8))
    ensures Fetches(40, Lw(17, 29, 4))
    ensures Fetches(41, Lw(16, 29, 0))
    ensures Fetches(42, Addiu(29, 29, 12))
    ensures Fetches(43, Jr(31))
  {
    hide Decode;
    ExitWords();
  }

  lemma {:induction false} BitwiseOrZero(n: nat, x: nat)
    requires x < P2(n)
    ensures Bitwise(OrOp, n, x, 0) == x
  {
    if n > 0 {
      BitwiseOrZero(n - 1, x / 2);
    }
  }

  lemma OrZero(x: int)
    requires -0x8000_0000 <= x < 0x8000_0000
    ensures Logic(OrOp, x, 0) == x
  {
    P2Words();
    BitwiseOrZero(32, Unsigned(x));
  }

  const DATA: int := 0x1001_0000
  const STACK: int := 0x7FFF_EFF0
  const RETURN: int := 0x0040_0018

  /** Registers a call of compare_swap leaves alone. */
  predicate Kept(s: State, t: State)
    requires s.Valid() && t.Valid()
  {
    t.reg[16] == s.reg[16] && t.reg[17] == s.reg[17] && t.reg[29] == s.reg[29]
  }

  lemma DataIndex(i: nat)
    requires i < 8
    ensures WordIndex(DATA + 4 * i + 0) == i
  {
  }

  lemma P2Two()
    ensures P2(2) == 4
  {
  }

  lemma RunsNothing(s: State)
    ensures Runs(s, 0, s)
  {
  }

  /** compare_swap, up to the comparison: the two words are in registers 10 and 12. */
  lemma CompareLoads(s: State, i: nat, j: nat) returns (t: State)
    requires s.Valid() && s.pc == 0x0040_0024 && s.reg[4] == i < 8 && s.reg[5] == j < 8
    ensures t.Valid() && Runs(s, 8, t) && t.pc == 0x0040_0044 && t.dmem == s.dmem && Kept(s, t)
    ensures t.reg[0] == 0 && t.reg[9] == DATA + 4 * i && t.reg[11] == DATA + 4 * j && t.reg[31] == s.reg[31]
    ensures t.reg[10] == s.dmem[i] && t.reg[12] == s.dmem[j]
  {
    hide Runs, Fetches, Logic, P2, Wrap32, WordIndex;
    t := FirstLoad(s, i);
    P2Two();
    CompareCode();
    SwapCode();
    DataIndex(j);
    t := Then(s, 5, t, 14, Sll(11, 5, 2));
    t := Then(s, 6, t, 15, Addu(11, 8, 11));
    t := Then(s, 7, t, 16, Lw(12, 11, 0));
  }

  /** The base address and the first of the two words. */
  lemma FirstLoad(s: State, i: nat) returns (t: State)
    requires s.Valid() && s.pc == 0x0040_0024 && s.reg[4] == i < 8
    ensures t.Valid() && Runs(s, 5, t) && t.pc == 0x0040_0038 && t.dmem == s.dmem && Kept(s, t)
    ensures t.reg[0] == 0 && t.reg[8] == DATA && t.reg[9] == DATA + 4 * i && t.reg[10] == s.dmem[i]
    ensures t.reg[5] == s.reg[5] && t.reg[31] == s.reg[31]
  {
    hide Runs, Fetches, Logic, P2, Wrap32, WordIndex;
    P2Two();
    CompareCode();
    OrZero(DATA);
    DataIndex(i);
    RunsNothing(s);
    t := Then(s, 0, s, 9, Lui(1, 4097));
    t := Then(s, 1, t, 10, Ori(8, 1, 0));
    t := Then(s, 2, t, 11, Sll(9, 4, 2));
    t := Then(s, 3, t, 12, Addu(9, 8, 9));
    t := Then(s, 4, t, 13, Lw(10, 9, 0));
  }

  /** What compare_swap does to the data. */
  function Exchange(d: seq<int>, i: nat, j: nat): seq<int>
    requires i < |d| && j < |d|
  {
    if d[j] < d[i] then d[i := d[j]][j := d[i]] else d
  }

  lemma CompareSwap(s: State, i: nat, j: nat) returns (n: nat, t: State)
    requires s.Valid() && s.pc == 0x0040_0024 && s.reg[4] == i < 8 && s.reg[5] == j < 8
    ensures t.Valid() && Runs(s, n, t) && t.pc == s.reg[31] && t.dmem == Exchange(s.dmem, i, j) && Kept(s, t)
    ensures t.reg[0] == 0
  {
    hide Runs, Fetches, Logic, P2, Wrap32, WordIndex;
    t := CompareLoads(s, i, j);
    SwapCode();
    DataIndex(i);
    DataIndex(j);
    t := Then(s, 8, t, 17, Slt(13, 12, 10));
    t := Then(s, 9, t, 18, Beq(13, 0, 3));
    n := 10;
    if s.dmem[j] < s.dmem[i] {
      t := Then(s, 10, t, 19, Sw(12, 9, 0));
      t := Then(s, 11, t, 20, Sw(10, 11, 0));
      n := 12;
    }
    t := Then(s, n, t, 21, Jr(31));
    n := n + 1;
  }

  /** The first i data words are in their final places. */
  ghost predicate Placed(d: seq<int>, i: nat)
    requires |d| == 64
  {
    forall p, q | 0 <= p < i && p < q < 8 :: d[p] <= d[q]
  }

  /** Word i is the least of the words from i up to j. */
  ghost predicate LeastSoFar(d: seq<int>, i: nat, j: nat)
    requires |d| == 64 && i < 8
  {
    forall p | i < p < j && p < 8 :: d[i] <= d[p]
  }

  lemma ExchangePlaces(d: seq<int>, i: nat, j: nat)
    requires |d| == 64 && i < j < 8 && Placed(d, i) && LeastSoFar(d, i, j)
    ensures Placed(Exchange(d, i, j), i) && LeastSoFar(Exchange(d, i, j), i, j + 1)
    ensures multiset(Exchange(d, i, j)[..8]) == multiset(d[..8])
    ensures forall k | 8 <= k < 64 :: Exchange(d, i, j)[k] == d[k]
  {
    if d[j] < d[i] {
      var a := d[..8];
      assert Exchange(d, i, j)[..8] == a[i := a[j]][j := a[i]];
    }
  }

  /** The machine inside main's loops: i and j in their registers, the return address safe on the stack. */
  ghost predicate InMain(s: State, data: seq<int>, i: nat) {
    && s.Valid() && i <= 8 && s.reg[0] == 0 && s.reg[16] == i && s.reg[29] == STACK
    && s.dmem[62] == RETURN
    && multiset(s.dmem[..8]) == multiset(data) && Placed(s.dmem, i)
  }

  /** The test of the inner loop and the call of the compare-and-swap routine. */
  lemma InnerCall(s: State, data: seq<int>, i: nat, j: nat) returns (t: State)
    requires InMain(s, data, i) && i < j < 8 && s.pc == 0x0040_0078 && s.reg[17] == j
    ensures Runs(s, 5, t) && InMain(t, data, i) && t.dmem == s.dmem && t.reg[17] == j
    ensures t.Valid() && t.pc == 0x0040_0024 && t.reg[4] == i && t.reg[5] == j && t.reg[31] == 0x0040_008C
  {
    hide Runs, Fetches, Logic, P2, Wrap32, WordIndex;
    LoopCode();
    RunsNothing(s);
    t := Then(s, 0, s, 30, Slti(8, 17, 8));
    t := Then(s, 1, t, 31, Beq(8, 0, 6));
    t := Then(s, 2, t, 32, Addiu(4, 16, 0));
    t := Then(s, 3, t, 33, Addiu(5, 17, 0));
    t := Then(s, 4, t, 34, Jal(0x40_0024));
  }

  lemma InnerStep(s: State, data: seq<int>, i: nat, j: nat) returns (n: nat, t: State)
    requires InMain(s, data, i) && i < j < 8 && s.pc == 0x0040_0078 && s.reg[17] == j && LeastSoFar(s.dmem, i, j)
    ensures n > 0 && Runs(s, n, t) && InMain(t, data, i) && t.pc == 0x0040_0078 && t.reg[17] == j + 1
    ensures LeastSoFar(t.dmem, i, j + 1)
  {
    hide Runs, Fetches, Logic, P2, Wrap32, WordIndex;
    LoopCode();
    RunsNothing(s);
    ExchangePlaces(s.dmem, i, j);
    t := InnerCall(s, data, i, j);
    var m, u := CompareSwap(t, i, j);
    RunsJoin(s, 5, t, m, u);
    t := Then(s, 5 + m, u, 35, Addiu(17, 17, 1));
    t := Then(s, 6 + m, t, 36, J(0x40_0078));
    n := 7 + m;
  }

  lemma {:induction false} InnerLoop(s: State, data: seq<int>, i: nat, j: nat) returns (n: nat, t: State)
    requires InMain(s, data, i) && i < j <= 8 && s.pc == 0x0040_0078 && s.reg[17] == j && LeastSoFar(s.dmem, i, j)
    ensures Runs(s, n, t) && InMain(t, data, i + 1) && t.pc == 0x0040_006C
    decreases 8 - j
  {
    hide Runs, Fetches, Logic, P2, Wrap32, WordIndex;
    if j < 8 {
      n, t := InnerStep(s, data, i, j);
      var m, u := InnerLoop(t, data, i, j + 1);
      RunsJoin(s, n, t, m, u);
      n, t := n + m, u;
    } else {
      LoopCode();
      ExitCode();
      RunsNothing(s);
      t := Then(s, 0, s, 30, Slti(8, 17, 8));
      t := Then(s, 1, t, 31, Beq(8, 0, 6));
      t := Then(s, 2, t, 37, Addiu(16, 16, 1));
      t := Then(s, 3, t, 38, J(0x40_006C));
      n := 4;
    }
  }

  lemma {:induction false} OuterLoop(s: State, data: seq<int>, i: nat) returns (n: nat, t: State)
    requires InMain(s, data, i) && s.pc == 0x0040_006C
    ensures Runs(s, n, t) && InMain(t, data, 8) && t.pc == 0x0040_009C
    decreases 8 - i
  {
    hide Runs, Fetches, Logic, P2, Wrap32, WordIndex;
    EntryCode();
    RunsNothing(s);
    t := Then(s, 0, s, 27, Slti(8, 16, 8));
    t := Then(s, 1, t, 28, Beq(8, 0, 11));
    n := 2;
    if i < 8 {
      t := Then(s, 2, t, 29, Addiu(17, 16, 1));
      var m, u := InnerLoop(t, data, i, i + 1);
      RunsJoin(s, 3, t, m, u);
      var m', u' := OuterLoop(u, data, i + 1);
      RunsJoin(s, 3 + m, u, m', u');
      n, t := 3 + m + m', u';
    }
  }

  /** The machine as main sets it up: zero registers, the stack pointer, the data in the first eight words. */
  function Initial(data: seq<int>): (s: State)
    requires |data| == 8
    ensures s.Valid()
  {
    State(PROGRAM, seq(32, r => if r == 29 then 0x7FFF_EFFC else 0), data + seq(56, k => 0), 0, 0)
  }

  /** The start-up code: it calls main with the return address in register 31. */
  lemma CallMain(data: seq<int>) returns (t: State)
    requires |data| == 8
    ensures Runs(Initial(data), 6, t) && t.Valid() && t.pc == 0x0040_0058 && t.dmem == Initial(data).dmem
    ensures t.reg[0] == 0 && t.reg[29] == 0x7FFF_EFFC && t.reg[31] == RETURN
  {
    hide Runs, Fetches, Logic, P2, Wrap32, WordIndex;
    P2Two();
    StartCode();
    var s := Initial(data);
    StackIndices();
    RunsNothing(s);
    t := Then(s, 0, s, 0, Lw(4, 29, 0));
    t := Then(s, 1, t, 1, Addiu(5, 29, 4));
    t := Then(s, 2, t, 2, Addiu(6, 5, 4));
    t := Then(s, 3, t, 3, Sll(2, 4, 2));
    t := Then(s, 4, t, 4, Addu(6, 6, 2));
    t := Then(s, 5, t, 5, Jal(0x40_0058));
  }

  lemma Startup(data: seq<int>) returns (t: State)
    requires |data| == 8
    ensures Runs(Initial(data), 11, t) && InMain(t, data, 0) && t.pc == 0x0040_006C
  {
    hide Runs, Fetches, Logic, P2, Wrap32, WordIndex;
    EntryCode();
    var s := Initial(data);
    StackIndices();
    t := CallMain(data);
    t := Then(s, 6, t, 22, Addiu(29, 29, -12));
    t := Then(s, 7, t, 23, Sw(31, 29, 8));
    t := Then(s, 8, t, 24, Sw(17, 29, 4));
    t := Then(s, 9, t, 25, Sw(16, 29, 0));
    t := Then(s, 10, t, 26, Addiu(16, 0, 0));
    assert t.dmem[..8] == data;
  }

  /** The stack slots used are words 60 to 63, away from the data. */
  lemma StackIndices()
    ensures WordIndex(STACK + 0) == 60 && WordIndex(STACK + 4) == 61 && WordIndex(STACK + 8) == 62
    ensures WordIndex(0x7FFF_EFFC + 0) == 63
  {
  }

  lemma Epilogue(s: State, data: seq<int>) returns (t: State)
    requires InMain(s, data, 8) && s.pc == 0x0040_009C
    ensures Runs(s, 8, t) && t.Valid() && t.pc == 0 && t.dmem == s.dmem
  {
    hide Runs, Fetches, Logic, P2, Wrap32, WordIndex;
    ExitCode();
    StartCode();
    StackIndices();
    RunsNothing(s);
    t := Then(s, 0, s, 39, Lw(31, 29, 8));
    t := Then(s, 1, t, 40, Lw(17, 29, 4));
    t := Then(s, 2, t, 41, Lw(16, 29, 0));
    t := Then(s, 3, t, 42, Addiu(29, 29, 12));
    t := Then(s, 4, t, 43, Jr(31));
    t := Then(s, 5, t, 6, Sll(0, 0, 0));
    t := Then(s, 6, t, 7, Ori(2, 0, 10));
    t := Then(s, 7, t, 8, Bad);
  }

  /** From any data the program halts, with the data sorted. */
  lemma ProgramSorts(data: seq<int>) returns (n: nat, t: State)
    requires |data| == 8
    ensures n > 0 && Runs(Initial(data), n, t) && t.Valid() && t.pc == 0
    ensures multiset(t.dmem[..8]) == multiset(data)
    ensures forall p, q | 0 <= p < q < 8 :: t.dmem[p] <= t.dmem[q]
  {
    hide Runs;
    var s := Initial(data);
    var a := Startup(data);
    var m, b := OuterLoop(a, data, 0);
    t := Epilogue(b, data);
    RunsJoin(s, 11, a, m, b);
    RunsJoin(s, 11 + m, b, 8, t);
    n := 19 + m;
  }

  /** The interpreter's loop: runs the program to its halt and counts the instructions. */
  method RunProgram(machine: Machine, ghost data: seq<int>) returns (instructions: nat)
    requires machine.Valid() && |data| == 8 && machine.View() == Initial(data)
    modifies machine, machine.reg, machine.dmem
    ensures machine.Valid() && machine.pc == 0
    ensures Runs(Initial(data), instructions, machine.View())
    ensures multiset(machine.dmem[..8]) == multiset(data)
    ensures forall p, q | 0 <= p < q < 8 :: machine.dmem[p] <= machine.dmem[q]
  {
    hide Step, Runs, Decode, Execute, Imem;
    ghost var total, final := ProgramSorts(data);
    instructions := 0;
    RunsNothing(machine.View());
    RunContinues(machine.View(), total, final);
    while true
      invariant machine.Valid() && unchanged(machine`reg) && unchanged(machine`dmem)
      invariant instructions < total && Runs(Initial(data), instructions, machine.View())
      invariant Runs(machine.View(), total - instructions, final)
      invariant InProgram(machine.View())
      decreases total - instructions
    {
      ghost var before := machine.View();
      RunStep(before, total - instructions, final);
      var ins := Imem(WordIndex(machine.pc));
      DecodedRegisters(ins);
      machine.pc := machine.pc + 4;
      machine.Dispatch(Decode(ins));
      StepIs(before, ins);
      RunsJoin(Initial(data), instructions, before, 1, machine.View());
      instructions := instructions + 1;
      if machine.pc == 0 {
        HaltedRunIsOver(machine.View(), total - instructions, final);
        break;
      }
      RunContinues(machine.View(), total - instructions, final);
    }
  }

  lemma StepIs(s: State, ins: word)
    requires s.Valid() && InProgram(s) && ins == Imem(WordIndex(s.pc))
    ensures RegistersInRange(Decode(ins)) && Step(s) == Execute(Decode(ins), s.(pc := s.pc + 4))
  {
    DecodedRegisters(ins);
  }

  lemma RunStep(s: State, k: nat, t: State)
    requires Runs(s, k, t) && k > 0
    ensures s.Valid() && InProgram(s) && Runs(Step(s), k - 1, t) && Runs(s, 1, Step(s))
  {
  }

  lemma RunContinues(s: State, k: nat, t: State)
    requires Runs(s, k, t) && t.pc == 0 && s.pc != 0
    ensures k > 0 && InProgram(s)
  {
  }

  lemma HaltedRunIsOver(s: State, k: nat, t: State)
    requires Runs(s, k, t) && s.pc == 0
    ensures s == t && k == 0
  {
  }

  /** From reset: the eight words are loaded, the program runs, and its memory holds them sorted. */
  method SortFromReset(data: array<int>) returns (machine: Machine, instructions: nat)
    requires data.Length == 8
    ensures fresh(machine) && machine.Valid() && machine.pc == 0
            && Runs(Initial(data[..]), instructions, machine.View())
    ensures multiset(machine.dmem[..8]) == multiset(data[..])
    ensures forall p, q | 0 <= p < q < 8 :: machine.dmem[p] <= machine.dmem[q]
  {
    hide Runs;
    machine := new Machine(data);
    assert machine.View().reg == Initial(data[..]).reg;
    assert machine.View().dmem == Initial(data[..]).dmem;
    instructions := RunProgram(machine, data[..]);
  }
}
