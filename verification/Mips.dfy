/** The MIPS subset interpreter: decoding, one instruction, and the fixed program it runs. */
module Mips {
  import opened Arith

  /** A decoded instruction: register numbers, shift amounts, sign-extended immediates, byte targets. */
  datatype Instr =
    | Addu(rd: nat, rs: nat, rt: nat) | Subu(rd: nat, rs: nat, rt: nat)
    | Mult(rs: nat, rt: nat) | Multu(rs: nat, rt: nat) | Mfhi(rd: nat) | Mflo(rd: nat)
    | And(rd: nat, rs: nat, rt: nat) | Or(rd: nat, rs: nat, rt: nat) | Xor(rd: nat, rs: nat, rt: nat)
    | Sll(rd: nat, rt: nat, shamt: nat) | Srl(rd: nat, rt: nat, shamt: nat)
    | Sllv(rd: nat, rt: nat, rs: nat) | Srlv(rd: nat, rt: nat, rs: nat)
    | Slt(rd: nat, rs: nat, rt: nat) | Sltu(rd: nat, rs: nat, rt: nat)
    | Jr(rs: nat) | J(target: nat) | Jal(target: nat)
    | Addiu(rt: nat, rs: nat, imm: int) | Andi(rt: nat, rs: nat, imm: int) | Ori(rt: nat, rs: nat, imm: int)
    | Xori(rt: nat, rs: nat, imm: int) | Lw(rt: nat, rs: nat, imm: int) | Sw(rt: nat, rs: nat, imm: int)
    | Lui(rt: nat, imm: int) | Beq(rs: nat, rt: nat, imm: int) | Bne(rs: nat, rt: nat, imm: int)
    | Bgez(rs: nat, imm: int) | Slti(rt: nat, rs: nat, imm: int) | Sltiu(rt: nat, rs: nat, imm: int)
    | Bad

  type word = x: int | 0 <= x < 0x1_0000_0000

  predicate RegistersInRange(i: Instr) {
    match i
    case Addu(d, s, t) => d < 32 && s < 32 && t < 32
    case Subu(d, s, t) => d < 32 && s < 32 && t < 32
    case Mult(s, t) => s < 32 && t < 32
    case Multu(s, t) => s < 32 && t < 32
    case Mfhi(d) => d < 32
    case Mflo(d) => d < 32
    case And(d, s, t) => d < 32 && s < 32 && t < 32
    case Or(d, s, t) => d < 32 && s < 32 && t < 32
    case Xor(d, s, t) => d < 32 && s < 32 && t < 32
    case Sll(d, t, _) => d < 32 && t < 32
    case Srl(d, t, _) => d < 32 && t < 32
    case Sllv(d, t, s) => d < 32 && t < 32 && s < 32
    case Srlv(d, t, s) => d < 32 && t < 32 && s < 32
    case Slt(d, s, t) => d < 32 && s < 32 && t < 32
    case Sltu(d, s, t) => d < 32 && s < 32 && t < 32
    case Jr(s) => s < 32
    case Addiu(t, s, _) => t < 32 && s < 32
    case Andi(t, s, _) => t < 32 && s < 32
    case Ori(t, s, _) => t < 32 && s < 32
    case Xori(t, s, _) => t < 32 && s < 32
    case Lw(t, s, _) => t < 32 && s < 32
    case Sw(t, s, _) => t < 32 && s < 32
    case Lui(t, _) => t < 32
    case Beq(s, t, _) => s < 32 && t < 32
    case Bne(s, t, _) => s < 32 && t < 32
    case Bgez(s, _) => s < 32
    case Slti(t, s, _) => t < 32 && s < 32
    case Sltiu(t, s, _) => t < 32 && s < 32
    case _ => true
  }

  /** The register instructions, opcode 0. */
  function DecodeRegister(rd: nat, rs: nat, rt: nat, shamt: nat, funct: nat): Instr {
    if funct == 33 then Addu(rd, rs, rt)
    else if funct == 35 then Subu(rd, rs, rt)
    else if funct == 24 then Mult(rs, rt)
    else if funct == 25 then Multu(rs, rt)
    else if funct == 16 then Mfhi(rd)
    else if funct == 18 then Mflo(rd)
    else if funct == 36 then And(rd, rs, rt)
    else if funct == 37 then Or(rd, rs, rt)
    else if funct == 38 then Xor(rd, rs, rt)
    else if funct == 0 then Sll(rd, rt, shamt)
    else if funct == 2 then Srl(rd, rt, shamt)
    else if funct == 4 then Sllv(rd, rt, rs)
    else if funct == 6 then Srlv(rd, rt, rs)
    else if funct == 42 then Slt(rd, rs, rt)
    else if funct == 43 then Sltu(rd, rs, rt)
    else if funct == 8 then Jr(rs)
    else Bad
  }

  /** The instructions with a 16-bit immediate, sign-extended. */
  function DecodeImmediate(op: nat, rs: nat, rt: nat, low: nat): Instr {
    var address := if low < 0x8000 then low else low - 0x1_0000;
    if op == 9 then Addiu(rt, rs, address)
    else if op == 12 then Andi(rt, rs, address)
    else if op == 13 then Ori(rt, rs, address)
    else if op == 14 then Xori(rt, rs, address)
    else if op == 35 then Lw(rt, rs, address)
    else if op == 43 then Sw(rt, rs, address)
    else if op == 15 then Lui(rt, address)
    else if op == 4 then Beq(rs, rt, address)
    else if op == 5 then Bne(rs, rt, address)
    else if op == 1 then Bgez(rs, address)
    else if op == 10 then Slti(rt, rs, address)
    else if op == 11 then Sltiu(rt, rs, address)
    else Bad
  }

  function Decode(ins: word): Instr {
    var op := ins / 0x400_0000;
    var rs, rt, rd := ins / 0x20_0000 % 32, ins / 0x1_0000 % 32, ins / 0x800 % 32;
    if op == 0 then DecodeRegister(rd, rs, rt, ins / 64 % 32, ins % 64)
    else if op == 2 then J(ins % 0x400_0000 * 4)
    else if op == 3 then Jal(ins % 0x400_0000 * 4)
    else DecodeImmediate(op, rs, rt, ins % 0x1_0000)
  }

  lemma RegisterOperands(rd: nat, rs: nat, rt: nat, shamt: nat, funct: nat)
    requires rd < 32 && rs < 32 && rt < 32
    ensures RegistersInRange(DecodeRegister(rd, rs, rt, shamt, funct))
  {
  }

  lemma ImmediateOperands(op: nat, rs: nat, rt: nat, low: nat)
    requires rs < 32 && rt < 32
    ensures RegistersInRange(DecodeImmediate(op, rs, rt, low))
  {
  }

  lemma DecodedRegisters(ins: word)
    ensures RegistersInRange(Decode(ins))
  {
    hide DecodeRegister, DecodeImmediate;
    var rs, rt, rd := ins / 0x20_0000 % 32, ins / 0x1_0000 % 32, ins / 0x800 % 32;
    RegisterOperands(rd, rs, rt, ins / 64 % 32, ins % 64);
    ImmediateOperands(ins / 0x400_0000, rs, rt, ins % 0x1_0000);
  }

  /** The machine between two instructions. */
  datatype State = State(pc: int, reg: seq<int>, dmem: seq<int>, hi: int, lo: int) {
    predicate Valid() {
      |reg| == 32 && |dmem| == 64
    }
  }

  datatype LogicOp = AndOp | OrOp | XorOp

  predicate LogicBit(op: LogicOp, p: bool, q: bool) {
    match op
    case AndOp => p && q
    case OrOp => p || q
    case XorOp => p != q
  }

  /** Bits 0 to n-1 of two numbers combined bit by bit. */
  function Bitwise(op: LogicOp, n: nat, x: nat, y: nat): nat {
    if n == 0 then 0
    else (if LogicBit(op, x % 2 == 1, y % 2 == 1) then 1 else 0) + 2 * Bitwise(op, n - 1, x / 2, y / 2)
  }

  function Unsigned(x: int): nat {
    x % 0x1_0000_0000
  }

  function Logic(op: LogicOp, x: int, y: int): int {
    Wrap32(Bitwise(op, 32, Unsigned(x), Unsigned(y)))
  }

  function Wrap64(x: int): int {
    (x + 0x8000_0000_0000_0000) % 0x1_0000_0000_0000_0000 - 0x8000_0000_0000_0000
  }

  /** The low byte of an address, as a word index; used for instructions and for data. */
  function WordIndex(address: int): (i: nat)
    ensures i < 64
  {
    address % 256 / 4
  }

  /** A register write, followed by the reset of register 0. */
  function Write(s: State, r: nat, v: int): (t: State)
    requires s.Valid() && r < 32
    ensures t.Valid() && t.reg[0] == 0 && t.pc == s.pc && t.dmem == s.dmem
  {
    s.(reg := s.reg[r := v][0 := 0])
  }

  /** The effect of one instruction; s.pc is already the address of the next one. */
  function Execute(i: Instr, s: State): (t: State)
    requires s.Valid() && RegistersInRange(i)
    ensures t.Valid() && t.reg[0] == 0
  {
    var g, z := s.reg, s.(reg := s.reg[0 := 0]);
    match i
    case Addu(d, a, b) => Write(s, d, Wrap32(g[a] + g[b]))
    case Subu(d, a, b) => Write(s, d, Wrap32(g[a] - g[b]))
    case Mult(a, b) => var p := g[a] * g[b]; z.(lo := Wrap32(p), hi := Wrap32(p / 0x1_0000_0000))
    case Multu(a, b) =>
      var p := Wrap64(g[a] % 0x1_0000_0000_0000_0000 * (g[b] % 0x1_0000_0000_0000_0000));
      z.(lo := Wrap32(p), hi := Wrap32(p / 0x1_0000_0000))
    case Mfhi(d) => Write(s, d, s.hi)
    case Mflo(d) => Write(s, d, s.lo)
    case And(d, a, b) => Write(s, d, Logic(AndOp, g[a], g[b]))
    case Or(d, a, b) => Write(s, d, Logic(OrOp, g[a], g[b]))
    case Xor(d, a, b) => Write(s, d, Logic(XorOp, g[a], g[b]))
    case Sll(d, b, sh) => Write(s, d, Wrap32(g[b] * P2(sh)))
    case Srl(d, b, sh) => Write(s, d, g[b] / P2(sh))
    case Sllv(d, b, a) => Write(s, d, Wrap32(g[b] * P2(g[a] % 32)))
    case Srlv(d, b, a) => Write(s, d, g[b] / P2(g[a] % 32))
    case Slt(d, a, b) => Write(s, d, if g[a] < g[b] then 1 else 0)
    case Sltu(d, a, b) => Write(s, d, if Unsigned(g[a]) < Unsigned(g[b]) then 1 else 0)
    case Jr(a) => z.(pc := g[a])
    case J(target) => z.(pc := target)
    case Jal(target) => Write(s, 31, s.pc).(pc := target)
    case Addiu(b, a, imm) => Write(s, b, Wrap32(g[a] + imm))
    case Andi(b, a, imm) => Write(s, b, Logic(AndOp, g[a], imm % 0x1_0000))
    case Ori(b, a, imm) => Write(s, b, Logic(OrOp, g[a], imm % 0x1_0000))
    case Xori(b, a, imm) => Write(s, b, Logic(XorOp, g[a], imm % 0x1_0000))
    case Lw(b, a, imm) => Write(s, b, s.dmem[WordIndex(g[a] + imm)])
    case Sw(b, a, imm) => z.(dmem := s.dmem[WordIndex(g[a] + imm) := g[b]])
    case Lui(b, imm) => Write(s, b, Wrap32(imm * 0x1_0000))
    case Beq(a, b, imm) => if g[a] == g[b] then z.(pc := s.pc - 4 + imm * 4) else z
    case Bne(a, b, imm) => if g[a] != g[b] then z.(pc := s.pc - 4 + imm * 4) else z
    case Bgez(a, imm) => if g[a] >= 0 then z.(pc := s.pc - 4 + imm * 4) else z
    case Slti(b, a, imm) => Write(s, b, if g[a] < imm then 1 else 0)
    case Sltiu(b, a, imm) => Write(s, b, if Unsigned(g[a]) < imm % 0x1_0000 then 1 else 0)
    case Bad => z.(pc := 0)
  }

  /** The 44 words of program memory. */
  function Imem(k: nat): word
    requires k < 44
  {
    match k
    case 0 => 0x8fa40000
    case 1 => 0x27a50004
    case 2 => 0x24a60004
    case 3 => 0x00041080
    case 4 => 0x00c23021
    case 5 => 0x0c100016
    case 6 => 0x00000000
    case 7 => 0x3402000a
    case 8 => 0x0000000c
    case 9 => 0x3c011001
    case 10 => 0x34280000
    case 11 => 0x00044880
    case 12 => 0x01094821
    case 13 => 0x8d2a0000
    case 14 => 0x00055880
    case 15 => 0x010b5821
    case 16 => 0x8d6c0000
    case 17 => 0x018a682a
    case 18 => 0x11a00003
    case 19 => 0xad2c0000
    case 20 => 0xad6a0000
    case 21 => 0x03e00008
    case 22 => 0x27bdfff4
    case 23 => 0xafbf0008
    case 24 => 0xafb10004
    case 25 => 0xafb00000
    case 26 => 0x24100000
    case 27 => 0x2a080008
    case 28 => 0x1100000b
    case 29 => 0x26110001
    case 30 => 0x2a280008
    case 31 => 0x11000006
    case 32 => 0x26040000
    case 33 => 0x26250000
    case 34 => 0x0c100009
    case 35 => 0x26310001
    case 36 => 0x0810001e
    case 37 => 0x26100001
    case 38 => 0x0810001b
    case 39 => 0x8fbf0008
    case 40 => 0x8fb10004
    case 41 => 0x8fb00000
    case 42 => 0x27bd000c
    case _ => 0x03e00008
  }

  // What the words of the program decode to, block by block.

  lemma StartWords()
    ensures Decode(0x8fa40000) == Lw(4, 29, 0)
    ensures Decode(0x27a50004) == Addiu(5, 29, 4)
    ensures Decode(0x24a60004) == Addiu(6, 5, 4)
    ensures Decode(0x00041080) == Sll(2, 4, 2)
    ensures Decode(0x00c23021) == Addu(6, 6, 2)
    ensures Decode(0x0c100016) == Jal(0x400058)
    ensures Decode(0x00000000) == Sll(0, 0, 0)
    ensures Decode(0x3402000a) == Ori(2, 0, 10)
    ensures Decode(0x0000000c) == Bad
  {
  }

  lemma CompareWords()
    ensures Decode(0x3c011001) == Lui(1, 4097)
    ensures Decode(0x34280000) == Ori(8, 1, 0)
    ensures Decode(0x00044880) == Sll(9, 4, 2)
    ensures Decode(0x01094821) == Addu(9, 8, 9)
    ensures Decode(0x8d2a0000) == Lw(10, 9, 0)
    ensures Decode(0x00055880) == Sll(11, 5, 2)
    ensures Decode(0x010b5821) == Addu(11, 8, 11)
  {
  }

  lemma SwapWords()
    ensures Decode(0x8d6c0000) == Lw(12, 11, 0)
    ensures Decode(0x018a682a) == Slt(13, 12, 10)
    ensures Decode(0x11a00003) == Beq(13, 0, 3)
    ensures Decode(0xad2c0000) == Sw(12, 9, 0)
    ensures Decode(0xad6a0000) == Sw(10, 11, 0)
    ensures Decode(0x03e00008) == Jr(31)
  {
  }

  lemma EntryWords()
    ensures Decode(0x27bdfff4) == Addiu(29, 29, -12)
    ensures Decode(0xafbf0008) == Sw(31, 29, 8)
    ensures Decode(0xafb10004) == Sw(17, 29, 4)
    ensures Decode(0xafb00000) == Sw(16, 29, 0)
    ensures Decode(0x24100000) == Addiu(16, 0, 0)
    ensures Decode(0x2a080008) == Slti(8, 16, 8)
    ensures Decode(0x1100000b) == Beq(8, 0, 11)
    ensures Decode(0x26110001) == Addiu(17, 16, 1)
  {
  }

  lemma LoopWords()
    ensures Decode(0x2a280008) == Slti(8, 17, 8)
    ensures Decode(0x11000006) == Beq(8, 0, 6)
    ensures Decode(0x26040000) == Addiu(4, 16, 0)
    ensures Decode(0x26250000) == Addiu(5, 17, 0)
    ensures Decode(0x0c100009) == Jal(0x400024)
    ensures Decode(0x26310001) == Addiu(17, 17, 1)
    ensures Decode(0x0810001e) == J(0x400078)
  {
  }

  lemma ExitWords()
    ensures Decode(0x26100001) == Addiu(16, 16, 1)
    ensures Decode(0x0810001b) == J(0x40006c)
    ensures Decode(0x8fbf0008) == Lw(31, 29, 8)
    ensures Decode(0x8fb10004) == Lw(17, 29, 4)
    ensures Decode(0x8fb00000) == Lw(16, 29, 0)
    ensures Decode(0x27bd000c) == Addiu(29, 29, 12)
    ensures Decode(0x03e00008) == Jr(31)
  {
  }

  /** The interpreter's working state as it lives in memory. */
  class Machine {
    var pc: int
    var reg: array<int>
    var dmem: array<int>
    var hi: int
    var lo: int

    ghost predicate Valid()
      reads this
    {
      reg.Length == 32 && dmem.Length == 64 && reg != dmem
    }

    ghost function View(): (s: State)
      requires Valid()
      reads this, reg, dmem
      ensures s.Valid()
    {
      State(pc, reg[..], dmem[..], hi, lo)
    }

    /** Zeroed registers except the stack pointer; the data in the first eight words of memory. */
    constructor (data: array<int>)
      requires data.Length == 8
      ensures Valid() && fresh(reg) && fresh(dmem)
      ensures pc == 0x0040_0000 && hi == 0 && lo == 0
      ensures forall r | 0 <= r < 32 :: reg[r] == if r == 29 then 0x7FFF_EFFC else 0
      ensures forall k | 0 <= k < 64 :: dmem[k] == if k < 8 then data[k] else 0
    {
      pc := 0x0040_0000;
      hi, lo := 0, 0;
      reg := new int[32](_ => 0);
      dmem := new int[64](_ => 0);
      new;
      reg[29] := 0x7FFF_EFFC;
      for i := 0 to 8
        invariant Valid() && fresh(reg) && fresh(dmem) && pc == 0x0040_0000 && hi == 0 && lo == 0
        invariant forall k | 0 <= k < 64 :: dmem[k] == if k < i then data[k] else 0
        invariant forall r | 0 <= r < 32 :: reg[r] == if r == 29 then 0x7FFF_EFFC else 0
      {
        dmem[i] := data[i];
      }
    }

    /** The arithmetic and logic cases of the register switch. */
    method DispatchArithmetic(i: Instr)
      requires i.Addu? || i.Subu? || i.Mult? || i.Multu? || i.Mfhi? || i.Mflo? || i.And? || i.Or? || i.Xor?
      requires Valid() && RegistersInRange(i)
      modifies this`pc, this`hi, this`lo, reg, dmem
      ensures Valid() && View() == Execute(i, old(View()))
    {
      hide Logic, P2, Wrap32, Wrap64, WordIndex, Unsigned;
      match i {
        case Addu(d, a, b) => reg[d] := Wrap32(reg[a] + reg[b]);
        case Subu(d, a, b) => reg[d] := Wrap32(reg[a] - reg[b]);
        case Mult(a, b) =>
          var hilo := reg[a] * reg[b];
          lo := Wrap32(hilo);
          hi := Wrap32(hilo / 0x1_0000_0000);
        case Multu(a, b) =>
          var hilo := Wrap64(reg[a] % 0x1_0000_0000_0000_0000 * (reg[b] % 0x1_0000_0000_0000_0000));
          lo := Wrap32(hilo);
          hi := Wrap32(hilo / 0x1_0000_0000);
        case Mfhi(d) => reg[d] := hi;
        case Mflo(d) => reg[d] := lo;
        case And(d, a, b) => reg[d] := Logic(AndOp, reg[a], reg[b]);
        case Or(d, a, b) => reg[d] := Logic(OrOp, reg[a], reg[b]);
        case Xor(d, a, b) => reg[d] := Logic(XorOp, reg[a], reg[b]);
      }
      reg[0] := 0;
    }

    /** The comparisons and the register jump. */
    method DispatchCompare(i: Instr)
      requires i.Slt? || i.Sltu? || i.Jr?
      requires Valid() && RegistersInRange(i)
      modifies this`pc, this`hi, this`lo, reg, dmem
      ensures Valid() && View() == Execute(i, old(View()))
    {
      hide Logic, P2, Wrap32, Wrap64, WordIndex, Unsigned;
      match i {
        case Slt(d, a, b) => reg[d] := if reg[a] < reg[b] then 1 else 0;
        case Sltu(d, a, b) => reg[d] := if Unsigned(reg[a]) < Unsigned(reg[b]) then 1 else 0;
        case Jr(a) => pc := reg[a];
      }
      reg[0] := 0;
    }

    /** The shifts. */
    method DispatchShift(i: Instr)
      requires i.Sll? || i.Srl? || i.Sllv? || i.Srlv?
      requires Valid() && RegistersInRange(i)
      modifies this`pc, this`hi, this`lo, reg, dmem
      ensures Valid() && View() == Execute(i, old(View()))
    {
      hide Logic, P2, Wrap32, Wrap64, WordIndex, Unsigned;
      match i {
        case Sll(d, b, sh) => reg[d] := Wrap32(reg[b] * P2(sh));
        case Srl(d, b, sh) => reg[d] := reg[b] / P2(sh);
        case Sllv(d, b, a) => reg[d] := Wrap32(reg[b] * P2(reg[a] % 32));
        case Srlv(d, b, a) => reg[d] := reg[b] / P2(reg[a] % 32);
      }
      reg[0] := 0;
    }

    /** Addition and comparison with an immediate operand. */
    method DispatchImmediate(i: Instr)
      requires i.Addiu? || i.Slti? || i.Sltiu?
      requires Valid() && RegistersInRange(i)
      modifies this`pc, this`hi, this`lo, reg, dmem
      ensures Valid() && View() == Execute(i, old(View()))
    {
      hide Logic, P2, Wrap32, Wrap64, WordIndex, Unsigned;
      match i {
        case Addiu(b, a, imm) => reg[b] := Wrap32(reg[a] + imm);
        case Slti(b, a, imm) => reg[b] := if reg[a] < imm then 1 else 0;
        case Sltiu(b, a, imm) => reg[b] := if Unsigned(reg[a]) < imm % 0x1_0000 then 1 else 0;
      }
      reg[0] := 0;
    }

    /** Logic with an immediate operand, and its upper half. */
    method DispatchLogicImmediate(i: Instr)
      requires i.Andi? || i.Ori? || i.Xori? || i.Lui?
      requires Valid() && RegistersInRange(i)
      modifies this`pc, this`hi, this`lo, reg, dmem
      ensures Valid() && View() == Execute(i, old(View()))
    {
      hide Logic, P2, Wrap32, Wrap64, WordIndex, Unsigned;
      match i {
        case Andi(b, a, imm) => reg[b] := Logic(AndOp, reg[a], imm % 0x1_0000);
        case Ori(b, a, imm) => reg[b] := Logic(OrOp, reg[a], imm % 0x1_0000);
        case Xori(b, a, imm) => reg[b] := Logic(XorOp, reg[a], imm % 0x1_0000);
        case Lui(b, imm) => reg[b] := Wrap32(imm * 0x1_0000);
      }
      reg[0] := 0;
    }

    /** Memory accesses and the error case. */
    method DispatchMemory(i: Instr)
      requires i.Lw? || i.Sw? || i.Bad?
      requires Valid() && RegistersInRange(i)
      modifies this`pc, this`hi, this`lo, reg, dmem
      ensures Valid() && View() == Execute(i, old(View()))
    {
      hide Logic, P2, Wrap32, Wrap64, WordIndex, Unsigned;
      match i {
        case Lw(b, a, imm) => reg[b] := dmem[WordIndex(reg[a] + imm)];
        case Sw(b, a, imm) => dmem[WordIndex(reg[a] + imm)] := reg[b];
        case Bad => pc := 0;
      }
      reg[0] := 0;
    }

    /** Jumps. */
    method DispatchJump(i: Instr)
      requires i.J? || i.Jal?
      requires Valid() && RegistersInRange(i)
      modifies this`pc, this`hi, this`lo, reg, dmem
      ensures Valid() && View() == Execute(i, old(View()))
    {
      hide Logic, P2, Wrap32, Wrap64, WordIndex, Unsigned;
      match i {
        case J(target) => pc := target;
        case Jal(target) =>
          reg[31] := pc;
          pc := target;
      }
      reg[0] := 0;
    }

    /** Branches. */
    method DispatchBranch(i: Instr)
      requires i.Beq? || i.Bne? || i.Bgez?
      requires Valid() && RegistersInRange(i)
      modifies this`pc, this`hi, this`lo, reg, dmem
      ensures Valid() && View() == Execute(i, old(View()))
    {
      hide Logic, P2, Wrap32, Wrap64, WordIndex, Unsigned;
      match i {
        case Beq(a, b, imm) => if reg[a] == reg[b] { pc := pc - 4 + imm * 4; }
        case Bne(a, b, imm) => if reg[a] != reg[b] { pc := pc - 4 + imm * 4; }
        case Bgez(a, imm) => if reg[a] >= 0 { pc := pc - 4 + imm * 4; }
      }
      reg[0] := 0;
    }

    /** The body of the interpreter's switch; pc has already been advanced. */
    method Dispatch(i: Instr)
      requires Valid() && RegistersInRange(i)
      modifies this`pc, this`hi, this`lo, reg, dmem
      ensures Valid() && View() == Execute(i, old(View()))
    {
      hide Execute;
      if i.Addu? || i.Subu? || i.Mult? || i.Multu? || i.Mfhi? || i.Mflo? || i.And? || i.Or? || i.Xor? {
        DispatchArithmetic(i);
      } else if i.Sll? || i.Srl? || i.Sllv? || i.Srlv? {
        DispatchShift(i);
      } else if i.Slt? || i.Sltu? || i.Jr? {
        DispatchCompare(i);
      } else if i.Addiu? || i.Slti? || i.Sltiu? {
        DispatchImmediate(i);
      } else if i.Andi? || i.Ori? || i.Xori? || i.Lui? {
        DispatchLogicImmediate(i);
      } else if i.Lw? || i.Sw? || i.Bad? {
        DispatchMemory(i);
      } else if i.J? || i.Jal? {
        DispatchJump(i);
      } else {
        DispatchBranch(i);
      }
    }
  }
}
