/** Rijndael in its nine key and block sizes: key schedule, rounds, encryption and decryption. */
module Rijndael {
  import opened Arith
  import opened BitXor
  import opened AesTables
  import opened AesField
  import opened AesState
  import opened FiniteMaps

  const RCON0: seq<byte> := [
    0x01, 0x02, 0x04, 0x08, 0x10, 0x20, 0x40, 0x80, 0x1b, 0x36, 0x6c, 0xd8, 0xab, 0x4d, 0x9a, 0x2f,
    0x5e, 0xbc, 0x63, 0xc6, 0x97, 0x35, 0x6a, 0xd4, 0xb3, 0x7d, 0xfa, 0xef, 0xc5, 0x91
  ]

  /** A type code is 1000 times the key bits plus the block bits. */
  predicate Known(code: nat) {
    code in {128128, 128192, 128256, 192128, 192192, 192256, 256128, 256192, 256256}
  }

  function Nk(code: nat): nat {
    code / 1000 / 32
  }

  function Nb(code: nat): (nb: nat)
    ensures Known(code) ==> Columns(nb)
  {
    code % 1000 / 32
  }

  function Rounds(code: nat): nat {
    (if Nk(code) > Nb(code) then Nk(code) else Nb(code)) + 6
  }

  /** What a type code says: key bits and block bits, and as many rounds as the larger of the two asks for, 10, 12 or
    * 14 for 128, 192 or 256. */
  lemma TypeCodes(code: nat)
    requires Known(code)
    ensures code == 1000 * (32 * Nk(code)) + 32 * Nb(code)
    ensures Rounds(code) == if Nk(code) == 8 || Nb(code) == 8 then 14
                            else if Nk(code) == 6 || Nb(code) == 6 then 12 else 10
  {
  }

  /** A column of the expanded key. */
  type Word = w: seq<byte> | |w| == 4 witness [0, 0, 0, 0]

  function WordXor(v: Word, w: Word): Word {
    [ByteXor(v[0], w[0]), ByteXor(v[1], w[1]), ByteXor(v[2], w[2]), ByteXor(v[3], w[3])]
  }

  function SubWord(w: Word): Word {
    [SubByte(w[0]), SubByte(w[1]), SubByte(w[2]), SubByte(w[3])]
  }

  /** The last column before column j, as it enters column j. */
  function Stirred(w: Word, nk: nat, j: nat): Word
    requires 4 <= nk <= j < 120
  {
    if j % nk == 0 then [ByteXor(SubByte(w[1]), RCON0[j / nk - 1]), SubByte(w[2]), SubByte(w[3]), SubByte(w[0])]
    else if nk > 6 && j % nk == 4 then SubWord(w)
    else w
  }

  /** Every round constant is the double of the one before it: the powers of two in GF(2^8). */
  lemma RoundConstantDoubles(i: nat)
    requires 1 <= i < 30
    ensures RCON0[i] == Twice(RCON0[i - 1])
  {
    if i < 11 {
      EarlyConstants(i);
    } else if i < 21 {
      MiddleConstants(i);
    } else {
      LateConstants(i);
    }
  }

  lemma EarlyConstants(i: nat)
    requires 1 <= i < 11
    ensures RCON0[i] == Twice(RCON0[i - 1])
  {
    hide Twice;
    match i {
      case 1 => DoubleIsTwice(0x01);
      case 2 => DoubleIsTwice(0x02);
      case 3 => DoubleIsTwice(0x04);
      case 4 => DoubleIsTwice(0x08);
      case 5 => DoubleIsTwice(0x10);
      case 6 => DoubleIsTwice(0x20);
      case 7 => DoubleIsTwice(0x40);
      case 8 => DoubleIsTwice(0x80);
      case 9 => DoubleIsTwice(0x1b);
      case 10 => DoubleIsTwice(0x36);
    }
  }

  lemma MiddleConstants(i: nat)
    requires 11 <= i < 21
    ensures RCON0[i] == Twice(RCON0[i - 1])
  {
    hide Twice;
    match i {
      case 11 => DoubleIsTwice(0x6c);
      case 12 => DoubleIsTwice(0xd8);
      case 13 => DoubleIsTwice(0xab);
      case 14 => DoubleIsTwice(0x4d);
      case 15 => DoubleIsTwice(0x9a);
      case 16 => DoubleIsTwice(0x2f);
      case 17 => DoubleIsTwice(0x5e);
      case 18 => DoubleIsTwice(0xbc);
      case 19 => DoubleIsTwice(0x63);
      case 20 => DoubleIsTwice(0xc6);
    }
  }

  lemma LateConstants(i: nat)
    requires 21 <= i < 30
    ensures RCON0[i] == Twice(RCON0[i - 1])
  {
    hide Twice;
    match i {
      case 21 => DoubleIsTwice(0x97);
      case 22 => DoubleIsTwice(0x35);
      case 23 => DoubleIsTwice(0x6a);
      case 24 => DoubleIsTwice(0xd4);
      case 25 => DoubleIsTwice(0xb3);
      case 26 => DoubleIsTwice(0x7d);
      case 27 => DoubleIsTwice(0xfa);
      case 28 => DoubleIsTwice(0xef);
      case 29 => DoubleIsTwice(0xc5);
    }
  }

  /** Round constant i is one, doubled i times. */
  lemma {:induction false} RoundConstantIsPower(i: nat)
    requires i < 30
    ensures RCON0[i] == Doubled(1, i)
  {
    hide Twice;
    if i > 0 {
      RoundConstantIsPower(i - 1);
      RoundConstantDoubles(i);
    }
  }

  /** Column j of the expanded key. */
  function KeyColumn(key: seq<byte>, nk: nat, j: nat): Word
    requires |key| == 32 && 4 <= nk <= 8 && j < 120
  {
    if j < nk then key[4 * j..4 * j + 4]
    else WordXor(KeyColumn(key, nk, j - nk), Stirred(KeyColumn(key, nk, j - 1), nk, j))
  }

  lemma KeyColumnFirst(key: seq<byte>, nk: nat, j: nat)
    requires |key| == 32 && 4 <= nk <= 8 && j < nk
    ensures KeyColumn(key, nk, j) == key[4 * j..4 * j + 4]
  {
  }

  lemma KeyColumnLater(key: seq<byte>, nk: nat, j: nat)
    requires |key| == 32 && 4 <= nk <= 8 && nk <= j < 120
    ensures KeyColumn(key, nk, j) == WordXor(KeyColumn(key, nk, j - nk), Stirred(KeyColumn(key, nk, j - 1), nk, j))
  {
  }

  lemma RoundOf(nk: nat, j: nat)
    requires 4 <= nk <= j < 120
    ensures 1 <= j / nk <= 30 && j / nk - 1 < 30
  {
    DivMod(j, nk);
    if j / nk > 29 {
      ScaleMonotone(nk, 30, j / nk);
    }
  }

  /** The key byte added to state entry i in round n. */
  function KeyByte(key: seq<byte>, code: nat, n: nat, i: nat): byte
    requires |key| == 32 && Known(code) && n <= Rounds(code) && i < 4 * Nb(code)
  {
    KeyIndex(code, n, i / 4);
    KeyColumn(key, Nk(code), i / 4 + Nb(code) * n)[i % 4]
  }

  lemma KeyIndex(code: nat, n: nat, j: nat)
    requires Known(code) && n <= Rounds(code) && j < Nb(code)
    ensures 4 <= Nk(code) <= 8 && 0 <= j + Nb(code) * n < Nb(code) * (Rounds(code) + 1) <= 120
  {
    var nb := Nb(code);
    assert nb * n <= nb * Rounds(code) by {
      ScaleMonotone(nb, n, Rounds(code));
    }
    KeySize(code);
  }

  lemma KeySize(code: nat)
    requires Known(code)
    ensures 4 <= Nk(code) <= 8 && Columns(Nb(code)) && Nb(code) * (Rounds(code) + 1) <= 120 && 10 <= Rounds(code) <= 14
  {
  }

  function Keyed(s: seq<byte>, key: seq<byte>, code: nat, n: nat, i: nat): byte
    requires |s| == 32 && |key| == 32 && Known(code) && n <= Rounds(code) && i < 32
  {
    if i < 4 * Nb(code) then ByteXor(s[i], KeyByte(key, code, n, i)) else s[i]
  }

  /** The state with the key of round n added. */
  function AddKey(s: seq<byte>, key: seq<byte>, code: nat, n: nat): (t: seq<byte>)
    requires |s| == 32 && |key| == 32 && Known(code) && n <= Rounds(code)
    ensures |t| == 32
  {
    seq(32, i requires 0 <= i < 32 => Keyed(s, key, code, n, i))
  }

  /** Row k below row r of a column, cyclically. */
  function Turn(r: nat, k: nat): (q: nat)
    requires r < 4 && k < 4
    ensures q < 4 && q == (r + k) % 4
  {
    if r + k >= 4 then r + k - 4 else r + k
  }

  /** The position k below position i in the same column, cyclically. */
  function Down(i: nat, k: nat): (j: nat)
    requires i < 32 && k < 4
    ensures j < 32 && j / 4 == i / 4 && j % 4 == Turn(i % 4, k)
  {
    At(Turn(i % 4, k), i / 4)
  }

  lemma DownTwice(i: nat, k: nat, m: nat)
    requires i < 32 && k < 4 && m < 4
    ensures Down(Down(i, k), m) == Down(i, Turn(k, m)) && Down(i, 0) == i
  {
  }

  lemma SameColumn(i: nat, k: nat, nb: nat)
    requires i < 32 && k < 4
    ensures i < 4 * nb <==> Down(i, k) < 4 * nb
  {
  }

  function Below(s: seq<byte>, i: nat, k: nat): byte
    requires |s| == 32 && i < 32 && k < 4
  {
    s[Down(i, k)]
  }

  function MixedEntry(s: seq<byte>, nb: nat, i: nat): byte
    requires |s| == 32 && i < 32
  {
    if i < 4 * nb then
      MixedIsByte(s[i], Below(s, i, 1), Below(s, i, 2), Below(s, i, 3));
      MixByte(s[i], Below(s, i, 1), Below(s, i, 2), Below(s, i, 3))
    else s[i]
  }

  function UnmixedEntry(s: seq<byte>, nb: nat, i: nat): byte
    requires |s| == 32 && i < 32
  {
    if i < 4 * nb then
      UnmixedIsByte(s[i], Below(s, i, 1), Below(s, i, 2), Below(s, i, 3));
      UnmixByte(s[i], Below(s, i, 1), Below(s, i, 2), Below(s, i, 3))
    else s[i]
  }

  /** Every column multiplied by 2, 3, 1, 1. */
  function Mix(s: seq<byte>, nb: nat): (t: seq<byte>)
    requires |s| == 32
    ensures |t| == 32
  {
    seq(32, i requires 0 <= i < 32 => MixedEntry(s, nb, i))
  }

  /** Every column multiplied by 14, 11, 13, 9. */
  function Unmix(s: seq<byte>, nb: nat): (t: seq<byte>)
    requires |s| == 32
    ensures |t| == 32
  {
    seq(32, i requires 0 <= i < 32 => UnmixedEntry(s, nb, i))
  }

  lemma AddKeyTwice(s: seq<byte>, key: seq<byte>, code: nat, n: nat)
    requires |s| == 32 && |key| == 32 && Known(code) && n <= Rounds(code)
    ensures AddKey(AddKey(s, key, code, n), key, code, n) == s
  {
    hide KeyByte, Xor;
    forall i | 0 <= i < 32
      ensures AddKey(AddKey(s, key, code, n), key, code, n)[i] == s[i]
    {
      if i < 4 * Nb(code) {
        XorCancels(s[i], KeyByte(key, code, n, i));
      }
    }
  }

  lemma UnmixRestores(s: seq<byte>, nb: nat)
    requires |s| == 32
    ensures Unmix(Mix(s, nb), nb) == s
  {
    hide MixByte, UnmixByte, Below;
    var t := Mix(s, nb);
    forall i | 0 <= i < 32
      ensures Unmix(t, nb)[i] == s[i]
    {
      if i < 4 * nb {
        MixedBelow(s, nb, i, 0);
        MixedBelow(s, nb, i, 1);
        MixedBelow(s, nb, i, 2);
        MixedBelow(s, nb, i, 3);
        UnmixUndoesMix(s[i], Below(s, i, 1), Below(s, i, 2), Below(s, i, 3));
      }
    }
  }

  lemma MixedBelow(s: seq<byte>, nb: nat, i: nat, k: nat)
    requires |s| == 32 && i < 32 && i < 4 * nb && k < 4
    ensures Below(Mix(s, nb), i, k) == MixByte(Below(s, i, k), Below(s, i, Turn(k, 1)), Below(s, i, Turn(k, 2)),
                                               Below(s, i, Turn(k, 3)))
    ensures Below(s, i, 0) == s[i] && Below(Mix(s, nb), i, 0) == Mix(s, nb)[i]
  {
    hide MixByte, Down;
    var j := Down(i, k);
    DownTwice(i, k, 0);
    DownTwice(i, k, 1);
    DownTwice(i, k, 2);
    DownTwice(i, k, 3);
    SameColumn(i, k, nb);
  }

  /** The state after n full rounds of encryption. */
  function Encrypting(s: seq<byte>, key: seq<byte>, code: nat, n: nat): (t: seq<byte>)
    requires |s| == 32 && |key| == 32 && Known(code) && n <= Rounds(code)
    ensures |t| == 32
  {
    if n == 0 then AddKey(s, key, code, 0)
    else AddKey(Mix(ShiftSub(Encrypting(s, key, code, n - 1), Nb(code)), Nb(code)), key, code, n)
  }

  function Encrypted(s: seq<byte>, key: seq<byte>, code: nat): (t: seq<byte>)
    requires |s| == 32 && |key| == 32 && Known(code)
    ensures |t| == 32
  {
    var n := Rounds(code);
    AddKey(ShiftSub(Encrypting(s, key, code, n - 1), Nb(code)), key, code, n)
  }

  /** The state when decryption has come down to round n. */
  function Decrypting(s: seq<byte>, key: seq<byte>, code: nat, n: nat): (t: seq<byte>)
    requires |s| == 32 && |key| == 32 && Known(code) && n < Rounds(code)
    ensures |t| == 32
    decreases Rounds(code) - n
  {
    if n == Rounds(code) - 1 then UnshiftSub(AddKey(s, key, code, n + 1), Nb(code))
    else UnshiftSub(Unmix(AddKey(Decrypting(s, key, code, n + 1), key, code, n + 1), Nb(code)), Nb(code))
  }

  function Decrypted(s: seq<byte>, key: seq<byte>, code: nat): (t: seq<byte>)
    requires |s| == 32 && |key| == 32 && Known(code)
    ensures |t| == 32
  {
    AddKey(Decrypting(s, key, code, 0), key, code, 0)
  }

  /** Coming down to round n, decryption passes through the states of encryption in reverse. */
  lemma {:induction false} Reversed(s: seq<byte>, key: seq<byte>, code: nat, n: nat)
    requires |s| == 32 && |key| == 32 && Known(code) && n < Rounds(code)
    ensures Decrypting(Encrypted(s, key, code), key, code, n) == Encrypting(s, key, code, n)
    decreases Rounds(code) - n
  {
    hide AddKey, Mix, Unmix, ShiftSub, UnshiftSub, Known;
    var nb := Nb(code);
    var e := Encrypting(s, key, code, n);
    UnshiftUndoesShift(e, nb);
    AddKeyTwice(if n == Rounds(code) - 1 then ShiftSub(e, nb) else Mix(ShiftSub(e, nb), nb), key, code, n + 1);
    if n < Rounds(code) - 1 {
      Reversed(s, key, code, n + 1);
      UnmixRestores(ShiftSub(e, nb), nb);
    }
  }

  /** Decryption undoes encryption for every state, key and size. */
  lemma DecryptionUndoesEncryption(s: seq<byte>, key: seq<byte>, code: nat)
    requires |s| == 32 && |key| == 32 && Known(code)
    ensures Decrypted(Encrypted(s, key, code), key, code) == s
  {
    hide AddKey, Encrypted;
    Reversed(s, key, code, 0);
    AddKeyTwice(s, key, code, 0);
  }

  /** Encryption undoes decryption, too: both permute the finite set of states. */
  lemma EncryptionUndoesDecryption(s: seq<byte>, key: seq<byte>, code: nat)
    requires |s| == 32 && |key| == 32 && Known(code)
    ensures Encrypted(Decrypted(s, key, code), key, code) == s
  {
    hide Encrypted, Decrypted, Strings;
    var there := (t: seq<byte>) => if |t| == 32 then Encrypted(t, key, code) else t;
    var back := (t: seq<byte>) => if |t| == 32 then Decrypted(t, key, code) else t;
    forall t: seq<byte>
      ensures t in Strings(32) <==> |t| == 32
    {
      EveryString(t, 32);
    }
    forall t: seq<byte> | |t| == 32
      ensures back(there(t)) == t
    {
      DecryptionUndoesEncryption(t, key, code);
    }
    LeftIsRight(Strings(32), there, back);
    assert there(back(s)) == s;
  }

  /** One byte of MixColumn_AddRoundKey: doubling a, tripling b, and adding the rest and the key byte. */
  method MixOne(a: byte, b: byte, c: byte, d: byte, key: byte) returns (ret: byte)
    ensures MixByte(a, b, c, d) < 256 && ret == ByteXor(MixByte(a, b, c, d), key)
  {
    hide Xor;
    var y: nat := a * 2;
    if y / 256 == 1 {
      y := Xor(y, 283);
    }
    var x: nat := b;
    x := Xor(x, x * 2);
    if x / 256 == 1 {
      y := Xor(y, Xor(x, 283));
    } else {
      y := Xor(y, x);
    }
    y := Xor(y, Xor(Xor(c, d), key));
    XorAssociates(Xor(Twice(a), Thrice(b)), Xor(c, d), key);
    MixedIsByte(a, b, c, d);
    XorByte(MixByte(a, b, c, d), key);
    ret := y;
  }

  /** The four chains of AddRoundKey_InversMixColumn for one byte. */
  method UnmixOne(a: byte, b: byte, c: byte, d: byte) returns (ret: byte)
    ensures ret == UnmixByte(a, b, c, d)
  {
    hide Xor;
    var x: nat := Double(a);
    x := Xor(x, a);
    x := Double(x);
    x := Xor(x, a);
    x := Double(x);
    var y := x;
    x := Double(b);
    x := Double(x);
    x := Xor(x, b);
    x := Double(x);
    x := Xor(x, b);
    y := Xor(y, x);
    x := Double(c);
    x := Xor(x, c);
    x := Double(x);
    x := Double(x);
    x := Xor(x, c);
    y := Xor(y, x);
    x := Double(d);
    x := Double(x);
    x := Double(x);
    x := Xor(x, d);
    y := Xor(y, x);
    UnmixedIsByte(a, b, c, d);
    ret := y;
  }

  /** x << 1 with the reduction that follows every such shift. */
  method Double(x: nat) returns (y: nat)
    ensures y == Twice(x)
  {
    y := x * 2;
    if y / 256 == 1 {
      y := Xor(y, 283);
    }
  }

  /** The first m columns of t have been worked on and the rest are still those of s. */
  ghost predicate Worked(s: seq<byte>, goal: seq<byte>, t: seq<byte>, m: nat) {
    |s| == |goal| == |t| == 32 && m <= 8 && forall i | 0 <= i < 32 :: t[i] == if i < 4 * m then goal[i] else s[i]
  }

  /** The state with column j replaced. */
  function WithColumn(s: seq<byte>, j: nat, a: byte, b: byte, c: byte, d: byte): (t: seq<byte>)
    requires |s| == 32 && j < 8
    ensures |t| == 32
  {
    s[4 * j := a][4 * j + 1 := b][4 * j + 2 := c][4 * j + 3 := d]
  }

  lemma NothingWorked(s: seq<byte>, goal: seq<byte>)
    requires |s| == |goal| == 32
    ensures Worked(s, goal, s, 0)
  {
  }

  lemma ColumnPending(s: seq<byte>, goal: seq<byte>, t: seq<byte>, m: nat)
    requires Worked(s, goal, t, m) && m < 8 && |s| == |t| == 32
    ensures t[4 * m] == s[4 * m] && t[4 * m + 1] == s[4 * m + 1] && t[4 * m + 2] == s[4 * m + 2]
            && t[4 * m + 3] == s[4 * m + 3]
  {
  }

  lemma ColumnWorked(s: seq<byte>, goal: seq<byte>, t: seq<byte>, t': seq<byte>, m: nat)
    requires Worked(s, goal, t, m) && m < 8 && |t'| == 32
    requires |t| == |goal| == 32 && t' == WithColumn(t, m, goal[4 * m], goal[4 * m + 1], goal[4 * m + 2],
                                                     goal[4 * m + 3])
    ensures Worked(s, goal, t', m + 1)
  {
  }

  lemma AllWorked(s: seq<byte>, goal: seq<byte>, t: seq<byte>, m: nat)
    requires Worked(s, goal, t, m) && s[4 * m..] == goal[4 * m..]
    ensures t == goal
  {
    forall i | 0 <= i < 32
      ensures t[i] == goal[i]
    {
      if i >= 4 * m {
        assert s[4 * m..][i - 4 * m] == goal[4 * m..][i - 4 * m];
      }
    }
  }

  lemma WorkedPart(r: seq<byte>, goal: seq<byte>, ret: seq<byte>, m: nat, s: seq<byte>, t: seq<byte>)
    requires Worked(r, goal, ret, m) && |s| == |ret| == 32 && m <= 8 && s[4 * m..] == goal[4 * m..]
             && t == ret[..4 * m] + s[4 * m..]
    ensures t == goal
  {
    assert ret[..4 * m] == goal[..4 * m];
  }

  /** The bytes of the mixed column j, and of the unmixed one. */
  lemma MixedColumn(s: seq<byte>, nb: nat, j: nat, r: nat)
    requires |s| == 32 && j < nb <= 8 && r < 4
    ensures var m := MixByte(s[4 * j + r], s[4 * j + Turn(r, 1)], s[4 * j + Turn(r, 2)], s[4 * j + Turn(r, 3)]);
            m < 256 && Mix(s, nb)[4 * j + r] == m
    ensures Unmix(s, nb)[4 * j + r] == UnmixByte(s[4 * j + r], s[4 * j + Turn(r, 1)], s[4 * j + Turn(r, 2)],
                                                 s[4 * j + Turn(r, 3)])
  {
    hide MixByte, UnmixByte, Turn, Down;
    var i := 4 * j + r;
    assert i % 4 == r && i / 4 == j;
    DownIs(i, j, r, 1);
    DownIs(i, j, r, 2);
    DownIs(i, j, r, 3);
    assert Mix(s, nb)[i] == MixedEntry(s, nb, i);
    assert Unmix(s, nb)[i] == UnmixedEntry(s, nb, i);
  }

  lemma MixedBytes(s: seq<byte>, nb: nat, j: nat)
    requires |s| == 32 && j < nb <= 8
    ensures var (a, b, c, d, m) := (s[4 * j], s[4 * j + 1], s[4 * j + 2], s[4 * j + 3], Mix(s, nb));
            && m[4 * j] == MixByte(a, b, c, d) && m[4 * j + 1] == MixByte(b, c, d, a)
            && m[4 * j + 2] == MixByte(c, d, a, b) && m[4 * j + 3] == MixByte(d, a, b, c)
  {
    hide MixByte, Mix;
    MixedColumnAs(s, nb, j, 0, 1, 2, 3);
    MixedColumnAs(s, nb, j, 1, 2, 3, 0);
    MixedColumnAs(s, nb, j, 2, 3, 0, 1);
    MixedColumnAs(s, nb, j, 3, 0, 1, 2);
  }

  lemma MixedColumnAs(s: seq<byte>, nb: nat, j: nat, r: nat, p: nat, q: nat, t: nat)
    requires |s| == 32 && j < nb <= 8 && r < 4 && p == Turn(r, 1) && q == Turn(r, 2) && t == Turn(r, 3)
    ensures Mix(s, nb)[4 * j + r] == MixByte(s[4 * j + r], s[4 * j + p], s[4 * j + q], s[4 * j + t])
    ensures Unmix(s, nb)[4 * j + r] == UnmixByte(s[4 * j + r], s[4 * j + p], s[4 * j + q], s[4 * j + t])
  {
    MixedColumn(s, nb, j, r);
  }

  lemma DownIs(i: nat, j: nat, r: nat, k: nat)
    requires j < 8 && r < 4 && k < 4 && i == 4 * j + r
    ensures Down(i, k) == 4 * j + Turn(r, k)
  {
    assert i % 4 == r && i / 4 == j;
  }

  lemma MixedRest(s: seq<byte>, nb: nat)
    requires |s| == 32 && 4 * nb <= 32
    ensures Mix(s, nb)[4 * nb..] == s[4 * nb..] && Unmix(s, nb)[4 * nb..] == s[4 * nb..]
  {
  }

  lemma KeyedRest(s: seq<byte>, key: seq<byte>, code: nat, n: nat)
    requires |s| == 32 && |key| == 32 && Known(code) && n <= Rounds(code) && 4 * Nb(code) <= 32
    ensures AddKey(s, key, code, n)[4 * Nb(code)..] == s[4 * Nb(code)..]
  {
  }

  /** Column j of a state with the key of round n added, byte by byte. */
  lemma KeyedColumn(s: seq<byte>, key: seq<byte>, code: nat, n: nat, j: nat, w: Word)
    requires |s| == 32 && |key| == 32 && Known(code) && n <= Rounds(code) && j < Nb(code) && Nb(code) <= 8
    requires j + Nb(code) * n < 120 && 4 <= Nk(code) <= 8 && w == KeyColumn(key, Nk(code), j + Nb(code) * n)
    ensures var t := AddKey(s, key, code, n);
            && t[4 * j] == ByteXor(s[4 * j], w[0]) && t[4 * j + 1] == ByteXor(s[4 * j + 1], w[1])
            && t[4 * j + 2] == ByteXor(s[4 * j + 2], w[2]) && t[4 * j + 3] == ByteXor(s[4 * j + 3], w[3])
  {
    hide ByteXor, Known, KeyColumn, Nk, Nb, Rounds;
    assert (4 * j + 1) / 4 == (4 * j + 2) / 4 == (4 * j + 3) / 4 == j;
  }

  /** The global key schedule and block parameters. */
  class Cipher {
    const word: array2<byte>
    var nb: nat
    var round: nat

    constructor ()
      ensures fresh(word) && word.Length0 == 4 && word.Length1 == 120
    {
      word := new byte[4, 120];
      nb, round := 0, 0;
    }

    ghost predicate Shaped() {
      word.Length0 == 4 && word.Length1 == 120
    }

    ghost function Column(j: nat): Word
      requires Shaped() && j < 120
      reads word
    {
      [word[0, j], word[1, j], word[2, j], word[3, j]]
    }

    /** The first m columns hold the expanded key. */
    ghost predicate Expanded(key: seq<byte>, nk: nat, m: nat)
      reads word
    {
      Shaped() && |key| == 32 && 4 <= nk <= 8 && m <= 120 && forall j: nat | j < m :: Column(j) == KeyColumn(key, nk, j)
    }

    /** What column j adds to the column nk before it, in row r: the column in front of it, substituted and turned up by
      * one row with a power of two in row 0 where a new key length begins, substituted in the middle of a long key. */
    ghost function Added(nk: nat, r: nat, j: nat): nat
      requires Shaped() && r < 4 && 4 <= nk <= j < 120
      reads word
    {
      if j % nk == 0 then
        var turned := SubByte(word[(r + 1) % 4, j - 1]);
        if r == 0 then Xor(turned, Doubled(1, j / nk - 1)) else turned
      else if nk > 6 && j % nk == 4 then SubByte(word[r, j - 1])
      else word[r, j - 1]
    }

    /** The expanded key as section 5.2 of FIPS 197 has it: the key itself in the first nk columns, and every later
      * entry from the entry nk columns before it. */
    ghost predicate Scheduled(key: seq<byte>, nk: nat, m: nat)
      reads word
    {
      && Shaped() && |key| == 32 && 4 <= nk <= 8 && m <= 120
      && (forall r: nat, j: nat | r < 4 && j < nk && j < m :: word[r, j] == key[r + 4 * j])
      && (forall r: nat, j: nat | r < 4 && nk <= j < m :: word[r, j] == Xor(word[r, j - nk], Added(nk, r, j)))
    }

    lemma ExpandedIsScheduled(key: seq<byte>, nk: nat, m: nat)
      requires Expanded(key, nk, m)
      ensures Scheduled(key, nk, m)
    {
      hide Xor, SubByte, Doubled, KeyColumn;
      forall r: nat, j: nat | r < 4 && j < nk && j < m
        ensures word[r, j] == key[r + 4 * j]
      {
        KeyColumnFirst(key, nk, j);
        assert Column(j) == KeyColumn(key, nk, j);
      }
      forall r: nat, j: nat | r < 4 && nk <= j < m
        ensures word[r, j] == Xor(word[r, j - nk], Added(nk, r, j))
      {
        KeyColumnLater(key, nk, j);
        assert Column(j) == KeyColumn(key, nk, j) && Column(j - 1) == KeyColumn(key, nk, j - 1);
        assert Column(j - nk) == KeyColumn(key, nk, j - nk);
        RoundOf(nk, j);
        RoundConstantIsPower(j / nk - 1);
      }
    }

    method KeySchedule(code: nat, key: seq<byte>) returns (r: int)
      requires Shaped() && |key| == 32
      modifies word
      ensures r == if Known(code) then 0 else -1
      ensures Known(code) ==> Scheduled(key, Nk(code), Nb(code) * (Rounds(code) + 1))
      ensures Known(code) ==>
                && Nb(code) * (Rounds(code) + 1) <= 120 && Expanded(key, Nk(code), Nb(code) * (Rounds(code) + 1))
    {
      hide SubByte, ByteXor, KeyColumn;
      var nk, nb, round;
      match code {
        case 128128 => nk, nb, round := 4, 4, 10;
        case 128192 => nk, nb, round := 4, 6, 12;
        case 128256 => nk, nb, round := 4, 8, 14;
        case 192128 => nk, nb, round := 6, 4, 12;
        case 192192 => nk, nb, round := 6, 6, 12;
        case 192256 => nk, nb, round := 6, 8, 14;
        case 256128 => nk, nb, round := 8, 4, 14;
        case 256192 => nk, nb, round := 8, 6, 14;
        case 256256 => nk, nb, round := 8, 8, 14;
        case _ => return -1;
      }
      CopyKey(key, nk);
      ExpandKey(key, nk, nb * (round + 1));
      ExpandedIsScheduled(key, nk, nb * (round + 1));
      return 0;
    }

    method CopyKey(key: seq<byte>, nk: nat)
      requires Shaped() && |key| == 32 && 4 <= nk <= 8
      modifies word
      ensures Expanded(key, nk, nk)
    {
      hide Column;
      var j := 0;
      while j < nk
        invariant j <= nk && Expanded(key, nk, j)
      {
        CopyColumn(key, j);
        assert Column(j) == KeyColumn(key, nk, j);
        j := j + 1;
      }
    }

    method CopyColumn(key: seq<byte>, j: nat)
      requires Shaped() && |key| == 32 && j < 8
      modifies word
      ensures Column(j) == key[4 * j..4 * j + 4]
      ensures forall k: nat | k < j :: Column(k) == old(Column(k))
    {
      var i := 0;
      while i < 4
        invariant i <= 4 && forall k | 0 <= k < i :: word[k, j] == key[k + j * 4]
        invariant forall k, c | 0 <= k < 4 && 0 <= c < j :: word[k, c] == old(word[k, c])
      {
        word[i, j] := key[i + j * 4];
        i := i + 1;
      }
    }

    /** RotByte, SubByte and the round constant, or SubByte alone, or nothing. */
    method Stir(temp: array<byte>, nk: nat, j: nat)
      requires Shaped() && temp.Length == 4 && 4 <= nk <= j < 120
      modifies temp
      ensures temp[..] == Stirred(Column(j - 1), nk, j)
    {
      hide SubByte, ByteXor;
      if j % nk == 0 {
        temp[0] := ByteXor(SubByte(word[1, j - 1]), RCON0[j / nk - 1]);
        temp[1] := SubByte(word[2, j - 1]);
        temp[2] := SubByte(word[3, j - 1]);
        temp[3] := SubByte(word[0, j - 1]);
      }
      if j % nk != 0 {
        temp[0] := word[0, j - 1];
        temp[1] := word[1, j - 1];
        temp[2] := word[2, j - 1];
        temp[3] := word[3, j - 1];
      }
      if nk > 6 && j % nk == 4 {
        ghost var w := temp[..];
        var i := 0;
        while i < 4
          invariant i <= 4 && forall k | 0 <= k < 4 :: temp[k] == if k < i then SubByte(w[k]) else w[k]
        {
          temp[i] := SubByte(temp[i]);
          i := i + 1;
        }
      }
    }

    /** Column j becomes column j - nk with temp added. */
    method AddColumn(temp: array<byte>, nk: nat, j: nat)
      requires Shaped() && temp.Length == 4 && 4 <= nk <= j < 120
      modifies word
      ensures Column(j) == WordXor(old(Column(j - nk)), temp[..])
      ensures forall k: nat | k < j :: Column(k) == old(Column(k))
    {
      hide ByteXor;
      var i := 0;
      while i < 4
        invariant i <= 4 && forall k | 0 <= k < i :: word[k, j] == ByteXor(word[k, j - nk], temp[k])
        invariant forall k, c | 0 <= k < 4 && 0 <= c < j :: word[k, c] == old(word[k, c])
      {
        word[i, j] := ByteXor(word[i, j - nk], temp[i]);
        i := i + 1;
      }
    }

    method ExpandKey(key: seq<byte>, nk: nat, m: nat)
      requires Expanded(key, nk, nk) && nk <= m <= 120
      modifies word
      ensures Expanded(key, nk, m)
    {
      hide WordXor, Stirred, Column;
      var temp := new byte[4];
      var j := nk;
      while j < m
        invariant nk <= j <= m && Expanded(key, nk, j)
      {
        Stir(temp, nk, j);
        AddColumn(temp, nk, j);
        assert Column(j) == KeyColumn(key, nk, j);
        j := j + 1;
      }
    }

    ghost predicate Ready(key: seq<byte>, code: nat)
      reads word
    {
      Known(code) && Nb(code) * (Rounds(code) + 1) <= 120 && Expanded(key, Nk(code), Nb(code) * (Rounds(code) + 1))
    }

    lemma ReadyColumn(key: seq<byte>, code: nat, n: nat, j: nat)
      requires Ready(key, code) && n <= Rounds(code) && j < Nb(code)
      ensures |key| == 32 && Known(code) && Shaped() && 4 <= Nk(code) <= 8 && Nb(code) <= 8 && j + Nb(code) * n < 120
      ensures Column(j + Nb(code) * n) == KeyColumn(key, Nk(code), j + Nb(code) * n)
    {
      KeyIndex(code, n, j);
    }

    /** One column of the state, with a column of the key added. */
    method XorColumn(statemt: array<byte>, j: nat, c: nat)
      requires statemt.Length == 32 && Shaped() && j < 8 && c < 120
      modifies statemt
      ensures var (s, w) := (old(statemt[..]), Column(c));
              statemt[..] == WithColumn(s, j, ByteXor(s[4 * j], w[0]), ByteXor(s[4 * j + 1], w[1]),
                                        ByteXor(s[4 * j + 2], w[2]), ByteXor(s[4 * j + 3], w[3]))
    {
      hide ByteXor;
      statemt[j * 4] := ByteXor(statemt[j * 4], word[0, c]);
      statemt[1 + j * 4] := ByteXor(statemt[1 + j * 4], word[1, c]);
      statemt[2 + j * 4] := ByteXor(statemt[2 + j * 4], word[2, c]);
      statemt[3 + j * 4] := ByteXor(statemt[3 + j * 4], word[3, c]);
    }

    /** The loop that adds the key of round n to all nb columns. */
    method XorColumns(statemt: array<byte>, nb: nat, n: nat, ghost code: nat, ghost key: seq<byte>)
      requires statemt.Length == 32 && |key| == 32 && Known(code) && Ready(key, code) && n <= Rounds(code)
               && nb == Nb(code)
      modifies statemt
      ensures statemt[..] == AddKey(old(statemt[..]), key, code, n)
    {
      hide Known, Nb, Rounds, KeyColumn, AddKey, Worked, Ready, Column, ByteXor;
      ghost var s := statemt[..];
      ghost var goal := AddKey(s, key, code, n);
      NothingWorked(s, goal);
      var j := 0;
      while j < nb
        invariant j <= nb && Worked(s, goal, statemt[..], j)
      {
        ghost var t := statemt[..];
        ReadyColumn(key, code, n, j);
        KeyedColumn(s, key, code, n, j, Column(j + nb * n));
        ColumnPending(s, goal, t, j);
        XorColumn(statemt, j, j + nb * n);
        ColumnWorked(s, goal, t, statemt[..], j);
        j := j + 1;
      }
      KeyedRest(s, key, code, n);
      AllWorked(s, goal, statemt[..], nb);
    }

    method AddRoundKey(statemt: array<byte>, code: nat, n: nat, ghost key: seq<byte>)
      requires statemt.Length == 32 && |key| == 32 && Known(code) && Ready(key, code) && n <= Rounds(code)
      modifies statemt
      ensures statemt[..] == AddKey(old(statemt[..]), key, code, n)
    {
      var nb := if code % 1000 == 128 then 4 else if code % 1000 == 192 then 6 else 8;
      XorColumns(statemt, nb, n, code, key);
    }

    /** Column j of ret becomes the mixed column j of the state with column c of the key added. */
    method MixInto(statemt: array<byte>, ret: array<byte>, j: nat, c: nat, ghost nb: nat)
      requires statemt.Length == ret.Length == 32 && statemt != ret && Shaped() && j < nb <= 8 && c < 120
      modifies ret
      ensures var (r, m, w) := (old(ret[..]), Mix(statemt[..], nb), Column(c));
              ret[..] == WithColumn(r, j, ByteXor(m[4 * j], w[0]), ByteXor(m[4 * j + 1], w[1]),
                                    ByteXor(m[4 * j + 2], w[2]), ByteXor(m[4 * j + 3], w[3]))
    {
      hide ByteXor, MixByte, Mix;
      var (a, b, c0, d) := (statemt[j * 4], statemt[1 + j * 4], statemt[2 + j * 4], statemt[3 + j * 4]);
      MixedBytes(statemt[..], nb, j);
      var first := MixOne(a, b, c0, d, word[0, c]);
      var second := MixOne(b, c0, d, a, word[1, c]);
      var third := MixOne(c0, d, a, b, word[2, c]);
      var fourth := MixOne(d, a, b, c0, word[3, c]);
      ret[j * 4] := first;
      ret[1 + j * 4] := second;
      ret[2 + j * 4] := third;
      ret[3 + j * 4] := fourth;
    }

    /** The copying loop behind both column steps. */
    method CopyColumns(statemt: array<byte>, ret: array<byte>, nb: nat)
      requires statemt.Length == ret.Length == 32 && statemt != ret && nb <= 8
      modifies statemt
      ensures statemt[..] == ret[..4 * nb] + old(statemt[4 * nb..])
    {
      var j := 0;
      while j < nb
        invariant j <= nb && forall i | 0 <= i < 32 :: statemt[i] == if i < 4 * j then ret[i] else old(statemt[i])
      {
        statemt[j * 4] := ret[j * 4];
        statemt[1 + j * 4] := ret[1 + j * 4];
        statemt[2 + j * 4] := ret[2 + j * 4];
        statemt[3 + j * 4] := ret[3 + j * 4];
        j := j + 1;
      }
    }

    method MixColumnAddRoundKey(statemt: array<byte>, nb: nat, n: nat, ghost code: nat, ghost key: seq<byte>)
      requires statemt.Length == 32 && |key| == 32 && Known(code) && Ready(key, code) && n <= Rounds(code)
               && nb == Nb(code)
      modifies statemt
      ensures statemt[..] == AddKey(Mix(old(statemt[..]), nb), key, code, n)
    {
      hide Known, Nb, Rounds, KeyColumn, AddKey, Mix, Worked, Ready, Column, ByteXor;
      var ret := new byte[32];
      ghost var (s, r) := (statemt[..], ret[..]);
      ghost var goal := AddKey(Mix(s, nb), key, code, n);
      NothingWorked(r, goal);
      var j := 0;
      while j < nb
        invariant j <= nb && statemt[..] == s && Worked(r, goal, ret[..], j)
      {
        ghost var t := ret[..];
        ReadyColumn(key, code, n, j);
        KeyedColumn(Mix(s, nb), key, code, n, j, Column(j + nb * n));
        MixInto(statemt, ret, j, j + nb * n, nb);
        ColumnWorked(r, goal, t, ret[..], j);
        j := j + 1;
      }
      KeySize(code);
      KeyedRest(Mix(s, nb), key, code, n);
      MixedRest(s, nb);
      CopyColumns(statemt, ret, nb);
      WorkedPart(r, goal, ret[..], nb, s, statemt[..]);
    }

    /** Column j of ret becomes the unmixed column j of the state. */
    method UnmixInto(statemt: array<byte>, ret: array<byte>, j: nat, nb: nat)
      requires statemt.Length == ret.Length == 32 && statemt != ret && j < nb <= 8
      modifies ret
      ensures var (r, u) := (old(ret[..]), Unmix(statemt[..], nb));
              ret[..] == WithColumn(r, j, u[4 * j], u[4 * j + 1], u[4 * j + 2], u[4 * j + 3])
    {
      hide UnmixByte, Unmix, Mix;
      ghost var r := ret[..];
      ghost var u := Unmix(statemt[..], nb);
      var i := 0;
      while i < 4
        invariant i <= 4 && forall k | 0 <= k < 32 :: ret[k] == if 4 * j <= k < 4 * j + i then u[k] else r[k]
      {
        var (p, q, t) := ((i + 1) % 4, (i + 2) % 4, (i + 3) % 4);
        MixedColumnAs(statemt[..], nb, j, i, p, q, t);
        var x := UnmixOne(statemt[i + j * 4], statemt[p + j * 4], statemt[q + j * 4], statemt[t + j * 4]);
        ret[i + j * 4] := x;
        i := i + 1;
      }
    }

    method AddRoundKeyInversMixColumn(statemt: array<byte>, nb: nat, n: nat, ghost code: nat, ghost key: seq<byte>)
      requires statemt.Length == 32 && |key| == 32 && Known(code) && Ready(key, code) && n <= Rounds(code)
               && nb == Nb(code)
      modifies statemt
      ensures statemt[..] == Unmix(AddKey(old(statemt[..]), key, code, n), nb)
    {
      hide Known, Nb, Rounds, KeyColumn, AddKey, Mix, Unmix, Worked, Ready, Column;
      KeySize(code);
      XorColumns(statemt, nb, n, code, key);
      var ret := new byte[32];
      ghost var (s, r) := (statemt[..], ret[..]);
      ghost var goal := Unmix(s, nb);
      NothingWorked(r, goal);
      var j := 0;
      while j < nb
        invariant j <= nb && statemt[..] == s && Worked(r, goal, ret[..], j)
      {
        ghost var t := ret[..];
        UnmixInto(statemt, ret, j, nb);
        ColumnWorked(r, goal, t, ret[..], j);
        j := j + 1;
      }
      MixedRest(s, nb);
      CopyColumns(statemt, ret, nb);
      WorkedPart(r, goal, ret[..], nb, s, statemt[..]);
    }

    method Encrypt(statemt: array<byte>, key: seq<byte>, code: nat)
      requires statemt.Length == 32 && |key| == 32 && Known(code) && Shaped()
      modifies this, word, statemt
      ensures statemt[..] == Encrypted(old(statemt[..]), key, code)
    {
      hide Expanded, Encrypted, Decrypted, KeyColumn;
      var r := KeySchedule(code, key);
      match code {
        case 128128 => round, nb := 0, 4;
        case 192128 => round, nb := 2, 4;
        case 256128 => round, nb := 4, 4;
        case 128192 => round, nb := 2, 6;
        case 192192 => round, nb := 2, 6;
        case 256192 => round, nb := 4, 6;
        case _ => round, nb := 4, 8;
      }
      EncryptRounds(statemt, key, code);
    }

    method EncryptRounds(statemt: array<byte>, ghost key: seq<byte>, code: nat)
      requires statemt.Length == 32 && |key| == 32 && Known(code) && Ready(key, code)
      requires nb == Nb(code) && round + 10 == Rounds(code)
      modifies statemt
      ensures statemt[..] == Encrypted(old(statemt[..]), key, code)
    {
      hide Known, Nb, Rounds, AddKey, Mix, ShiftSub, Ready;
      ghost var s := statemt[..];
      AddRoundKey(statemt, code, 0, key);
      var i := 1;
      while i <= round + 9
        invariant 1 <= i <= round + 10 && Ready(key, code) && statemt[..] == Encrypting(s, key, code, i - 1)
      {
        ByteSubShiftRow(statemt, nb);
        MixColumnAddRoundKey(statemt, nb, i, code, key);
        i := i + 1;
      }
      ByteSubShiftRow(statemt, nb);
      AddRoundKey(statemt, code, i, key);
    }

    method Decrypt(statemt: array<byte>, key: seq<byte>, code: nat)
      requires statemt.Length == 32 && |key| == 32 && Known(code) && Shaped()
      modifies this, word, statemt
      ensures statemt[..] == Decrypted(old(statemt[..]), key, code)
    {
      hide Expanded, Encrypted, Decrypted, KeyColumn;
      var r := KeySchedule(code, key);
      match code {
        case 128128 => round, nb := 10, 4;
        case 128192 => round, nb := 12, 6;
        case 192192 => round, nb := 12, 6;
        case 192128 => round, nb := 12, 4;
        case 128256 => round, nb := 14, 8;
        case 192256 => round, nb := 14, 8;
        case 256128 => round, nb := 14, 4;
        case 256192 => round, nb := 14, 6;
        case _ => round, nb := 14, 8;
      }
      DecryptRounds(statemt, key, code);
    }

    method DecryptRounds(statemt: array<byte>, ghost key: seq<byte>, code: nat)
      requires statemt.Length == 32 && |key| == 32 && Known(code) && Ready(key, code)
      requires nb == Nb(code) && 0 < round == Rounds(code)
      modifies statemt
      ensures statemt[..] == Decrypted(old(statemt[..]), key, code)
    {
      hide Known, Nb, Rounds, AddKey, Unmix, UnshiftSub, Ready;
      ghost var s := statemt[..];
      AddRoundKey(statemt, code, round, key);
      InversShiftRowByteSub(statemt, nb);
      var i := round - 1;
      while i >= 1
        invariant 0 <= i < round && Ready(key, code) && statemt[..] == Decrypting(s, key, code, i)
      {
        AddRoundKeyInversMixColumn(statemt, nb, i, code, key);
        InversShiftRowByteSub(statemt, nb);
        i := i - 1;
      }
      AddRoundKey(statemt, code, 0, key);
    }
  }

  /** Encrypting a buffer and decrypting it again with the same key leaves it as it was. */
  method RoundTrip(cipher: Cipher, statemt: array<byte>, key: seq<byte>, code: nat)
    requires statemt.Length == 32 && |key| == 32 && Known(code) && cipher.Shaped()
    modifies cipher, cipher.word, statemt
    ensures statemt[..] == old(statemt[..])
  {
    ghost var s := statemt[..];
    cipher.Encrypt(statemt, key, code);
    cipher.Decrypt(statemt, key, code);
    DecryptionUndoesEncryption(s, key, code);
  }
}
