/** The worked example of Appendix B of FIPS 197, which is the input the program enciphers: every intermediate state and
  * round key of it, and with them the cipher text. */
module RijndaelVector {
  import opened Arith
  import opened BitXor
  import opened AesTables
  import opened AesField
  import opened AesState
  import opened Rijndael

  /** Four bytes and four columns, as bit vectors, on which constants are quickly evaluated. */
  datatype Column = Column(a: Nine, b: Nine, c: Nine, d: Nine)

  datatype Square = Square(p: Column, q: Column, r: Column, s: Column)

  const PLAIN: Square := Square(Column(0x32, 0x43, 0xf6, 0xa8), Column(0x88, 0x5a, 0x30, 0x8d),
                                Column(0x31, 0x31, 0x98, 0xa2), Column(0xe0, 0x37, 0x07, 0x34))

  /** The key of round n. */
  function KeyAt(n: nat): Square {
    match n
    case 0 => Square(Column(0x2b, 0x7e, 0x15, 0x16), Column(0x28, 0xae, 0xd2, 0xa6),
                     Column(0xab, 0xf7, 0x15, 0x88), Column(0x09, 0xcf, 0x4f, 0x3c))
    case 1 => Square(Column(0xa0, 0xfa, 0xfe, 0x17), Column(0x88, 0x54, 0x2c, 0xb1),
                     Column(0x23, 0xa3, 0x39, 0x39), Column(0x2a, 0x6c, 0x76, 0x05))
    case 2 => Square(Column(0xf2, 0xc2, 0x95, 0xf2), Column(0x7a, 0x96, 0xb9, 0x43),
                     Column(0x59, 0x35, 0x80, 0x7a), Column(0x73, 0x59, 0xf6, 0x7f))
    case 3 => Square(Column(0x3d, 0x80, 0x47, 0x7d), Column(0x47, 0x16, 0xfe, 0x3e),
                     Column(0x1e, 0x23, 0x7e, 0x44), Column(0x6d, 0x7a, 0x88, 0x3b))
    case 4 => Square(Column(0xef, 0x44, 0xa5, 0x41), Column(0xa8, 0x52, 0x5b, 0x7f),
                     Column(0xb6, 0x71, 0x25, 0x3b), Column(0xdb, 0x0b, 0xad, 0x00))
    case 5 => Square(Column(0xd4, 0xd1, 0xc6, 0xf8), Column(0x7c, 0x83, 0x9d, 0x87),
                     Column(0xca, 0xf2, 0xb8, 0xbc), Column(0x11, 0xf9, 0x15, 0xbc))
    case 6 => Square(Column(0x6d, 0x88, 0xa3, 0x7a), Column(0x11, 0x0b, 0x3e, 0xfd),
                     Column(0xdb, 0xf9, 0x86, 0x41), Column(0xca, 0x00, 0x93, 0xfd))
    case 7 => Square(Column(0x4e, 0x54, 0xf7, 0x0e), Column(0x5f, 0x5f, 0xc9, 0xf3),
                     Column(0x84, 0xa6, 0x4f, 0xb2), Column(0x4e, 0xa6, 0xdc, 0x4f))
    case 8 => Square(Column(0xea, 0xd2, 0x73, 0x21), Column(0xb5, 0x8d, 0xba, 0xd2),
                     Column(0x31, 0x2b, 0xf5, 0x60), Column(0x7f, 0x8d, 0x29, 0x2f))
    case 9 => Square(Column(0xac, 0x77, 0x66, 0xf3), Column(0x19, 0xfa, 0xdc, 0x21),
                     Column(0x28, 0xd1, 0x29, 0x41), Column(0x57, 0x5c, 0x00, 0x6e))
    case _ => Square(Column(0xd0, 0x14, 0xf9, 0xa8), Column(0xc9, 0xee, 0x25, 0x89),
                     Column(0xe1, 0x3f, 0x0c, 0xc8), Column(0xb6, 0x63, 0x0c, 0xa6))
  }

  /** The state after round n. */
  function StateAt(n: nat): Square {
    match n
    case 0 => Square(Column(0x19, 0x3d, 0xe3, 0xbe), Column(0xa0, 0xf4, 0xe2, 0x2b),
                     Column(0x9a, 0xc6, 0x8d, 0x2a), Column(0xe9, 0xf8, 0x48, 0x08))
    case 1 => Square(Column(0xa4, 0x9c, 0x7f, 0xf2), Column(0x68, 0x9f, 0x35, 0x2b),
                     Column(0x6b, 0x5b, 0xea, 0x43), Column(0x02, 0x6a, 0x50, 0x49))
    case 2 => Square(Column(0xaa, 0x8f, 0x5f, 0x03), Column(0x61, 0xdd, 0xe3, 0xef),
                     Column(0x82, 0xd2, 0x4a, 0xd2), Column(0x68, 0x32, 0x46, 0x9a))
    case 3 => Square(Column(0x48, 0x6c, 0x4e, 0xee), Column(0x67, 0x1d, 0x9d, 0x0d),
                     Column(0x4d, 0xe3, 0xb1, 0x38), Column(0xd6, 0x5f, 0x58, 0xe7))
    case 4 => Square(Column(0xe0, 0x92, 0x7f, 0xe8), Column(0xc8, 0x63, 0x63, 0xc0),
                     Column(0xd9, 0xb1, 0x35, 0x50), Column(0x85, 0xb8, 0xbe, 0x01))
    case 5 => Square(Column(0xf1, 0x00, 0x6f, 0x55), Column(0xc1, 0x92, 0x4c, 0xef),
                     Column(0x7c, 0xc8, 0x8b, 0x32), Column(0x5d, 0xb5, 0xd5, 0x0c))
    case 6 => Square(Column(0x26, 0x0e, 0x2e, 0x17), Column(0x3d, 0x41, 0xb7, 0x7d),
                     Column(0xe8, 0x64, 0x72, 0xa9), Column(0xfd, 0xd2, 0x8b, 0x25))
    case 7 => Square(Column(0x5a, 0x41, 0x42, 0xb1), Column(0x19, 0x49, 0xdc, 0x1f),
                     Column(0xa3, 0xe0, 0x19, 0x65), Column(0x7a, 0x8c, 0x04, 0x0c))
    case 8 => Square(Column(0xea, 0x83, 0x5c, 0xf0), Column(0x04, 0x45, 0x33, 0x2d),
                     Column(0x65, 0x5d, 0x98, 0xad), Column(0x85, 0x96, 0xb0, 0xc5))
    case 9 => Square(Column(0xeb, 0x40, 0xf2, 0x1e), Column(0x59, 0x2e, 0x38, 0x84),
                     Column(0x8b, 0xa1, 0x13, 0xe7), Column(0x1b, 0xc3, 0x42, 0xd2))
    case _ => Square(Column(0x39, 0x25, 0x84, 0x1d), Column(0x02, 0xdc, 0x09, 0xfb),
                     Column(0xdc, 0x11, 0x85, 0x97), Column(0x19, 0x6a, 0x0b, 0x32))
  }

  /** The state of round n after substitution and rotation. */
  function SubbedAt(n: nat): Square {
    match n
    case 1 => Square(Column(0xd4, 0xbf, 0x5d, 0x30), Column(0xe0, 0xb4, 0x52, 0xae),
                     Column(0xb8, 0x41, 0x11, 0xf1), Column(0x1e, 0x27, 0x98, 0xe5))
    case 2 => Square(Column(0x49, 0xdb, 0x87, 0x3b), Column(0x45, 0x39, 0x53, 0x89),
                     Column(0x7f, 0x02, 0xd2, 0xf1), Column(0x77, 0xde, 0x96, 0x1a))
    case 3 => Square(Column(0xac, 0xc1, 0xd6, 0xb8), Column(0xef, 0xb5, 0x5a, 0x7b),
                     Column(0x13, 0x23, 0xcf, 0xdf), Column(0x45, 0x73, 0x11, 0xb5))
    case 4 => Square(Column(0x52, 0xa4, 0xc8, 0x94), Column(0x85, 0x11, 0x6a, 0x28),
                     Column(0xe3, 0xcf, 0x2f, 0xd7), Column(0xf6, 0x50, 0x5e, 0x07))
    case 5 => Square(Column(0xe1, 0xfb, 0x96, 0x7c), Column(0xe8, 0xc8, 0xae, 0x9b),
                     Column(0x35, 0x6c, 0xd2, 0xba), Column(0x97, 0x4f, 0xfb, 0x53))
    case 6 => Square(Column(0xa1, 0x4f, 0x3d, 0xfe), Column(0x78, 0xe8, 0x03, 0xfc),
                     Column(0x10, 0xd5, 0xa8, 0xdf), Column(0x4c, 0x63, 0x29, 0x23))
    case 7 => Square(Column(0xf7, 0x83, 0x40, 0x3f), Column(0x27, 0x43, 0x3d, 0xf0),
                     Column(0x9b, 0xb5, 0x31, 0xff), Column(0x54, 0xab, 0xa9, 0xd3))
    case 8 => Square(Column(0xbe, 0x3b, 0xd4, 0xfe), Column(0xd4, 0xe1, 0xf2, 0xc8),
                     Column(0x0a, 0x64, 0x2c, 0xc0), Column(0xda, 0x83, 0x86, 0x4d))
    case 9 => Square(Column(0x87, 0x6e, 0x46, 0xa6), Column(0xf2, 0x4c, 0xe7, 0x8c),
                     Column(0x4d, 0x90, 0x4a, 0xd8), Column(0x97, 0xec, 0xc3, 0x95))
    case _ => Square(Column(0xe9, 0x31, 0x7d, 0xb5), Column(0xcb, 0x32, 0x2c, 0x72),
                     Column(0x3d, 0x2e, 0x89, 0x5f), Column(0xaf, 0x09, 0x07, 0x94))
  }

  /** The round transformations on columns of bit vectors. */
  function Mixed(a: Nine, b: Nine, c: Nine, d: Nine): Nine {
    Plus(Plus(DoubleBits(a), Plus(DoubleBits(b), b)), Plus(c, d))
  }

  function MixedFour(c: Column): Column {
    Column(Mixed(c.a, c.b, c.c, c.d), Mixed(c.b, c.c, c.d, c.a), Mixed(c.c, c.d, c.a, c.b), Mixed(c.d, c.a, c.b, c.c))
  }

  function Sum(c: Column, k: Column): Column {
    Column(Plus(c.a, k.a), Plus(c.b, k.b), Plus(c.c, k.c), Plus(c.d, k.d))
  }

  /** Byte y is the substitute of byte x. */
  predicate Subs(x: Nine, y: Nine) {
    x < 0x100 && SubByte(x as nat) == y as nat
  }

  /** Column t is what rotation and substitution make of a column and the three to its right. */
  predicate ColumnSubs(p: Column, q: Column, r: Column, s: Column, t: Column) {
    Subs(p.a, t.a) && Subs(q.b, t.b) && Subs(r.c, t.c) && Subs(s.d, t.d)
  }

  predicate LeftBegins(n: nat)
    requires n > 0
  {
    var (x, t) := (StateAt(n - 1), SubbedAt(n));
    ColumnSubs(x.p, x.q, x.r, x.s, t.p) && ColumnSubs(x.q, x.r, x.s, x.p, t.q)
  }

  predicate RightBegins(n: nat)
    requires n > 0
  {
    var (x, t) := (StateAt(n - 1), SubbedAt(n));
    ColumnSubs(x.r, x.s, x.p, x.q, t.r) && ColumnSubs(x.s, x.p, x.q, x.r, t.s)
  }

  /** A round ends as the table says: its key added to the mixed columns, in the last round to the columns as they
    * are. */
  predicate RoundEnds(n: nat) {
    var (t, k, u) := (SubbedAt(n), KeyAt(n), StateAt(n));
    if n == 10 then u == Square(Sum(t.p, k.p), Sum(t.q, k.q), Sum(t.r, k.r), Sum(t.s, k.s))
    else u == Square(Sum(MixedFour(t.p), k.p), Sum(MixedFour(t.q), k.q),
                     Sum(MixedFour(t.r), k.r), Sum(MixedFour(t.s), k.s))
  }

  /** The first column of a round key is the one of the key before it plus the last column turned and substituted, with
    * the round constant; each other column is the one of the key before it plus the column to its left. */
  predicate KeyBegins(n: nat, constant: Nine)
    requires 0 < n <= 10
  {
    var (w, t) := (KeyAt(n - 1).s, Sum(KeyAt(n).p, KeyAt(n - 1).p));
    && RCON0[n - 1] == constant as nat
    && Subs(w.b, Plus(t.a, constant)) && Subs(w.c, t.b) && Subs(w.d, t.c) && Subs(w.a, t.d)
  }

  predicate KeyEnds(n: nat)
    requires n > 0
  {
    var (k, m) := (KeyAt(n - 1), KeyAt(n));
    m.q == Sum(k.q, m.p) && m.r == Sum(k.r, m.q) && m.s == Sum(k.s, m.r)
  }

  lemma EarlyRoundsEnd(n: nat)
    requires 1 <= n <= 5
    ensures RoundEnds(n)
  {
    match n { case 1 => case 2 => case 3 => case 4 => case 5 => }
  }

  lemma LateRoundsEnd(n: nat)
    requires 6 <= n <= 10
    ensures RoundEnds(n)
  {
    match n { case 6 => case 7 => case 8 => case 9 => case 10 => }
  }

  lemma KeysEnd(n: nat)
    requires 1 <= n <= 10
    ensures KeyEnds(n)
  {
    match n { case 1 => case 2 => case 3 => case 4 => case 5 => case 6 => case 7 => case 8 => case 9 => case 10 => }
  }

  lemma Left1()
    ensures LeftBegins(1)
  {
  }

  lemma Right1()
    ensures RightBegins(1)
  {
  }

  lemma Key1()
    ensures KeyBegins(1, 0x01)
  {
  }

  lemma Left2()
    ensures LeftBegins(2)
  {
  }

  lemma Right2()
    ensures RightBegins(2)
  {
  }

  lemma Key2()
    ensures KeyBegins(2, 0x02)
  {
  }

  lemma Left3()
    ensures LeftBegins(3)
  {
  }

  lemma Right3()
    ensures RightBegins(3)
  {
  }

  lemma Key3()
    ensures KeyBegins(3, 0x04)
  {
  }

  lemma Left4()
    ensures LeftBegins(4)
  {
  }

  lemma Right4()
    ensures RightBegins(4)
  {
  }

  lemma Key4()
    ensures KeyBegins(4, 0x08)
  {
  }

  lemma Left5()
    ensures LeftBegins(5)
  {
  }

  lemma Right5()
    ensures RightBegins(5)
  {
  }

  lemma Key5()
    ensures KeyBegins(5, 0x10)
  {
  }

  lemma Left6()
    ensures LeftBegins(6)
  {
  }

  lemma Right6()
    ensures RightBegins(6)
  {
  }

  lemma Key6()
    ensures KeyBegins(6, 0x20)
  {
  }

  lemma Left7()
    ensures LeftBegins(7)
  {
  }

  lemma Right7()
    ensures RightBegins(7)
  {
  }

  lemma Key7()
    ensures KeyBegins(7, 0x40)
  {
  }

  lemma Left8()
    ensures LeftBegins(8)
  {
  }

  lemma Right8()
    ensures RightBegins(8)
  {
  }

  lemma Key8()
    ensures KeyBegins(8, 0x80)
  {
  }

  lemma Left9()
    ensures LeftBegins(9)
  {
  }

  lemma Right9()
    ensures RightBegins(9)
  {
  }

  lemma Key9()
    ensures KeyBegins(9, 0x1b)
  {
  }

  lemma Left10()
    ensures LeftBegins(10)
  {
  }

  lemma Right10()
    ensures RightBegins(10)
  {
  }

  lemma Key10()
    ensures KeyBegins(10, 0x36)
  {
  }

  lemma RoundBegins(n: nat)
    requires 1 <= n <= 10
    ensures LeftBegins(n) && RightBegins(n) && RoundEnds(n)
  {
    if n <= 5 {
      EarlyRoundsEnd(n);
    } else {
      LateRoundsEnd(n);
    }
    hide LeftBegins, RightBegins, RoundEnds;
    match n {
      case 1 =>
        Left1();
        Right1();
      case 2 =>
        Left2();
        Right2();
      case 3 =>
        Left3();
        Right3();
      case 4 =>
        Left4();
        Right4();
      case 5 =>
        Left5();
        Right5();
      case 6 =>
        Left6();
        Right6();
      case 7 =>
        Left7();
        Right7();
      case 8 =>
        Left8();
        Right8();
      case 9 =>
        Left9();
        Right9();
      case 10 =>
        Left10();
        Right10();
    }
  }

  lemma NextKeyBegins(n: nat) returns (constant: Nine)
    requires 1 <= n <= 10
    ensures KeyBegins(n, constant) && KeyEnds(n)
  {
    KeysEnd(n);
    hide KeyBegins, KeyEnds;
    match n {
      case 1 =>
        Key1();
        constant := 0x01;
      case 2 =>
        Key2();
        constant := 0x02;
      case 3 =>
        Key3();
        constant := 0x04;
      case 4 =>
        Key4();
        constant := 0x08;
      case 5 =>
        Key5();
        constant := 0x10;
      case 6 =>
        Key6();
        constant := 0x20;
      case 7 =>
        Key7();
        constant := 0x40;
      case 8 =>
        Key8();
        constant := 0x80;
      case 9 =>
        Key9();
        constant := 0x1b;
      case 10 =>
        Key10();
        constant := 0x36;
    }
  }

  /** Column j of a state, and a word, hold the bytes of c. */
  predicate ShowsColumn(s: seq<byte>, j: nat, c: Column)
    requires |s| == 32 && j < 4
  {
    && s[4 * j] == c.a as nat && s[4 * j + 1] == c.b as nat
    && s[4 * j + 2] == c.c as nat && s[4 * j + 3] == c.d as nat
  }

  predicate ShowsWord(w: Word, c: Column) {
    w[0] == c.a as nat && w[1] == c.b as nat && w[2] == c.c as nat && w[3] == c.d as nat
  }

  predicate Shows(s: seq<byte>, x: Square)
    requires |s| == 32
  {
    ShowsColumn(s, 0, x.p) && ShowsColumn(s, 1, x.q) && ShowsColumn(s, 2, x.r) && ShowsColumn(s, 3, x.s)
  }

  /** The columns of the key of round n. */
  ghost predicate ShowsKey(key: seq<byte>, n: nat, k: Square)
    requires |key| == 32 && n <= 10
  {
    && ShowsWord(KeyColumn(key, 4, 4 * n), k.p) && ShowsWord(KeyColumn(key, 4, 4 * n + 1), k.q)
    && ShowsWord(KeyColumn(key, 4, 4 * n + 2), k.r) && ShowsWord(KeyColumn(key, 4, 4 * n + 3), k.s)
  }

  lemma ByteSum(x: byte, y: byte, v: Nine, w: Nine)
    requires x == v as nat && y == w as nat
    ensures ByteXor(x, y) == Plus(v, w) as nat
  {
    XorIsBitwise(v, w);
  }

  lemma WordSum(v: Word, w: Word, c: Column, d: Column)
    requires ShowsWord(v, c) && ShowsWord(w, d)
    ensures ShowsWord(WordXor(v, w), Sum(c, d))
  {
    ByteSum(v[0], w[0], c.a, d.a);
    ByteSum(v[1], w[1], c.b, d.b);
    ByteSum(v[2], w[2], c.c, d.c);
    ByteSum(v[3], w[3], c.d, d.d);
    hide ByteXor, Plus;
  }

  lemma ByteMixed(a: Nine, b: Nine, c: Nine, d: Nine)
    requires a < 0x100 && b < 0x100 && c < 0x100 && d < 0x100
    ensures MixByte(a as nat, b as nat, c as nat, d as nat) == Mixed(a, b, c, d) as nat
  {
    DoubleIsTwice(a);
    DoubleIsTwice(b);
    ThriceIsTwicePlus(b as nat);
    hide Twice, Thrice, Xor;
    var (x, y) := (DoubleBits(a), DoubleBits(b));
    XorIsBitwise(y, b);
    XorIsBitwise(x, Plus(y, b));
    XorIsBitwise(c, d);
    XorIsBitwise(Plus(x, Plus(y, b)), Plus(c, d));
    hide DoubleBits, Plus;
  }

  lemma ColumnMixed(s: seq<byte>, j: nat, c: Column)
    requires |s| == 32 && j < 4 && ShowsColumn(s, j, c)
    ensures ShowsColumn(Mix(s, 4), j, MixedFour(c))
  {
    MixedBytes(s, 4, j);
    BytesFit(s, j, c);
    ByteMixed(c.a, c.b, c.c, c.d);
    ByteMixed(c.b, c.c, c.d, c.a);
    ByteMixed(c.c, c.d, c.a, c.b);
    ByteMixed(c.d, c.a, c.b, c.c);
    hide Mix, MixByte, Mixed;
  }

  lemma BytesFit(s: seq<byte>, j: nat, c: Column)
    requires |s| == 32 && j < 4 && ShowsColumn(s, j, c)
    ensures c.a < 0x100 && c.b < 0x100 && c.c < 0x100 && c.d < 0x100
  {
  }

  lemma Example(code: nat)
    requires code == 128128
    ensures Known(code) && Nb(code) == 4 && Nk(code) == 4 && Rounds(code) == 10
  {
  }

  lemma ColumnKeyed(s: seq<byte>, key: seq<byte>, code: nat, n: nat, j: nat, c: Column, k: Column)
    requires |s| == |key| == 32 && code == 128128 && n <= 10 && j < 4 && ShowsColumn(s, j, c)
    requires ShowsWord(KeyColumn(key, 4, 4 * n + j), k)
    ensures Known(code) && Rounds(code) == 10 && ShowsColumn(AddKey(s, key, code, n), j, Sum(c, k))
  {
    hide AddKey, KeyColumn, ByteXor, Plus;
    Example(code);
    hide Known, Nb, Nk, Rounds;
    var w := KeyColumn(key, 4, 4 * n + j);
    KeyedColumn(s, key, code, n, j, w);
    ByteSum(s[4 * j], w[0], c.a, k.a);
    ByteSum(s[4 * j + 1], w[1], c.b, k.b);
    ByteSum(s[4 * j + 2], w[2], c.c, k.c);
    ByteSum(s[4 * j + 3], w[3], c.d, k.d);
  }

  lemma ColumnShifted(s: seq<byte>, j: nat, p: Column, q: Column, r: Column, v: Column, t: Column)
    requires |s| == 32 && j < 4 && ShowsColumn(s, j, p) && ShowsColumn(s, (j + 1) % 4, q)
    requires ShowsColumn(s, (j + 2) % 4, r) && ShowsColumn(s, (j + 3) % 4, v) && ColumnSubs(p, q, r, v, t)
    ensures ShowsColumn(ShiftSub(s, 4), j, t)
  {
    hide SubByte, ShiftSub;
    ByteShifted(s, j, 0);
    ByteShifted(s, j, 1);
    ByteShifted(s, j, 2);
    ByteShifted(s, j, 3);
  }

  lemma ByteShifted(s: seq<byte>, j: nat, r: nat)
    requires |s| == 32 && j < 4 && r < 4
    ensures ShiftSub(s, 4)[4 * j + r] == SubByte(s[4 * ((j + r) % 4) + r])
  {
    hide ShiftedEntry;
    EntryShifted(s, j, r, 4 * j + r);
  }

  lemma EntryShifted(s: seq<byte>, j: nat, r: nat, i: nat)
    requires |s| == 32 && j < 4 && r < 4 && i == 4 * j + r
    ensures ShiftedEntry(s, 4, i) == SubByte(s[4 * ((j + r) % 4) + r])
  {
    hide SubByte;
    assert i / 4 == j && i % 4 == r;
    match r { case 0 => case 1 => case 2 => case 3 => }
  }

  lemma SquareShifted(s: seq<byte>, n: nat)
    requires |s| == 32 && 1 <= n <= 10 && Shows(s, StateAt(n - 1))
    ensures Shows(ShiftSub(s, 4), SubbedAt(n))
  {
    hide StateAt, SubbedAt, ShowsColumn, ShiftSub, ColumnSubs, RoundEnds;
    RoundBegins(n);
    var (x, t) := (StateAt(n - 1), SubbedAt(n));
    ColumnShifted(s, 0, x.p, x.q, x.r, x.s, t.p);
    ColumnShifted(s, 1, x.q, x.r, x.s, x.p, t.q);
    ColumnShifted(s, 2, x.r, x.s, x.p, x.q, t.r);
    ColumnShifted(s, 3, x.s, x.p, x.q, x.r, t.s);
  }

  lemma SquareMixed(s: seq<byte>, x: Square)
    requires |s| == 32 && Shows(s, x)
    ensures Shows(Mix(s, 4), Square(MixedFour(x.p), MixedFour(x.q), MixedFour(x.r), MixedFour(x.s)))
  {
    hide ShowsColumn, Mix, MixedFour;
    ColumnMixed(s, 0, x.p);
    ColumnMixed(s, 1, x.q);
    ColumnMixed(s, 2, x.r);
    ColumnMixed(s, 3, x.s);
  }

  lemma SquareKeyed(s: seq<byte>, key: seq<byte>, code: nat, n: nat, x: Square, k: Square)
    requires |s| == |key| == 32 && code == 128128 && n <= 10 && Shows(s, x) && ShowsKey(key, n, k)
    ensures Known(code) && Rounds(code) == 10
    ensures Shows(AddKey(s, key, code, n), Square(Sum(x.p, k.p), Sum(x.q, k.q), Sum(x.r, k.r), Sum(x.s, k.s)))
  {
    hide ShowsColumn, ShowsWord, AddKey, Sum, KeyColumn;
    ColumnKeyed(s, key, code, n, 0, x.p, k.p);
    ColumnKeyed(s, key, code, n, 1, x.q, k.q);
    ColumnKeyed(s, key, code, n, 2, x.r, k.r);
    ColumnKeyed(s, key, code, n, 3, x.s, k.s);
  }

  lemma SumCancels(c: Column, k: Column)
    ensures Sum(k, Sum(c, k)) == c
  {
  }

  lemma PlusCancels(x: Nine, y: Nine)
    ensures Plus(Plus(x, y), y) == x
  {
  }

  /** The last column of a round key as it enters the next one. */
  lemma StirredShown(w: Word, n: nat, c: Column, t: Column, constant: Nine)
    requires 1 <= n <= 10 && ShowsWord(w, c) && RCON0[n - 1] == constant as nat
    requires Subs(c.b, Plus(t.a, constant)) && Subs(c.c, t.b) && Subs(c.d, t.c) && Subs(c.a, t.d)
    ensures ShowsWord(Stirred(w, 4, 4 * n), t)
  {
    hide SubByte, ByteXor, Plus;
    assert 4 * n / 4 == n && 4 * n % 4 == 0;
    PlusCancels(t.a, constant);
    ByteSum(SubByte(w[1]), RCON0[n - 1], Plus(t.a, constant), constant);
  }

  lemma FirstColumnShown(key: seq<byte>, n: nat)
    requires |key| == 32 && 1 <= n <= 10 && ShowsKey(key, n - 1, KeyAt(n - 1))
    ensures ShowsWord(KeyColumn(key, 4, 4 * n), KeyAt(n).p)
  {
    hide KeyAt, KeyColumn, ShowsWord, Subs, Stirred, WordXor, Plus;
    var constant := NextKeyBegins(n);
    var (k, m) := (KeyAt(n - 1), KeyAt(n));
    var t := Sum(m.p, k.p);
    var (v, w) := (KeyColumn(key, 4, 4 * (n - 1)), KeyColumn(key, 4, 4 * (n - 1) + 3));
    KeyColumnLater(key, 4, 4 * n);
    StirredShown(w, n, k.s, t, constant);
    WordSum(v, Stirred(w, 4, 4 * n), k.p, t);
    SumCancels(m.p, k.p);
    hide Sum;
  }

  lemma NotStirred(w: Word, j: nat)
    requires 4 <= j < 120 && j % 4 != 0
    ensures Stirred(w, 4, j) == w
  {
  }

  lemma NextColumnShown(key: seq<byte>, n: nat, i: nat, c: Column, d: Column)
    requires |key| == 32 && 1 <= n <= 10 && 1 <= i <= 3
    requires ShowsWord(KeyColumn(key, 4, 4 * n + i - 4), c) && ShowsWord(KeyColumn(key, 4, 4 * n + i - 1), d)
    ensures ShowsWord(KeyColumn(key, 4, 4 * n + i), Sum(c, d))
  {
    hide KeyColumn, ShowsWord, WordXor, Sum, Stirred;
    var j := 4 * n + i;
    assert j % 4 == i;
    var (v, w) := (KeyColumn(key, 4, j - 4), KeyColumn(key, 4, j - 1));
    KeyColumnLater(key, 4, j);
    NotStirred(w, j);
    WordSum(v, w, c, d);
  }

  /** The round keys of the example's key. */
  lemma {:induction false} KeysShown(key: seq<byte>, n: nat)
    requires |key| == 32 && Shows(key, KeyAt(0)) && n <= 10
    ensures ShowsKey(key, n, KeyAt(n))
  {
    hide Shows, KeyAt, KeyColumn, ShowsWord, Sum, KeyBegins;
    if n == 0 {
      FirstKeyShown(key, KeyAt(0));
    } else {
      KeysShown(key, n - 1);
      var (k, m) := (KeyAt(n - 1), KeyAt(n));
      FirstColumnShown(key, n);
      var constant := NextKeyBegins(n);
      NextColumnShown(key, n, 1, k.q, m.p);
      NextColumnShown(key, n, 2, k.r, m.q);
      NextColumnShown(key, n, 3, k.s, m.r);
    }
  }

  lemma FirstKeyShown(key: seq<byte>, k: Square)
    requires |key| == 32 && Shows(key, k)
    ensures ShowsKey(key, 0, k)
  {
    KeyColumnFirst(key, 4, 0);
    KeyColumnFirst(key, 4, 1);
    KeyColumnFirst(key, 4, 2);
    KeyColumnFirst(key, 4, 3);
    hide KeyColumn;
  }

  lemma StartsAs()
    ensures StateAt(0) == Square(Sum(PLAIN.p, KeyAt(0).p), Sum(PLAIN.q, KeyAt(0).q), Sum(PLAIN.r, KeyAt(0).r),
                                 Sum(PLAIN.s, KeyAt(0).s))
  {
  }

  /** Every intermediate state of the example. */
  lemma {:induction false} StatesShown(s: seq<byte>, key: seq<byte>, code: nat, n: nat)
    requires |s| == |key| == 32 && code == 128128 && Shows(s, PLAIN) && Shows(key, KeyAt(0)) && n <= 9
    ensures Known(code) && Rounds(code) == 10 && Shows(Encrypting(s, key, code, n), StateAt(n))
  {
    hide KeyAt, StateAt, Shows, ShowsKey, AddKey, Mix, ShiftSub, Sum;
    KeysShown(key, n);
    Example(code);
    hide Known, Nb, Nk, Rounds;
    if n == 0 {
      StartsAs();
      SquareKeyed(s, key, code, 0, PLAIN, KeyAt(0));
    } else {
      StatesShown(s, key, code, n - 1);
      NextStateShown(Encrypting(s, key, code, n - 1), key, code, n);
    }
  }

  lemma NextStateShown(before: seq<byte>, key: seq<byte>, code: nat, n: nat)
    requires |before| == |key| == 32 && code == 128128 && 1 <= n <= 9
    requires Shows(before, StateAt(n - 1)) && ShowsKey(key, n, KeyAt(n))
    ensures Known(code) && Rounds(code) == 10
    ensures Shows(AddKey(Mix(ShiftSub(before, 4), 4), key, code, n), StateAt(n))
  {
    hide KeyAt, StateAt, SubbedAt, Shows, ShowsKey, Sum, AddKey, Mix, ShiftSub, MixedFour, LeftBegins, RightBegins;
    RoundBegins(n);
    var t := SubbedAt(n);
    SquareShifted(before, n);
    SquareMixed(ShiftSub(before, 4), t);
    SquareKeyed(Mix(ShiftSub(before, 4), 4), key, code, n,
                Square(MixedFour(t.p), MixedFour(t.q), MixedFour(t.r), MixedFour(t.s)), KeyAt(n));
  }

  lemma LastShown(s: seq<byte>, key: seq<byte>, code: nat)
    requires |s| == |key| == 32 && code == 128128 && Shows(s, PLAIN) && Shows(key, KeyAt(0))
    ensures Known(code) && Shows(Encrypted(s, key, code), StateAt(10))
  {
    hide KeyAt, StateAt, SubbedAt, Shows, ShowsKey, Sum, AddKey, ShiftSub, LeftBegins, RightBegins, Encrypting;
    var n := 10;
    Example(code);
    StatesShown(s, key, code, n - 1);
    KeysShown(key, n);
    RoundBegins(n);
    var before := Encrypting(s, key, code, n - 1);
    SquareShifted(before, n);
    SquareKeyed(ShiftSub(before, 4), key, code, n, SubbedAt(n), KeyAt(n));
  }

  lemma FirstBytes(s: seq<byte>)
    requires |s| == 32
    ensures var b := s[..16];
            && s[0] == b[0] && s[1] == b[1] && s[2] == b[2] && s[3] == b[3] && s[4] == b[4] && s[5] == b[5]
            && s[6] == b[6] && s[7] == b[7] && s[8] == b[8] && s[9] == b[9] && s[10] == b[10] && s[11] == b[11]
            && s[12] == b[12] && s[13] == b[13] && s[14] == b[14] && s[15] == b[15]
  {
  }

  lemma PlainShown(s: seq<byte>)
    requires |s| == 32
    requires s[..16] == [0x32, 0x43, 0xf6, 0xa8, 0x88, 0x5a, 0x30, 0x8d,
                        0x31, 0x31, 0x98, 0xa2, 0xe0, 0x37, 0x07, 0x34]
    ensures Shows(s, PLAIN)
  {
    FirstBytes(s);
  }

  lemma KeyShown(key: seq<byte>)
    requires |key| == 32
    requires key[..16] == [0x2b, 0x7e, 0x15, 0x16, 0x28, 0xae, 0xd2, 0xa6,
                          0xab, 0xf7, 0x15, 0x88, 0x09, 0xcf, 0x4f, 0x3c]
    ensures Shows(key, KeyAt(0))
  {
    FirstBytes(key);
  }

  lemma CipherShown(t: seq<byte>)
    requires |t| == 32 && Shows(t, StateAt(10))
    ensures t[..16] == [0x39, 0x25, 0x84, 0x1d, 0x02, 0xdc, 0x09, 0xfb,
                       0xdc, 0x11, 0x85, 0x97, 0x19, 0x6a, 0x0b, 0x32]
  {
  }

  /** The worked example: this key enciphers this block to this one, and deciphers it back. */
  lemma KnownAnswer(s: seq<byte>, key: seq<byte>)
    requires |s| == |key| == 32
    requires s[..16] == [0x32, 0x43, 0xf6, 0xa8, 0x88, 0x5a, 0x30, 0x8d,
                        0x31, 0x31, 0x98, 0xa2, 0xe0, 0x37, 0x07, 0x34]
    requires key[..16] == [0x2b, 0x7e, 0x15, 0x16, 0x28, 0xae, 0xd2, 0xa6,
                          0xab, 0xf7, 0x15, 0x88, 0x09, 0xcf, 0x4f, 0x3c]
    ensures Known(128128) && Encrypted(s, key, 128128)[..16] ==
                             [0x39, 0x25, 0x84, 0x1d, 0x02, 0xdc, 0x09, 0xfb,
                              0xdc, 0x11, 0x85, 0x97, 0x19, 0x6a, 0x0b, 0x32]
    ensures Decrypted(Encrypted(s, key, 128128), key, 128128) == s
  {
    PlainShown(s);
    KeyShown(key);
    hide Shows, KeyAt, StateAt, Encrypted, Decrypted;
    LastShown(s, key, 128128);
    CipherShown(Encrypted(s, key, 128128));
    DecryptionUndoesEncryption(s, key, 128128);
  }
}
