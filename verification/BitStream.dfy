/** A stream of bits packed into bytes, read bit by bit or by whole bytes, and the word arithmetic of the readers. */
module BitStream {
  import opened Arith

  /** The byte delivered at a position and the position after it. */
  type Stream = nat -> (byte, nat)

  /** A position in the bit stream: count bits with the given value are still to be delivered before the byte at pos. */
  datatype Pending = Pending(pos: nat, count: nat, value: nat) {
    predicate Valid() {
      value < P2(count)
    }
  }

  /** The next bit. */
  function GetBit(stream: Stream, a: Pending): (nat, Pending) {
    if a.count == 0 then
      var (b, p) := stream(a.pos);
      (b / 128, Pending(p, 7, b % 128))
    else (Upper(a.value, a.count - 1), Pending(a.pos, a.count - 1, Lower(a.value, a.count - 1)))
  }

  /** The next n bits, most significant first, one at a time. */
  function GetBits(stream: Stream, a: Pending, n: nat): (nat, Pending) {
    if n == 0 then (0, a)
    else
      var (v, b) := GetBits(stream, a, n - 1);
      var (bit, c) := GetBit(stream, b);
      (2 * v + bit, c)
  }

  lemma {:induction false} StaysValid(stream: Stream, a: Pending, n: nat)
    requires a.Valid()
    ensures GetBits(stream, a, n).1.Valid()
  {
    if n > 0 {
      StaysValid(stream, a, n - 1);
      NextIsABit(stream, GetBits(stream, a, n - 1).1);
    }
  }

  lemma NextIsABit(stream: Stream, a: Pending)
    requires a.Valid()
    ensures GetBit(stream, a).0 < 2 && GetBit(stream, a).1.Valid()
  {
    if a.count == 0 {
      var b: byte := stream(a.pos).0;
      assert P2(7) == 128;
    } else {
      var p := P2(a.count - 1);
      hide P2;
      DivMod(a.value, p);
      if a.value / p >= 2 {
        ScaleMonotone(p, 2, a.value / p);
      }
    }
  }

  lemma NextBit(stream: Stream, a: Pending, n: nat)
    ensures var (v, b) := GetBits(stream, a, n); var (bit, c) := GetBit(stream, b);
            GetBits(stream, a, n + 1) == (2 * v + bit, c)
  {
  }

  lemma OneMoreBit(stream: Stream, a: Pending, n: nat)
    requires a.Valid()
    ensures 2 * GetBits(stream, a, n).0 <= GetBits(stream, a, n + 1).0 <= 2 * GetBits(stream, a, n).0 + 1
  {
    hide GetBit, Pending.Valid;
    StaysValid(stream, a, n);
    NextIsABit(stream, GetBits(stream, a, n).1);
  }

  lemma {:induction false} BitsFit(stream: Stream, a: Pending, n: nat)
    requires a.Valid()
    ensures GetBits(stream, a, n).0 < P2(n)
  {
    if n > 0 {
      P2Twice(n - 1);
      hide P2, GetBits, Pending.Valid;
      BitsFit(stream, a, n - 1);
      OneMoreBit(stream, a, n - 1);
    }
  }

  /** A whole byte moved behind the pending bits. */
  function Load(stream: Stream, a: Pending): Pending {
    var (b, p) := stream(a.pos);
    Pending(p, a.count + 8, a.value * 256 + b)
  }

  /** Bytes loaded until n bits are pending. */
  function LoadUntil(stream: Stream, a: Pending, n: nat): (w: Pending)
    ensures w.count >= n
    decreases n - a.count
  {
    if a.count >= n then a else LoadUntil(stream, Load(stream, a), n)
  }

  /** The first n of the pending bits split off. */
  function Take(w: Pending, n: nat): (nat, Pending)
    requires n <= w.count
  {
    (Upper(w.value, w.count - n), Pending(w.pos, w.count - n, Lower(w.value, w.count - n)))
  }

  lemma {:induction false} LoadOneMore(stream: Stream, a: Pending, n: nat)
    ensures var w := LoadUntil(stream, a, n);
            LoadUntil(stream, a, n + 1) == if w.count > n then w else Load(stream, w)
    decreases n - a.count
  {
    if a.count < n {
      LoadOneMore(stream, Load(stream, a), n);
    }
  }

  /** Splitting off one more bit. */
  lemma TakeOneMore(stream: Stream, w: Pending, n: nat)
    requires n < w.count
    ensures var (v, rest) := Take(w, n); var (bit, rest') := GetBit(stream, rest);
            Take(w, n + 1) == (2 * v + bit, rest')
  {
    hide P2;
    var m := w.count - n - 1;
    var p := P2(m);
    P2Twice(m);
    ModOfMod(w.value, p, 2);
    DivMod(w.value / p, 2);
  }

  lemma P2Twice(m: nat)
    ensures P2(m + 1) == P2(m) * 2
  {
  }

  lemma TakeFromNewByte(stream: Stream, w: Pending)
    ensures var (v, rest) := Take(w, w.count); var (bit, rest') := GetBit(stream, rest);
            Take(Load(stream, w), w.count + 1) == (2 * v + bit, rest')
  {
    var b := stream(w.pos).0;
    assert P2(0) == 1 && P2(7) == 128;
    assert (w.value * 256 + b) / 128 == 2 * w.value + b / 128;
    assert (w.value * 256 + b) % 128 == b % 128;
  }

  /** Reading bit by bit is the same as loading whole bytes and splitting off the bits at once. */
  lemma {:induction false} BitsAtOnce(stream: Stream, a: Pending, n: nat)
    requires a.Valid()
    ensures GetBits(stream, a, n) == Take(LoadUntil(stream, a, n), n)
  {
    hide GetBit, Take, Load, P2, Pending.Valid;
    if n == 0 {
      TakeNothing(a);
    } else {
      BitsAtOnce(stream, a, n - 1);
      LoadOneMore(stream, a, n - 1);
      var w := LoadUntil(stream, a, n - 1);
      if w.count > n - 1 {
        TakeOneMore(stream, w, n - 1);
      } else {
        TakeFromNewByte(stream, w);
      }
    }
  }

  lemma TakeNothing(a: Pending)
    requires a.Valid()
    ensures Take(a, 0) == (0, a)
  {
    DivModUnique(a.value, P2(a.count), 0, a.value);
  }

  /** Shifting x left inside a 32-bit word and filling the freed bits appends them to the low bits of x. */
  lemma ShiftIn(x: nat, k: nat, s: nat, b: nat)
    requires k + s <= 32 && b < P2(s)
    ensures Lower(Mod(x * P2(s), P2(32)) + b, k + s) == Lower(x, k) * P2(s) + b
  {
    hide P2;
    var t := 32 - s - k;
    P2Add(k, s);
    P2Add(32 - s, s);
    P2Add(k, t);
    ModScale(x, P2(32 - s), P2(s));
    ModOfMod(x, P2(k), P2(t));
    AppendSplit(Mod(x, P2(32 - s)), P2(k), P2(s), b);
  }

  lemma UpperOfLower(x: nat, n: nat, q: nat)
    ensures Upper(Lower(x, n + q), q) == Lower(Upper(x, q), n)
    ensures Lower(Lower(x, n + q), q) == Lower(x, q)
  {
    hide P2;
    P2Add(q, n);
    ModOfMod(x, P2(q), P2(n));
  }

  lemma SplitLoaded(v: nat, b: nat, p: nat)
    requires p <= 8
    ensures Upper(v * 256 + b, 8 - p) == v * P2(p) + Upper(b, 8 - p)
    ensures Lower(v * 256 + b, 8 - p) == Lower(b, 8 - p)
  {
    assert P2(8) == 256;
    hide P2;
    P2Add(p, 8 - p);
    DivMod(b, P2(8 - p));
    PrependHigh(v, P2(p), P2(8 - p), b);
  }

  lemma PrependHigh(v: nat, p: nat, q: nat, b: nat)
    requires q > 0
    ensures Div(v * (p * q) + b, q) == v * p + Div(b, q) && Mod(v * (p * q) + b, q) == Mod(b, q)
  {
    var h, l := b / q, b % q;
    DivMod(b, q);
    assert v * (p * q) + b == (v * p + h) * q + l by {
      assert (v * p + h) * q == v * (p * q) + h * q;
    }
    DivModUnique(v * (p * q) + b, q, v * p + h, l);
  }

  lemma ByteUpper(b: byte, p: nat)
    requires p <= 8
    ensures Upper(b, 8 - p) < P2(p)
  {
    assert P2(8) == 256;
    hide P2;
    P2Add(p, 8 - p);
    DivMod(b, P2(8 - p));
    if b / P2(8 - p) >= P2(p) {
      ScaleMonotone(P2(8 - p), P2(p), b / P2(8 - p));
    }
  }

  /** x << s in an unsigned 32-bit word. */
  function ShiftedLeft(x: nat, s: nat): nat {
    Mod(x * P2(s), P2(32))
  }

  /** The first of the p + 1 pending bits is the bit at position p. */
  lemma TestBit(x: nat, p: nat)
    ensures Upper(Lower(x, p + 1), p) == Upper(x, p) % 2
    ensures Lower(Lower(x, p + 1), p) == Lower(x, p)
  {
    UpperOfLower(x, 1, p);
    assert P2(1) == 2;
  }

  /** Loading more bytes does not disturb the bits in front of them. */
  lemma TakeBeforeLoad(stream: Stream, w: Pending, m: nat)
    requires m <= w.count
    ensures Take(Load(stream, w), m) == (Take(w, m).0, Load(stream, Take(w, m).1))
  {
    var b: byte := stream(w.pos).0;
    assert P2(8) == 256;
    hide P2;
    var k := w.count - m;
    P2Add(k, 8);
    AppendSplit(w.value, P2(k), 256, b);
  }

  lemma SplitProduct(q: nat, p: nat, r: nat, s: nat)
    ensures (q * p + r) * s == q * (p * s) + r * s
  {
  }

  lemma AppendSplit(v: nat, p: nat, s: nat, b: nat)
    requires p > 0 && b < s
    ensures Div(v * s + b, p * s) == Div(v, p) && Mod(v * s + b, p * s) == Mod(v, p) * s + b
  {
    var q, r := v / p, v % p;
    DivMod(v, p);
    ScaleMonotone(s, r + 1, p);
    SplitProduct(q, p, r, s);
    SumTimes(s, r, 1);
    DivModUnique(v * s + b, p * s, q, r * s + b);
  }

  lemma {:induction false} TakeBeforeLoads(stream: Stream, w: Pending, n: nat, m: nat)
    requires m <= w.count && m <= n
    ensures Take(LoadUntil(stream, w, n), m) == (Take(w, m).0, LoadUntil(stream, Take(w, m).1, n - m))
    decreases n - w.count
  {
    hide Upper, Lower;
    if w.count < n {
      hide Take;
      TakeCount(w, m);
      TakeBeforeLoad(stream, w, m);
      TakeBeforeLoads(stream, Load(stream, w), n, m);
    }
  }

  lemma TakeCount(w: Pending, m: nat)
    requires m <= w.count
    ensures Take(w, m).1.count == w.count - m && Take(w, m).1.pos == w.pos
  {
  }

  lemma {:induction false} LoadTwice(stream: Stream, a: Pending, m: nat, n: nat)
    requires m <= n
    ensures LoadUntil(stream, LoadUntil(stream, a, m), n) == LoadUntil(stream, a, n)
    decreases m - a.count
  {
    if a.count < m {
      LoadTwice(stream, Load(stream, a), m, n);
    }
  }

  /** A reader that loads ahead until n bits are pending delivers, for up to n bits, what a reader that loads nothing
    * ahead delivers, and after loading ahead again stands where the other stands after loading ahead. */
  lemma LoadingAhead(stream: Stream, a: Pending, n: nat, m: nat)
    requires a.Valid() && m <= LoadUntil(stream, a, n).count
    ensures var e := LoadUntil(stream, a, n); var (v, r) := GetBits(stream, a, m);
            Take(e, m).0 == v && LoadUntil(stream, Take(e, m).1, n) == LoadUntil(stream, r, n)
  {
    var e := LoadUntil(stream, a, n);
    var k := if m > n then m else n;
    BitsAtOnce(stream, a, m);
    hide Take, Load, GetBits, Pending.Valid;
    LoadTwice(stream, a, n, k);
    LoadTwice(stream, a, m, k);
    var w := LoadUntil(stream, a, m);
    TakeBeforeLoads(stream, w, k, m);
    TakeBeforeLoads(stream, e, k, m);
    assert LoadUntil(stream, e, k) == LoadUntil(stream, w, k);
    LoadTwice(stream, Take(w, m).1, k - m, n);
    LoadTwice(stream, Take(e, m).1, k - m, n);
  }

  /** The first k of n bits read are the top k bits of the value read. */
  lemma {:induction false} PrefixBits(stream: Stream, a: Pending, k: nat, n: nat)
    requires a.Valid() && k <= n
    ensures GetBits(stream, a, k).0 * P2(n - k) <= GetBits(stream, a, n).0 < (GetBits(stream, a, k).0 + 1) * P2(n - k)
    decreases n
  {
    hide GetBits, P2, Pending.Valid;
    if k < n {
      P2Twice(n - 1 - k);
      PrefixBits(stream, a, k, n - 1);
      OneMoreBit(stream, a, n - 1);
      DoubleBounds(GetBits(stream, a, k).0, P2(n - 1 - k), GetBits(stream, a, n - 1).0, GetBits(stream, a, n).0);
    } else {
      WholePrefix(GetBits(stream, a, n).0);
    }
  }

  lemma WholePrefix(v: nat)
    ensures v * P2(0) == v && (v + 1) * P2(0) == v + 1
  {
    assert P2(0) == 1;
  }

  lemma DoubleBounds(v: nat, p: nat, x: nat, y: nat)
    requires v * p <= x < (v + 1) * p && 2 * x <= y <= 2 * x + 1
    ensures v * (p * 2) <= y < (v + 1) * (p * 2)
  {
    assert v * (p * 2) == 2 * (v * p) && (v + 1) * (p * 2) == 2 * ((v + 1) * p);
  }

  /** size bits holding value. */
  datatype Token = Token(value: nat, size: nat)

  /** The stream from a on begins with the bits of the tokens. */
  predicate Carries(stream: Stream, a: Pending, tokens: seq<Token>)
    decreases |tokens|
  {
    tokens == [] ||
    var (v, b) := GetBits(stream, a, tokens[0].size);
    v == tokens[0].value && Carries(stream, b, tokens[1..])
  }

  function Behind(stream: Stream, a: Pending, tokens: seq<Token>): Pending
    decreases |tokens|
  {
    if tokens == [] then a else Behind(stream, GetBits(stream, a, tokens[0].size).1, tokens[1..])
  }

  /** The number v followed by the n bits of w. */
  function Append(v: nat, n: nat, w: nat): nat {
    v * P2(n) + w
  }

  lemma AppendBit(v: nat, n: nat, w: nat, bit: nat)
    ensures Append(v, n + 1, 2 * w + bit) == 2 * Append(v, n, w) + bit
  {
    var p := P2(n);
    assert P2(n + 1) == 2 * p;
    hide P2;
    assert v * (2 * p) == 2 * (v * p);
  }

  lemma AppendNothing(v: nat)
    ensures Append(v, 0, 0) == v
  {
    assert P2(0) == 1;
  }

  /** Reading m + n bits is reading m bits and then n. */
  lemma {:induction false} BitsSplit(stream: Stream, a: Pending, m: nat, n: nat)
    ensures var (v, b) := GetBits(stream, a, m); var (w, c) := GetBits(stream, b, n);
            GetBits(stream, a, m + n) == (Append(v, n, w), c)
  {
    var (v, b) := GetBits(stream, a, m);
    hide GetBit, Append;
    if n == 0 {
      AppendNothing(v);
    } else {
      NextBit(stream, a, m + n - 1);
      NextBit(stream, b, n - 1);
      hide GetBits;
      BitsSplit(stream, a, m, n - 1);
      var (w, c) := GetBits(stream, b, n - 1);
      AppendBit(v, n - 1, w, GetBit(stream, c).0);
    }
  }
}
