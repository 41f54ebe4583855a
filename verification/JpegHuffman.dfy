/** Canonical Huffman codes: building the decoding tables from BITS, and decoding one symbol. */
module JpegHuffman {
  import opened Arith
  import opened BitStream
  import opened JpegBits

  /** The number of codewords of at most l bits. */
  function Count(bits: seq<nat>, l: nat): nat
    requires l < |bits|
  {
    if l == 0 then 0 else Count(bits, l - 1) + bits[l]
  }

  /** The smallest l-bit value that neither is nor begins with a codeword of at most l bits. */
  function NextCode(bits: seq<nat>, l: nat): nat
    requires l < |bits|
  {
    if l == 0 then 0 else 2 * NextCode(bits, l - 1) + bits[l]
  }

  /** A BITS list: bits[l] codewords of l bits each, at least one and at most 256 in all. */
  ghost predicate IsBits(bits: seq<nat>) {
    |bits| == 17 && 0 < Count(bits, 16) <= 256
  }

  /** Codeword k has l bits. */
  ghost predicate HasLength(bits: seq<nat>, k: int, l: int) {
    |bits| == 17 && 1 <= l <= 16 && Count(bits, l - 1) <= k < Count(bits, l)
  }

  /** The value of codeword k, which has l bits. */
  function Codeword(bits: seq<nat>, k: int, l: int): (c: nat)
    requires HasLength(bits, k, l)
    ensures 2 * NextCode(bits, l - 1) <= c < NextCode(bits, l)
  {
    2 * NextCode(bits, l - 1) + k - Count(bits, l - 1)
  }

  lemma {:induction false} CountMonotone(bits: seq<nat>, l: nat, m: nat)
    requires l <= m < |bits|
    ensures Count(bits, l) <= Count(bits, m) && NextCode(bits, l) <= NextCode(bits, m)
    decreases m
  {
    if l < m {
      CountMonotone(bits, l, m - 1);
    }
  }

  lemma LengthUnique(bits: seq<nat>, k: int, l: int, m: int)
    requires HasLength(bits, k, l) && HasLength(bits, k, m)
    ensures l == m
  {
    if l < m {
      CountMonotone(bits, l, m - 1);
    } else if m < l {
      CountMonotone(bits, m, l - 1);
    }
  }

  lemma {:induction false} NothingShorter(bits: seq<nat>, l: nat)
    requires l < |bits| && Count(bits, l) == 0
    ensures NextCode(bits, l) == 0
  {
    if l > 0 {
      NothingShorter(bits, l - 1);
    }
  }

  /** The share of all 16-bit strings that begin with a codeword of at most l bits. */
  function KraftSum(bits: seq<nat>, l: nat): nat
    requires l < |bits| && l <= 16
  {
    if l == 0 then 0 else KraftSum(bits, l - 1) + bits[l] * P2(16 - l)
  }

  lemma {:induction false} KraftSumIsNextCode(bits: seq<nat>, l: nat)
    requires l < |bits| && l <= 16
    ensures KraftSum(bits, l) == NextCode(bits, l) * P2(16 - l)
  {
    if l > 0 {
      KraftSumIsNextCode(bits, l - 1);
      var p := P2(16 - l);
      assert P2(16 - (l - 1)) == 2 * p;
      Twice(NextCode(bits, l - 1), bits[l], p);
    }
  }

  lemma Twice(n: nat, b: nat, p: nat)
    ensures n * (2 * p) + b * p == (2 * n + b) * p
  {
  }

  lemma {:induction false} KraftSumMonotone(bits: seq<nat>, l: nat)
    requires l <= 16 < |bits|
    ensures KraftSum(bits, l) <= KraftSum(bits, 16)
    decreases 16 - l
  {
    if l < 16 {
      KraftSumGrows(bits, l);
      hide KraftSum;
      KraftSumMonotone(bits, l + 1);
    }
  }

  lemma KraftSumGrows(bits: seq<nat>, l: nat)
    requires l < 16 < |bits|
    ensures KraftSum(bits, l) <= KraftSum(bits, l + 1)
  {
    hide P2;
    Grows(P2(15 - l), 0, bits[l + 1]);
  }

  /** The Kraft inequality makes every codeword fit its length. */
  lemma CodewordsFit(bits: seq<nat>, k: int, l: int)
    requires |bits| == 17 && 1 <= l <= 16 && HasLength(bits, k, l) && KraftSum(bits, 16) <= P2(16)
    ensures Codeword(bits, k, l) < P2(l)
  {
    hide P2, KraftSum, NextCode, Codeword, HasLength;
    KraftSumMonotone(bits, l);
    KraftSumIsNextCode(bits, l);
    P2Add(l, 16 - l);
    CancelScale(NextCode(bits, l), P2(l), P2(16 - l));
  }

  lemma CancelScale(n: nat, m: nat, p: nat)
    requires p > 0 && n * p <= m * p
    ensures n <= m
  {
    if n > m {
      ScaleMonotone(p, m, n);
    }
  }

  lemma {:induction false} UnusedLengths(bits: seq<nat>, l: nat, m: nat)
    requires l <= m < |bits| && Count(bits, l) == Count(bits, m)
    ensures NextCode(bits, m) == NextCode(bits, l) * P2(m - l)
    decreases m
  {
    if l < m {
      CountMonotone(bits, l, m - 1);
      UnusedLengths(bits, l, m - 1);
      DoubleProduct(NextCode(bits, l), P2(m - l - 1));
    }
  }

  lemma DoubleProduct(n: nat, p: nat)
    ensures n * (2 * p) == 2 * (n * p)
  {
  }

  /** The canonical rule of section C.2 of ITU-T T.81: the first codeword is zero, and each later one is its
    * predecessor plus one, extended with zeros to its own length. */
  lemma CanonicalRule(bits: seq<nat>, k: nat, l: nat, l': nat)
    requires HasLength(bits, k + 1, l') && HasLength(bits, k, l)
    ensures l <= l' && Codeword(bits, k + 1, l') == (Codeword(bits, k, l) + 1) * P2(l' - l)
  {
    if l' < l {
      CountMonotone(bits, l', l - 1);
      assert false;
    }
    if l == l' {
      assert P2(0) == 1;
    } else {
      CountMonotone(bits, l, l' - 1);
      UnusedLengths(bits, l, l' - 1);
      DoubleProduct(NextCode(bits, l), P2(l' - 1 - l));
    }
  }

  lemma FirstCodewordIsZero(bits: seq<nat>, l: nat)
    requires HasLength(bits, 0, l)
    ensures Codeword(bits, 0, l) == 0
  {
    NothingShorter(bits, l - 1);
  }

  /** The decoding tables: maxcode is -1 for an unused length and one too large for the longest. */
  ghost predicate IsTable(bits: seq<nat>, maxcode: seq<int>, mincode: seq<int>, valptr: seq<int>, ml: int) {
    && IsBits(bits) && |maxcode| >= 17 && |mincode| >= 17 && |valptr| >= 17 && IsLongest(bits, ml)
    && Entries(bits, maxcode[ml := maxcode[ml] - 1], mincode, valptr, 17)
  }

  ghost predicate IsLongest(bits: seq<nat>, ml: int)
    requires |bits| == 17
  {
    1 <= ml <= 16 && bits[ml] > 0 && forall l | ml < l <= 16 :: bits[l] == 0
  }

  ghost predicate Entry(bits: seq<nat>, maxcode: seq<int>, mincode: seq<int>, valptr: seq<int>, l: nat)
    requires 1 <= l < 17 && |bits| == 17 && |maxcode| >= 17 && |mincode| >= 17 && |valptr| >= 17
  {
    if bits[l] == 0 then maxcode[l] == -1
    else
      && valptr[l] == Count(bits, l - 1) && mincode[l] == 2 * NextCode(bits, l - 1)
      && maxcode[l] == NextCode(bits, l) - 1
  }

  /** The entries below l are right. */
  ghost predicate Entries(bits: seq<nat>, maxcode: seq<int>, mincode: seq<int>, valptr: seq<int>, l: nat)
    requires l <= 17 && |bits| == 17 && |maxcode| >= 17 && |mincode| >= 17 && |valptr| >= 17
  {
    forall m: nat | 1 <= m < l :: Entry(bits, maxcode, mincode, valptr, m)
  }

  lemma NoEntries(bits: seq<nat>, maxcode: seq<int>, mincode: seq<int>, valptr: seq<int>)
    requires |bits| == 17 && |maxcode| >= 17 && |mincode| >= 17 && |valptr| >= 17
    ensures Entries(bits, maxcode, mincode, valptr, 1)
  {
  }

  lemma OneMoreEntry(bits: seq<nat>, maxcode: seq<int>, mincode: seq<int>, valptr: seq<int>, l: nat, a: int, i: int,
                     v: int)
    requires 1 <= l < 17 && |bits| == 17 && |maxcode| >= 17 && |mincode| >= 17 && |valptr| >= 17
    requires Entries(bits, maxcode, mincode, valptr, l)
    requires Entry(bits, maxcode[l := a], mincode[l := i], valptr[l := v], l)
    ensures Entries(bits, maxcode[l := a], mincode[l := i], valptr[l := v], l + 1)
  {
    var (maxs, mins, vals) := (maxcode[l := a], mincode[l := i], valptr[l := v]);
    forall m: nat | 1 <= m <= l
      ensures Entry(bits, maxs, mins, vals, m)
    {
      if m < l {
        assert Entry(bits, maxcode, mincode, valptr, m);
      }
    }
  }

  /** HUFFSIZE: the length of every codeword, then a zero. */
  method GenerateSizes(bits: seq<nat>, huffsize: array<int>) returns (lastp: nat)
    requires IsBits(bits) && huffsize.Length == 257
    modifies huffsize
    ensures Sizes(bits, huffsize[..]) && lastp == Count(bits, 16)
  {
    var p, i := 0, 1;
    while i < 17
      invariant 1 <= i <= 17 && p == Count(bits, i - 1) <= 256
      invariant forall k: nat | k < p :: HasLength(bits, k, huffsize[k])
    {
      CountMonotone(bits, i, 16);
      var j := 1;
      while j <= bits[i]
        invariant 1 <= j <= bits[i] + 1 && p == Count(bits, i - 1) + j - 1 <= 256
        invariant forall k: nat | k < p :: HasLength(bits, k, huffsize[k])
      {
        huffsize[p] := i;
        p, j := p + 1, j + 1;
      }
      i := i + 1;
    }
    huffsize[p] := 0;
    lastp := p;
  }

  ghost predicate Sizes(bits: seq<nat>, huffsize: seq<int>)
    requires IsBits(bits)
  {
    && |huffsize| == 257 && huffsize[Count(bits, 16)] == 0
    && forall k: nat | k < Count(bits, 16) :: HasLength(bits, k, huffsize[k])
  }

  /** HUFFCODE holds the first p codewords. */
  ghost predicate Codes(bits: seq<nat>, huffcode: seq<int>, p: nat) {
    p <= |huffcode| && forall k: nat, l: nat | k < p && HasLength(bits, k, l) :: huffcode[k] == Codeword(bits, k, l)
  }

  lemma OneMoreCode(bits: seq<nat>, huffcode: seq<int>, p: nat, l: nat, huffcode': seq<int>)
    requires Codes(bits, huffcode, p) && HasLength(bits, p, l) && p < |huffcode|
    requires huffcode' == huffcode[p := Codeword(bits, p, l)]
    ensures Codes(bits, huffcode', p + 1)
  {
    forall k: nat, m: nat | k < p + 1 && HasLength(bits, k, m)
      ensures huffcode'[k] == Codeword(bits, k, m)
    {
      if k == p {
        LengthUnique(bits, p, l, m);
      }
    }
  }

  /** HUFFCODE: counting up within a length, doubling from each length to the next. */
  method GenerateCodes(bits: seq<nat>, huffsize: array<int>, huffcode: array<int>)
    requires IsBits(bits) && Sizes(bits, huffsize[..]) && huffcode.Length == 257 && huffcode != huffsize
    modifies huffcode
    ensures Codes(bits, huffcode[..], Count(bits, 16))
  {
    hide Codes;
    ghost var n := Count(bits, 16);
    var p, code, size := 0, 0, huffsize[0];
    StartOfCodes(bits, huffcode[..], size);
    while true
      invariant p < n && HasLength(bits, p, size) && p == Count(bits, size - 1) && code == 2 * NextCode(bits, size - 1)
      invariant huffsize[..] == old(huffsize[..]) && Codes(bits, huffcode[..], p)
      decreases n - p
    {
      ghost var first := p;
      CountMonotone(bits, size, 16);
      p, code := PlaceCode(bits, huffcode, p, code, size);
      while huffsize[p] == size && p < 257
        invariant first < p <= Count(bits, size) <= n
                  && code == 2 * NextCode(bits, size - 1) + p - Count(bits, size - 1)
        invariant huffsize[..] == old(huffsize[..]) && Codes(bits, huffcode[..], p)
        decreases n - p
      {
        p, code := PlaceCode(bits, huffcode, p, code, size);
      }
      EndOfLength(bits, huffsize[..], p, size);
      if huffsize[p] == 0 {
        break;
      }
      code, size := code * 2, size + 1;
      while huffsize[p] != size
        invariant 1 <= size <= huffsize[p] <= 16 && p == Count(bits, size - 1) && code == 2 * NextCode(bits, size - 1)
        invariant Codes(bits, huffcode[..], p)
        decreases huffsize[p] - size
      {
        SkipLength(bits, p, size, huffsize[p]);
        code, size := code * 2, size + 1;
      }
    }
  }

  lemma StartOfCodes(bits: seq<nat>, huffcode: seq<int>, l: nat)
    requires HasLength(bits, 0, l)
    ensures Count(bits, l - 1) == 0 && NextCode(bits, l - 1) == 0 && Codes(bits, huffcode, 0)
  {
    NothingShorter(bits, l - 1);
  }

  method PlaceCode(bits: seq<nat>, huffcode: array<int>, p: nat, code: nat, size: nat) returns (p': nat, code': nat)
    requires p < huffcode.Length && HasLength(bits, p, size) && code == Codeword(bits, p, size)
    requires Codes(bits, huffcode[..], p)
    modifies huffcode
    ensures Codes(bits, huffcode[..], p') && p' == p + 1 && code' == code + 1
  {
    ghost var before := huffcode[..];
    huffcode[p] := code;
    OneMoreCode(bits, before, p, size, huffcode[..]);
    p', code' := p + 1, code + 1;
  }

  lemma EndOfLength(bits: seq<nat>, huffsize: seq<int>, p: nat, size: nat)
    requires IsBits(bits) && Sizes(bits, huffsize) && 1 <= size <= 16 && Count(bits, size - 1) < p <= Count(bits, size)
    requires p <= Count(bits, 16) && huffsize[p] != size
    ensures p == Count(bits, size) && (huffsize[p] == 0 <==> p == Count(bits, 16))
    ensures huffsize[p] != 0 ==> size < huffsize[p] <= 16 && HasLength(bits, p, huffsize[p])
  {
    CountMonotone(bits, size, 16);
    if p < Count(bits, 16) {
      var m := huffsize[p];
      assert HasLength(bits, p, m);
      if p < Count(bits, size) {
        LengthUnique(bits, p, size, m);
      } else if m <= size {
        CountMonotone(bits, m, size);
      }
    }
  }

  lemma SkipLength(bits: seq<nat>, p: nat, size: nat, l: nat)
    requires HasLength(bits, p, l) && 1 <= size < l && p == Count(bits, size - 1)
    ensures bits[size] == 0
  {
    CountMonotone(bits, size, l - 1);
  }

  /** Builds the tables and returns the longest length in use. */
  method HuffMakeDhuffTb(bits: seq<nat>, maxcode: array<int>, mincode: array<int>, valptr: array<int>) returns (ml: nat)
    requires IsBits(bits) && maxcode.Length == mincode.Length == valptr.Length == 36
    requires maxcode != mincode && maxcode != valptr && mincode != valptr
    modifies maxcode, mincode, valptr
    ensures IsTable(bits, maxcode[..], mincode[..], valptr[..], ml)
  {
    var huffsize := new int[257];
    var huffcode := new int[257];
    var lastp := GenerateSizes(bits, huffsize);
    GenerateCodes(bits, huffsize, huffcode);
    hide Entries, Codes;
    ml := 1;
    var p, l := 0, 1;
    NoEntries(bits, maxcode[..], mincode[..], valptr[..]);
    while l <= 16
      invariant 1 <= l <= 17 && p == Count(bits, l - 1) && 1 <= ml <= 16
      invariant p > 0 ==> bits[ml] > 0 && ml < l && forall m | ml < m < l :: bits[m] == 0
      invariant Codes(bits, huffcode[..], Count(bits, 16))
      invariant Entries(bits, maxcode[..], mincode[..], valptr[..], l)
    {
      ghost var (maxs, mins, vals) := (maxcode[..], mincode[..], valptr[..]);
      if bits[l] == 0 {
        maxcode[l] := -1;
      } else {
        FirstAndLast(bits, huffcode[..], l);
        valptr[l] := p;
        mincode[l] := huffcode[p];
        p := p + bits[l] - 1;
        maxcode[l] := huffcode[p];
        ml := l;
        p := p + 1;
      }
      assert maxcode[..] == maxs[l := maxcode[l]] && mincode[..] == mins[l := mincode[l]]
             && valptr[..] == vals[l := valptr[l]];
      OneMoreEntry(bits, maxs, mins, vals, l, maxcode[l], mincode[l], valptr[l]);
      l := l + 1;
    }
    ghost var table := maxcode[..];
    maxcode[ml] := maxcode[ml] + 1;
    assert maxcode[..][ml := maxcode[ml] - 1] == table;
  }

  lemma FirstAndLast(bits: seq<nat>, huffcode: seq<int>, l: nat)
    requires IsBits(bits) && |huffcode| == 257 && Codes(bits, huffcode, Count(bits, 16)) && 1 <= l <= 16 && bits[l] > 0
    ensures Count(bits, l) <= Count(bits, 16)
    ensures huffcode[Count(bits, l - 1)] == 2 * NextCode(bits, l - 1)
    ensures huffcode[Count(bits, l) - 1] == NextCode(bits, l) - 1
  {
    CountMonotone(bits, l, 16);
    var first, last := Count(bits, l - 1), Count(bits, l) - 1;
    assert HasLength(bits, first, l) && HasLength(bits, last, l);
  }

  /** Codeword k, of l bits, is what comes next in the stream. */
  ghost predicate Begins(stream: Stream, a: Pending, bits: seq<nat>, k: int, l: int) {
    HasLength(bits, k, l) && GetBits(stream, a, l).0 == Codeword(bits, k, l)
  }

  /** Once the bits read fall below the first free value of their length they stay below every longer codeword. */
  lemma {:induction false} StaysBelow(stream: Stream, a: Pending, bits: seq<nat>, l: nat, m: nat)
    requires a.Valid() && l < m < |bits| && GetBits(stream, a, l).0 < NextCode(bits, l)
    ensures GetBits(stream, a, m).0 < 2 * NextCode(bits, m - 1)
    decreases m
  {
    if l < m - 1 {
      StaysBelow(stream, a, bits, l, m - 1);
    }
    OneMoreBit(stream, a, m - 1);
  }

  /** No codeword begins another, so at most one of them comes next. */
  lemma OnlyOneBegins(stream: Stream, a: Pending, bits: seq<nat>, k: int, l: int, k': int, l': int)
    requires a.Valid() && Begins(stream, a, bits, k, l) && Begins(stream, a, bits, k', l')
    ensures k == k' && l == l'
  {
    if l < l' {
      StaysBelow(stream, a, bits, l, l');
    } else if l' < l {
      StaysBelow(stream, a, bits, l', l);
    }
  }

  /** The bits read so far are beyond every codeword of at most l bits. */
  ghost predicate Beyond(stream: Stream, a: Pending, bits: seq<nat>, l: nat)
    requires l < |bits|
  {
    GetBits(stream, a, l).0 >= NextCode(bits, l)
  }

  lemma BeyondThenNone(stream: Stream, a: Pending, bits: seq<nat>, l: nat, k: int, m: int)
    requires a.Valid() && |bits| == 17 && l <= 16 && Beyond(stream, a, bits, l) && Begins(stream, a, bits, k, m)
    ensures m > l && bits[m] > 0
  {
    if m < l {
      StaysBelow(stream, a, bits, m, l);
    }
  }

  /** What decoding comes to: a result, the read error, or a length loop that has run past the 16 lengths of the
    * table. */
  datatype Outcome<T> = Done(value: T) | ReadError | LeftTable

  /** A table as the decoder keeps it: BITS and HUFFVAL with the arrays built from BITS. */
  datatype Table = Table(bits: seq<nat>, huffval: seq<nat>, ml: nat, maxcode: seq<int>, mincode: seq<int>,
                         valptr: seq<int>) {
    ghost predicate Valid() {
      IsTable(bits, maxcode, mincode, valptr, ml) && |huffval| >= Count(bits, 16)
    }
  }

  /** The bits of the longest length lie above even the raised last maxcode. */
  predicate Overruns(stream: Stream, a: Pending, t: Table)
    requires t.ml < |t.bits|
  {
    GetBits(stream, a, t.ml).0 > NextCode(t.bits, t.ml)
  }

  /** The symbol whose codeword comes next, and the position behind that codeword. */
  ghost function NextSymbol(stream: Stream, a: Pending, t: Table): (r: Outcome<(nat, Pending)>)
    requires t.Valid()
    ensures r.Done? ==> r.value.0 in t.huffval
  {
    if exists k, l :: Begins(stream, a, t.bits, k, l) then
      var k, l :| Begins(stream, a, t.bits, k, l);
      CountMonotone(t.bits, l, 16);
      Done((t.huffval[k], GetBits(stream, a, l).1))
    else if Overruns(stream, a, t) then LeftTable
    else ReadError
  }

  /** On a stream beginning with codeword k the symbol is huffval[k] and exactly that codeword is consumed. */
  lemma SymbolOfCodeword(stream: Stream, a: Pending, t: Table, k: nat, l: nat)
    requires a.Valid() && t.Valid() && Begins(stream, a, t.bits, k, l)
    ensures k < |t.huffval| && NextSymbol(stream, a, t) == Done((t.huffval[k], GetBits(stream, a, l).1))
  {
    CountMonotone(t.bits, l, 16);
    hide Begins, GetBits, Pending.Valid;
    forall k', l' | Begins(stream, a, t.bits, k', l')
      ensures k' == k && l' == l
    {
      OnlyOneBegins(stream, a, t.bits, k, l, k', l');
    }
  }

  lemma TableEntry(t: Table, l: nat)
    requires t.Valid() && 1 <= l <= 16
    ensures |t.bits| == 17 && |t.maxcode| >= 17 && |t.mincode| >= 17 && |t.valptr| >= 17 && IsLongest(t.bits, t.ml)
    ensures t.bits[l] == 0 ==> l != t.ml && t.maxcode[l] == -1
    ensures t.bits[l] > 0 ==> t.valptr[l] == Count(t.bits, l - 1) && t.mincode[l] == 2 * NextCode(t.bits, l - 1)
    ensures t.bits[l] > 0 ==> t.maxcode[l] == NextCode(t.bits, l) - (if l == t.ml then 0 else 1)
  {
    assert Entry(t.bits, t.maxcode[t.ml := t.maxcode[t.ml] - 1], t.mincode, t.valptr, l);
  }

  lemma FirstBit(stream: Stream, a: Pending, bits: seq<nat>)
    requires |bits| == 17
    ensures GetBits(stream, a, 1) == GetBit(stream, a) && Beyond(stream, a, bits, 0)
  {
  }

  lemma PastMaxcode(stream: Stream, a: Pending, t: Table, l: nat)
    requires a.Valid() && t.Valid() && 1 <= l <= 16 && |t.bits| == 17 && Beyond(stream, a, t.bits, l - 1)
    requires |t.maxcode| >= 17 && GetBits(stream, a, l).0 > t.maxcode[l]
    ensures Beyond(stream, a, t.bits, l)
  {
    hide GetBits, Table.Valid;
    TableEntry(t, l);
    OneMoreBit(stream, a, l - 1);
  }

  lemma NoneBegins(stream: Stream, a: Pending, t: Table, l: nat)
    requires a.Valid() && t.Valid() && l <= 16 && |t.bits| == 17 && Beyond(stream, a, t.bits, l)
    requires forall m | l < m <= 16 :: t.bits[m] == 0
    ensures t.ml < |t.bits| && NextSymbol(stream, a, t) == if Overruns(stream, a, t) then LeftTable else ReadError
  {
    hide Begins, Beyond, GetBits, Table.Valid, Overruns;
    TableBounds(t);
    if k, m :| Begins(stream, a, t.bits, k, m) {
      BeginsLength(stream, a, t.bits, k, m);
      BeyondThenNone(stream, a, t.bits, l, k, m);
      assert false;
    }
  }

  lemma BeginsLength(stream: Stream, a: Pending, bits: seq<nat>, k: int, l: int)
    requires Begins(stream, a, bits, k, l)
    ensures HasLength(bits, k, l)
  {
  }

  lemma Found(stream: Stream, a: Pending, t: Table, l: nat)
    requires a.Valid() && t.Valid() && 1 <= l <= 16 && |t.bits| == 17 && Beyond(stream, a, t.bits, l - 1)
    requires |t.maxcode| >= 17 && 1 <= t.ml <= 16 && GetBits(stream, a, l).0 <= t.maxcode[l]
    requires GetBits(stream, a, l).0 < t.maxcode[t.ml]
    ensures |t.mincode| >= 17 && |t.valptr| >= 17
    ensures var k := t.valptr[l] + GetBits(stream, a, l).0 - t.mincode[l];
            0 <= k < |t.huffval| && NextSymbol(stream, a, t) == Done((t.huffval[k], GetBits(stream, a, l).1))
  {
    hide GetBits, Table.Valid, NextSymbol;
    TableEntry(t, l);
    OneMoreBit(stream, a, l - 1);
    var k := t.valptr[l] + GetBits(stream, a, l).0 - t.mincode[l];
    SymbolOfCodeword(stream, a, t, k, l);
  }

  lemma NotFound(stream: Stream, a: Pending, t: Table, l: nat)
    requires a.Valid() && t.Valid() && 1 <= l <= 16 && |t.maxcode| >= 17 && 1 <= t.ml <= 16
    requires GetBits(stream, a, l).0 <= t.maxcode[l] && GetBits(stream, a, l).0 >= t.maxcode[t.ml]
    ensures NextSymbol(stream, a, t) == ReadError
  {
    hide GetBits, Table.Valid, NextSymbol;
    TableEntry(t, l);
    TableEntry(t, t.ml);
    if l < t.ml {
      CountMonotone(t.bits, l, t.ml);
    }
    NoneBegins(stream, a, t, t.ml);
  }

  lemma TableBounds(t: Table)
    requires t.Valid()
    ensures |t.bits| == 17 && |t.maxcode| >= 17 && |t.mincode| >= 17 && |t.valptr| >= 17 && 1 <= t.ml <= 16
  {
  }

  /** Above maxcode at every length: the bits read after the 16th length are compared with entries the table lacks. */
  ghost predicate AboveAll(stream: Stream, a: Pending, t: Table)
    requires |t.maxcode| >= 17
  {
    forall l: nat | 1 <= l <= 16 :: GetBits(stream, a, l).0 > t.maxcode[l]
  }

  /** The length loop runs past the table exactly when the bits of the longest length exceed the value behind the last
    * codeword. */
  lemma OverrunExactly(stream: Stream, a: Pending, t: Table)
    requires a.Valid() && t.Valid()
    ensures |t.maxcode| >= 17 && t.ml < |t.bits| && (AboveAll(stream, a, t) <==> Overruns(stream, a, t))
  {
    hide GetBits, Table.Valid;
    TableBounds(t);
    TableEntry(t, t.ml);
    if Overruns(stream, a, t) {
      forall l: nat | 1 <= l <= 16
        ensures GetBits(stream, a, l).0 > t.maxcode[l]
      {
        TableEntry(t, l);
        if t.bits[l] > 0 && l < t.ml {
          if GetBits(stream, a, l).0 < NextCode(t.bits, l) {
            StaysBelow(stream, a, t.bits, l, t.ml);
          }
        }
      }
    }
  }

  /** A symbol, the read error and running past the table: the bits of the longest length are below, at or above the
    * value behind the last codeword. */
  lemma OutcomeExactly(stream: Stream, a: Pending, t: Table)
    requires a.Valid() && t.Valid()
    ensures t.ml < |t.bits|
    ensures var (v, free) := (GetBits(stream, a, t.ml).0, NextCode(t.bits, t.ml));
            match NextSymbol(stream, a, t)
            case Done(_) => v < free
            case ReadError => v == free
            case LeftTable => v > free
  {
    hide GetBits, Table.Valid, Begins;
    TableBounds(t);
    if k, l :| Begins(stream, a, t.bits, k, l) {
      BeginsLength(stream, a, t.bits, k, l);
      SymbolOfCodeword(stream, a, t, k, l);
      NotBeyond(stream, a, t, k, l);
    } else if GetBits(stream, a, t.ml).0 < NextCode(t.bits, t.ml) {
      var l := FirstBelow(stream, a, t.bits, t.ml);
      var k := GetBits(stream, a, l).0 - 2 * NextCode(t.bits, l - 1) + Count(t.bits, l - 1);
      CodewordBegins(stream, a, t.bits, k, l);
      assert false;
    }
  }

  lemma CodewordBegins(stream: Stream, a: Pending, bits: seq<nat>, k: int, l: int)
    requires HasLength(bits, k, l) && GetBits(stream, a, l).0 == Codeword(bits, k, l)
    ensures Begins(stream, a, bits, k, l)
  {
  }

  /** The first length at which the bits read fall below the free values. */
  lemma {:induction false} FirstBelow(stream: Stream, a: Pending, bits: seq<nat>, l: nat) returns (m: nat)
    requires a.Valid() && l <= 16 && |bits| == 17 && GetBits(stream, a, l).0 < NextCode(bits, l)
    ensures 1 <= m <= 16 && 2 * NextCode(bits, m - 1) <= GetBits(stream, a, m).0 < NextCode(bits, m)
  {
    hide GetBits;
    if GetBits(stream, a, l - 1).0 < NextCode(bits, l - 1) {
      m := FirstBelow(stream, a, bits, l - 1);
    } else {
      m := l;
      OneMoreBit(stream, a, l - 1);
    }
  }

  lemma NotBeyond(stream: Stream, a: Pending, t: Table, k: int, l: int)
    requires a.Valid() && t.Valid() && Begins(stream, a, t.bits, k, l)
    ensures t.ml < |t.bits| && GetBits(stream, a, t.ml).0 < NextCode(t.bits, t.ml)
  {
    hide GetBits, Table.Valid;
    TableBounds(t);
    TableEntry(t, l);
    if l < t.ml {
      StaysBelow(stream, a, t.bits, l, t.ml);
    }
  }

  /** A memory of one bits, 00 stuffed behind every FF. */
  function Ones(p: nat): byte {
    if p % 2 == 0 then 0xFF else 0
  }

  lemma {:induction false} OneBits(n: nat)
    ensures var (v, a) := GetBits(Unstuffed(Ones), Pending(0, 0, 0), n);
            v == P2(n) - 1 && a.value == P2(a.count) - 1 && a.pos % 2 == 0
  {
    if n == 0 {
      assert P2(0) == 1;
    } else {
      OneBits(n - 1);
      var a := GetBits(Unstuffed(Ones), Pending(0, 0, 0), n - 1).1;
      NextOneBit(a);
    }
  }

  lemma NextOneBit(a: Pending)
    requires a.value == P2(a.count) - 1 && a.pos % 2 == 0
    ensures var (bit, b) := GetBit(Unstuffed(Ones), a); bit == 1 && b.value == P2(b.count) - 1 && b.pos % 2 == 0
  {
    if a.count == 0 {
      assert P2(7) == 128;
    } else {
      var p := P2(a.count - 1);
      assert P2(a.count) == 2 * p;
      DivModUnique(a.value, p, 1, p - 1);
    }
  }

  /** A table that leaves at most one value of its longest length unused, as section C of ITU-T T.81 reserves the
    * word of ones, is never run past; any other table is, on some memory. */
  lemma NeverOverrunsExactly(t: Table)
    requires t.Valid()
    ensures t.ml < |t.bits|
    ensures (forall memory: Memory, a: Pending | a.Valid() :: !Overruns(Unstuffed(memory), a, t)) <==>
              NextCode(t.bits, t.ml) >= P2(t.ml) - 1
  {
    hide Table.Valid, GetBits, P2, Unstuffed;
    TableBounds(t);
    forall memory: Memory, a: Pending | a.Valid()
      ensures GetBits(Unstuffed(memory), a, t.ml).0 < P2(t.ml)
    {
      BitsFit(Unstuffed(memory), a, t.ml);
    }
    var start := Pending(0, 0, 0);
    StartValid(start);
    OneBits(t.ml);
    assert Overruns(Unstuffed(Ones), start, t) <==> P2(t.ml) - 1 > NextCode(t.bits, t.ml);
  }

  lemma StartValid(a: Pending)
    requires a == Pending(0, 0, 0)
    ensures a.Valid()
  {
  }

  /** The table for a BITS list, ml being its longest length. */
  function TableOf(bits: seq<nat>, symbols: seq<nat>, ml: nat): Table
    requires |bits| == 17
  {
    Table(bits, symbols, ml, seq(36, l => MaxCode(bits, ml, l)),
          seq(36, l => if 1 <= l < 17 then 2 * NextCode(bits, l - 1) else 0),
          seq(36, l => if 1 <= l < 17 then Count(bits, l - 1) else 0))
  }

  function MaxCode(bits: seq<nat>, ml: nat, l: int): int
    requires |bits| == 17
  {
    if 1 <= l < 17 && bits[l] > 0 then NextCode(bits, l) - (if l == ml then 0 else 1) else -1
  }

  lemma TableOfValid(bits: seq<nat>, symbols: seq<nat>, ml: nat)
    requires IsBits(bits) && IsLongest(bits, ml) && |symbols| >= Count(bits, 16)
    ensures TableOf(bits, symbols, ml).Valid()
  {
    hide Count, NextCode;
    var t := TableOf(bits, symbols, ml);
    var maxs := t.maxcode[t.ml := t.maxcode[t.ml] - 1];
    forall l: nat | 1 <= l < 17
      ensures Entry(bits, maxs, t.mincode, t.valptr, l)
    {
      assert t.maxcode[l] == MaxCode(bits, ml, l);
    }
  }

  /** A table whose codewords, the numbers from zero on, all have l bits. */
  function EqualCodes(l: nat, symbols: seq<nat>): Table
    requires 1 <= l <= 16
  {
    var n := |symbols|;
    Table(EqualBits(l, n), symbols, l, seq(36, i => if i == l then n else -1), seq(36, i => 0), seq(36, i => 0))
  }

  function EqualBits(l: nat, n: nat): (bits: seq<nat>)
    ensures |bits| == 17
  {
    seq(17, i => if i == l then n else 0)
  }

  lemma {:induction false} EqualCount(l: nat, n: nat, m: nat)
    requires 1 <= l <= 16 && m <= 16
    ensures Count(EqualBits(l, n), m) == (if m < l then 0 else n)
    ensures m <= l ==> NextCode(EqualBits(l, n), m) == if m < l then 0 else n
  {
    if m > 0 {
      EqualCount(l, n, m - 1);
    }
  }

  lemma EqualCodesValid(l: nat, symbols: seq<nat>)
    requires 1 <= l <= 16 && 0 < |symbols| <= 256
    ensures EqualCodes(l, symbols).Valid()
  {
    var t, n := EqualCodes(l, symbols), |symbols|;
    EqualCount(l, n, 16);
    EqualCount(l, n, l - 1);
    EqualCount(l, n, l);
    hide Count, NextCode;
    assert EqualBits(l, n)[l] == n;
    var maxs := t.maxcode[t.ml := t.maxcode[t.ml] - 1];
    forall m: nat | 1 <= m < 17
      ensures Entry(t.bits, maxs, t.mincode, t.valptr, m)
    {
      assert t.bits[m] == if m == l then n else 0;
    }
  }

  /** Which codewords such a table has. */
  lemma EqualCodeword(l: nat, symbols: seq<nat>, k: int, m: int)
    requires 1 <= l <= 16
    ensures HasLength(EqualBits(l, |symbols|), k, m) <==> m == l && 0 <= k < |symbols|
    ensures HasLength(EqualBits(l, |symbols|), k, m) ==> Codeword(EqualBits(l, |symbols|), k, m) == k
  {
    if 1 <= m <= 16 {
      EqualCount(l, |symbols|, m);
      EqualCount(l, |symbols|, m - 1);
    }
  }

  /** A memory of bytes that begin 11. */
  function Elevens(p: nat): byte {
    0xC0
  }

  lemma TwoOnes()
    ensures GetBits(Unstuffed(Elevens), Pending(0, 0, 0), 2).0 == 3
  {
    var (stream, start) := (Unstuffed(Elevens), Pending(0, 0, 0));
    assert P2(6) == 64;
    NextBit(stream, start, 0);
    NextBit(stream, start, 1);
    assert GetBit(stream, start) == (1, Pending(1, 7, 64));
    assert GetBit(stream, Pending(1, 7, 64)).0 == 1;
  }

  /** The decoder does leave a valid table: with 00 the only codeword, the bits 11 lie above the raised maxcode. */
  lemma TableIsLeft(symbol: nat)
    ensures EqualCodes(2, [symbol]).Valid()
    ensures NextSymbol(Unstuffed(Elevens), Pending(0, 0, 0), EqualCodes(2, [symbol])) == LeftTable
  {
    var t := EqualCodes(2, [symbol]);
    EqualCodesValid(2, [symbol]);
    EqualCount(2, 1, 2);
    hide Table.Valid, GetBits, NextSymbol, EqualBits, NextCode, Unstuffed;
    StartValid(Pending(0, 0, 0));
    TwoOnes();
    OutcomeExactly(Unstuffed(Elevens), Pending(0, 0, 0), t);
  }

  ghost predicate AboveUntil(stream: Stream, a: Pending, t: Table, l: nat) {
    |t.maxcode| >= 17 && l <= 17 && forall m: nat | 1 <= m < l :: GetBits(stream, a, m).0 > t.maxcode[m]
  }

  lemma NoneAbove(stream: Stream, a: Pending, t: Table)
    requires |t.maxcode| >= 17
    ensures AboveUntil(stream, a, t, 1)
  {
  }

  lemma OneMoreAbove(stream: Stream, a: Pending, t: Table, l: nat)
    requires AboveUntil(stream, a, t, l) && l <= 16 && GetBits(stream, a, l).0 > t.maxcode[l]
    ensures AboveUntil(stream, a, t, l + 1)
  {
  }

  lemma RunPast(stream: Stream, a: Pending, t: Table)
    requires a.Valid() && t.Valid() && AboveUntil(stream, a, t, 17)
    ensures NextSymbol(stream, a, t) == LeftTable
  {
    hide GetBits, Table.Valid, NextSymbol;
    OverrunExactly(stream, a, t);
    OutcomeExactly(stream, a, t);
  }

  /** Reads bit by bit until the value is no longer above maxcode. The source puts no bound on the length: LeftTable
    * is the outcome when the comparison would go on with the entry behind the sixteenth. */
  method DecodeHuffman(reader: BitReader, t: Table) returns (r: Outcome<nat>)
    requires reader.Valid() && t.Valid()
    modifies reader
    ensures reader.Valid()
    ensures NextSymbol(reader.stream, old(reader.View()), t) ==
            match r
            case Done(value) => Done((value, reader.View()))
            case ReadError => ReadError
            case LeftTable => LeftTable
  {
    hide GetBit, GetBits, Beyond, NextSymbol, InWord, Table.Valid, AboveUntil;
    ghost var (stream, a) := (reader.stream, reader.View());
    var code := reader.BufGetb();
    TableBounds(t);
    FirstBit(stream, a, t.bits);
    NoneAbove(stream, a, t);
    var l := 1;
    while l <= 16 && code > t.maxcode[l]
      invariant 1 <= l <= 17 && reader.Valid() && |t.maxcode| >= 17 && 1 <= t.ml <= 16 && |t.bits| == 17
      invariant (code, reader.View()) == GetBits(stream, a, l)
      invariant Beyond(stream, a, t.bits, l - 1) && AboveUntil(stream, a, t, l)
    {
      PastMaxcode(stream, a, t, l);
      OneMoreAbove(stream, a, t, l);
      NextBit(stream, a, l);
      code := code * 2;
      var bit := reader.BufGetb();
      code := code + bit;
      l := l + 1;
    }
    if l == 17 {
      RunPast(stream, a, t);
      return LeftTable;
    }
    if code < t.maxcode[t.ml] {
      Found(stream, a, t, l);
      r := Done(t.huffval[t.valptr[l] + code - t.mincode[l]]);
    } else {
      NotFound(stream, a, t, l);
      r := ReadError;
    }
  }
}
