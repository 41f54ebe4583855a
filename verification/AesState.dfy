/** The state of Rijndael and its fused substitution and row rotation, in place. */
module AesState {
  import opened Arith
  import opened AesTables

  /** A state has 4, 6 or 8 columns at the front of 32 bytes. */
  predicate Columns(nb: nat) {
    nb == 4 || nb == 6 || nb == 8
  }

  /** The position of row r in column c. */
  function At(r: nat, c: nat): nat {
    4 * c + r
  }

  /** How far row r is rotated in a state of nb columns. */
  function Offset(r: nat, nb: nat): nat {
    if nb == 8 && r >= 2 then r + 1 else r
  }

  /** Column c, o columns to the right. */
  function Right(c: nat, o: nat, nb: nat): (d: nat)
    requires Columns(nb)
    ensures d < nb
  {
    (c + o) % nb
  }

  datatype Step = Substitute | SubstituteBack

  function Apply(step: Step, x: byte): byte {
    match step
    case Substitute => SubByte(x)
    case SubstituteBack => InvSubByte(x)
  }

  /** Row r of t is row r of s rotated to the left by o columns, every byte put through the step. */
  ghost predicate RowMoved(s: seq<byte>, t: seq<byte>, nb: nat, r: nat, o: nat, step: Step)
    requires |s| == |t| == 32 && Columns(nb) && r < 4
  {
    forall c: nat | c < nb :: t[At(r, c)] == Apply(step, s[At(r, Right(c, o, nb))])
  }

  /** Row r of t is row r of s. */
  ghost predicate RowKept(s: seq<byte>, t: seq<byte>, r: nat)
    requires |s| == |t| == 32 && r < 4
  {
    forall c: nat | c < 8 :: t[At(r, c)] == s[At(r, c)]
  }

  lemma RowOf4(s: seq<byte>, t: seq<byte>, r: nat, o: nat, step: Step)
    requires |s| == |t| == 32 && r < 4
    requires t[r] == Apply(step, s[r + 4 * Right(0, o, 4)]) && t[r + 4] == Apply(step, s[r + 4 * Right(1, o, 4)])
    requires t[r + 8] == Apply(step, s[r + 4 * Right(2, o, 4)]) && t[r + 12] == Apply(step, s[r + 4 * Right(3, o, 4)])
    ensures RowMoved(s, t, 4, r, o, step)
  {
    hide Apply, Right;
    forall c: nat | c < 4
      ensures t[At(r, c)] == Apply(step, s[At(r, Right(c, o, 4))])
    {
      match c { case 0 => case 1 => case 2 => case 3 => }
    }
  }

  lemma RowOf6(s: seq<byte>, t: seq<byte>, r: nat, o: nat, step: Step)
    requires |s| == |t| == 32 && r < 4
    requires t[r] == Apply(step, s[r + 4 * Right(0, o, 6)]) && t[r + 4] == Apply(step, s[r + 4 * Right(1, o, 6)])
    requires t[r + 8] == Apply(step, s[r + 4 * Right(2, o, 6)]) && t[r + 12] == Apply(step, s[r + 4 * Right(3, o, 6)])
    requires t[r + 16] == Apply(step, s[r + 4 * Right(4, o, 6)]) && t[r + 20] == Apply(step, s[r + 4 * Right(5, o, 6)])
    ensures RowMoved(s, t, 6, r, o, step)
  {
    hide Apply, Right;
    forall c: nat | c < 6
      ensures t[At(r, c)] == Apply(step, s[At(r, Right(c, o, 6))])
    {
      match c { case 0 => case 1 => case 2 => case 3 => case 4 => case 5 => }
    }
  }

  lemma RowOf8(s: seq<byte>, t: seq<byte>, r: nat, o: nat, step: Step)
    requires |s| == |t| == 32 && r < 4
    requires t[r] == Apply(step, s[r + 4 * Right(0, o, 8)]) && t[r + 4] == Apply(step, s[r + 4 * Right(1, o, 8)])
    requires t[r + 8] == Apply(step, s[r + 4 * Right(2, o, 8)]) && t[r + 12] == Apply(step, s[r + 4 * Right(3, o, 8)])
    requires t[r + 16] == Apply(step, s[r + 4 * Right(4, o, 8)]) && t[r + 20] == Apply(step, s[r + 4 * Right(5, o, 8)])
    requires t[r + 24] == Apply(step, s[r + 4 * Right(6, o, 8)]) && t[r + 28] == Apply(step, s[r + 4 * Right(7, o, 8)])
    ensures RowMoved(s, t, 8, r, o, step)
  {
    hide Apply, Right;
    forall c: nat | c < 8
      ensures t[At(r, c)] == Apply(step, s[At(r, Right(c, o, 8))])
    {
      match c { case 0 => case 1 => case 2 => case 3 => case 4 => case 5 => case 6 => case 7 => }
    }
  }

  method ShiftRow4Rows12(statemt: array<byte>)
    requires statemt.Length == 32
    modifies statemt
    ensures RowKept(old(statemt[..]), statemt[..], 0)
    ensures RowMoved(old(statemt[..]), statemt[..], 4, 1, 1, Substitute)
    ensures RowMoved(old(statemt[..]), statemt[..], 4, 2, 2, Substitute)
    ensures RowKept(old(statemt[..]), statemt[..], 3)
    ensures statemt[16..] == old(statemt[16..])
  {
    hide SubByte, InvSubByte, RowMoved;
    ghost var before := statemt[..];
    var temp := SubByte(statemt[1]);
    statemt[1] := SubByte(statemt[5]);
    statemt[5] := SubByte(statemt[9]);
    statemt[9] := SubByte(statemt[13]);
    statemt[13] := temp;
    temp := SubByte(statemt[2]);
    statemt[2] := SubByte(statemt[10]);
    statemt[10] := temp;
    temp := SubByte(statemt[6]);
    statemt[6] := SubByte(statemt[14]);
    statemt[14] := temp;
    RowOf4(before, statemt[..], 1, 1, Substitute);
    RowOf4(before, statemt[..], 2, 2, Substitute);
  }

  method ShiftRow4Rows30(statemt: array<byte>)
    requires statemt.Length == 32
    modifies statemt
    ensures RowMoved(old(statemt[..]), statemt[..], 4, 0, 0, Substitute)
    ensures RowKept(old(statemt[..]), statemt[..], 1)
    ensures RowKept(old(statemt[..]), statemt[..], 2)
    ensures RowMoved(old(statemt[..]), statemt[..], 4, 3, 3, Substitute)
    ensures statemt[16..] == old(statemt[16..])
  {
    hide SubByte, InvSubByte, RowMoved;
    ghost var before := statemt[..];
    var temp := SubByte(statemt[3]);
    statemt[3] := SubByte(statemt[15]);
    statemt[15] := SubByte(statemt[11]);
    statemt[11] := SubByte(statemt[7]);
    statemt[7] := temp;
    statemt[0] := SubByte(statemt[0]);
    statemt[4] := SubByte(statemt[4]);
    statemt[8] := SubByte(statemt[8]);
    statemt[12] := SubByte(statemt[12]);
    RowOf4(before, statemt[..], 0, 0, Substitute);
    RowOf4(before, statemt[..], 3, 3, Substitute);
  }

  method ShiftRow6Rows12(statemt: array<byte>)
    requires statemt.Length == 32
    modifies statemt
    ensures RowKept(old(statemt[..]), statemt[..], 0)
    ensures RowMoved(old(statemt[..]), statemt[..], 6, 1, 1, Substitute)
    ensures RowMoved(old(statemt[..]), statemt[..], 6, 2, 2, Substitute)
    ensures RowKept(old(statemt[..]), statemt[..], 3)
    ensures statemt[24..] == old(statemt[24..])
  {
    hide SubByte, InvSubByte, RowMoved;
    ghost var before := statemt[..];
    var temp := SubByte(statemt[1]);
    statemt[1] := SubByte(statemt[5]);
    statemt[5] := SubByte(statemt[9]);
    statemt[9] := SubByte(statemt[13]);
    statemt[13] := SubByte(statemt[17]);
    statemt[17] := SubByte(statemt[21]);
    statemt[21] := temp;
    temp := SubByte(statemt[2]);
    statemt[2] := SubByte(statemt[10]);
    statemt[10] := SubByte(statemt[18]);
    statemt[18] := temp;
    temp := SubByte(statemt[6]);
    statemt[6] := SubByte(statemt[14]);
    statemt[14] := SubByte(statemt[22]);
    statemt[22] := temp;
    RowOf6(before, statemt[..], 1, 1, Substitute);
    RowOf6(before, statemt[..], 2, 2, Substitute);
  }

  method ShiftRow6Rows30(statemt: array<byte>)
    requires statemt.Length == 32
    modifies statemt
    ensures RowMoved(old(statemt[..]), statemt[..], 6, 0, 0, Substitute)
    ensures RowKept(old(statemt[..]), statemt[..], 1)
    ensures RowKept(old(statemt[..]), statemt[..], 2)
    ensures RowMoved(old(statemt[..]), statemt[..], 6, 3, 3, Substitute)
    ensures statemt[24..] == old(statemt[24..])
  {
    hide SubByte, InvSubByte, RowMoved;
    ghost var before := statemt[..];
    var temp := SubByte(statemt[3]);
    statemt[3] := SubByte(statemt[15]);
    statemt[15] := temp;
    temp := SubByte(statemt[7]);
    statemt[7] := SubByte(statemt[19]);
    statemt[19] := temp;
    temp := SubByte(statemt[11]);
    statemt[11] := SubByte(statemt[23]);
    statemt[23] := temp;
    statemt[0] := SubByte(statemt[0]);
    statemt[4] := SubByte(statemt[4]);
    statemt[8] := SubByte(statemt[8]);
    statemt[12] := SubByte(statemt[12]);
    statemt[16] := SubByte(statemt[16]);
    statemt[20] := SubByte(statemt[20]);
    RowOf6(before, statemt[..], 0, 0, Substitute);
    RowOf6(before, statemt[..], 3, 3, Substitute);
  }

  method ShiftRow8Row1(statemt: array<byte>)
    requires statemt.Length == 32
    modifies statemt
    ensures RowKept(old(statemt[..]), statemt[..], 0)
    ensures RowMoved(old(statemt[..]), statemt[..], 8, 1, 1, Substitute)
    ensures RowKept(old(statemt[..]), statemt[..], 2)
    ensures RowKept(old(statemt[..]), statemt[..], 3)
    ensures statemt[32..] == old(statemt[32..])
  {
    hide SubByte, InvSubByte, RowMoved;
    ghost var before := statemt[..];
    var temp := SubByte(statemt[1]);
    statemt[1] := SubByte(statemt[5]);
    statemt[5] := SubByte(statemt[9]);
    statemt[9] := SubByte(statemt[13]);
    statemt[13] := SubByte(statemt[17]);
    statemt[17] := SubByte(statemt[21]);
    statemt[21] := SubByte(statemt[25]);
    statemt[25] := SubByte(statemt[29]);
    statemt[29] := temp;
    RowOf8(before, statemt[..], 1, 1, Substitute);
  }

  method ShiftRow8Row2(statemt: array<byte>)
    requires statemt.Length == 32
    modifies statemt
    ensures RowKept(old(statemt[..]), statemt[..], 0)
    ensures RowKept(old(statemt[..]), statemt[..], 1)
    ensures RowMoved(old(statemt[..]), statemt[..], 8, 2, 3, Substitute)
    ensures RowKept(old(statemt[..]), statemt[..], 3)
    ensures statemt[32..] == old(statemt[32..])
  {
    hide SubByte, InvSubByte, RowMoved;
    ghost var before := statemt[..];
    var temp := SubByte(statemt[2]);
    statemt[2] := SubByte(statemt[14]);
    statemt[14] := SubByte(statemt[26]);
    statemt[26] := SubByte(statemt[6]);
    statemt[6] := SubByte(statemt[18]);
    statemt[18] := SubByte(statemt[30]);
    statemt[30] := SubByte(statemt[10]);
    statemt[10] := SubByte(statemt[22]);
    statemt[22] := temp;
    RowOf8(before, statemt[..], 2, 3, Substitute);
  }

  method ShiftRow8Row3(statemt: array<byte>)
    requires statemt.Length == 32
    modifies statemt
    ensures RowKept(old(statemt[..]), statemt[..], 0)
    ensures RowKept(old(statemt[..]), statemt[..], 1)
    ensures RowKept(old(statemt[..]), statemt[..], 2)
    ensures RowMoved(old(statemt[..]), statemt[..], 8, 3, 4, Substitute)
    ensures statemt[32..] == old(statemt[32..])
  {
    hide SubByte, InvSubByte, RowMoved;
    ghost var before := statemt[..];
    var temp := SubByte(statemt[3]);
    statemt[3] := SubByte(statemt[19]);
    statemt[19] := temp;
    temp := SubByte(statemt[7]);
    statemt[7] := SubByte(statemt[23]);
    statemt[23] := temp;
    temp := SubByte(statemt[11]);
    statemt[11] := SubByte(statemt[27]);
    statemt[27] := temp;
    temp := SubByte(statemt[15]);
    statemt[15] := SubByte(statemt[31]);
    statemt[31] := temp;
    RowOf8(before, statemt[..], 3, 4, Substitute);
  }

  method ShiftRow8Row0(statemt: array<byte>)
    requires statemt.Length == 32
    modifies statemt
    ensures RowMoved(old(statemt[..]), statemt[..], 8, 0, 0, Substitute)
    ensures RowKept(old(statemt[..]), statemt[..], 1)
    ensures RowKept(old(statemt[..]), statemt[..], 2)
    ensures RowKept(old(statemt[..]), statemt[..], 3)
    ensures statemt[32..] == old(statemt[32..])
  {
    hide SubByte, InvSubByte, RowMoved;
    ghost var before := statemt[..];
    statemt[0] := SubByte(statemt[0]);
    statemt[4] := SubByte(statemt[4]);
    statemt[8] := SubByte(statemt[8]);
    statemt[12] := SubByte(statemt[12]);
    statemt[16] := SubByte(statemt[16]);
    statemt[20] := SubByte(statemt[20]);
    statemt[24] := SubByte(statemt[24]);
    statemt[28] := SubByte(statemt[28]);
    RowOf8(before, statemt[..], 0, 0, Substitute);
  }

  method InversShiftRow4Rows12(statemt: array<byte>)
    requires statemt.Length == 32
    modifies statemt
    ensures RowKept(old(statemt[..]), statemt[..], 0)
    ensures RowMoved(old(statemt[..]), statemt[..], 4, 1, 3, SubstituteBack)
    ensures RowMoved(old(statemt[..]), statemt[..], 4, 2, 2, SubstituteBack)
    ensures RowKept(old(statemt[..]), statemt[..], 3)
    ensures statemt[16..] == old(statemt[16..])
  {
    hide SubByte, InvSubByte, RowMoved;
    ghost var before := statemt[..];
    var temp := InvSubByte(statemt[13]);
    statemt[13] := InvSubByte(statemt[9]);
    statemt[9] := InvSubByte(statemt[5]);
    statemt[5] := InvSubByte(statemt[1]);
    statemt[1] := temp;
    temp := InvSubByte(statemt[14]);
    statemt[14] := InvSubByte(statemt[6]);
    statemt[6] := temp;
    temp := InvSubByte(statemt[2]);
    statemt[2] := InvSubByte(statemt[10]);
    statemt[10] := temp;
    RowOf4(before, statemt[..], 1, 3, SubstituteBack);
    RowOf4(before, statemt[..], 2, 2, SubstituteBack);
  }

  method InversShiftRow4Rows30(statemt: array<byte>)
    requires statemt.Length == 32
    modifies statemt
    ensures RowMoved(old(statemt[..]), statemt[..], 4, 0, 4, SubstituteBack)
    ensures RowKept(old(statemt[..]), statemt[..], 1)
    ensures RowKept(old(statemt[..]), statemt[..], 2)
    ensures RowMoved(old(statemt[..]), statemt[..], 4, 3, 1, SubstituteBack)
    ensures statemt[16..] == old(statemt[16..])
  {
    hide SubByte, InvSubByte, RowMoved;
    ghost var before := statemt[..];
    var temp := InvSubByte(statemt[15]);
    statemt[15] := InvSubByte(statemt[3]);
    statemt[3] := InvSubByte(statemt[7]);
    statemt[7] := InvSubByte(statemt[11]);
    statemt[11] := temp;
    statemt[0] := InvSubByte(statemt[0]);
    statemt[4] := InvSubByte(statemt[4]);
    statemt[8] := InvSubByte(statemt[8]);
    statemt[12] := InvSubByte(statemt[12]);
    RowOf4(before, statemt[..], 0, 4, SubstituteBack);
    RowOf4(before, statemt[..], 3, 1, SubstituteBack);
  }

  method InversShiftRow6Rows12(statemt: array<byte>)
    requires statemt.Length == 32
    modifies statemt
    ensures RowKept(old(statemt[..]), statemt[..], 0)
    ensures RowMoved(old(statemt[..]), statemt[..], 6, 1, 5, SubstituteBack)
    ensures RowMoved(old(statemt[..]), statemt[..], 6, 2, 4, SubstituteBack)
    ensures RowKept(old(statemt[..]), statemt[..], 3)
    ensures statemt[24..] == old(statemt[24..])
  {
    hide SubByte, InvSubByte, RowMoved;
    ghost var before := statemt[..];
    var temp := InvSubByte(statemt[21]);
    statemt[21] := InvSubByte(statemt[17]);
    statemt[17] := InvSubByte(statemt[13]);
    statemt[13] := InvSubByte(statemt[9]);
    statemt[9] := InvSubByte(statemt[5]);
    statemt[5] := InvSubByte(statemt[1]);
    statemt[1] := temp;
    temp := InvSubByte(statemt[22]);
    statemt[22] := InvSubByte(statemt[14]);
    statemt[14] := InvSubByte(statemt[6]);
    statemt[6] := temp;
    temp := InvSubByte(statemt[18]);
    statemt[18] := InvSubByte(statemt[10]);
    statemt[10] := InvSubByte(statemt[2]);
    statemt[2] := temp;
    RowOf6(before, statemt[..], 1, 5, SubstituteBack);
    RowOf6(before, statemt[..], 2, 4, SubstituteBack);
  }

  method InversShiftRow6Rows30(statemt: array<byte>)
    requires statemt.Length == 32
    modifies statemt
    ensures RowMoved(old(statemt[..]), statemt[..], 6, 0, 6, SubstituteBack)
    ensures RowKept(old(statemt[..]), statemt[..], 1)
    ensures RowKept(old(statemt[..]), statemt[..], 2)
    ensures RowMoved(old(statemt[..]), statemt[..], 6, 3, 3, SubstituteBack)
    ensures statemt[24..] == old(statemt[24..])
  {
    hide SubByte, InvSubByte, RowMoved;
    ghost var before := statemt[..];
    var temp := InvSubByte(statemt[15]);
    statemt[15] := InvSubByte(statemt[3]);
    statemt[3] := temp;
    temp := InvSubByte(statemt[19]);
    statemt[19] := InvSubByte(statemt[7]);
    statemt[7] := temp;
    temp := InvSubByte(statemt[23]);
    statemt[23] := InvSubByte(statemt[11]);
    statemt[11] := temp;
    statemt[0] := InvSubByte(statemt[0]);
    statemt[4] := InvSubByte(statemt[4]);
    statemt[8] := InvSubByte(statemt[8]);
    statemt[12] := InvSubByte(statemt[12]);
    statemt[16] := InvSubByte(statemt[16]);
    statemt[20] := InvSubByte(statemt[20]);
    RowOf6(before, statemt[..], 0, 6, SubstituteBack);
    RowOf6(before, statemt[..], 3, 3, SubstituteBack);
  }

  method InversShiftRow8Row1(statemt: array<byte>)
    requires statemt.Length == 32
    modifies statemt
    ensures RowKept(old(statemt[..]), statemt[..], 0)
    ensures RowMoved(old(statemt[..]), statemt[..], 8, 1, 7, SubstituteBack)
    ensures RowKept(old(statemt[..]), statemt[..], 2)
    ensures RowKept(old(statemt[..]), statemt[..], 3)
    ensures statemt[32..] == old(statemt[32..])
  {
    hide SubByte, InvSubByte, RowMoved;
    ghost var before := statemt[..];
    var temp := InvSubByte(statemt[29]);
    statemt[29] := InvSubByte(statemt[25]);
    statemt[25] := InvSubByte(statemt[21]);
    statemt[21] := InvSubByte(statemt[17]);
    statemt[17] := InvSubByte(statemt[13]);
    statemt[13] := InvSubByte(statemt[9]);
    statemt[9] := InvSubByte(statemt[5]);
    statemt[5] := InvSubByte(statemt[1]);
    statemt[1] := temp;
    RowOf8(before, statemt[..], 1, 7, SubstituteBack);
  }

  method InversShiftRow8Row2(statemt: array<byte>)
    requires statemt.Length == 32
    modifies statemt
    ensures RowKept(old(statemt[..]), statemt[..], 0)
    ensures RowKept(old(statemt[..]), statemt[..], 1)
    ensures RowMoved(old(statemt[..]), statemt[..], 8, 2, 5, SubstituteBack)
    ensures RowKept(old(statemt[..]), statemt[..], 3)
    ensures statemt[32..] == old(statemt[32..])
  {
    hide SubByte, InvSubByte, RowMoved;
    ghost var before := statemt[..];
    var temp := InvSubByte(statemt[30]);
    statemt[30] := InvSubByte(statemt[18]);
    statemt[18] := InvSubByte(statemt[6]);
    statemt[6] := InvSubByte(statemt[26]);
    statemt[26] := InvSubByte(statemt[14]);
    statemt[14] := InvSubByte(statemt[2]);
    statemt[2] := InvSubByte(statemt[22]);
    statemt[22] := InvSubByte(statemt[10]);
    statemt[10] := temp;
    RowOf8(before, statemt[..], 2, 5, SubstituteBack);
  }

  method InversShiftRow8Row3(statemt: array<byte>)
    requires statemt.Length == 32
    modifies statemt
    ensures RowKept(old(statemt[..]), statemt[..], 0)
    ensures RowKept(old(statemt[..]), statemt[..], 1)
    ensures RowKept(old(statemt[..]), statemt[..], 2)
    ensures RowMoved(old(statemt[..]), statemt[..], 8, 3, 4, SubstituteBack)
    ensures statemt[32..] == old(statemt[32..])
  {
    hide SubByte, InvSubByte, RowMoved;
    ghost var before := statemt[..];
    var temp := InvSubByte(statemt[31]);
    statemt[31] := InvSubByte(statemt[15]);
    statemt[15] := temp;
    temp := InvSubByte(statemt[27]);
    statemt[27] := InvSubByte(statemt[11]);
    statemt[11] := temp;
    temp := InvSubByte(statemt[23]);
    statemt[23] := InvSubByte(statemt[7]);
    statemt[7] := temp;
    temp := InvSubByte(statemt[19]);
    statemt[19] := InvSubByte(statemt[3]);
    statemt[3] := temp;
    RowOf8(before, statemt[..], 3, 4, SubstituteBack);
  }

  method InversShiftRow8Row0(statemt: array<byte>)
    requires statemt.Length == 32
    modifies statemt
    ensures RowMoved(old(statemt[..]), statemt[..], 8, 0, 8, SubstituteBack)
    ensures RowKept(old(statemt[..]), statemt[..], 1)
    ensures RowKept(old(statemt[..]), statemt[..], 2)
    ensures RowKept(old(statemt[..]), statemt[..], 3)
    ensures statemt[32..] == old(statemt[32..])
  {
    hide SubByte, InvSubByte, RowMoved;
    ghost var before := statemt[..];
    statemt[0] := InvSubByte(statemt[0]);
    statemt[4] := InvSubByte(statemt[4]);
    statemt[8] := InvSubByte(statemt[8]);
    statemt[12] := InvSubByte(statemt[12]);
    statemt[16] := InvSubByte(statemt[16]);
    statemt[20] := InvSubByte(statemt[20]);
    statemt[24] := InvSubByte(statemt[24]);
    statemt[28] := InvSubByte(statemt[28]);
    RowOf8(before, statemt[..], 0, 8, SubstituteBack);
  }

  /** Where entry i of the rotated state comes from, substituted; entries beyond the state stay. */
  function ShiftedEntry(s: seq<byte>, nb: nat, i: nat): byte
    requires |s| == 32 && Columns(nb) && i < 32
  {
    if i < 4 * nb then SubByte(s[At(i % 4, Right(i / 4, Offset(i % 4, nb), nb))]) else s[i]
  }

  function UnshiftedEntry(s: seq<byte>, nb: nat, i: nat): byte
    requires |s| == 32 && Columns(nb) && i < 32
  {
    if i < 4 * nb then InvSubByte(s[At(i % 4, Right(i / 4, nb - Offset(i % 4, nb), nb))]) else s[i]
  }

  /** Every byte substituted and every row rotated to the left. */
  function ShiftSub(s: seq<byte>, nb: nat): (t: seq<byte>)
    requires |s| == 32 && Columns(nb)
    ensures |t| == 32
  {
    seq(32, i requires 0 <= i < 32 => ShiftedEntry(s, nb, i))
  }

  /** Every row rotated to the right and every byte substituted back. */
  function UnshiftSub(s: seq<byte>, nb: nat): (t: seq<byte>)
    requires |s| == 32 && Columns(nb)
    ensures |t| == 32
  {
    seq(32, i requires 0 <= i < 32 => UnshiftedEntry(s, nb, i))
  }

  lemma ThereAndBack(c: nat, o: nat, nb: nat)
    requires Columns(nb) && c < nb && o <= nb
    ensures Right(Right(c, nb - o, nb), o, nb) == c
  {
    hide Right;
    Turned(c, nb - o, nb);
    Turned(Right(c, nb - o, nb), o, nb);
  }

  lemma Turned(c: nat, o: nat, nb: nat)
    requires Columns(nb) && c < nb && o <= nb
    ensures Right(c, o, nb) == if c + o < nb then c + o else c + o - nb
  {
    var x := c + o;
    match nb {
      case 4 => assert x % 4 == if x < 4 then x else x - 4;
      case 6 => assert x % 6 == if x < 6 then x else x - 6;
      case 8 => assert x % 8 == if x < 8 then x else x - 8;
    }
  }

  /** Rotating back and substituting back restores every state, for all three block sizes. */
  lemma UnshiftUndoesShift(s: seq<byte>, nb: nat)
    requires |s| == 32 && Columns(nb)
    ensures UnshiftSub(ShiftSub(s, nb), nb) == s
  {
    hide ShiftedEntry, UnshiftedEntry;
    forall i: nat | i < 32
      ensures UnshiftSub(ShiftSub(s, nb), nb)[i] == s[i]
    {
      EntryRestored(s, nb, i);
    }
  }

  lemma EntryRestored(s: seq<byte>, nb: nat, i: nat)
    requires |s| == 32 && Columns(nb) && i < 32
    ensures UnshiftedEntry(ShiftSub(s, nb), nb, i) == s[i]
  {
    hide SubByte, InvSubByte, ShiftSub, ShiftedEntry;
    if i < 4 * nb {
      RotatedBack(s, nb, i % 4, i / 4, i);
    } else {
      BeyondKept(s, nb, i);
    }
  }

  lemma BeyondKept(s: seq<byte>, nb: nat, i: nat)
    requires |s| == 32 && Columns(nb) && 4 * nb <= i < 32
    ensures ShiftSub(s, nb)[i] == s[i]
  {
    hide SubByte;
    assert ShiftSub(s, nb)[i] == ShiftedEntry(s, nb, i);
  }

  lemma RotatedBack(s: seq<byte>, nb: nat, r: nat, c: nat, i: nat)
    requires |s| == 32 && Columns(nb) && r < 4 && c < nb && i == At(r, c) && r == i % 4 && c == i / 4
    ensures UnshiftedEntry(ShiftSub(s, nb), nb, i) == s[i]
  {
    hide SubByte, InvSubByte, ShiftSub, Right, Offset;
    OffsetFits(r, nb);
    var d := Right(c, nb - Offset(r, nb), nb);
    ShiftedAt(s, nb, r, d);
    ThereAndBack(c, Offset(r, nb), nb);
    InvSubUndoesSub(s[i]);
  }

  lemma OffsetFits(r: nat, nb: nat)
    requires r < 4 && Columns(nb)
    ensures Offset(r, nb) <= nb
  {
  }

  lemma ShiftedAt(s: seq<byte>, nb: nat, r: nat, c: nat)
    requires |s| == 32 && Columns(nb) && r < 4 && c < nb
    ensures At(r, c) < 32 && Right(c, Offset(r, nb), nb) < nb
    ensures ShiftSub(s, nb)[At(r, c)] == SubByte(s[At(r, Right(c, Offset(r, nb), nb))])
  {
    hide ShiftedEntry;
    ShiftedFrom(s, nb, r, c, At(r, c));
  }

  lemma ShiftedFrom(s: seq<byte>, nb: nat, r: nat, c: nat, i: nat)
    requires |s| == 32 && Columns(nb) && r < 4 && c < nb && i == At(r, c) < 32
    ensures ShiftedEntry(s, nb, i) == SubByte(s[At(r, Right(c, Offset(r, nb), nb))])
  {
    hide SubByte, Right, Offset;
    assert i / 4 == c && i % 4 == r;
  }

  /** All four rows of t are those of s, each rotated by its own offset. */
  ghost predicate AllShifted(s: seq<byte>, t: seq<byte>, nb: nat)
    requires |s| == |t| == 32 && Columns(nb)
  {
    && (forall r: nat | r < 4 :: RowMoved(s, t, nb, r, Offset(r, nb), Substitute)) && t[4 * nb..] == s[4 * nb..]
  }

  ghost predicate AllUnshifted(s: seq<byte>, t: seq<byte>, nb: nat)
    requires |s| == |t| == 32 && Columns(nb)
  {
    && (forall r: nat | r < 4 :: RowMoved(s, t, nb, r, nb - Offset(r, nb), SubstituteBack))
    && t[4 * nb..] == s[4 * nb..]
  }

  lemma ShiftedIsShiftSub(s: seq<byte>, t: seq<byte>, nb: nat)
    requires |s| == |t| == 32 && Columns(nb) && AllShifted(s, t, nb)
    ensures t == ShiftSub(s, nb)
  {
    hide SubByte, Right;
    forall i | 0 <= i < 32
      ensures t[i] == ShiftedEntry(s, nb, i)
    {
      if i < 4 * nb {
        assert RowMoved(s, t, nb, i % 4, Offset(i % 4, nb), Substitute);
        assert At(i % 4, i / 4) == i;
      } else {
        assert t[4 * nb..][i - 4 * nb] == s[4 * nb..][i - 4 * nb];
      }
    }
  }

  lemma UnshiftedIsUnshiftSub(s: seq<byte>, t: seq<byte>, nb: nat)
    requires |s| == |t| == 32 && Columns(nb) && AllUnshifted(s, t, nb)
    ensures t == UnshiftSub(s, nb)
  {
    hide InvSubByte, Right;
    forall i | 0 <= i < 32
      ensures t[i] == UnshiftedEntry(s, nb, i)
    {
      if i < 4 * nb {
        assert RowMoved(s, t, nb, i % 4, nb - Offset(i % 4, nb), SubstituteBack);
        assert At(i % 4, i / 4) == i;
      } else {
        assert t[4 * nb..][i - 4 * nb] == s[4 * nb..][i - 4 * nb];
      }
    }
  }

  /** A row moved and then kept, or kept and then moved, is a row moved. */
  lemma MovedThenKept(s: seq<byte>, m: seq<byte>, t: seq<byte>, nb: nat, r: nat, o: nat, step: Step)
    requires |s| == |m| == |t| == 32 && Columns(nb) && r < 4
    requires (RowMoved(s, m, nb, r, o, step) && RowKept(m, t, r))
             || (RowKept(s, m, r) && RowMoved(m, t, nb, r, o, step))
    ensures RowMoved(s, t, nb, r, o, step)
  {
    hide Apply, Right;
    forall c: nat | c < nb
      ensures t[At(r, c)] == Apply(step, s[At(r, Right(c, o, nb))])
    {
      assert c < 8 && Right(c, o, nb) < 8;
      assert RowKept(m, t, r) ==> t[At(r, c)] == m[At(r, c)];
      assert RowKept(s, m, r) ==> m[At(r, Right(c, o, nb))] == s[At(r, Right(c, o, nb))];
    }
  }

  lemma KeptTwice(s: seq<byte>, m: seq<byte>, t: seq<byte>, r: nat)
    requires |s| == |m| == |t| == 32 && r < 4 && RowKept(s, m, r) && RowKept(m, t, r)
    ensures RowKept(s, t, r)
  {
  }

  /** Rows 1 and 2 first, rows 3 and 0 afterwards: together all rows. */
  lemma BothHalves(s: seq<byte>, m: seq<byte>, t: seq<byte>, nb: nat)
    requires |s| == |m| == |t| == 32 && Columns(nb) && t[4 * nb..] == m[4 * nb..] == s[4 * nb..]
    requires RowMoved(s, m, nb, 1, Offset(1, nb), Substitute) && RowMoved(s, m, nb, 2, Offset(2, nb), Substitute)
    requires RowKept(s, m, 0) && RowKept(s, m, 3) && RowKept(m, t, 1) && RowKept(m, t, 2)
    requires RowMoved(m, t, nb, 0, Offset(0, nb), Substitute) && RowMoved(m, t, nb, 3, Offset(3, nb), Substitute)
    ensures t == ShiftSub(s, nb)
  {
    hide RowMoved, RowKept, ShiftSub;
    forall r: nat | r < 4
      ensures RowMoved(s, t, nb, r, Offset(r, nb), Substitute)
    {
      MovedThenKept(s, m, t, nb, r, Offset(r, nb), Substitute);
    }
    ShiftedIsShiftSub(s, t, nb);
  }

  lemma BothHalvesBack(s: seq<byte>, m: seq<byte>, t: seq<byte>, nb: nat)
    requires |s| == |m| == |t| == 32 && Columns(nb) && t[4 * nb..] == m[4 * nb..] == s[4 * nb..]
    requires RowMoved(s, m, nb, 1, nb - Offset(1, nb), SubstituteBack)
             && RowMoved(s, m, nb, 2, nb - Offset(2, nb), SubstituteBack)
    requires RowKept(s, m, 0) && RowKept(s, m, 3) && RowKept(m, t, 1) && RowKept(m, t, 2)
    requires RowMoved(m, t, nb, 0, nb - Offset(0, nb), SubstituteBack)
             && RowMoved(m, t, nb, 3, nb - Offset(3, nb), SubstituteBack)
    ensures t == UnshiftSub(s, nb)
  {
    hide RowMoved, RowKept, UnshiftSub;
    forall r: nat | r < 4
      ensures RowMoved(s, t, nb, r, nb - Offset(r, nb), SubstituteBack)
    {
      MovedThenKept(s, m, t, nb, r, nb - Offset(r, nb), SubstituteBack);
    }
    UnshiftedIsUnshiftSub(s, t, nb);
  }

  method ByteSubShiftRow(statemt: array<byte>, nb: nat)
    requires statemt.Length == 32 && Columns(nb)
    modifies statemt
    ensures statemt[..] == ShiftSub(old(statemt[..]), nb)
  {
    hide RowMoved, RowKept, ShiftSub;
    ghost var s := statemt[..];
    if nb == 4 {
      ShiftRow4Rows12(statemt);
    } else if nb == 6 {
      ShiftRow6Rows12(statemt);
    } else {
      ShiftRow8Row1(statemt);
      ghost var m := statemt[..];
      ShiftRow8Row2(statemt);
      MovedThenKept(s, m, statemt[..], 8, 1, 1, Substitute);
      MovedThenKept(s, m, statemt[..], 8, 2, 3, Substitute);
      KeptTwice(s, m, statemt[..], 0);
      KeptTwice(s, m, statemt[..], 3);
    }
    ghost var m := statemt[..];
    if nb == 4 {
      ShiftRow4Rows30(statemt);
    } else if nb == 6 {
      ShiftRow6Rows30(statemt);
    } else {
      ShiftRow8Row3(statemt);
      ghost var n := statemt[..];
      ShiftRow8Row0(statemt);
      MovedThenKept(m, n, statemt[..], 8, 0, 0, Substitute);
      MovedThenKept(m, n, statemt[..], 8, 3, 4, Substitute);
      KeptTwice(m, n, statemt[..], 1);
      KeptTwice(m, n, statemt[..], 2);
    }
    BothHalves(s, m, statemt[..], nb);
  }

  method InversShiftRowByteSub(statemt: array<byte>, nb: nat)
    requires statemt.Length == 32 && Columns(nb)
    modifies statemt
    ensures statemt[..] == UnshiftSub(old(statemt[..]), nb)
  {
    hide RowMoved, RowKept, UnshiftSub;
    ghost var s := statemt[..];
    if nb == 4 {
      InversShiftRow4Rows12(statemt);
    } else if nb == 6 {
      InversShiftRow6Rows12(statemt);
    } else {
      InversShiftRow8Row1(statemt);
      ghost var m := statemt[..];
      InversShiftRow8Row2(statemt);
      MovedThenKept(s, m, statemt[..], 8, 1, 7, SubstituteBack);
      MovedThenKept(s, m, statemt[..], 8, 2, 5, SubstituteBack);
      KeptTwice(s, m, statemt[..], 0);
      KeptTwice(s, m, statemt[..], 3);
    }
    ghost var m := statemt[..];
    if nb == 4 {
      InversShiftRow4Rows30(statemt);
    } else if nb == 6 {
      InversShiftRow6Rows30(statemt);
    } else {
      InversShiftRow8Row3(statemt);
      ghost var n := statemt[..];
      InversShiftRow8Row0(statemt);
      MovedThenKept(m, n, statemt[..], 8, 0, 8, SubstituteBack);
      MovedThenKept(m, n, statemt[..], 8, 3, 4, SubstituteBack);
      KeptTwice(m, n, statemt[..], 1);
      KeptTwice(m, n, statemt[..], 2);
    }
    BothHalvesBack(s, m, statemt[..], nb);
  }

  /** How far each row is rotated, as the table of the source's cycles and of Rijndael has it: 1, 2 and 3 columns for
    * four and six columns, 1, 3 and 4 for eight. */
  const SHIFTS: seq<nat> := [0, 1, 2, 3]

  const WIDE_SHIFTS: seq<nat> := [0, 1, 3, 4]

  /** Substitution and rotation move byte (r, c) to where the table says. */
  lemma RowsRotate(s: seq<byte>, nb: nat, r: nat, c: nat, o: nat)
    requires |s| == 32 && Columns(nb) && r < 4 && c < nb && o == if nb == 8 then WIDE_SHIFTS[r] else SHIFTS[r]
    ensures ShiftSub(s, nb)[4 * c + r] == SubByte(s[4 * (if c + o < nb then c + o else c + o - nb) + r])
  {
    hide SubByte, ShiftSub;
    OffsetIs(r, nb, o);
    ShiftedAt(s, nb, r, c);
    Turned(c, o, nb);
    hide Right, Offset;
  }

  lemma OffsetIs(r: nat, nb: nat, o: nat)
    requires r < 4 && Columns(nb) && o == if nb == 8 then WIDE_SHIFTS[r] else SHIFTS[r]
    ensures Offset(r, nb) == o
  {
    match r { case 0 => case 1 => case 2 => case 3 => }
  }
}
