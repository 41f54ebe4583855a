/** The 256-entry table of leading zero bits that SoftFloat and the GSM code both carry. */
module ByteTable {
  import opened Arith

  const LEADING_ZEROS: seq<seq<nat>> := [
    [8, 7, 6, 6, 5, 5, 5, 5, 4, 4, 4, 4, 4, 4, 4, 4],
    [3, 3, 3, 3, 3, 3, 3, 3, 3, 3, 3, 3, 3, 3, 3, 3],
    [2, 2, 2, 2, 2, 2, 2, 2, 2, 2, 2, 2, 2, 2, 2, 2],
    [2, 2, 2, 2, 2, 2, 2, 2, 2, 2, 2, 2, 2, 2, 2, 2],
    [1, 1, 1, 1, 1, 1, 1, 1, 1, 1, 1, 1, 1, 1, 1, 1],
    [1, 1, 1, 1, 1, 1, 1, 1, 1, 1, 1, 1, 1, 1, 1, 1],
    [1, 1, 1, 1, 1, 1, 1, 1, 1, 1, 1, 1, 1, 1, 1, 1],
    [1, 1, 1, 1, 1, 1, 1, 1, 1, 1, 1, 1, 1, 1, 1, 1],
    [0, 0, 0, 0, 0, 0, 0, 0, 0, 0, 0, 0, 0, 0, 0, 0],
    [0, 0, 0, 0, 0, 0, 0, 0, 0, 0, 0, 0, 0, 0, 0, 0],
    [0, 0, 0, 0, 0, 0, 0, 0, 0, 0, 0, 0, 0, 0, 0, 0],
    [0, 0, 0, 0, 0, 0, 0, 0, 0, 0, 0, 0, 0, 0, 0, 0],
    [0, 0, 0, 0, 0, 0, 0, 0, 0, 0, 0, 0, 0, 0, 0, 0],
    [0, 0, 0, 0, 0, 0, 0, 0, 0, 0, 0, 0, 0, 0, 0, 0],
    [0, 0, 0, 0, 0, 0, 0, 0, 0, 0, 0, 0, 0, 0, 0, 0],
    [0, 0, 0, 0, 0, 0, 0, 0, 0, 0, 0, 0, 0, 0, 0, 0]
  ]

  function LeadingZeros(i: nat): nat
    requires i < 256
  {
    LEADING_ZEROS[i / 16][i % 16]
  }

  lemma LowRow(c: nat)
    requires c < 16
    ensures LEADING_ZEROS[0][0] == 8
    ensures c > 0 ==>
              && LEADING_ZEROS[0][c] < 8 && 128 <= c * P2(LEADING_ZEROS[0][c])
              && (c + 1) * P2(LEADING_ZEROS[0][c]) <= 256
  {
    var row := LEADING_ZEROS[0];
    assert row[0] == 8 && row[1] == 7 && row[2] == row[3] == 6;
    assert forall k :: 4 <= k < 8 ==> row[k] == 5;
    assert forall k :: 8 <= k < 16 ==> row[k] == 4;
    assert P2(7) == 128 && P2(6) == 64 && P2(5) == 32 && P2(4) == 16;
  }

  lemma HighRow(h: nat, c: nat)
    requires 1 <= h < 16 && c < 16
    ensures LEADING_ZEROS[h][c] == if h < 2 then 3 else if h < 4 then 2 else if h < 8 then 1 else 0
  {
    var row := LEADING_ZEROS[h];
    assert row == LEADING_ZEROS[if h < 2 then 1 else if h < 4 then 2 else if h < 8 then 4 else 8];
  }

  lemma ShiftSmall(i: nat, z: nat)
    requires 16 <= i < 256
    requires z == if i < 32 then 3 else if i < 64 then 2 else if i < 128 then 1 else 0
    ensures 128 <= i * P2(z) && (i + 1) * P2(z) <= 256
  {
    assert P2(3) == 8 && P2(2) == 4 && P2(1) == 2 && P2(0) == 1;
  }

  /** Shifting a nonzero byte left by its table entry brings its leading one to bit 7. */
  lemma LeadingZerosNormalise(i: nat)
    requires i < 256
    ensures LeadingZeros(i) <= 8 && (i == 0 ==> LeadingZeros(i) == 8)
    ensures i > 0 ==> LeadingZeros(i) < 8 && 128 <= i * P2(LeadingZeros(i)) && (i + 1) * P2(LeadingZeros(i)) <= 256
  {
    hide P2;
    if i < 16 {
      LowRow(i);
    } else {
      HighRow(i / 16, i % 16);
      ShiftSmall(i, LeadingZeros(i));
    }
  }
}
