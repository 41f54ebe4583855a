/** The constant tables of the G.722 coder. */
module AdpcmTables {
  const H: seq<int> := [
    12, -44, -44, 212, 48, -624, 128, 1448, -840, -3220, 3804, 15504,
    15504, 3804, -3220, -840, 1448, 128, -624, 48, 212, -44, -44, 12
  ]

  const QQ4_CODE4_TABLE: seq<int> := [
    0, -20456, -12896, -8968, -6288, -4240, -2584, -1200, 20456, 12896, 8968, 6288, 4240, 2584, 1200, 0
  ]

  const QQ6_CODE6_TABLE: seq<int> :=
    [-136, -136, -136, -136, -24808, -21904, -19008, -16704,
     -14984, -13512, -12280, -11192, -10232, -9360, -8576, -7856]
    + [-7192, -6576, -6000, -5456, -4944, -4464, -4008, -3576, -3168, -2776, -2400, -2032, -1688, -1360, -1040, -728]
    + [24808, 21904, 19008, 16704, 14984, 13512, 12280, 11192, 10232, 9360, 8576, 7856, 7192, 6576, 6000, 5456]
    + [4944, 4464, 4008, 3576, 3168, 2776, 2400, 2032, 1688, 1360, 1040, 728, 432, 136, -432, -136]

  const WL_CODE_TABLE: seq<int> := [-60, 3042, 1198, 538, 334, 172, 58, -30, 3042, 1198, 538, 334, 172, 58, -30, -60]

  const ILB_TABLE: seq<int> := [
    2048, 2093, 2139, 2186, 2233, 2282, 2332, 2383, 2435, 2489, 2543, 2599, 2656, 2714, 2774, 2834,
    2896, 2960, 3025, 3091, 3158, 3228, 3298, 3371, 3444, 3520, 3597, 3676, 3756, 3838, 3922, 4008
  ]

  const DECIS_LEVL: seq<int> := [
    280, 576, 880, 1200, 1520, 1864, 2208, 2584, 2960, 3376, 3784, 4240, 4696, 5200, 5712, 6288,
    6864, 7520, 8184, 8968, 9752, 10712, 11664, 12896, 14120, 15840, 17560, 20456, 23352, 32767
  ]

  const QUANT26BT_POS: seq<int> := [
    61, 60, 59, 58, 57, 56, 55, 54, 53, 52, 51, 50, 49, 48, 47, 46,
    45, 44, 43, 42, 41, 40, 39, 38, 37, 36, 35, 34, 33, 32, 32
  ]

  const QUANT26BT_NEG: seq<int> := [
    63, 62, 31, 30, 29, 28, 27, 26, 25, 24, 23, 22, 21, 20, 19, 18,
    17, 16, 15, 14, 13, 12, 11, 10, 9, 8, 7, 6, 5, 4, 4
  ]

  const QQ2_CODE2_TABLE: seq<int> := [-7408, -1616, 7408, 1616]

  const WH_CODE_TABLE: seq<int> := [798, -214, 798, -214]
}
