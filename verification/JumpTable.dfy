/** The distances a chain link can span, by its seven-bit index. */
module JumpTable {
  import opened Sequences

  const ROW_0: seq<nat> := [
    0, 1, 2, 3, 4, 5, 6, 7,
    8, 9, 10, 11, 12, 13, 14, 15]
  const ROW_1: seq<nat> := [
    21, 28, 36, 45, 55, 66, 78, 91,
    105, 120, 136, 153, 171, 190, 210, 231]
  const ROW_2: seq<nat> := [
    253, 276, 300, 325, 351, 378, 406, 435,
    465, 496, 528, 561, 595, 630, 666, 703]
  const ROW_3: seq<nat> := [
    741, 780, 820, 861, 903, 946, 990, 1035,
    1081, 1128, 1176, 1225, 1275, 1326, 1378, 1431]
  const ROW_4: seq<nat> := [
    1485, 1540, 1596, 1653, 1711, 1770, 1830, 1891,
    1953, 2016, 2080, 2145, 2211, 2278, 2346, 2415]
  const ROW_5: seq<nat> := [
    2485, 2556, 3741, 8385, 18915, 42486, 95703, 215496,
    485605, 1091503, 2456436, 5529475, 12437578, 27986421, 62972253, 141700195]
  const ROW_6: seq<nat> := [
    318819126, 717314626, 1614000520, 3631437253, 8170829695, 18384318876, 41364501751, 93070021080,
    209407709220, 471167588430, 1060127437995, 2385287281530, 5366895564381, 12075513791265, 27169907873235,
      61132301007778]
  const ROW_7: seq<nat> := [
    137547673121001, 309482258302503, 696335090510256, 1566753939653640, 3525196427195653, 7931691866727775,
      17846306747368716, 40154190394120111,
    90346928493040500, 203280588949935750, 457381324898247375, 1029107980662394500, 2315492957028380766,
      5209859150892887590]
  const JUMP_DISTANCES: seq<nat> := ((ROW_0 + ROW_1) + (ROW_2 + ROW_3)) + ((ROW_4 + ROW_5) + (ROW_6 + ROW_7))

  lemma RisingConcat(a: seq<nat>, b: seq<nat>)
    requires Rising(a) && Rising(b) && |a| > 0 && |b| > 0 && a[|a| - 1] < b[0]
    ensures Rising(a + b)
  {
    forall i, j | 0 <= i < j < |a + b| ensures (a + b)[i] < (a + b)[j] {
      if i < |a| <= j {
        assert i < |a| - 1 ==> a[i] < a[|a| - 1];
        assert j > |a| ==> b[0] < b[j - |a|];
      }
    }
  }

  lemma NearRowsAscend()
    ensures Rising(ROW_0) && Rising(ROW_1) && Rising(ROW_2) && Rising(ROW_3)
  {
  }

  lemma FarRowsAscend()
    ensures Rising(ROW_4) && Rising(ROW_5) && Rising(ROW_6) && Rising(ROW_7)
  {
  }

  lemma JumpsAscend()
    ensures |JUMP_DISTANCES| == 126 && Rising(JUMP_DISTANCES)
  {
    NearRowsAscend();
    FarRowsAscend();
    hide Rising;
    RisingConcat(ROW_0, ROW_1);
    RisingConcat(ROW_2, ROW_3);
    RisingConcat(ROW_4, ROW_5);
    RisingConcat(ROW_6, ROW_7);
    RisingConcat(ROW_0 + ROW_1, ROW_2 + ROW_3);
    RisingConcat(ROW_4 + ROW_5, ROW_6 + ROW_7);
    RisingConcat((ROW_0 + ROW_1) + (ROW_2 + ROW_3), (ROW_4 + ROW_5) + (ROW_6 + ROW_7));
  }

  lemma JumpsGrow(i: nat, j: nat)
    requires i < j < 126
    ensures |JUMP_DISTANCES| == 126 && JUMP_DISTANCES[i] < JUMP_DISTANCES[j]
  {
    hide JUMP_DISTANCES;
    JumpsAscend();
  }

  /** The far distances are the triangular numbers of these. */
  const FAR: seq<nat> := [
    86, 129, 194, 291, 437, 656, 985, 1477, 2216, 3325, 4987, 7481, 11222, 16834, 25251, 37876, 56815, 85222,
    127834, 191751, 287626, 431439, 647159, 970739, 1456109, 2184164, 3276246, 4914369, 7371554, 11057332,
    16585998, 24878997, 37318496, 55977744, 83966617, 125949925, 188924888, 283387333, 425081000, 637621500,
    956432250, 1434648375, 2151972563, 3227958844]

  predicate IsTriangular(d: nat, k: nat) { 2 * d == k * (k + 1) }

  lemma RowsTriangular()
    ensures forall j :: 0 <= j < 16 ==> ROW_0[j] == j
    ensures forall j :: 0 <= j < 16 ==> IsTriangular(ROW_1[j], j + 6) && IsTriangular(ROW_2[j], j + 22)
    ensures forall j :: 0 <= j < 16 ==> IsTriangular(ROW_3[j], j + 38) && IsTriangular(ROW_4[j], j + 54)
  {
  }

  lemma FarTriangular()
    ensures IsTriangular(ROW_5[0], 70) && IsTriangular(ROW_5[1], 71)
    ensures forall j :: 0 <= j < 14 ==> IsTriangular(ROW_5[j + 2], FAR[j])
    ensures forall j :: 0 <= j < 16 ==> IsTriangular(ROW_6[j], FAR[j + 14])
  {
  }

  lemma FarthestTriangular()
    ensures |FAR| == 44 && forall j :: 0 <= j < 14 ==> IsTriangular(ROW_7[j], FAR[j + 30])
  {
  }

  lemma RowLengths()
    ensures |ROW_0| == |ROW_1| == |ROW_2| == |ROW_3| == |ROW_4| == |ROW_5| == |ROW_6| == 16 && |ROW_7| == 14
  {
  }

  lemma RowAt(i: nat)
    requires i < 126
    ensures |JUMP_DISTANCES| == 126
    ensures JUMP_DISTANCES[i] == match i / 16
                                 case 0 => ROW_0[i]
                                 case 1 => ROW_1[i - 16]
                                 case 2 => ROW_2[i - 32]
                                 case 3 => ROW_3[i - 48]
                                 case 4 => ROW_4[i - 64]
                                 case 5 => ROW_5[i - 80]
                                 case 6 => ROW_6[i - 96]
                                 case _ => ROW_7[i - 112]
  {
    hide ROW_0, ROW_1, ROW_2, ROW_3, ROW_4, ROW_5, ROW_6, ROW_7;
    RowLengths();
  }

  /** The first distances are consecutive, the next 66 consecutive triangular numbers, the others
      triangular numbers far apart. */
  lemma JumpsAsChosen(i: nat)
    requires i < 126
    ensures |JUMP_DISTANCES| == 126 && |FAR| == 44
    ensures if i < 16 then JUMP_DISTANCES[i] == i
            else IsTriangular(JUMP_DISTANCES[i], if i < 82 then i - 10 else FAR[i - 82])
  {
    RowAt(i);
    RowsTriangular();
    FarTriangular();
    FarthestTriangular();
    hide IsTriangular, JUMP_DISTANCES, FAR;
  }
}
