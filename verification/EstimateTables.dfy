/** The tables of the 7-bit estimates of a reciprocal and of a reciprocal square root
    (softfloat/fall_reciprocal.c), and how good each entry is for the significands it serves. */
module EstimateTables {
  function RecipRow(k: nat): (row: seq<nat>)
    ensures |row| == 8
  {
    match k
    case 0 => [127, 125, 123, 121, 119, 117, 116, 114]
    case 1 => [112, 110, 109, 107, 105, 104, 102, 100]
    case 2 => [99, 97, 96, 94, 93, 91, 90, 88]
    case 3 => [87, 85, 84, 83, 81, 80, 79, 77]
    case 4 => [76, 75, 74, 72, 71, 70, 69, 68]
    case 5 => [66, 65, 64, 63, 62, 61, 60, 59]
    case 6 => [58, 57, 56, 55, 54, 53, 52, 51]
    case 7 => [50, 49, 48, 47, 46, 45, 44, 43]
    case 8 => [42, 41, 40, 40, 39, 38, 37, 36]
    case 9 => [35, 35, 34, 33, 32, 31, 31, 30]
    case 10 => [29, 28, 28, 27, 26, 25, 25, 24]
    case 11 => [23, 23, 22, 21, 21, 20, 19, 19]
    case 12 => [18, 17, 17, 16, 15, 15, 14, 14]
    case 13 => [13, 12, 12, 11, 11, 10, 9, 9]
    case 14 => [8, 8, 7, 7, 6, 5, 5, 4]
    case _ => [4, 3, 3, 2, 2, 1, 1, 0]
  }

  function RSqrtRow(k: nat): (row: seq<nat>)
    ensures |row| == 8
  {
    match k
    case 0 => [52, 51, 50, 48, 47, 46, 44, 43]
    case 1 => [42, 41, 40, 39, 38, 36, 35, 34]
    case 2 => [33, 32, 31, 30, 30, 29, 28, 27]
    case 3 => [26, 25, 24, 23, 23, 22, 21, 20]
    case 4 => [19, 19, 18, 17, 16, 16, 15, 14]
    case 5 => [14, 13, 12, 12, 11, 10, 10, 9]
    case 6 => [9, 8, 7, 7, 6, 6, 5, 4]
    case 7 => [4, 3, 3, 2, 2, 1, 1, 0]
    case 8 => [127, 125, 123, 121, 119, 118, 116, 114]
    case 9 => [113, 111, 109, 108, 106, 105, 103, 102]
    case 10 => [100, 99, 97, 96, 95, 93, 92, 91]
    case 11 => [90, 88, 87, 86, 85, 84, 83, 82]
    case 12 => [80, 79, 78, 77, 76, 75, 74, 73]
    case 13 => [72, 71, 70, 70, 69, 68, 67, 66]
    case 14 => [65, 64, 63, 63, 62, 61, 60, 59]
    case _ => [59, 58, 57, 56, 56, 55, 54, 53]
  }

  /** The tables of `recip7` and `rsqrte7`. */
  function RecipTable(i: nat): nat {
    RecipRow(i / 8)[i % 8]
  }

  function RSqrtTable(i: nat): nat {
    RSqrtRow(i / 8)[i % 8]
  }

  /** 128 + t is the integer nearest to 2^16 / (257 + 2i), which is 2^8 times the reciprocal of the midpoint
      (257 + 2i)/256 of the significands from (128 + i)/128 to (129 + i)/128. */
  predicate RecipNearest(i: nat, t: nat) {
    (255 + 2 * t) * (257 + 2 * i) < 0x2_0000 < (257 + 2 * t) * (257 + 2 * i)
  }

  /** What `t` is as the entry for those significands: nearest at the midpoint, and good for all of them. */
  predicate RecipGood(i: nat, t: nat) {
    t < 128 && RecipNearest(i, t) && 2 * 128 * 127 <= (128 + i) * (128 + t) && (129 + i) * (128 + t) <= 2 * 128 * 129
  }

  predicate RecipRowGood(i: nat, row: seq<nat>)
    requires |row| == 8
  {
    RecipGood(i, row[0]) && RecipGood(i + 1, row[1]) && RecipGood(i + 2, row[2]) && RecipGood(i + 3, row[3]) &&
    RecipGood(i + 4, row[4]) && RecipGood(i + 5, row[5]) && RecipGood(i + 6, row[6]) && RecipGood(i + 7, row[7])
  }

  lemma {:induction false} RecipRow0()
    ensures RecipRowGood(0, RecipRow(0))
  {
  }

  lemma {:induction false} RecipRow1()
    ensures RecipRowGood(8, RecipRow(1))
  {
  }

  lemma {:induction false} RecipRow2()
    ensures RecipRowGood(16, RecipRow(2))
  {
  }

  lemma {:induction false} RecipRow3()
    ensures RecipRowGood(24, RecipRow(3))
  {
  }

  lemma {:induction false} RecipRow4()
    ensures RecipRowGood(32, RecipRow(4))
  {
  }

  lemma {:induction false} RecipRow5()
    ensures RecipRowGood(40, RecipRow(5))
  {
  }

  lemma {:induction false} RecipRow6()
    ensures RecipRowGood(48, RecipRow(6))
  {
  }

  lemma {:induction false} RecipRow7()
    ensures RecipRowGood(56, RecipRow(7))
  {
  }

  lemma {:induction false} RecipRow8()
    ensures RecipRowGood(64, RecipRow(8))
  {
  }

  lemma {:induction false} RecipRow9()
    ensures RecipRowGood(72, RecipRow(9))
  {
  }

  lemma {:induction false} RecipRow10()
    ensures RecipRowGood(80, RecipRow(10))
  {
  }

  lemma {:induction false} RecipRow11()
    ensures RecipRowGood(88, RecipRow(11))
  {
  }

  lemma {:induction false} RecipRow12()
    ensures RecipRowGood(96, RecipRow(12))
  {
  }

  lemma {:induction false} RecipRow13()
    ensures RecipRowGood(104, RecipRow(13))
  {
  }

  lemma {:induction false} RecipRow14()
    ensures RecipRowGood(112, RecipRow(14))
  {
  }

  lemma {:induction false} RecipRow15()
    ensures RecipRowGood(120, RecipRow(15))
  {
  }

  lemma {:induction false} RecipRowsGood(k: nat)
    requires k < 16
    ensures RecipRowGood(8 * k, RecipRow(k))
  {
    hide *;
    match k
    case 0 => RecipRow0();
    case 1 => RecipRow1();
    case 2 => RecipRow2();
    case 3 => RecipRow3();
    case 4 => RecipRow4();
    case 5 => RecipRow5();
    case 6 => RecipRow6();
    case 7 => RecipRow7();
    case 8 => RecipRow8();
    case 9 => RecipRow9();
    case 10 => RecipRow10();
    case 11 => RecipRow11();
    case 12 => RecipRow12();
    case 13 => RecipRow13();
    case 14 => RecipRow14();
    case _ => RecipRow15();
  }

  lemma {:induction false} RecipInRow(i: nat, row: seq<nat>, j: nat)
    requires |row| == 8 && RecipRowGood(i, row) && j < 8
    ensures RecipGood(i + j, row[j])
  {
    hide RecipGood;
  }

  lemma {:induction false} RecipEntry(i: nat)
    requires i < 128
    ensures RecipGood(i, RecipTable(i))
  {
    hide RecipGood, RecipRow, RecipRowGood;
    RecipRowsGood(i / 8);
    RecipInRow(8 * (i / 8), RecipRow(i / 8), i % 8);
  }

  /** 128 + t is the integer nearest to the square root of 2^23 / (c * (129 + 2j)), which is 2^8 times the
      reciprocal square root of the midpoint of the significands from (64 + j)/64 to (65 + j)/64, times `c`. */
  predicate RSqrtNearest(c: nat, j: nat, t: nat) {
    (255 + 2 * t) * (255 + 2 * t) * (c * (129 + 2 * j)) < 0x200_0000 <
      (257 + 2 * t) * (257 + 2 * t) * (c * (129 + 2 * j))
  }

  /** What `t` is as the entry for those significands: nearest at the midpoint, and good for all of them. */
  predicate RSqrtGood(c: nat, j: nat, t: nat) {
    t < 128 && RSqrtNearest(c, j, t) && 4 * 64 * 127 * 127 <= c * (64 + j) * ((128 + t) * (128 + t)) &&
    c * (65 + j) * ((128 + t) * (128 + t)) <= 4 * 64 * 129 * 129
  }

  predicate RSqrtRowGood(c: nat, j: nat, row: seq<nat>)
    requires |row| == 8
  {
    RSqrtGood(c, j, row[0]) && RSqrtGood(c, j + 1, row[1]) && RSqrtGood(c, j + 2, row[2]) &&
    RSqrtGood(c, j + 3, row[3]) && RSqrtGood(c, j + 4, row[4]) && RSqrtGood(c, j + 5, row[5]) &&
    RSqrtGood(c, j + 6, row[6]) && RSqrtGood(c, j + 7, row[7])
  }

  lemma {:induction false} RSqrtRow0()
    ensures RSqrtRowGood(2, 0, RSqrtRow(0))
  {
  }

  lemma {:induction false} RSqrtRow1()
    ensures RSqrtRowGood(2, 8, RSqrtRow(1))
  {
  }

  lemma {:induction false} RSqrtRow2()
    ensures RSqrtRowGood(2, 16, RSqrtRow(2))
  {
  }

  lemma {:induction false} RSqrtRow3()
    ensures RSqrtRowGood(2, 24, RSqrtRow(3))
  {
  }

  lemma {:induction false} RSqrtRow4()
    ensures RSqrtRowGood(2, 32, RSqrtRow(4))
  {
  }

  lemma {:induction false} RSqrtRow5()
    ensures RSqrtRowGood(2, 40, RSqrtRow(5))
  {
  }

  lemma {:induction false} RSqrtRow6()
    ensures RSqrtRowGood(2, 48, RSqrtRow(6))
  {
  }

  lemma {:induction false} RSqrtRow7()
    ensures RSqrtRowGood(2, 56, RSqrtRow(7))
  {
  }

  lemma {:induction false} RSqrtRow8()
    ensures RSqrtRowGood(1, 0, RSqrtRow(8))
  {
  }

  lemma {:induction false} RSqrtRow9()
    ensures RSqrtRowGood(1, 8, RSqrtRow(9))
  {
  }

  lemma {:induction false} RSqrtRow10()
    ensures RSqrtRowGood(1, 16, RSqrtRow(10))
  {
  }

  lemma {:induction false} RSqrtRow11()
    ensures RSqrtRowGood(1, 24, RSqrtRow(11))
  {
  }

  lemma {:induction false} RSqrtRow12()
    ensures RSqrtRowGood(1, 32, RSqrtRow(12))
  {
  }

  lemma {:induction false} RSqrtRow13()
    ensures RSqrtRowGood(1, 40, RSqrtRow(13))
  {
  }

  lemma {:induction false} RSqrtRow14()
    ensures RSqrtRowGood(1, 48, RSqrtRow(14))
  {
  }

  lemma {:induction false} RSqrtRow15()
    ensures RSqrtRowGood(1, 56, RSqrtRow(15))
  {
  }

  lemma {:induction false} RSqrtRowsGood(k: nat)
    requires k < 16
    ensures RSqrtRowGood(if k < 8 then 2 else 1, if k < 8 then 8 * k else 8 * k - 64, RSqrtRow(k))
  {
    hide *;
    match k
    case 0 => RSqrtRow0();
    case 1 => RSqrtRow1();
    case 2 => RSqrtRow2();
    case 3 => RSqrtRow3();
    case 4 => RSqrtRow4();
    case 5 => RSqrtRow5();
    case 6 => RSqrtRow6();
    case 7 => RSqrtRow7();
    case 8 => RSqrtRow8();
    case 9 => RSqrtRow9();
    case 10 => RSqrtRow10();
    case 11 => RSqrtRow11();
    case 12 => RSqrtRow12();
    case 13 => RSqrtRow13();
    case 14 => RSqrtRow14();
    case _ => RSqrtRow15();
  }

  lemma {:induction false} RSqrtInRow(c: nat, i: nat, row: seq<nat>, j: nat)
    requires |row| == 8 && RSqrtRowGood(c, i, row) && j < 8
    ensures RSqrtGood(c, i + j, row[j])
  {
    hide RSqrtGood;
  }

  lemma {:induction false} RSqrtEntry(i: nat)
    requires i < 128
    ensures RSqrtGood(if i < 64 then 2 else 1, if i < 64 then i else i - 64, RSqrtTable(i))
  {
    hide RSqrtGood, RSqrtRow, RSqrtRowGood;
    RSqrtRowsGood(i / 8);
    RSqrtInRow(if i < 64 then 2 else 1, if i < 64 then 8 * (i / 8) else 8 * (i / 8) - 64, RSqrtRow(i / 8), i % 8);
  }
}

