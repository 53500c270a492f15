/** The constants of SHA-256: 64 round words and eight initial words, with what they stand for. */
module Sha256Constants {
  import opened Words

  /** Row `r` of the table `K`. */
  function Row(r: nat): (row: seq<Word>)
    requires r < 8
    ensures |row| == 8
  {
    match r
    case 0 => [0x428a_2f98, 0x7137_4491, 0xb5c0_fbcf, 0xe9b5_dba5, 0x3956_c25b, 0x59f1_11f1, 0x923f_82a4, 0xab1c_5ed5]
    case 1 => [0xd807_aa98, 0x1283_5b01, 0x2431_85be, 0x550c_7dc3, 0x72be_5d74, 0x80de_b1fe, 0x9bdc_06a7, 0xc19b_f174]
    case 2 => [0xe49b_69c1, 0xefbe_4786, 0x0fc1_9dc6, 0x240c_a1cc, 0x2de9_2c6f, 0x4a74_84aa, 0x5cb0_a9dc, 0x76f9_88da]
    case 3 => [0x983e_5152, 0xa831_c66d, 0xb003_27c8, 0xbf59_7fc7, 0xc6e0_0bf3, 0xd5a7_9147, 0x06ca_6351, 0x1429_2967]
    case 4 => [0x27b7_0a85, 0x2e1b_2138, 0x4d2c_6dfc, 0x5338_0d13, 0x650a_7354, 0x766a_0abb, 0x81c2_c92e, 0x9272_2c85]
    case 5 => [0xa2bf_e8a1, 0xa81a_664b, 0xc24b_8b70, 0xc76c_51a3, 0xd192_e819, 0xd699_0624, 0xf40e_3585, 0x106a_a070]
    case 6 => [0x19a4_c116, 0x1e37_6c08, 0x2748_774c, 0x34b0_bcb5, 0x391c_0cb3, 0x4ed8_aa4a, 0x5b9c_ca4f, 0x682e_6ff3]
    case _ => [0x748f_82ee, 0x78a5_636f, 0x84c8_7814, 0x8cc7_0208, 0x90be_fffa, 0xa450_6ceb, 0xbef9_a3f7, 0xc671_78f2]
  }

  function PrimeRow(r: nat): (row: seq<nat>)
    requires r < 8
    ensures |row| == 8
  {
    match r
    case 0 => [2, 3, 5, 7, 11, 13, 17, 19]
    case 1 => [23, 29, 31, 37, 41, 43, 47, 53]
    case 2 => [59, 61, 67, 71, 73, 79, 83, 89]
    case 3 => [97, 101, 103, 107, 109, 113, 127, 131]
    case 4 => [137, 139, 149, 151, 157, 163, 167, 173]
    case 5 => [179, 181, 191, 193, 197, 199, 211, 223]
    case 6 => [227, 229, 233, 239, 241, 251, 257, 263]
    case _ => [269, 271, 277, 281, 283, 293, 307, 311]
  }

  function K(i: nat): Word
    requires i < 64
  {
    Row(i / 8)[i % 8]
  }

  /** The first 64 primes. */
  function Prime(i: nat): nat
    requires i < 64
  {
    PrimeRow(i / 8)[i % 8]
  }

  function Initial(): (h: seq<Word>)
    ensures |h| == 8
  {
    [0x6a09_e667, 0xbb67_ae85, 0x3c6e_f372, 0xa54f_f53a, 0x510e_527f, 0x9b05_688c, 0x1f83_d9ab, 0x5be0_cd19]
  }

  /** The whole part of the cube root of `p`. */
  function CubeRoot(p: nat): (c: nat)
    requires 0 < p < 343
    ensures c * c * c <= p < (c + 1) * (c + 1) * (c + 1)
  {
    if p < 8 then 1 else if p < 27 then 2 else if p < 64 then 3 else if p < 125 then 4 else if p < 216 then 5 else 6
  }

  function SquareRoot(p: nat): (c: nat)
    requires 0 < p < 25
    ensures c * c <= p < (c + 1) * (c + 1)
  {
    if p < 4 then 1 else if p < 9 then 2 else if p < 16 then 3 else 4
  }

  /** `k` is the first 32 bits of the fractional part of the cube root of `p`. */
  predicate IsCubeRootFraction(k: Word, p: nat)
    requires 0 < p < 343
  {
    var n := CubeRoot(p) * 0x1_0000_0000 + k;
    n * n * n <= p * 0x1_0000_0000_0000_0000_0000_0000 < (n + 1) * (n + 1) * (n + 1)
  }

  /** `h` is the first 32 bits of the fractional part of the square root of `p`. */
  predicate IsSquareRootFraction(h: Word, p: nat)
    requires 0 < p < 25
  {
    var n := SquareRoot(p) * 0x1_0000_0000 + h;
    n * n <= p * 0x1_0000_0000_0000_0000 < (n + 1) * (n + 1)
  }

  lemma Row0()
    ensures forall j | 0 <= j < 8 :: 0 < PrimeRow(0)[j] < 343 && IsCubeRootFraction(Row(0)[j], PrimeRow(0)[j])
  {
    assert IsCubeRootFraction(0x428a_2f98, 2);
    assert IsCubeRootFraction(0x7137_4491, 3);
    assert IsCubeRootFraction(0xb5c0_fbcf, 5);
    assert IsCubeRootFraction(0xe9b5_dba5, 7);
    assert IsCubeRootFraction(0x3956_c25b, 11);
    assert IsCubeRootFraction(0x59f1_11f1, 13);
    assert IsCubeRootFraction(0x923f_82a4, 17);
    assert IsCubeRootFraction(0xab1c_5ed5, 19);
  }

  lemma Row1()
    ensures forall j | 0 <= j < 8 :: 0 < PrimeRow(1)[j] < 343 && IsCubeRootFraction(Row(1)[j], PrimeRow(1)[j])
  {
    assert IsCubeRootFraction(0xd807_aa98, 23);
    assert IsCubeRootFraction(0x1283_5b01, 29);
    assert IsCubeRootFraction(0x2431_85be, 31);
    assert IsCubeRootFraction(0x550c_7dc3, 37);
    assert IsCubeRootFraction(0x72be_5d74, 41);
    assert IsCubeRootFraction(0x80de_b1fe, 43);
    assert IsCubeRootFraction(0x9bdc_06a7, 47);
    assert IsCubeRootFraction(0xc19b_f174, 53);
  }

  lemma Row2()
    ensures forall j | 0 <= j < 8 :: 0 < PrimeRow(2)[j] < 343 && IsCubeRootFraction(Row(2)[j], PrimeRow(2)[j])
  {
    assert IsCubeRootFraction(0xe49b_69c1, 59);
    assert IsCubeRootFraction(0xefbe_4786, 61);
    assert IsCubeRootFraction(0x0fc1_9dc6, 67);
    assert IsCubeRootFraction(0x240c_a1cc, 71);
    assert IsCubeRootFraction(0x2de9_2c6f, 73);
    assert IsCubeRootFraction(0x4a74_84aa, 79);
    assert IsCubeRootFraction(0x5cb0_a9dc, 83);
    assert IsCubeRootFraction(0x76f9_88da, 89);
  }

  lemma Row3()
    ensures forall j | 0 <= j < 8 :: 0 < PrimeRow(3)[j] < 343 && IsCubeRootFraction(Row(3)[j], PrimeRow(3)[j])
  {
    assert IsCubeRootFraction(0x983e_5152, 97);
    assert IsCubeRootFraction(0xa831_c66d, 101);
    assert IsCubeRootFraction(0xb003_27c8, 103);
    assert IsCubeRootFraction(0xbf59_7fc7, 107);
    assert IsCubeRootFraction(0xc6e0_0bf3, 109);
    assert IsCubeRootFraction(0xd5a7_9147, 113);
    assert IsCubeRootFraction(0x06ca_6351, 127);
    assert IsCubeRootFraction(0x1429_2967, 131);
  }

  lemma Row4()
    ensures forall j | 0 <= j < 8 :: 0 < PrimeRow(4)[j] < 343 && IsCubeRootFraction(Row(4)[j], PrimeRow(4)[j])
  {
    assert IsCubeRootFraction(0x27b7_0a85, 137);
    assert IsCubeRootFraction(0x2e1b_2138, 139);
    assert IsCubeRootFraction(0x4d2c_6dfc, 149);
    assert IsCubeRootFraction(0x5338_0d13, 151);
    assert IsCubeRootFraction(0x650a_7354, 157);
    assert IsCubeRootFraction(0x766a_0abb, 163);
    assert IsCubeRootFraction(0x81c2_c92e, 167);
    assert IsCubeRootFraction(0x9272_2c85, 173);
  }

  lemma Row5()
    ensures forall j | 0 <= j < 8 :: 0 < PrimeRow(5)[j] < 343 && IsCubeRootFraction(Row(5)[j], PrimeRow(5)[j])
  {
    assert IsCubeRootFraction(0xa2bf_e8a1, 179);
    assert IsCubeRootFraction(0xa81a_664b, 181);
    assert IsCubeRootFraction(0xc24b_8b70, 191);
    assert IsCubeRootFraction(0xc76c_51a3, 193);
    assert IsCubeRootFraction(0xd192_e819, 197);
    assert IsCubeRootFraction(0xd699_0624, 199);
    assert IsCubeRootFraction(0xf40e_3585, 211);
    assert IsCubeRootFraction(0x106a_a070, 223);
  }

  lemma Row6()
    ensures forall j | 0 <= j < 8 :: 0 < PrimeRow(6)[j] < 343 && IsCubeRootFraction(Row(6)[j], PrimeRow(6)[j])
  {
    assert IsCubeRootFraction(0x19a4_c116, 227);
    assert IsCubeRootFraction(0x1e37_6c08, 229);
    assert IsCubeRootFraction(0x2748_774c, 233);
    assert IsCubeRootFraction(0x34b0_bcb5, 239);
    assert IsCubeRootFraction(0x391c_0cb3, 241);
    assert IsCubeRootFraction(0x4ed8_aa4a, 251);
    assert IsCubeRootFraction(0x5b9c_ca4f, 257);
    assert IsCubeRootFraction(0x682e_6ff3, 263);
  }

  lemma Row7()
    ensures forall j | 0 <= j < 8 :: 0 < PrimeRow(7)[j] < 343 && IsCubeRootFraction(Row(7)[j], PrimeRow(7)[j])
  {
    assert IsCubeRootFraction(0x748f_82ee, 269);
    assert IsCubeRootFraction(0x78a5_636f, 271);
    assert IsCubeRootFraction(0x84c8_7814, 277);
    assert IsCubeRootFraction(0x8cc7_0208, 281);
    assert IsCubeRootFraction(0x90be_fffa, 283);
    assert IsCubeRootFraction(0xa450_6ceb, 293);
    assert IsCubeRootFraction(0xbef9_a3f7, 307);
    assert IsCubeRootFraction(0xc671_78f2, 311);
  }

  /** Section 4.2.2 of FIPS 180-4. */
  lemma KIsCubeRoots(i: nat)
    requires i < 64
    ensures 0 < Prime(i) < 343 && IsCubeRootFraction(K(i), Prime(i))
  {
    hide Row, PrimeRow, IsCubeRootFraction;
    Row0(); Row1(); Row2(); Row3(); Row4(); Row5(); Row6(); Row7();
    var r, j := i / 8, i % 8;
    assert r == 0 || r == 1 || r == 2 || r == 3 || r == 4 || r == 5 || r == 6 || r == 7;
    assert 0 <= j < 8;
  }

  /** Section 5.3.3 of FIPS 180-4. */
  lemma InitialIsSquareRoots(i: nat)
    requires i < 8
    ensures 0 < Prime(i) < 25 && IsSquareRootFraction(Initial()[i], Prime(i))
  {
    assert IsSquareRootFraction(0x6a09_e667, 2);
    assert IsSquareRootFraction(0xbb67_ae85, 3);
    assert IsSquareRootFraction(0x3c6e_f372, 5);
    assert IsSquareRootFraction(0xa54f_f53a, 7);
    assert IsSquareRootFraction(0x510e_527f, 11);
    assert IsSquareRootFraction(0x9b05_688c, 13);
    assert IsSquareRootFraction(0x1f83_d9ab, 17);
    assert IsSquareRootFraction(0x5be0_cd19, 19);
    assert i / 8 == 0 && i % 8 == i;
  }
}
