/** The powers of the generator of GF(256), computed without exclusive or so that the solver can
    follow the arithmetic with concrete numbers. */
module GeneratorPowers {

  /** Doubling modulo 0x11d: for `x >= 128`, clearing bit 8 of `2x` and flipping bits 4, 3, 2 and 0. */
  function FlatDouble(x: nat): int {
    if x < 128 then 2 * x else 2 * x - 227 - 4 * (x % 16) + 4 * (x % 2)
  }

  function FlatPower(n: nat): (p: nat)
    ensures p < 256
  {
    if n == 0 then 1 else FlatDouble(FlatPower(n - 1))
  }

  lemma Next(n: nat, x: nat, y: int)
    requires FlatPower(n) == x && y == FlatDouble(x)
    ensures FlatPower(n + 1) == y
  {
  }

  lemma Seventeen(n: nat, x0: nat, x1: nat, x2: nat, x3: nat, x4: nat, x5: nat, x6: nat, x7: nat, x8: nat,
                  x9: nat, x10: nat, x11: nat, x12: nat, x13: nat, x14: nat, x15: nat, x16: nat, x17: nat)
    requires FlatPower(n) == x0
    requires FlatDouble(x0) == x1 && FlatDouble(x1) == x2 && FlatDouble(x2) == x3 && FlatDouble(x3) == x4
    requires FlatDouble(x4) == x5 && FlatDouble(x5) == x6 && FlatDouble(x6) == x7 && FlatDouble(x7) == x8
    requires FlatDouble(x8) == x9 && FlatDouble(x9) == x10 && FlatDouble(x10) == x11 && FlatDouble(x11) == x12
    requires FlatDouble(x12) == x13 && FlatDouble(x13) == x14 && FlatDouble(x14) == x15 && FlatDouble(x15) == x16
    requires FlatDouble(x16) == x17
    ensures FlatPower(n + 17) == x17
  {
    hide FlatPower, FlatDouble;
    Next(n, x0, x1); Next(n + 1, x1, x2); Next(n + 2, x2, x3); Next(n + 3, x3, x4);
    Next(n + 4, x4, x5); Next(n + 5, x5, x6); Next(n + 6, x6, x7); Next(n + 7, x7, x8);
    Next(n + 8, x8, x9); Next(n + 9, x9, x10); Next(n + 10, x10, x11); Next(n + 11, x11, x12);
    Next(n + 12, x12, x13); Next(n + 13, x13, x14); Next(n + 14, x14, x15); Next(n + 15, x15, x16);
    Next(n + 16, x16, x17);
  }

  lemma Power17()
    ensures FlatPower(17) == 152
  {
    assert FlatPower(0) == 1;
    hide FlatPower;
    Seventeen(0, 1, 2, 4, 8, 16, 32, 64, 128, 29, 58, 116, 232, 205, 135, 19, 38, 76, 152);
  }

  lemma Power51()
    ensures FlatPower(51) == 10
  {
    Power17();
    hide FlatPower;
    Seventeen(17, 152, 45, 90, 180, 117, 234, 201, 143, 3, 6, 12, 24, 48, 96, 192, 157, 39, 78);
    Seventeen(34, 78, 156, 37, 74, 148, 53, 106, 212, 181, 119, 238, 193, 159, 35, 70, 140, 5, 10);
  }

  lemma Power102()
    ensures FlatPower(102) == 68 && FlatPower(85) == 214
  {
    Power51();
    hide FlatPower;
    Seventeen(51, 10, 20, 40, 80, 160, 93, 186, 105, 210, 185, 111, 222, 161, 95, 190, 97, 194, 153);
    Seventeen(68, 153, 47, 94, 188, 101, 202, 137, 15, 30, 60, 120, 240, 253, 231, 211, 187, 107, 214);
    Seventeen(85, 214, 177, 127, 254, 225, 223, 163, 91, 182, 113, 226, 217, 175, 67, 134, 17, 34, 68);
  }

  lemma Power153()
    ensures FlatPower(153) == 146
  {
    Power102();
    hide FlatPower;
    Seventeen(102, 68, 136, 13, 26, 52, 104, 208, 189, 103, 206, 129, 31, 62, 124, 248, 237, 199, 147);
    Seventeen(119, 147, 59, 118, 236, 197, 151, 51, 102, 204, 133, 23, 46, 92, 184, 109, 218, 169, 79);
    Seventeen(136, 79, 158, 33, 66, 132, 21, 42, 84, 168, 77, 154, 41, 82, 164, 85, 170, 73, 146);
  }

  lemma Power204()
    ensures FlatPower(204) == 221
  {
    Power153();
    hide FlatPower;
    Seventeen(153, 146, 57, 114, 228, 213, 183, 115, 230, 209, 191, 99, 198, 145, 63, 126, 252, 229, 215);
    Seventeen(170, 215, 179, 123, 246, 241, 255, 227, 219, 171, 75, 150, 49, 98, 196, 149, 55, 110, 220);
    Seventeen(187, 220, 165, 87, 174, 65, 130, 25, 50, 100, 200, 141, 7, 14, 28, 56, 112, 224, 221);
  }

  lemma Power255()
    ensures FlatPower(255) == 1
  {
    Power204();
    hide FlatPower;
    Seventeen(204, 221, 167, 83, 166, 81, 162, 89, 178, 121, 242, 249, 239, 195, 155, 43, 86, 172, 69);
    Seventeen(221, 69, 138, 9, 18, 36, 72, 144, 61, 122, 244, 245, 247, 243, 251, 235, 203, 139, 11);
    Seventeen(238, 11, 22, 44, 88, 176, 125, 250, 233, 207, 131, 27, 54, 108, 216, 173, 71, 142, 1);
  }
}
