/**
  Inversion in GF(2^8): 2 is a primitive element, so the 254th power of a nonzero
  byte is its inverse. The powers of 2 are listed once, each checked from the one
  before it by integer arithmetic.
 */
module Gf256Inverse {
  import opened Bits
  import opened Outcomes
  import opened Gf256

  /** Inversion as the 254th power. */
  function Inv(v: byte): byte {
    Pow(v, 254)
  }

  /** Doubling as integer arithmetic: the polynomial flips bits 0, 2, 3 and 4. */
  function DoubleSum(a: byte): byte {
    if a < 128 then 2 * a else Flipped(a - 128)
  }

  /** 2 * x with bits 0, 2, 3 and 4 inverted. */
  function Flipped(x: nat): int {
    2 * x + 1 + 4 * Sign(x / 2) + 8 * Sign(x / 4) + 16 * Sign(x / 8)
  }

  lemma Flip(x: nat)
    ensures Xor(2 * x, 0x1D) == Flipped(x)
  {
    hide Xor;
    var x2, x3, x4 := x / 2, x / 4, x / 8;
    XorZero(x4 / 2);
    XorStep(x4, 1);
    assert Xor(x4, 1) == x4 + Sign(x4);
    XorStep(x3, 3);
    assert Xor(x3, 3) == x3 + Sign(x3) + 2 * Sign(x4);
    XorStep(x2, 7);
    assert Xor(x2, 7) == x2 + Sign(x2) + 2 * Sign(x3) + 4 * Sign(x4);
    XorStep(x, 14);
    XorStep(2 * x, 29);
    assert (2 * x) / 2 == x;
  }

  /** What inverting the low bit of `x` adds to it. */
  function Sign(x: nat): int {
    if x % 2 == 0 then 1 else -1
  }

  lemma DoubleIsSum(a: byte)
    ensures Double(a) == DoubleSum(a)
  {
    DoubleIsByte(a);
    if a < 128 {
      XorZero(2 * a);
    } else {
      Flip(a - 128);
    }
  }

  ghost predicate IsPowerOfTwo(v: byte) {
    exists e: nat :: Pow(2, e) == v
  }

  /** The next power of 2, its value checked by arithmetic. */
  lemma Next(e: nat, a: byte, b: byte)
    requires Pow(2, e) == a && DoubleSum(a) == b
    ensures Pow(2, e + 1) == b && IsPowerOfTwo(b)
  {
    hide Mul, DoubleSum;
    DoubleIsTwice(a);
    DoubleIsSum(a);
  }

  lemma Orbit0()
    requires Pow(2, 0) == 1
    ensures Pow(2, 17) == 152
    ensures IsPowerOfTwo(2) && IsPowerOfTwo(4) && IsPowerOfTwo(8) && IsPowerOfTwo(16) && IsPowerOfTwo(32) &&
      IsPowerOfTwo(64) && IsPowerOfTwo(128) && IsPowerOfTwo(29) && IsPowerOfTwo(58) && IsPowerOfTwo(116) &&
      IsPowerOfTwo(232) && IsPowerOfTwo(205) && IsPowerOfTwo(135) && IsPowerOfTwo(19) && IsPowerOfTwo(38) &&
      IsPowerOfTwo(76) && IsPowerOfTwo(152)
  {
    hide Pow, Mul, IsPowerOfTwo;
    Next(0, 1, 2); Next(1, 2, 4); Next(2, 4, 8); Next(3, 8, 16); Next(4, 16, 32); Next(5, 32, 64); Next(6, 64, 128);
    Next(7, 128, 29); Next(8, 29, 58); Next(9, 58, 116); Next(10, 116, 232); Next(11, 232, 205); Next(12, 205, 135);
    Next(13, 135, 19); Next(14, 19, 38); Next(15, 38, 76); Next(16, 76, 152);
  }

  lemma Orbit17()
    requires Pow(2, 17) == 152
    ensures Pow(2, 34) == 78
    ensures IsPowerOfTwo(45) && IsPowerOfTwo(90) && IsPowerOfTwo(180) && IsPowerOfTwo(117) && IsPowerOfTwo(234) &&
      IsPowerOfTwo(201) && IsPowerOfTwo(143) && IsPowerOfTwo(3) && IsPowerOfTwo(6) && IsPowerOfTwo(12) &&
      IsPowerOfTwo(24) && IsPowerOfTwo(48) && IsPowerOfTwo(96) && IsPowerOfTwo(192) && IsPowerOfTwo(157) &&
      IsPowerOfTwo(39) && IsPowerOfTwo(78)
  {
    hide Pow, Mul, IsPowerOfTwo;
    Next(17, 152, 45); Next(18, 45, 90); Next(19, 90, 180); Next(20, 180, 117); Next(21, 117, 234); Next(22, 234, 201);
    Next(23, 201, 143); Next(24, 143, 3); Next(25, 3, 6); Next(26, 6, 12); Next(27, 12, 24); Next(28, 24, 48);
    Next(29, 48, 96); Next(30, 96, 192); Next(31, 192, 157); Next(32, 157, 39); Next(33, 39, 78);
  }

  lemma Orbit34()
    requires Pow(2, 34) == 78
    ensures Pow(2, 51) == 10
    ensures IsPowerOfTwo(156) && IsPowerOfTwo(37) && IsPowerOfTwo(74) && IsPowerOfTwo(148) && IsPowerOfTwo(53) &&
      IsPowerOfTwo(106) && IsPowerOfTwo(212) && IsPowerOfTwo(181) && IsPowerOfTwo(119) && IsPowerOfTwo(238) &&
      IsPowerOfTwo(193) && IsPowerOfTwo(159) && IsPowerOfTwo(35) && IsPowerOfTwo(70) && IsPowerOfTwo(140) &&
      IsPowerOfTwo(5) && IsPowerOfTwo(10)
  {
    hide Pow, Mul, IsPowerOfTwo;
    Next(34, 78, 156); Next(35, 156, 37); Next(36, 37, 74); Next(37, 74, 148); Next(38, 148, 53); Next(39, 53, 106);
    Next(40, 106, 212); Next(41, 212, 181); Next(42, 181, 119); Next(43, 119, 238); Next(44, 238, 193);
    Next(45, 193, 159); Next(46, 159, 35); Next(47, 35, 70); Next(48, 70, 140); Next(49, 140, 5); Next(50, 5, 10);
  }

  lemma Orbit51()
    requires Pow(2, 51) == 10
    ensures Pow(2, 68) == 153
    ensures IsPowerOfTwo(20) && IsPowerOfTwo(40) && IsPowerOfTwo(80) && IsPowerOfTwo(160) && IsPowerOfTwo(93) &&
      IsPowerOfTwo(186) && IsPowerOfTwo(105) && IsPowerOfTwo(210) && IsPowerOfTwo(185) && IsPowerOfTwo(111) &&
      IsPowerOfTwo(222) && IsPowerOfTwo(161) && IsPowerOfTwo(95) && IsPowerOfTwo(190) && IsPowerOfTwo(97) &&
      IsPowerOfTwo(194) && IsPowerOfTwo(153)
  {
    hide Pow, Mul, IsPowerOfTwo;
    Next(51, 10, 20); Next(52, 20, 40); Next(53, 40, 80); Next(54, 80, 160); Next(55, 160, 93); Next(56, 93, 186);
    Next(57, 186, 105); Next(58, 105, 210); Next(59, 210, 185); Next(60, 185, 111); Next(61, 111, 222);
    Next(62, 222, 161); Next(63, 161, 95); Next(64, 95, 190); Next(65, 190, 97); Next(66, 97, 194); Next(67, 194, 153);
  }

  lemma Orbit68()
    requires Pow(2, 68) == 153
    ensures Pow(2, 85) == 214
    ensures IsPowerOfTwo(47) && IsPowerOfTwo(94) && IsPowerOfTwo(188) && IsPowerOfTwo(101) && IsPowerOfTwo(202) &&
      IsPowerOfTwo(137) && IsPowerOfTwo(15) && IsPowerOfTwo(30) && IsPowerOfTwo(60) && IsPowerOfTwo(120) &&
      IsPowerOfTwo(240) && IsPowerOfTwo(253) && IsPowerOfTwo(231) && IsPowerOfTwo(211) && IsPowerOfTwo(187) &&
      IsPowerOfTwo(107) && IsPowerOfTwo(214)
  {
    hide Pow, Mul, IsPowerOfTwo;
    Next(68, 153, 47); Next(69, 47, 94); Next(70, 94, 188); Next(71, 188, 101); Next(72, 101, 202); Next(73, 202, 137);
    Next(74, 137, 15); Next(75, 15, 30); Next(76, 30, 60); Next(77, 60, 120); Next(78, 120, 240); Next(79, 240, 253);
    Next(80, 253, 231); Next(81, 231, 211); Next(82, 211, 187); Next(83, 187, 107); Next(84, 107, 214);
  }

  lemma Orbit85()
    requires Pow(2, 85) == 214
    ensures Pow(2, 102) == 68
    ensures IsPowerOfTwo(177) && IsPowerOfTwo(127) && IsPowerOfTwo(254) && IsPowerOfTwo(225) && IsPowerOfTwo(223) &&
      IsPowerOfTwo(163) && IsPowerOfTwo(91) && IsPowerOfTwo(182) && IsPowerOfTwo(113) && IsPowerOfTwo(226) &&
      IsPowerOfTwo(217) && IsPowerOfTwo(175) && IsPowerOfTwo(67) && IsPowerOfTwo(134) && IsPowerOfTwo(17) &&
      IsPowerOfTwo(34) && IsPowerOfTwo(68)
  {
    hide Pow, Mul, IsPowerOfTwo;
    Next(85, 214, 177); Next(86, 177, 127); Next(87, 127, 254); Next(88, 254, 225); Next(89, 225, 223);
    Next(90, 223, 163); Next(91, 163, 91); Next(92, 91, 182); Next(93, 182, 113); Next(94, 113, 226);
    Next(95, 226, 217);
    Next(96, 217, 175); Next(97, 175, 67); Next(98, 67, 134); Next(99, 134, 17); Next(100, 17, 34); Next(101, 34, 68);
  }

  lemma Orbit102()
    requires Pow(2, 102) == 68
    ensures Pow(2, 119) == 147
    ensures IsPowerOfTwo(136) && IsPowerOfTwo(13) && IsPowerOfTwo(26) && IsPowerOfTwo(52) && IsPowerOfTwo(104) &&
      IsPowerOfTwo(208) && IsPowerOfTwo(189) && IsPowerOfTwo(103) && IsPowerOfTwo(206) && IsPowerOfTwo(129) &&
      IsPowerOfTwo(31) && IsPowerOfTwo(62) && IsPowerOfTwo(124) && IsPowerOfTwo(248) && IsPowerOfTwo(237) &&
      IsPowerOfTwo(199) && IsPowerOfTwo(147)
  {
    hide Pow, Mul, IsPowerOfTwo;
    Next(102, 68, 136); Next(103, 136, 13); Next(104, 13, 26); Next(105, 26, 52); Next(106, 52, 104);
    Next(107, 104, 208); Next(108, 208, 189); Next(109, 189, 103); Next(110, 103, 206); Next(111, 206, 129);
    Next(112, 129, 31); Next(113, 31, 62); Next(114, 62, 124); Next(115, 124, 248); Next(116, 248, 237);
    Next(117, 237, 199); Next(118, 199, 147);
  }

  lemma Orbit119()
    requires Pow(2, 119) == 147
    ensures Pow(2, 136) == 79
    ensures IsPowerOfTwo(59) && IsPowerOfTwo(118) && IsPowerOfTwo(236) && IsPowerOfTwo(197) && IsPowerOfTwo(151) &&
      IsPowerOfTwo(51) && IsPowerOfTwo(102) && IsPowerOfTwo(204) && IsPowerOfTwo(133) && IsPowerOfTwo(23) &&
      IsPowerOfTwo(46) && IsPowerOfTwo(92) && IsPowerOfTwo(184) && IsPowerOfTwo(109) && IsPowerOfTwo(218) &&
      IsPowerOfTwo(169) && IsPowerOfTwo(79)
  {
    hide Pow, Mul, IsPowerOfTwo;
    Next(119, 147, 59); Next(120, 59, 118); Next(121, 118, 236); Next(122, 236, 197); Next(123, 197, 151);
    Next(124, 151, 51); Next(125, 51, 102); Next(126, 102, 204); Next(127, 204, 133); Next(128, 133, 23);
    Next(129, 23, 46); Next(130, 46, 92); Next(131, 92, 184); Next(132, 184, 109); Next(133, 109, 218);
    Next(134, 218, 169); Next(135, 169, 79);
  }

  lemma Orbit136()
    requires Pow(2, 136) == 79
    ensures Pow(2, 153) == 146
    ensures IsPowerOfTwo(158) && IsPowerOfTwo(33) && IsPowerOfTwo(66) && IsPowerOfTwo(132) && IsPowerOfTwo(21) &&
      IsPowerOfTwo(42) && IsPowerOfTwo(84) && IsPowerOfTwo(168) && IsPowerOfTwo(77) && IsPowerOfTwo(154) &&
      IsPowerOfTwo(41) && IsPowerOfTwo(82) && IsPowerOfTwo(164) && IsPowerOfTwo(85) && IsPowerOfTwo(170) &&
      IsPowerOfTwo(73) && IsPowerOfTwo(146)
  {
    hide Pow, Mul, IsPowerOfTwo;
    Next(136, 79, 158); Next(137, 158, 33); Next(138, 33, 66); Next(139, 66, 132); Next(140, 132, 21);
    Next(141, 21, 42);
    Next(142, 42, 84); Next(143, 84, 168); Next(144, 168, 77); Next(145, 77, 154); Next(146, 154, 41);
    Next(147, 41, 82);
    Next(148, 82, 164); Next(149, 164, 85); Next(150, 85, 170); Next(151, 170, 73); Next(152, 73, 146);
  }

  lemma Orbit153()
    requires Pow(2, 153) == 146
    ensures Pow(2, 170) == 215
    ensures IsPowerOfTwo(57) && IsPowerOfTwo(114) && IsPowerOfTwo(228) && IsPowerOfTwo(213) && IsPowerOfTwo(183) &&
      IsPowerOfTwo(115) && IsPowerOfTwo(230) && IsPowerOfTwo(209) && IsPowerOfTwo(191) && IsPowerOfTwo(99) &&
      IsPowerOfTwo(198) && IsPowerOfTwo(145) && IsPowerOfTwo(63) && IsPowerOfTwo(126) && IsPowerOfTwo(252) &&
      IsPowerOfTwo(229) && IsPowerOfTwo(215)
  {
    hide Pow, Mul, IsPowerOfTwo;
    Next(153, 146, 57); Next(154, 57, 114); Next(155, 114, 228); Next(156, 228, 213); Next(157, 213, 183);
    Next(158, 183, 115); Next(159, 115, 230); Next(160, 230, 209); Next(161, 209, 191); Next(162, 191, 99);
    Next(163, 99, 198); Next(164, 198, 145); Next(165, 145, 63); Next(166, 63, 126); Next(167, 126, 252);
    Next(168, 252, 229); Next(169, 229, 215);
  }

  lemma Orbit170()
    requires Pow(2, 170) == 215
    ensures Pow(2, 187) == 220
    ensures IsPowerOfTwo(179) && IsPowerOfTwo(123) && IsPowerOfTwo(246) && IsPowerOfTwo(241) && IsPowerOfTwo(255) &&
      IsPowerOfTwo(227) && IsPowerOfTwo(219) && IsPowerOfTwo(171) && IsPowerOfTwo(75) && IsPowerOfTwo(150) &&
      IsPowerOfTwo(49) && IsPowerOfTwo(98) && IsPowerOfTwo(196) && IsPowerOfTwo(149) && IsPowerOfTwo(55) &&
      IsPowerOfTwo(110) && IsPowerOfTwo(220)
  {
    hide Pow, Mul, IsPowerOfTwo;
    Next(170, 215, 179); Next(171, 179, 123); Next(172, 123, 246); Next(173, 246, 241); Next(174, 241, 255);
    Next(175, 255, 227); Next(176, 227, 219); Next(177, 219, 171); Next(178, 171, 75); Next(179, 75, 150);
    Next(180, 150, 49); Next(181, 49, 98); Next(182, 98, 196); Next(183, 196, 149); Next(184, 149, 55);
    Next(185, 55, 110); Next(186, 110, 220);
  }

  lemma Orbit187()
    requires Pow(2, 187) == 220
    ensures Pow(2, 204) == 221
    ensures IsPowerOfTwo(165) && IsPowerOfTwo(87) && IsPowerOfTwo(174) && IsPowerOfTwo(65) && IsPowerOfTwo(130) &&
      IsPowerOfTwo(25) && IsPowerOfTwo(50) && IsPowerOfTwo(100) && IsPowerOfTwo(200) && IsPowerOfTwo(141) &&
      IsPowerOfTwo(7) && IsPowerOfTwo(14) && IsPowerOfTwo(28) && IsPowerOfTwo(56) && IsPowerOfTwo(112) &&
      IsPowerOfTwo(224) && IsPowerOfTwo(221)
  {
    hide Pow, Mul, IsPowerOfTwo;
    Next(187, 220, 165); Next(188, 165, 87); Next(189, 87, 174); Next(190, 174, 65); Next(191, 65, 130);
    Next(192, 130, 25); Next(193, 25, 50); Next(194, 50, 100); Next(195, 100, 200); Next(196, 200, 141);
    Next(197, 141, 7); Next(198, 7, 14); Next(199, 14, 28); Next(200, 28, 56); Next(201, 56, 112); Next(202, 112, 224);
    Next(203, 224, 221);
  }

  lemma Orbit204()
    requires Pow(2, 204) == 221
    ensures Pow(2, 221) == 69
    ensures IsPowerOfTwo(167) && IsPowerOfTwo(83) && IsPowerOfTwo(166) && IsPowerOfTwo(81) && IsPowerOfTwo(162) &&
      IsPowerOfTwo(89) && IsPowerOfTwo(178) && IsPowerOfTwo(121) && IsPowerOfTwo(242) && IsPowerOfTwo(249) &&
      IsPowerOfTwo(239) && IsPowerOfTwo(195) && IsPowerOfTwo(155) && IsPowerOfTwo(43) && IsPowerOfTwo(86) &&
      IsPowerOfTwo(172) && IsPowerOfTwo(69)
  {
    hide Pow, Mul, IsPowerOfTwo;
    Next(204, 221, 167); Next(205, 167, 83); Next(206, 83, 166); Next(207, 166, 81); Next(208, 81, 162);
    Next(209, 162, 89); Next(210, 89, 178); Next(211, 178, 121); Next(212, 121, 242); Next(213, 242, 249);
    Next(214, 249, 239); Next(215, 239, 195); Next(216, 195, 155); Next(217, 155, 43); Next(218, 43, 86);
    Next(219, 86, 172); Next(220, 172, 69);
  }

  lemma Orbit221()
    requires Pow(2, 221) == 69
    ensures Pow(2, 238) == 11
    ensures IsPowerOfTwo(138) && IsPowerOfTwo(9) && IsPowerOfTwo(18) && IsPowerOfTwo(36) && IsPowerOfTwo(72) &&
      IsPowerOfTwo(144) && IsPowerOfTwo(61) && IsPowerOfTwo(122) && IsPowerOfTwo(244) && IsPowerOfTwo(245) &&
      IsPowerOfTwo(247) && IsPowerOfTwo(243) && IsPowerOfTwo(251) && IsPowerOfTwo(235) && IsPowerOfTwo(203) &&
      IsPowerOfTwo(139) && IsPowerOfTwo(11)
  {
    hide Pow, Mul, IsPowerOfTwo;
    Next(221, 69, 138); Next(222, 138, 9); Next(223, 9, 18); Next(224, 18, 36); Next(225, 36, 72); Next(226, 72, 144);
    Next(227, 144, 61); Next(228, 61, 122); Next(229, 122, 244); Next(230, 244, 245); Next(231, 245, 247);
    Next(232, 247, 243); Next(233, 243, 251); Next(234, 251, 235); Next(235, 235, 203); Next(236, 203, 139);
    Next(237, 139, 11);
  }

  lemma Orbit238()
    requires Pow(2, 238) == 11
    ensures Pow(2, 255) == 1
    ensures IsPowerOfTwo(22) && IsPowerOfTwo(44) && IsPowerOfTwo(88) && IsPowerOfTwo(176) && IsPowerOfTwo(125) &&
      IsPowerOfTwo(250) && IsPowerOfTwo(233) && IsPowerOfTwo(207) && IsPowerOfTwo(131) && IsPowerOfTwo(27) &&
      IsPowerOfTwo(54) && IsPowerOfTwo(108) && IsPowerOfTwo(216) && IsPowerOfTwo(173) && IsPowerOfTwo(71) &&
      IsPowerOfTwo(142) && IsPowerOfTwo(1)
  {
    hide Pow, Mul, IsPowerOfTwo;
    Next(238, 11, 22); Next(239, 22, 44); Next(240, 44, 88); Next(241, 88, 176); Next(242, 176, 125);
    Next(243, 125, 250); Next(244, 250, 233); Next(245, 233, 207); Next(246, 207, 131); Next(247, 131, 27);
    Next(248, 27, 54); Next(249, 54, 108); Next(250, 108, 216); Next(251, 216, 173); Next(252, 173, 71);
    Next(253, 71, 142); Next(254, 142, 1);
  }

  /** 2 generates the multiplicative group: every nonzero byte is one of its powers. */
  lemma TwoIsPrimitive(v: byte)
    requires v != 0
    ensures IsPowerOfTwo(v) && Pow(2, 255) == 1
  {
    hide Pow, Mul, IsPowerOfTwo;
    PowZero(2);
    Orbit0(); Orbit17(); Orbit34(); Orbit51(); Orbit68(); Orbit85(); Orbit102(); Orbit119();
    Orbit136(); Orbit153(); Orbit170(); Orbit187(); Orbit204(); Orbit221(); Orbit238();
  }

  lemma PowZero(v: byte)
    ensures Pow(v, 0) == 1
  {
  }

  /** A root of unity stays one under powers. */
  lemma {:induction false} PowersOfRoot(g: byte, n: nat, i: nat)
    requires Pow(g, n) == 1
    ensures Pow(Pow(g, i), n) == 1
    decreases i
  {
    hide Mul;
    if i == 0 {
      PowOne(n);
    } else {
      PowersOfRoot(g, n, i - 1);
      PowOfProduct(g, Pow(g, i - 1), n);
      OneIsNeutral(1);
    }
  }

  /** The 254th power inverts every nonzero byte. */
  lemma Inverse(v: byte)
    requires v != 0
    ensures Mul(v, Inv(v)) == 1
  {
    hide Mul;
    TwoIsPrimitive(v);
    var e: nat :| Pow(2, e) == v;
    PowersOfRoot(2, 255, e);
  }

  lemma NoZeroDivisors(a: byte, b: byte)
    ensures Mul(a, b) == 0 <==> a == 0 || b == 0
  {
    hide Mul, Inv;
    ZeroAnnihilates(a);
    ZeroAnnihilates(b);
    if a != 0 && Mul(a, b) == 0 {
      Inverse(a);
      Commutative(a, Inv(a));
      Associative(Inv(a), a, b);
      OneIsNeutral(b);
      ZeroAnnihilates(Inv(a));
    }
  }

  /** `gf_inv`: the 254th power, refusing zero. */
  method GfInv(value: int) returns (r: Option<byte>)
    ensures r.Some? <==> 0 < value < 256
    ensures r.Some? ==> Mul(value, r.value) == 1 && r.value == Inv(value)
  {
    if value == 0 {
      return None;
    }
    r := GfPow(value, 254);
    if r.Some? {
      Inverse(value);
    }
  }
}
