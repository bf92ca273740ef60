/**
 * The multiplication tables of GF(2^8) that GF28Value.hh builds once, in its
 * nested table class: the powers x^k of the generator x (the forward table),
 * the discrete logarithm (the backward table) and the multiplicative inverse
 * (the reverse table).
 *
 * Bytes are `bv8`; table indices, logarithms and the values the getters return
 * (the source's `unsigned int`) are `nat`. The tables are specified here as
 * functions; the class MultiplicationTable at the end fills three arrays with
 * the source's loops and is proved to produce exactly these functions.
 */
module GF28Tables {

  /** What a table getter returns for an index outside its domain. */
  const GF28_INVALID: nat := 0x100

  /** The reduction polynomial: bit pattern 0x11D, that is x^8 + x^4 + x^3 + x^2 + 1. */
  const GF28_PRIME_POLYNOMIALS: bv16 := 0x11D

  // ===================================================================
  // The forward table: powers of the generator x
  // ===================================================================

  /** One pass of the forward-table loop: shift left by one bit, and reduce by
      the polynomial when bit 8 becomes set. */
  function Step(x: bv8): bv8 {
    var s := (x as bv16) << 1;
    (if s & 0x100 != 0 then s ^ GF28_PRIME_POLYNOMIALS else s) as bv8
  }

  /** forward[k] = x^k: forward[0] = 1 and every later entry is one Step further. */
  function Forward(k: nat): bv8 {
    if k == 0 then 1 else Step(Forward(k - 1))
  }

  // Step is multiplication by x: it is injective, keeps nonzero values nonzero
  // and is linear over XOR.

  lemma StepInjective(a: bv8, b: bv8)
    ensures Step(a) == Step(b) ==> a == b
  {
  }

  lemma StepNonzero(a: bv8)
    ensures a != 0 ==> Step(a) != 0
  {
  }

  /** With bit 7 set, Step is a byte shift followed by the low byte 0x1D of the polynomial. */
  lemma StepHigh(x: bv8)
    requires x & 0x80 != 0
    ensures Step(x) == (x << 1) ^ 0x1D
  {
  }

  /** With bit 7 clear, Step is a plain byte shift. */
  lemma StepLow(x: bv8)
    requires x & 0x80 == 0
    ensures Step(x) == x << 1
  {
  }

  lemma StepLinearBothHigh(a: bv8, b: bv8)
    requires a & 0x80 != 0 && b & 0x80 != 0
    ensures Step(a ^ b) == Step(a) ^ Step(b)
  {
    StepHigh(a);
    StepHigh(b);
    assert (a ^ b) & 0x80 == 0;
    StepLow(a ^ b);
    assert (a ^ b) << 1 == ((a << 1) ^ 0x1D) ^ ((b << 1) ^ 0x1D);
  }

  lemma StepLinearOneHigh(a: bv8, b: bv8)
    requires a & 0x80 != 0 && b & 0x80 == 0
    ensures Step(a ^ b) == Step(a) ^ Step(b)
    ensures Step(b ^ a) == Step(b) ^ Step(a)
  {
    StepHigh(a);
    StepLow(b);
    assert (a ^ b) & 0x80 != 0;
    StepHigh(a ^ b);
    assert ((a ^ b) << 1) ^ 0x1D == ((a << 1) ^ 0x1D) ^ (b << 1);
    assert b ^ a == a ^ b;
  }

  lemma StepLinearBothLow(a: bv8, b: bv8)
    requires a & 0x80 == 0 && b & 0x80 == 0
    ensures Step(a ^ b) == Step(a) ^ Step(b)
  {
    StepLow(a);
    StepLow(b);
    assert (a ^ b) & 0x80 == 0;
    StepLow(a ^ b);
    assert (a ^ b) << 1 == (a << 1) ^ (b << 1);
  }

  lemma StepLinear(a: bv8, b: bv8)
    ensures Step(a ^ b) == Step(a) ^ Step(b)
  {
    if a & 0x80 != 0 && b & 0x80 != 0 {
      StepLinearBothHigh(a, b);
    } else if a & 0x80 != 0 {
      StepLinearOneHigh(a, b);
    } else if b & 0x80 != 0 {
      StepLinearOneHigh(b, a);
    } else {
      StepLinearBothLow(a, b);
    }
  }

  /** Step applied n times: multiplication by x^n. */
  function StepIter(y: bv8, n: nat): (r: bv8)
    ensures y == 0 ==> r == 0
  {
    if n == 0 then y else Step(StepIter(y, n - 1))
  }

  /** Multiplying x^m by x^n gives x^(m+n). */
  lemma {:induction false} StepIterForward(m: nat, n: nat)
    ensures StepIter(Forward(m), n) == Forward(m + n)
  {
    if n > 0 {
      StepIterForward(m, n - 1);
    }
  }

  /** Multiplication by x^n distributes over XOR. */
  lemma {:induction false} StepIterLinear(y: bv8, z: bv8, n: nat)
    ensures StepIter(y ^ z, n) == StepIter(y, n) ^ StepIter(z, n)
  {
    if n > 0 {
      StepIterLinear(y, z, n - 1);
      StepLinear(StepIter(y, n - 1), StepIter(z, n - 1));
    }
  }

  /** Every power of x is nonzero. */
  lemma {:induction false} ForwardNonzero(k: nat)
    ensures Forward(k) != 0
  {
    if k > 0 {
      ForwardNonzero(k - 1);
      StepNonzero(Forward(k - 1));
    }
  }

  /** None of x^lo, ..., x^254 equals 1. */
  predicate NoOneFrom(lo: nat)
    decreases 255 - lo
  {
    lo >= 255 || (Forward(lo) != 1 && NoOneFrom(lo + 1))
  }

  // The lemmas below evaluate the forward table entry by entry, 32 entries per
  // lemma, and establish that x has multiplicative order exactly 255 under
  // the polynomial 0x11D.

  /** Evaluates x^2 .. x^33 from x^1 and checks that none of x^1 .. x^32 is 1. */
  lemma PowersFrom1()
    requires Forward(1) == 0x02
    ensures Forward(33) == 0x27
    ensures NoOneFrom(33) ==> NoOneFrom(1)
  {
    assert Forward(2) == 0x04; assert Forward(3) == 0x08; assert Forward(4) == 0x10; assert Forward(5) == 0x20;
    assert Forward(6) == 0x40; assert Forward(7) == 0x80; assert Forward(8) == 0x1D; assert Forward(9) == 0x3A;
    assert Forward(10) == 0x74; assert Forward(11) == 0xE8; assert Forward(12) == 0xCD; assert Forward(13) == 0x87;
    assert Forward(14) == 0x13; assert Forward(15) == 0x26; assert Forward(16) == 0x4C; assert Forward(17) == 0x98;
    assert Forward(18) == 0x2D; assert Forward(19) == 0x5A; assert Forward(20) == 0xB4; assert Forward(21) == 0x75;
    assert Forward(22) == 0xEA; assert Forward(23) == 0xC9; assert Forward(24) == 0x8F; assert Forward(25) == 0x03;
    assert Forward(26) == 0x06; assert Forward(27) == 0x0C; assert Forward(28) == 0x18; assert Forward(29) == 0x30;
    assert Forward(30) == 0x60; assert Forward(31) == 0xC0; assert Forward(32) == 0x9D; assert Forward(33) == 0x27;
    if NoOneFrom(33) {
      assert NoOneFrom(32); assert NoOneFrom(31); assert NoOneFrom(30); assert NoOneFrom(29); assert NoOneFrom(28); assert NoOneFrom(27);
      assert NoOneFrom(26); assert NoOneFrom(25); assert NoOneFrom(24); assert NoOneFrom(23); assert NoOneFrom(22); assert NoOneFrom(21);
      assert NoOneFrom(20); assert NoOneFrom(19); assert NoOneFrom(18); assert NoOneFrom(17); assert NoOneFrom(16); assert NoOneFrom(15);
      assert NoOneFrom(14); assert NoOneFrom(13); assert NoOneFrom(12); assert NoOneFrom(11); assert NoOneFrom(10); assert NoOneFrom(9);
      assert NoOneFrom(8); assert NoOneFrom(7); assert NoOneFrom(6); assert NoOneFrom(5); assert NoOneFrom(4); assert NoOneFrom(3);
      assert NoOneFrom(2); assert NoOneFrom(1);
    }
  }

  /** Evaluates x^34 .. x^65 from x^33 and checks that none of x^33 .. x^64 is 1. */
  lemma PowersFrom33()
    requires Forward(33) == 0x27
    ensures Forward(65) == 0xBE
    ensures NoOneFrom(65) ==> NoOneFrom(33)
  {
    assert Forward(34) == 0x4E; assert Forward(35) == 0x9C; assert Forward(36) == 0x25; assert Forward(37) == 0x4A;
    assert Forward(38) == 0x94; assert Forward(39) == 0x35; assert Forward(40) == 0x6A; assert Forward(41) == 0xD4;
    assert Forward(42) == 0xB5; assert Forward(43) == 0x77; assert Forward(44) == 0xEE; assert Forward(45) == 0xC1;
    assert Forward(46) == 0x9F; assert Forward(47) == 0x23; assert Forward(48) == 0x46; assert Forward(49) == 0x8C;
    assert Forward(50) == 0x05; assert Forward(51) == 0x0A; assert Forward(52) == 0x14; assert Forward(53) == 0x28;
    assert Forward(54) == 0x50; assert Forward(55) == 0xA0; assert Forward(56) == 0x5D; assert Forward(57) == 0xBA;
    assert Forward(58) == 0x69; assert Forward(59) == 0xD2; assert Forward(60) == 0xB9; assert Forward(61) == 0x6F;
    assert Forward(62) == 0xDE; assert Forward(63) == 0xA1; assert Forward(64) == 0x5F; assert Forward(65) == 0xBE;
    if NoOneFrom(65) {
      assert NoOneFrom(64); assert NoOneFrom(63); assert NoOneFrom(62); assert NoOneFrom(61); assert NoOneFrom(60); assert NoOneFrom(59);
      assert NoOneFrom(58); assert NoOneFrom(57); assert NoOneFrom(56); assert NoOneFrom(55); assert NoOneFrom(54); assert NoOneFrom(53);
      assert NoOneFrom(52); assert NoOneFrom(51); assert NoOneFrom(50); assert NoOneFrom(49); assert NoOneFrom(48); assert NoOneFrom(47);
      assert NoOneFrom(46); assert NoOneFrom(45); assert NoOneFrom(44); assert NoOneFrom(43); assert NoOneFrom(42); assert NoOneFrom(41);
      assert NoOneFrom(40); assert NoOneFrom(39); assert NoOneFrom(38); assert NoOneFrom(37); assert NoOneFrom(36); assert NoOneFrom(35);
      assert NoOneFrom(34); assert NoOneFrom(33);
    }
  }

  /** Evaluates x^66 .. x^97 from x^65 and checks that none of x^65 .. x^96 is 1. */
  lemma PowersFrom65()
    requires Forward(65) == 0xBE
    ensures Forward(97) == 0xAF
    ensures NoOneFrom(97) ==> NoOneFrom(65)
  {
    assert Forward(66) == 0x61; assert Forward(67) == 0xC2; assert Forward(68) == 0x99; assert Forward(69) == 0x2F;
    assert Forward(70) == 0x5E; assert Forward(71) == 0xBC; assert Forward(72) == 0x65; assert Forward(73) == 0xCA;
    assert Forward(74) == 0x89; assert Forward(75) == 0x0F; assert Forward(76) == 0x1E; assert Forward(77) == 0x3C;
    assert Forward(78) == 0x78; assert Forward(79) == 0xF0; assert Forward(80) == 0xFD; assert Forward(81) == 0xE7;
    assert Forward(82) == 0xD3; assert Forward(83) == 0xBB; assert Forward(84) == 0x6B; assert Forward(85) == 0xD6;
    assert Forward(86) == 0xB1; assert Forward(87) == 0x7F; assert Forward(88) == 0xFE; assert Forward(89) == 0xE1;
    assert Forward(90) == 0xDF; assert Forward(91) == 0xA3; assert Forward(92) == 0x5B; assert Forward(93) == 0xB6;
    assert Forward(94) == 0x71; assert Forward(95) == 0xE2; assert Forward(96) == 0xD9; assert Forward(97) == 0xAF;
    if NoOneFrom(97) {
      assert NoOneFrom(96); assert NoOneFrom(95); assert NoOneFrom(94); assert NoOneFrom(93); assert NoOneFrom(92); assert NoOneFrom(91);
      assert NoOneFrom(90); assert NoOneFrom(89); assert NoOneFrom(88); assert NoOneFrom(87); assert NoOneFrom(86); assert NoOneFrom(85);
      assert NoOneFrom(84); assert NoOneFrom(83); assert NoOneFrom(82); assert NoOneFrom(81); assert NoOneFrom(80); assert NoOneFrom(79);
      assert NoOneFrom(78); assert NoOneFrom(77); assert NoOneFrom(76); assert NoOneFrom(75); assert NoOneFrom(74); assert NoOneFrom(73);
      assert NoOneFrom(72); assert NoOneFrom(71); assert NoOneFrom(70); assert NoOneFrom(69); assert NoOneFrom(68); assert NoOneFrom(67);
      assert NoOneFrom(66); assert NoOneFrom(65);
    }
  }

  /** Evaluates x^98 .. x^129 from x^97 and checks that none of x^97 .. x^128 is 1. */
  lemma PowersFrom97()
    requires Forward(97) == 0xAF
    ensures Forward(129) == 0x17
    ensures NoOneFrom(129) ==> NoOneFrom(97)
  {
    assert Forward(98) == 0x43; assert Forward(99) == 0x86; assert Forward(100) == 0x11; assert Forward(101) == 0x22;
    assert Forward(102) == 0x44; assert Forward(103) == 0x88; assert Forward(104) == 0x0D; assert Forward(105) == 0x1A;
    assert Forward(106) == 0x34; assert Forward(107) == 0x68; assert Forward(108) == 0xD0; assert Forward(109) == 0xBD;
    assert Forward(110) == 0x67; assert Forward(111) == 0xCE; assert Forward(112) == 0x81; assert Forward(113) == 0x1F;
    assert Forward(114) == 0x3E; assert Forward(115) == 0x7C; assert Forward(116) == 0xF8; assert Forward(117) == 0xED;
    assert Forward(118) == 0xC7; assert Forward(119) == 0x93; assert Forward(120) == 0x3B; assert Forward(121) == 0x76;
    assert Forward(122) == 0xEC; assert Forward(123) == 0xC5; assert Forward(124) == 0x97; assert Forward(125) == 0x33;
    assert Forward(126) == 0x66; assert Forward(127) == 0xCC; assert Forward(128) == 0x85; assert Forward(129) == 0x17;
    if NoOneFrom(129) {
      assert NoOneFrom(128); assert NoOneFrom(127); assert NoOneFrom(126); assert NoOneFrom(125); assert NoOneFrom(124); assert NoOneFrom(123);
      assert NoOneFrom(122); assert NoOneFrom(121); assert NoOneFrom(120); assert NoOneFrom(119); assert NoOneFrom(118); assert NoOneFrom(117);
      assert NoOneFrom(116); assert NoOneFrom(115); assert NoOneFrom(114); assert NoOneFrom(113); assert NoOneFrom(112); assert NoOneFrom(111);
      assert NoOneFrom(110); assert NoOneFrom(109); assert NoOneFrom(108); assert NoOneFrom(107); assert NoOneFrom(106); assert NoOneFrom(105);
      assert NoOneFrom(104); assert NoOneFrom(103); assert NoOneFrom(102); assert NoOneFrom(101); assert NoOneFrom(100); assert NoOneFrom(99);
      assert NoOneFrom(98); assert NoOneFrom(97);
    }
  }

  /** Evaluates x^130 .. x^161 from x^129 and checks that none of x^129 .. x^160 is 1. */
  lemma PowersFrom129()
    requires Forward(129) == 0x17
    ensures Forward(161) == 0xD1
    ensures NoOneFrom(161) ==> NoOneFrom(129)
  {
    assert Forward(130) == 0x2E; assert Forward(131) == 0x5C; assert Forward(132) == 0xB8; assert Forward(133) == 0x6D;
    assert Forward(134) == 0xDA; assert Forward(135) == 0xA9; assert Forward(136) == 0x4F; assert Forward(137) == 0x9E;
    assert Forward(138) == 0x21; assert Forward(139) == 0x42; assert Forward(140) == 0x84; assert Forward(141) == 0x15;
    assert Forward(142) == 0x2A; assert Forward(143) == 0x54; assert Forward(144) == 0xA8; assert Forward(145) == 0x4D;
    assert Forward(146) == 0x9A; assert Forward(147) == 0x29; assert Forward(148) == 0x52; assert Forward(149) == 0xA4;
    assert Forward(150) == 0x55; assert Forward(151) == 0xAA; assert Forward(152) == 0x49; assert Forward(153) == 0x92;
    assert Forward(154) == 0x39; assert Forward(155) == 0x72; assert Forward(156) == 0xE4; assert Forward(157) == 0xD5;
    assert Forward(158) == 0xB7; assert Forward(159) == 0x73; assert Forward(160) == 0xE6; assert Forward(161) == 0xD1;
    if NoOneFrom(161) {
      assert NoOneFrom(160); assert NoOneFrom(159); assert NoOneFrom(158); assert NoOneFrom(157); assert NoOneFrom(156); assert NoOneFrom(155);
      assert NoOneFrom(154); assert NoOneFrom(153); assert NoOneFrom(152); assert NoOneFrom(151); assert NoOneFrom(150); assert NoOneFrom(149);
      assert NoOneFrom(148); assert NoOneFrom(147); assert NoOneFrom(146); assert NoOneFrom(145); assert NoOneFrom(144); assert NoOneFrom(143);
      assert NoOneFrom(142); assert NoOneFrom(141); assert NoOneFrom(140); assert NoOneFrom(139); assert NoOneFrom(138); assert NoOneFrom(137);
      assert NoOneFrom(136); assert NoOneFrom(135); assert NoOneFrom(134); assert NoOneFrom(133); assert NoOneFrom(132); assert NoOneFrom(131);
      assert NoOneFrom(130); assert NoOneFrom(129);
    }
  }

  /** Evaluates x^162 .. x^193 from x^161 and checks that none of x^161 .. x^192 is 1. */
  lemma PowersFrom161()
    requires Forward(161) == 0xD1
    ensures Forward(193) == 0x19
    ensures NoOneFrom(193) ==> NoOneFrom(161)
  {
    assert Forward(162) == 0xBF; assert Forward(163) == 0x63; assert Forward(164) == 0xC6; assert Forward(165) == 0x91;
    assert Forward(166) == 0x3F; assert Forward(167) == 0x7E; assert Forward(168) == 0xFC; assert Forward(169) == 0xE5;
    assert Forward(170) == 0xD7; assert Forward(171) == 0xB3; assert Forward(172) == 0x7B; assert Forward(173) == 0xF6;
    assert Forward(174) == 0xF1; assert Forward(175) == 0xFF; assert Forward(176) == 0xE3; assert Forward(177) == 0xDB;
    assert Forward(178) == 0xAB; assert Forward(179) == 0x4B; assert Forward(180) == 0x96; assert Forward(181) == 0x31;
    assert Forward(182) == 0x62; assert Forward(183) == 0xC4; assert Forward(184) == 0x95; assert Forward(185) == 0x37;
    assert Forward(186) == 0x6E; assert Forward(187) == 0xDC; assert Forward(188) == 0xA5; assert Forward(189) == 0x57;
    assert Forward(190) == 0xAE; assert Forward(191) == 0x41; assert Forward(192) == 0x82; assert Forward(193) == 0x19;
    if NoOneFrom(193) {
      assert NoOneFrom(192); assert NoOneFrom(191); assert NoOneFrom(190); assert NoOneFrom(189); assert NoOneFrom(188); assert NoOneFrom(187);
      assert NoOneFrom(186); assert NoOneFrom(185); assert NoOneFrom(184); assert NoOneFrom(183); assert NoOneFrom(182); assert NoOneFrom(181);
      assert NoOneFrom(180); assert NoOneFrom(179); assert NoOneFrom(178); assert NoOneFrom(177); assert NoOneFrom(176); assert NoOneFrom(175);
      assert NoOneFrom(174); assert NoOneFrom(173); assert NoOneFrom(172); assert NoOneFrom(171); assert NoOneFrom(170); assert NoOneFrom(169);
      assert NoOneFrom(168); assert NoOneFrom(167); assert NoOneFrom(166); assert NoOneFrom(165); assert NoOneFrom(164); assert NoOneFrom(163);
      assert NoOneFrom(162); assert NoOneFrom(161);
    }
  }

  /** Evaluates x^194 .. x^225 from x^193 and checks that none of x^193 .. x^224 is 1. */
  lemma PowersFrom193()
    requires Forward(193) == 0x19
    ensures Forward(225) == 0x24
    ensures NoOneFrom(225) ==> NoOneFrom(193)
  {
    assert Forward(194) == 0x32; assert Forward(195) == 0x64; assert Forward(196) == 0xC8; assert Forward(197) == 0x8D;
    assert Forward(198) == 0x07; assert Forward(199) == 0x0E; assert Forward(200) == 0x1C; assert Forward(201) == 0x38;
    assert Forward(202) == 0x70; assert Forward(203) == 0xE0; assert Forward(204) == 0xDD; assert Forward(205) == 0xA7;
    assert Forward(206) == 0x53; assert Forward(207) == 0xA6; assert Forward(208) == 0x51; assert Forward(209) == 0xA2;
    assert Forward(210) == 0x59; assert Forward(211) == 0xB2; assert Forward(212) == 0x79; assert Forward(213) == 0xF2;
    assert Forward(214) == 0xF9; assert Forward(215) == 0xEF; assert Forward(216) == 0xC3; assert Forward(217) == 0x9B;
    assert Forward(218) == 0x2B; assert Forward(219) == 0x56; assert Forward(220) == 0xAC; assert Forward(221) == 0x45;
    assert Forward(222) == 0x8A; assert Forward(223) == 0x09; assert Forward(224) == 0x12; assert Forward(225) == 0x24;
    if NoOneFrom(225) {
      assert NoOneFrom(224); assert NoOneFrom(223); assert NoOneFrom(222); assert NoOneFrom(221); assert NoOneFrom(220); assert NoOneFrom(219);
      assert NoOneFrom(218); assert NoOneFrom(217); assert NoOneFrom(216); assert NoOneFrom(215); assert NoOneFrom(214); assert NoOneFrom(213);
      assert NoOneFrom(212); assert NoOneFrom(211); assert NoOneFrom(210); assert NoOneFrom(209); assert NoOneFrom(208); assert NoOneFrom(207);
      assert NoOneFrom(206); assert NoOneFrom(205); assert NoOneFrom(204); assert NoOneFrom(203); assert NoOneFrom(202); assert NoOneFrom(201);
      assert NoOneFrom(200); assert NoOneFrom(199); assert NoOneFrom(198); assert NoOneFrom(197); assert NoOneFrom(196); assert NoOneFrom(195);
      assert NoOneFrom(194); assert NoOneFrom(193);
    }
  }

  /** Evaluates x^226 .. x^255 from x^225 and checks that none of x^225 .. x^254 is 1. */
  lemma PowersFrom225()
    requires Forward(225) == 0x24
    ensures Forward(255) == 0x01
    ensures NoOneFrom(255) ==> NoOneFrom(225)
  {
    assert Forward(226) == 0x48; assert Forward(227) == 0x90; assert Forward(228) == 0x3D; assert Forward(229) == 0x7A;
    assert Forward(230) == 0xF4; assert Forward(231) == 0xF5; assert Forward(232) == 0xF7; assert Forward(233) == 0xF3;
    assert Forward(234) == 0xFB; assert Forward(235) == 0xEB; assert Forward(236) == 0xCB; assert Forward(237) == 0x8B;
    assert Forward(238) == 0x0B; assert Forward(239) == 0x16; assert Forward(240) == 0x2C; assert Forward(241) == 0x58;
    assert Forward(242) == 0xB0; assert Forward(243) == 0x7D; assert Forward(244) == 0xFA; assert Forward(245) == 0xE9;
    assert Forward(246) == 0xCF; assert Forward(247) == 0x83; assert Forward(248) == 0x1B; assert Forward(249) == 0x36;
    assert Forward(250) == 0x6C; assert Forward(251) == 0xD8; assert Forward(252) == 0xAD; assert Forward(253) == 0x47;
    assert Forward(254) == 0x8E; assert Forward(255) == 0x01;
    if NoOneFrom(255) {
      assert NoOneFrom(254); assert NoOneFrom(253); assert NoOneFrom(252); assert NoOneFrom(251); assert NoOneFrom(250); assert NoOneFrom(249);
      assert NoOneFrom(248); assert NoOneFrom(247); assert NoOneFrom(246); assert NoOneFrom(245); assert NoOneFrom(244); assert NoOneFrom(243);
      assert NoOneFrom(242); assert NoOneFrom(241); assert NoOneFrom(240); assert NoOneFrom(239); assert NoOneFrom(238); assert NoOneFrom(237);
      assert NoOneFrom(236); assert NoOneFrom(235); assert NoOneFrom(234); assert NoOneFrom(233); assert NoOneFrom(232); assert NoOneFrom(231);
      assert NoOneFrom(230); assert NoOneFrom(229); assert NoOneFrom(228); assert NoOneFrom(227); assert NoOneFrom(226); assert NoOneFrom(225);
    }
  }

  /** x has order 255: x^255 = 1 and no smaller positive power of x is 1. */
  lemma ForwardOrder()
    ensures NoOneFrom(1)
    ensures Forward(255) == 1
  {
    assert Forward(1) == 0x02;
    PowersFrom1(); PowersFrom33(); PowersFrom65(); PowersFrom97();
    PowersFrom129(); PowersFrom161(); PowersFrom193(); PowersFrom225();
  }

  lemma {:induction false} NoOneBetween(lo: nat, k: nat)
    requires NoOneFrom(lo) && lo <= k < 255
    ensures Forward(k) != 1
    decreases k - lo
  {
    if lo < k {
      NoOneBetween(lo + 1, k);
    }
  }

  /** The powers of x repeat with period 255. */
  lemma {:induction false} ForwardPeriodic(k: nat)
    ensures Forward(k + 255) == Forward(k)
  {
    if k == 0 {
      ForwardOrder();
    } else {
      ForwardPeriodic(k - 1);
    }
  }

  lemma {:induction false} ForwardMod(k: nat)
    ensures Forward(k) == Forward(k % 255)
    decreases k
  {
    if k >= 255 {
      ForwardMod(k - 255);
      ForwardPeriodic(k - 255);
    }
  }

  lemma {:induction false} ForwardShiftDown(i: nat, j: nat)
    requires i <= j && Forward(i) == Forward(j)
    ensures Forward(j - i) == 1
    decreases i
  {
    if i > 0 {
      StepInjective(Forward(i - 1), Forward(j - 1));
      ForwardShiftDown(i - 1, j - 1);
    }
  }

  lemma ForwardDistinct(i: nat, j: nat)
    requires i < j < 255
    ensures Forward(i) != Forward(j)
  {
    var d := j - i;
    ForwardOrder();
    if Forward(i) == Forward(j) {
      ForwardShiftDown(i, j);
      NoOneBetween(1, d);
    }
  }

  /** x^0, ..., x^254 are pairwise distinct. */
  lemma ForwardInjective(i: nat, j: nat)
    requires i < 255 && j < 255 && Forward(i) == Forward(j)
    ensures i == j
  {
    if i < j {
      ForwardDistinct(i, j);
    } else if j < i {
      ForwardDistinct(j, i);
    }
  }

  // ----- Every nonzero byte is a power of x (a counting argument) -----

  function Powers(n: nat): set<bv8> {
    set k | 0 <= k < n :: Forward(k)
  }

  lemma {:induction false} PowersCard(n: nat)
    requires n <= 255
    ensures |Powers(n)| == n
  {
    if n > 0 {
      PowersCard(n - 1);
      assert Powers(n) == Powers(n - 1) + {Forward(n - 1)};
      if Forward(n - 1) in Powers(n - 1) {
        var k :| 0 <= k < n - 1 && Forward(k) == Forward(n - 1);
        ForwardInjective(k, n - 1);
      }
    }
  }

  /** The bytes whose value is below n. */
  function BytesBelow(n: nat): set<bv8>
    requires n <= 256
  {
    if n == 0 then {} else BytesBelow(n - 1) + {(n - 1) as bv8}
  }

  lemma {:induction false} BytesBelowCard(n: nat)
    requires n <= 256
    ensures |BytesBelow(n)| <= n
  {
    if n > 0 {
      BytesBelowCard(n - 1);
    }
  }

  lemma {:induction false} ByteInBytesBelow(v: bv8, n: nat)
    requires v as int < n <= 256
    ensures v in BytesBelow(n)
  {
    if v as int < n - 1 {
      ByteInBytesBelow(v, n - 1);
    }
  }

  lemma SubsetCard(a: set<bv8>, b: set<bv8>)
    requires a <= b
    ensures |a| <= |b|
  {
    assert a - b == {} && a * b == a && a + b == b;
    assert |a - b| + |b - a| + |a * b| == |a + b|;
  }

  lemma PowersAvoid(v: bv8)
    requires v != 0 && forall k :: 0 <= k < 255 ==> Forward(k) != v
    ensures Powers(255) <= BytesBelow(256) - {0, v}
  {
    forall w | w in Powers(255) ensures w in BytesBelow(256) - {0, v} {
      var k :| 0 <= k < 255 && Forward(k) == w;
      ForwardNonzero(k);
      ByteInBytesBelow(w, 256);
    }
  }

  lemma AllButTwoCard(v: bv8)
    requires v != 0
    ensures |BytesBelow(256) - {0, v}| <= 254
  {
    var all := BytesBelow(256);
    BytesBelowCard(256);
    ByteInBytesBelow(0, 256);
    ByteInBytesBelow(v, 256);
    assert {0, v} <= all;
    assert |all - {0, v}| + |{0, v} - all| + |all * {0, v}| == |all + {0, v}|;
    assert all * {0, v} == {0, v} && all + {0, v} == all && {0, v} - all == {};
  }

  /** Every nonzero byte is x^k for some k in [0, 254]. */
  lemma ForwardOnto(v: bv8)
    requires v != 0
    ensures exists k :: 0 <= k < 255 && Forward(k) == v
  {
    if forall k :: 0 <= k < 255 ==> Forward(k) != v {
      AllButTwoCard(v);
      PowersAvoid(v);
      SubsetCard(Powers(255), BytesBelow(256) - {0, v});
      PowersCard(255);
    }
  }

  // ===================================================================
  // The backward table (discrete logarithm) and the reverse table
  // ===================================================================

  /** The least k in [from, 255) with x^k == v, or 0 when there is none. */
  function LogSearch(v: bv8, from: nat): nat
    decreases 255 - from, 1
  {
    if from >= 255 then 0
    else LogCheck(v, from)
  }

  function LogCheck(v: bv8, from: nat): nat
    requires from < 255
    decreases 255 - from, 0
  {
    if Forward(from) == v then from
    else LogSearch(v, from + 1)
  }

  /** backward[v] = log_x(v); entry 0 keeps the zero of its static initialisation. */
  function Backward(v: bv8): nat {
    LogSearch(v, 0)
  }

  lemma {:induction false} LogSearchFinds(v: bv8, from: nat, k: nat)
    requires from <= k < 255 && Forward(k) == v
    ensures LogSearch(v, from) == k
    decreases k - from
  {
    if Forward(from) == v {
      ForwardInjective(from, k);
    } else {
      LogSearchFinds(v, from + 1, k);
    }
  }

  lemma {:induction false} LogSearchMisses(from: nat)
    ensures LogSearch(0, from) == 0
    decreases 255 - from
  {
    if from < 255 {
      ForwardNonzero(from);
      LogSearchMisses(from + 1);
    }
  }

  /** The backward table inverts the forward table on [0, 254]. */
  lemma BackwardForward(k: nat)
    requires k < 255
    ensures Backward(Forward(k)) == k
  {
    LogSearchFinds(Forward(k), 0, k);
  }

  /** The forward table inverts the backward table on the nonzero bytes. */
  lemma ForwardBackward(v: bv8)
    requires v != 0
    ensures Backward(v) < 255 && Forward(Backward(v)) == v
  {
    ForwardOnto(v);
    var k :| 0 <= k < 255 && Forward(k) == v;
    LogSearchFinds(v, 0, k);
  }

  lemma BackwardZero()
    ensures Backward(0) == 0
  {
    LogSearchMisses(0);
  }

  /** The logarithm of any power of x, reduced modulo the order 255. */
  lemma BackwardForwardMod(k: nat)
    ensures Backward(Forward(k)) == k % 255
  {
    ForwardMod(k);
    BackwardForward(k % 255);
  }

  /** reverse[v] = x^((255 - log v) mod 255); entry 0 keeps its static zero. */
  function Reverse(v: bv8): bv8 {
    if v == 0 then 0 else Forward((255 - Backward(v)) % 255)
  }

  /** The self-check of the reverse table: log v + log (reverse v) is 0 modulo 255. */
  lemma ReverseLog(v: bv8)
    requires v != 0
    ensures Reverse(v) != 0
    ensures (Backward(v) + Backward(Reverse(v))) % 255 == 0
  {
    ForwardBackward(v);
    var b := Backward(v);
    var k := (255 - b) % 255;
    assert Reverse(v) == Forward(k);
    ForwardNonzero(k);
    BackwardForward(k);
    assert (b + k) % 255 == 0;
  }

  // ===================================================================
  // The table getters (getForward, getBackward, getReverse)
  // ===================================================================

  /** A byte widened to an unsigned number. */
  function ToNat(x: bv8): (r: nat)
    ensures r == 0 <==> x == 0
    decreases x as int
  {
    if x == 0 then 0 else ToNat(x - 1) + 1
  }

  /** An unsigned number narrowed to its low byte, the cast to unsigned char. */
  function ToByte(n: nat): bv8 {
    if n == 0 then 0 else ToByte(n - 1) + 1
  }

  /** Narrowing forgets multiples of 256. */
  lemma {:induction false} ToByteWrap(n: nat)
    ensures ToByte(n + 256) == ToByte(n)
  {
    if n == 0 {
      ToByteAdd(1, 1);
      ToByteAdd(2, 2);
      ToByteAdd(4, 4);
      ToByteAdd(8, 8);
      ToByteAdd(16, 16);
      ToByteAdd(32, 32);
      ToByteAdd(64, 64);
      ToByteAdd(128, 128);
    } else {
      ToByteWrap(n - 1);
    }
  }

  /** Narrowing commutes with addition. */
  lemma {:induction false} ToByteAdd(m: nat, n: nat)
    ensures ToByte(m + n) == ToByte(m) + ToByte(n)
  {
    if n != 0 {
      ToByteAdd(m, n - 1);
    }
  }

  lemma {:induction false} ToNatAsInt(x: bv8)
    ensures ToNat(x) == x as int
    decreases x as int
  {
    if x != 0 {
      ToNatAsInt(x - 1);
    }
  }

  lemma ToNatBound(x: bv8)
    ensures ToNat(x) < 256
  {
    ToNatAsInt(x);
  }

  lemma {:induction false} ToByteToNat(x: bv8)
    ensures ToByte(ToNat(x)) == x
    decreases x as int
  {
    if x != 0 {
      ToByteToNat(x - 1);
    }
  }

  lemma ToNatSucc(x: bv8)
    requires x != 0xFF
    ensures ToNat(x + 1) == ToNat(x) + 1
  {
    ToNatAsInt(x);
    ToNatAsInt(x + 1);
  }

  lemma {:induction false} ToNatToByte(n: nat)
    requires n < 256
    ensures ToNat(ToByte(n)) == n
  {
    if n != 0 {
      ToNatToByte(n - 1);
      ToNatAsInt(ToByte(n - 1));
      ToNatSucc(ToByte(n - 1));
    }
  }

  // ===================================================================
  // The tables as the field operations see them
  // ===================================================================

  /** The contents of the three 256-entry tables. The forward and reverse
      tables only ever hold bytes, so their entries are bytes; the backward
      table holds exponents. */
  datatype Tables = Tables(forward: seq<bv8>, backward: seq<nat>, reverse: seq<bv8>)

  /** All three tables have 256 entries. */
  predicate Sized(t: Tables) {
    |t.forward| == 256 && |t.backward| == 256 && |t.reverse| == 256
  }

  /** What the field operations rely on: forward and backward are inverse
      bijections between the exponents [0, 254] and the nonzero bytes,
      forward[0] is 1, and reverse[v] is forward[(255 - backward[v]) % 255]. */
  ghost predicate LogTables(t: Tables) {
    && Sized(t)
    && t.forward[0] == 1
    && (forall k: nat :: k < 255 ==> ForwardEntry(t, k))
    && (forall v: bv8 :: BackwardEntry(t, v))
  }

  /** Entry k of the forward table is a nonzero byte whose backward entry is k. */
  ghost predicate ForwardEntry(t: Tables, k: nat)
    requires Sized(t) && k < 255
  {
    t.forward[k] != 0 && t.backward[t.forward[k]] == k
  }

  /** For a nonzero byte v: its backward entry is an exponent whose forward
      entry is v, and its reverse entry is forward[(255 - backward[v]) % 255]. */
  ghost predicate BackwardEntry(t: Tables, v: bv8)
    requires Sized(t)
  {
    v != 0 ==>
      && t.backward[v] < 255
      && t.forward[t.backward[v]] == v
      && t.reverse[v] == t.forward[(255 - t.backward[v]) % 255]
  }

  /** Multiplication of y by x^k through the tables. */
  function Scale(t: Tables, k: nat, y: bv8): bv8
    requires Sized(t)
  {
    if y == 0 then 0 else t.forward[(k + t.backward[y]) % 255]
  }

  /** Multiplication by x^k distributes over XOR for the pair y, z. */
  ghost predicate ScaleAdditive(t: Tables, k: nat, y: bv8, z: bv8)
    requires Sized(t)
  {
    Scale(t, k, y ^ z) == Scale(t, k, y) ^ Scale(t, k, z)
  }

  /** Log/antilog tables of a field: the inverse laws, and scaling by every
      power of x is additive. */
  ghost predicate Valid(t: Tables) {
    LogTables(t) && forall k: nat, y: bv8, z: bv8 :: k < 255 ==> ScaleAdditive(t, k, y, z)
  }

  /** The tables exactly as the source's constructor leaves them: entries 255 of
      forward and 0 of backward and reverse keep their static zero. */
  ghost predicate Built(t: Tables) {
    && Sized(t)
    && (forall k :: 0 <= k < 255 ==> t.forward[k] == Forward(k))
    && t.forward[255] == 0
    && (forall v: bv8 :: t.backward[v] == Backward(v))
    && (forall v: bv8 :: t.reverse[v] == Reverse(v))
  }

  /** Scaling through the built tables is applying Step k times. */
  lemma BuiltScale(t: Tables, k: nat, y: bv8)
    requires Built(t) && k < 255
    ensures Scale(t, k, y) == StepIter(y, k)
  {
    if y != 0 {
      ForwardBackward(y);
      StepIterForward(Backward(y), k);
      ForwardMod(k + Backward(y));
    }
  }

  /** The tables the constructor builds satisfy the inverse laws. */
  lemma BuiltLogTables(t: Tables)
    requires Built(t)
    ensures LogTables(t)
  {
    forall k: nat | k < 255
      ensures ForwardEntry(t, k)
    {
      ForwardNonzero(k);
      BackwardForward(k);
    }
    forall v: bv8
      ensures BackwardEntry(t, v)
    {
      if v != 0 {
        ForwardBackward(v);
      }
    }
  }

  /** Scaling through the built tables distributes over XOR. */
  lemma BuiltScaleAdditive(t: Tables, k: nat, y: bv8, z: bv8)
    requires Built(t) && k < 255
    ensures ScaleAdditive(t, k, y, z)
  {
    BuiltScale(t, k, y);
    BuiltScale(t, k, z);
    BuiltScale(t, k, y ^ z);
    StepIterLinear(y, z, k);
  }

  /** The tables the constructor builds are log/antilog tables of a field. */
  lemma BuiltValid(t: Tables)
    requires Built(t)
    ensures Valid(t)
  {
    BuiltLogTables(t);
    forall k: nat, y: bv8, z: bv8 | k < 255
      ensures ScaleAdditive(t, k, y, z)
    {
      BuiltScaleAdditive(t, k, y, z);
    }
  }

  // ===================================================================
  // The table getters (getForward, getBackward, getReverse)
  // ===================================================================

  /** getForward(i): the forward entry for an exponent in [0, 254], INVALID for
      any other index. */
  function GetForward(t: Tables, i: nat): (r: nat)
    requires LogTables(t)
    ensures i >= 255 <==> r == GF28_INVALID
    ensures i < 255 ==> 1 <= r < 256
  {
    if i >= 255 then GF28_INVALID
    else
      assert ForwardEntry(t, i);
      ToNatBound(t.forward[i]);
      ToNat(t.forward[i])
  }

  /** getBackward(i): the backward entry of a nonzero byte, INVALID for 0 and
      for anything that is not a byte. */
  function GetBackward(t: Tables, i: nat): (r: nat)
    requires LogTables(t)
    ensures (i == 0 || i >= 256) <==> r == GF28_INVALID
    ensures 0 < i < 256 ==> r < 255
  {
    if i == 0 || i >= 256 then GF28_INVALID
    else
      ToNatToByte(i);
      assert BackwardEntry(t, ToByte(i));
      t.backward[ToByte(i)]
  }

  /** getReverse(i): the reverse entry of a nonzero byte, INVALID for 0 and for
      anything that is not a byte. */
  function GetReverse(t: Tables, i: nat): (r: nat)
    requires LogTables(t)
    ensures (i == 0 || i >= 256) <==> r == GF28_INVALID
    ensures 0 < i < 256 ==> 1 <= r < 256
  {
    if i == 0 || i >= 256 then GF28_INVALID
    else
      ToNatToByte(i);
      assert BackwardEntry(t, ToByte(i));
      assert ForwardEntry(t, (255 - t.backward[ToByte(i)]) % 255);
      ToNatBound(t.reverse[ToByte(i)]);
      ToNat(t.reverse[ToByte(i)])
  }

  /** The first self-check of the tables: the backward table undoes the forward
      table on every exponent in [0, 254]. */
  lemma BackwardOfForward(t: Tables, k: nat)
    requires LogTables(t) && k < 255
    ensures GetBackward(t, GetForward(t, k)) == k
  {
    assert ForwardEntry(t, k);
    ToNatBound(t.forward[k]);
    ToByteToNat(t.forward[k]);
  }

  /** The forward table undoes the backward table on every nonzero byte. */
  lemma ForwardOfBackward(t: Tables, i: nat)
    requires LogTables(t) && 0 < i < 256
    ensures GetForward(t, GetBackward(t, i)) == i
  {
    ToNatToByte(i);
    assert BackwardEntry(t, ToByte(i));
  }

  /** The exponents of a nonzero byte and of its reverse entry add up to 0
      modulo 255. */
  lemma ReverseOfLog(t: Tables, i: nat)
    requires LogTables(t) && 0 < i < 256
    ensures (GetBackward(t, i) + GetBackward(t, GetReverse(t, i))) % 255 == 0
  {
    ToNatToByte(i);
    var v := ToByte(i);
    assert BackwardEntry(t, v);
    var r := t.reverse[v];
    var k := (255 - t.backward[v]) % 255;
    assert ForwardEntry(t, k);
    ToNatBound(r);
    ToByteToNat(r);
  }

  // ===================================================================
  // The table class and its constructor
  // ===================================================================

  /** The backward table after the second loop has inverted the first i
      forward entries. */
  ghost function BackwardUpTo(v: bv8, i: nat): nat {
    if v != 0 && Backward(v) < i then Backward(v) else 0
  }

  /** One pass of the second loop sets exactly the entry of x^i. */
  lemma BackwardUpToStep(v: bv8, i: nat)
    requires i < 255
    ensures BackwardUpTo(v, i + 1) == if v == Forward(i) then i else BackwardUpTo(v, i)
  {
    BackwardForward(i);
    ForwardNonzero(i);
    if v != 0 {
      ForwardBackward(v);
    }
  }

  /** After all 255 passes the backward table is complete. */
  lemma BackwardUpToAll(v: bv8)
    ensures BackwardUpTo(v, 255) == Backward(v)
  {
    if v == 0 {
      BackwardZero();
    } else {
      ForwardBackward(v);
    }
  }

  /** One pass of the third loop: the reverse entry of a nonzero byte from its
      backward entry. */
  lemma ReverseEntry(v: bv8, k: nat)
    requires v != 0 && k == Backward(v)
    ensures Reverse(v) == Forward((255 - k) % 255)
  {
  }

  /** What the constructor's three loops establish is exactly Built. */
  lemma BuiltFromLoops(fw: seq<bv8>, bw: seq<nat>, rv: seq<bv8>)
    requires |fw| == 256 && |bw| == 256 && |rv| == 256
    requires forall j :: 0 <= j < 255 ==> fw[j] == Forward(j)
    requires fw[255] == 0
    requires forall v: bv8 :: bw[v] == Backward(v)
    requires rv[0] == 0
    requires forall j :: 1 <= j < 256 ==> rv[j] == fw[(255 - bw[j] as int) % 255]
    ensures Built(Tables(fw, bw, rv))
  {
    forall v: bv8
      ensures rv[v] == Reverse(v)
    {
      if v != 0 {
        ToNatAsInt(v);
        assert rv[v] == fw[(255 - bw[v] as int) % 255];
        ReverseEntry(v, bw[v]);
      }
    }
  }

  // ===================================================================
  // The table class and its constructor
  // ===================================================================

  /** The nested table class: three 256-entry arrays filled once by the
      constructor. */
  class MultiplicationTable {
    var forward: array<bv8>
    var backward: array<nat>
    var reverse: array<bv8>

    /** The current contents of the three arrays. */
    function Contents(): Tables
      reads this, forward, backward, reverse
    {
      Tables(forward[..], backward[..], reverse[..])
    }

    /** Fills the forward table by repeated multiplication by x, the backward
        table by inverting it, and the reverse table from the backward one. */
    constructor ()
      ensures Built(Contents()) && Valid(Contents())
    {
      var fw := new bv8[256](_ => 0);
      var bw := new nat[256](_ => 0);
      var rv := new bv8[256](_ => 0);
      FillForward(fw);
      FillBackward(fw, bw);
      FillReverse(fw, bw, rv);
      forward, backward, reverse := fw, bw, rv;
      new;
      BuiltFromLoops(fw[..], bw[..], rv[..]);
      BuiltValid(Contents());
    }
  }

  /** The constructor's first loop: forward[i] is forward[i - 1] shifted left,
      reduced by the polynomial when bit 8 is set. */
  method FillForward(fw: array<bv8>)
    requires fw.Length == 256 && forall j :: 0 <= j < 256 ==> fw[j] == 0
    modifies fw
    ensures forall j :: 0 <= j < 255 ==> fw[j] == Forward(j)
    ensures fw[255] == 0
  {
    fw[0] := 1;
    var i := 1;
    while i <= 254
      invariant 1 <= i <= 255
      invariant forall j :: 0 <= j < i ==> fw[j] == Forward(j)
      invariant forall j :: i <= j < 256 ==> fw[j] == 0
    {
      var s := (fw[i - 1] as bv16) << 1;
      if s & 0x100 != 0 {
        s := s ^ GF28_PRIME_POLYNOMIALS;
      }
      fw[i] := s as bv8;
      i := i + 1;
    }
  }

  /** The constructor's second loop: backward[forward[i]] = i for every
      exponent i in [0, 254]. */
  method FillBackward(fw: array<bv8>, bw: array<nat>)
    requires fw.Length == 256 && bw.Length == 256 && bw as object != fw
    requires forall j :: 0 <= j < 255 ==> fw[j] == Forward(j)
    requires forall j :: 0 <= j < 256 ==> bw[j] == 0
    modifies bw
    ensures forall v: bv8 :: bw[v] == Backward(v)
  {
    var i := 0;
    while i <= 254
      invariant 0 <= i <= 255
      invariant forall j :: 0 <= j < 255 ==> fw[j] == Forward(j)
      invariant forall v: bv8 :: bw[v] == BackwardUpTo(v, i)
    {
      var x := fw[i];
      assert x == Forward(i);
      bw[x] := i;
      forall v: bv8
        ensures bw[v] == BackwardUpTo(v, i + 1)
      {
        BackwardUpToStep(v, i);
        if v != x {
          assert v as int != x as int;
        }
      }
      i := i + 1;
    }
    forall v: bv8
      ensures bw[v] == Backward(v)
    {
      BackwardUpToAll(v);
    }
  }

  /** The constructor's third loop: reverse[i] = forward[(255 - backward[i]) % 255]
      for every nonzero byte i. */
  method FillReverse(fw: array<bv8>, bw: array<nat>, rv: array<bv8>)
    requires fw.Length == 256 && bw.Length == 256 && rv.Length == 256
    requires rv != fw && rv as object != bw
    modifies rv
    ensures rv[0] == old(rv[0])
    ensures forall j :: 1 <= j < 256 ==> rv[j] == fw[(255 - bw[j] as int) % 255]
  {
    var i := 1;
    while i <= 255
      invariant 1 <= i <= 256
      invariant rv[0] == old(rv[0])
      invariant forall j :: 1 <= j < i ==> rv[j] == fw[(255 - bw[j] as int) % 255]
    {
      var k: int := bw[i];
      rv[i] := fw[(255 - k) % 255];
      i := i + 1;
    }
  }
}
