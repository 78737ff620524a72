/**
 Two flipped bits. A frame has at most 255 bytes, and a bit that entered the register does not come
 back to where it began within that distance; so a second bit never cancels the first.
 */
module CrcTwoFlips {
  import opened Crc
  import opened CrcBits

  /** The register after d zero bits. */
  function Shifts(r: bv16, d: nat): bv16 { if d == 0 then r else ShiftBit(Shifts(r, d - 1)) }

  /** The register after j zero bytes. */
  function ZeroBytes(j: nat): bv16 { if j == 0 then 1 else ShiftByte(ZeroBytes(j - 1)) }

  /** No more than a bit in the lower byte; what turns into 1 within seven shifts is. */
  predicate Small(r: bv16) { r <= 0x80 }

  /** After j bytes the register holds r, and never since the beginning was it that small. */
  ghost predicate At(j: nat, r: bv16) {
    ZeroBytes(j) == r && forall k :: 0 < k <= j ==> !Small(ZeroBytes(k))
  }

  lemma Next(j: nat, r: bv16, s: bv16)
    requires At(j, r) && ShiftByte(r) == s && !Small(s)
    ensures At(j + 1, s)
  {
    hide ShiftByte, Small;
    assert ZeroBytes(j + 1) == s;
  }

  lemma Marks00()
    requires At(0, 0x0001)
    ensures At(16, 0x90C1)
  {
    hide At;
    Next(0, 0x0001, 0xC0C1); Next(1, 0xC0C1, 0x9001); Next(2, 0x9001, 0xC051); Next(3, 0xC051, 0xFC01);
    Next(4, 0xFC01, 0xC03D); Next(5, 0xC03D, 0xD101); Next(6, 0xD101, 0xC010); Next(7, 0xC010, 0xCCC1);
    Next(8, 0xCCC1, 0x900D); Next(9, 0x900D, 0xC551); Next(10, 0xC551, 0xFC04); Next(11, 0xFC04, 0xC3FD);
    Next(12, 0xC3FD, 0x8102); Next(13, 0x8102, 0xC100); Next(14, 0xC100, 0x00C1); Next(15, 0x00C1, 0x90C1);
  }

  lemma Marks01()
    requires At(16, 0x90C1)
    ensures At(32, 0xAC01)
  {
    hide At;
    Next(16, 0x90C1, 0x9051); Next(17, 0x9051, 0xFC51); Next(18, 0xFC51, 0xFC3D); Next(19, 0xFC3D, 0xD13D);
    Next(20, 0xD13D, 0xD110); Next(21, 0xD110, 0xCCD0); Next(22, 0xCCD0, 0x9CCD); Next(23, 0x9CCD, 0x955D);
    Next(24, 0x955D, 0xF954); Next(25, 0xF954, 0xFFF8); Next(26, 0xFFF8, 0x82FE); Next(27, 0x82FE, 0x8003);
    Next(28, 0x8003, 0x01C0); Next(29, 0x01C0, 0x5001); Next(30, 0x5001, 0xC091); Next(31, 0xC091, 0xAC01);
  }

  lemma Marks02()
    requires At(32, 0xAC01)
    ensures At(48, 0xED6D)
  {
    hide At;
    Next(32, 0xAC01, 0xC06D); Next(33, 0xC06D, 0xED01); Next(34, 0xED01, 0xC02C); Next(35, 0xC02C, 0xDDC1);
    Next(36, 0xDDC1, 0x901C); Next(37, 0x901C, 0xC991); Next(38, 0xC991, 0xAC08); Next(39, 0xAC08, 0xC6AD);
    Next(40, 0xC6AD, 0xBD07); Next(41, 0xBD07, 0xC2FC); Next(42, 0xC2FC, 0x41C2); Next(43, 0x41C2, 0x91C0);
    Next(44, 0x91C0, 0x5091); Next(45, 0x5091, 0xAC91); Next(46, 0xAC91, 0xAC6D); Next(47, 0xAC6D, 0xED6D);
  }

  lemma Marks03()
    requires At(48, 0xED6D)
    ensures At(64, 0xF0C1)
  {
    hide At;
    Next(48, 0xED6D, 0xED2C); Next(49, 0xED2C, 0xDDEC); Next(50, 0xDDEC, 0x8DDC); Next(51, 0x8DDC, 0x998C);
    Next(52, 0x998C, 0xA598); Next(53, 0xA598, 0xAAA4); Next(54, 0xAAA4, 0xBBAB); Next(55, 0xBBAB, 0xBFFA);
    Next(56, 0xBFFA, 0x433F); Next(57, 0x433F, 0x1003); Next(58, 0x1003, 0x0150); Next(59, 0x0150, 0x3C01);
    Next(60, 0x3C01, 0xC0FD); Next(61, 0xC0FD, 0x8101); Next(62, 0x8101, 0xC040); Next(63, 0xC040, 0xF0C1);
  }

  lemma Marks04()
    requires At(64, 0xF0C1)
    ensures At(80, 0x8461)
  {
    hide At;
    Next(64, 0xF0C1, 0x9031); Next(65, 0x9031, 0xD451); Next(66, 0xD451, 0xFC15); Next(67, 0xFC15, 0xCF3D);
    Next(68, 0xCF3D, 0xD10E); Next(69, 0xD10E, 0xC450); Next(70, 0xC450, 0x3CC4); Next(71, 0x3CC4, 0x933D);
    Next(72, 0x933D, 0xD152); Next(73, 0xD152, 0xFD50); Next(74, 0xFD50, 0x3CFD); Next(75, 0x3CFD, 0x81FD);
    Next(76, 0x81FD, 0x8140); Next(77, 0x8140, 0xF080); Next(78, 0xF080, 0xA0F1); Next(79, 0xA0F1, 0x8461);
  }

  lemma Marks05()
    requires At(80, 0x8461)
    ensures At(96, 0xDB6D)
  {
    hide At;
    Next(80, 0x8461, 0xE845); Next(81, 0xE845, 0xF329); Next(82, 0xF329, 0xDE32); Next(83, 0xDE32, 0xD55F);
    Next(84, 0xD55F, 0x3895); Next(85, 0x3895, 0x6FF8); Next(86, 0x6FF8, 0x826E); Next(87, 0x826E, 0xEC03);
    Next(88, 0xEC03, 0x01AC); Next(89, 0x01AC, 0x7D01); Next(90, 0x7D01, 0xC0BC); Next(91, 0xC0BC, 0xB1C1);
    Next(92, 0xB1C1, 0x9070); Next(93, 0x9070, 0xE491); Next(94, 0xE491, 0xAC25); Next(95, 0xAC25, 0xDB6D);
  }

  lemma Marks06()
    requires At(96, 0xDB6D)
    ensures At(112, 0xE677)
  {
    hide At;
    Next(96, 0xDB6D, 0xED1A); Next(97, 0xED1A, 0xCB6C); Next(98, 0xCB6C, 0x2DCB); Next(99, 0x2DCB, 0x976C);
    Next(100, 0x976C, 0x2D97); Next(101, 0x2D97, 0xAE6C); Next(102, 0xAE6C, 0x2DAE); Next(103, 0x2DAE, 0xBCAC);
    Next(104, 0xBCAC, 0x7DBC); Next(105, 0x7DBC, 0xB17C); Next(106, 0xB17C, 0xE1B0); Next(107, 0xE1B0, 0xB4E0);
    Next(108, 0xB4E0, 0x88B5); Next(109, 0x88B5, 0xB749); Next(110, 0xB749, 0xF676); Next(111, 0xF676, 0xE677);
  }

  lemma Marks07()
    requires At(112, 0xE677)
    ensures At(128, 0x9C01)
  {
    hide At;
    Next(112, 0xE677, 0x26A6); Next(113, 0x26A6, 0x7AA6); Next(114, 0x7AA6, 0x7AFA); Next(115, 0x7AFA, 0x43FA);
    Next(116, 0x43FA, 0x43C3); Next(117, 0x43C3, 0x5103); Next(118, 0x5103, 0x0111); Next(119, 0x0111, 0x0CC1);
    Next(120, 0x0CC1, 0x90CD); Next(121, 0x90CD, 0x9551); Next(122, 0x9551, 0xFC54); Next(123, 0xFC54, 0xFFFD);
    Next(124, 0xFFFD, 0x813E); Next(125, 0x813E, 0xD000); Next(126, 0xD000, 0x00D0); Next(127, 0x00D0, 0x9C01);
  }

  lemma Marks08()
    requires At(128, 0x9C01)
    ensures At(144, 0xF95D)
  {
    hide At;
    Next(128, 0x9C01, 0xC05D); Next(129, 0xC05D, 0xF901); Next(130, 0xF901, 0xC038); Next(131, 0xC038, 0xD2C1);
    Next(132, 0xD2C1, 0x9013); Next(133, 0x9013, 0xCDD1); Next(134, 0xCDD1, 0x5C0D); Next(135, 0x5C0D, 0xC59D);
    Next(136, 0xC59D, 0xA904); Next(137, 0xA904, 0xC3A8); Next(138, 0xC3A8, 0xBEC2); Next(139, 0xBEC2, 0x913F);
    Next(140, 0x913F, 0x10D1); Next(141, 0x10D1, 0x5CD0); Next(142, 0x5CD0, 0x9C5D); Next(143, 0x9C5D, 0xF95D);
  }

  lemma Marks09()
    requires At(144, 0xF95D)
    ensures At(160, 0xEBC1)
  {
    hide At;
    Next(144, 0xF95D, 0xF938); Next(145, 0xF938, 0xD2F8); Next(146, 0xD2F8, 0x82D3); Next(147, 0x82D3, 0x9DC3);
    Next(148, 0x9DC3, 0x51DD); Next(149, 0x51DD, 0x5991); Next(150, 0x5991, 0xAC98); Next(151, 0xAC98, 0xAAAD);
    Next(152, 0xAAAD, 0xBD6B); Next(153, 0xBD6B, 0xEFFC); Next(154, 0xEFFC, 0x41EF); Next(155, 0x41EF, 0x8C00);
    Next(156, 0x8C00, 0x008C); Next(157, 0x008C, 0xA501); Next(158, 0xA501, 0xC064); Next(159, 0xC064, 0xEBC1);
  }

  lemma Marks10()
    requires At(160, 0xEBC1)
    ensures At(176, 0x8F3A)
  {
    hide At;
    Next(160, 0xEBC1, 0x902A); Next(161, 0x902A, 0xDF11); Next(162, 0xDF11, 0x0C1F); Next(163, 0x0C1F, 0xC84D);
    Next(164, 0xC84D, 0x3508); Next(165, 0x3508, 0xC634); Next(166, 0xC634, 0xD7C7); Next(167, 0xD7C7, 0x9296);
    Next(168, 0x9296, 0x6E12); Next(169, 0x6E12, 0x0DEE); Next(170, 0x0DEE, 0x4C8D); Next(171, 0x4C8D, 0x658C);
    Next(172, 0x658C, 0xA564); Next(173, 0xA564, 0xEBA4); Next(174, 0xEBA4, 0xBBEA); Next(175, 0xBBEA, 0x8F3A);
  }

  lemma Marks11()
    requires At(176, 0x8F3A)
    ensures At(192, 0xD75D)
  {
    hide At;
    Next(176, 0x8F3A, 0x130F); Next(177, 0x130F, 0x0453); Next(178, 0x0453, 0x3D44); Next(179, 0x3D44, 0x333D);
    Next(180, 0x333D, 0xD1F2); Next(181, 0xD1F2, 0x8550); Next(182, 0x8550, 0x3C85); Next(183, 0x3C85, 0xA3FD);
    Next(184, 0xA3FD, 0x8162); Next(185, 0x8162, 0xE900); Next(186, 0xE900, 0x00E9); Next(187, 0x00E9, 0x8EC1);
    Next(188, 0x8EC1, 0x904F); Next(189, 0x904F, 0xF4D1); Next(190, 0xF4D1, 0x5C34); Next(191, 0x5C34, 0xD75D);
  }

  lemma Marks12()
    requires At(192, 0xD75D)
    ensures At(208, 0xF76F)
  {
    hide At;
    Next(192, 0xD75D, 0xF916); Next(193, 0xF916, 0xCE78); Next(194, 0xCE78, 0x22CE); Next(195, 0x22CE, 0x94A3);
    Next(196, 0x94A3, 0x79D4); Next(197, 0x79D4, 0x5F79); Next(198, 0x5F79, 0xE29E); Next(199, 0xE29E, 0xA863);
    Next(200, 0xA863, 0x29E8); Next(201, 0x29E8, 0x4E29); Next(202, 0x4E29, 0xDE8F); Next(203, 0xDE8F, 0xA49F);
    Next(204, 0xA49F, 0x68E4); Next(205, 0x68E4, 0x4B68); Next(206, 0x4B68, 0xEE4A); Next(207, 0xEE4A, 0xF76F);
  }

  lemma Marks13()
    requires At(208, 0xF76F)
    ensures At(224, 0x9ADA)
  {
    hide At;
    Next(208, 0xF76F, 0x2CB7); Next(209, 0x2CB7, 0x766C); Next(210, 0x766C, 0x2D76); Next(211, 0x2D76, 0xE6AC);
    Next(212, 0xE6AC, 0x7DE6); Next(213, 0x7DE6, 0x8AFC); Next(214, 0x8AFC, 0x418A); Next(215, 0x418A, 0xA7C0);
    Next(216, 0xA7C0, 0x50A7); Next(217, 0x50A7, 0xBA11); Next(218, 0xBA11, 0x0C7A); Next(219, 0x0C7A, 0xE38D);
    Next(220, 0xE38D, 0x6523); Next(221, 0x6523, 0xD924); Next(222, 0xD924, 0x1BD9); Next(223, 0x1BD9, 0x9ADA);
  }

  lemma Marks14()
    requires At(224, 0x9ADA)
    ensures At(240, 0x50C1)
  {
    hide At;
    Next(224, 0x9ADA, 0x9B1B); Next(225, 0x9B1B, 0x0BDB); Next(226, 0x0BDB, 0x5B4B); Next(227, 0x5B4B, 0x371B);
    Next(228, 0x371B, 0x0B77); Next(229, 0x0B77, 0x264B); Next(230, 0x264B, 0x3766); Next(231, 0x3766, 0x2AB7);
    Next(232, 0x2AB7, 0x766A); Next(233, 0x766A, 0x2FF6); Next(234, 0x2FF6, 0x46AF); Next(235, 0x46AF, 0x7C06);
    Next(236, 0x7C06, 0x02FC); Next(237, 0x02FC, 0x4102); Next(238, 0x4102, 0xC1C0); Next(239, 0xC1C0, 0x50C1);
  }

  lemma Marks15()
    requires At(240, 0x50C1)
    ensures At(254, 0x5100)
  {
    hide At;
    Next(240, 0x50C1, 0x9091); Next(241, 0x9091, 0xAC51); Next(242, 0xAC51, 0xFC6D); Next(243, 0xFC6D, 0xED3D);
    Next(244, 0xED3D, 0xD12C); Next(245, 0xD12C, 0xDDD0); Next(246, 0xDDD0, 0x9CDC); Next(247, 0x9CDC, 0x999D);
    Next(248, 0x999D, 0xA958); Next(249, 0xA958, 0xFAA8); Next(250, 0xFAA8, 0xBEFB); Next(251, 0xBEFB, 0x83FF);
    Next(252, 0x83FF, 0x40C3); Next(253, 0x40C3, 0x5100);
  }

  lemma NeverSmall(j: nat)
    requires 0 < j <= 254
    ensures !Small(ZeroBytes(j))
  {
    assert At(0, 1);
    Marks00(); Marks01(); Marks02(); Marks03(); Marks04(); Marks05(); Marks06(); Marks07();
    Marks08(); Marks09(); Marks10(); Marks11(); Marks12(); Marks13(); Marks14(); Marks15();
    hide Small;
    assert exists r :: At(254, r);
  }

  // ----- from bytes to bits -----

  lemma {:induction false} BytesAreShifts(j: nat)
    ensures Shifts(1, 8 * j) == ZeroBytes(j)
  {
    if j > 0 {
      BytesAreShifts(j - 1);
      hide ShiftBit;
      var d := 8 * (j - 1);
      assert Shifts(1, d + 2) == ShiftBit(ShiftBit(Shifts(1, d)));
      assert Shifts(1, d + 4) == ShiftBit(ShiftBit(Shifts(1, d + 2)));
      assert Shifts(1, d + 6) == ShiftBit(ShiftBit(Shifts(1, d + 4)));
      assert Shifts(1, d + 8) == ShiftBit(ShiftBit(Shifts(1, d + 6)));
    }
  }

  lemma {:induction false} ShiftsAdd(r: bv16, d: nat, i: nat)
    ensures Shifts(r, d + i) == Shifts(Shifts(r, d), i)
  {
    if i > 0 {
      ShiftsAdd(r, d, i - 1);
      hide ShiftBit;
    }
  }

  function Power(e: nat): (r: bv16)
    requires e <= 7
    ensures Small(r)
  {
    if e == 0 then 0x01 else if e == 1 then 0x02 else if e == 2 then 0x04 else if e == 3 then 0x08
    else if e == 4 then 0x10 else if e == 5 then 0x20 else if e == 6 then 0x40 else 0x80
  }

  /** A register that shifts into a low single bit was the next higher one. */
  lemma ShiftedFrom(r: bv16, e: nat)
    requires e < 7 && ShiftBit(r) == Power(e)
    ensures r == Power(e + 1)
  {}

  lemma {:induction false} CameFrom(r: bv16, i: nat, e: nat)
    requires e + i <= 7 && Shifts(r, i) == Power(e)
    ensures r == Power(e + i)
    decreases i
  {
    hide Power, ShiftBit;
    if i > 0 {
      ShiftedFrom(Shifts(r, i - 1), e);
      CameFrom(r, i - 1, e + 1);
    }
  }

  /** A single bit is not back at its place after any number of shifts below 2040. */
  lemma NotBack(d: nat)
    requires 0 < d < 2040
    ensures Shifts(1, d) != 1
  {
    var j, i := d / 8, d % 8;
    hide Shifts, ZeroBytes;
    BytesAreShifts(j);
    ShiftsAdd(1, 8 * j, i);
    if Shifts(1, d) == 1 {
      CameFrom(ZeroBytes(j), i, 0);
      if j > 0 { NeverSmall(j); } else { FirstMark(); }
    }
  }

  lemma FirstMark()
    ensures ZeroBytes(0) == 1
  {}

  // ----- two bits of a message -----

  /** The bits of e on the line are p and q, and no others. */
  ghost predicate JustTwo(e: seq<bv8>, p: nat, q: nat) {
    p < q < 8 * |e| && forall n :: 0 <= n < 8 * |e| ==> (OnLine(e, n) <==> n == p || n == q)
  }

  lemma StepFacts(r: bv16)
    ensures StepBit(0, false) == 0 && StepBit(0, true) == ShiftBit(1) && StepBit(r, false) == ShiftBit(r)
    ensures (StepBit(r, true) == 0 <==> r == 1) && (ShiftBit(r) == 0 <==> r == 0)
  {}

  lemma {:induction false} TwoBitsLeave(e: seq<bv8>, p: nat, q: nat, n: nat)
    requires JustTwo(e, p, q) && q - p < 2040 && n <= 8 * |e|
    ensures n <= p ==> ResidueBits(0, e, n) == 0
    ensures p < n <= q ==> ResidueBits(0, e, n) == Shifts(1, n - p)
    ensures q < n ==> ResidueBits(0, e, n) != 0
    decreases n
  {
    if n > 0 {
      TwoBitsLeave(e, p, q, n - 1);
      StepFacts(ResidueBits(0, e, n - 1));
      if n - 1 == q { NotBack(q - p); }
      hide OnLine, StepBit, ShiftBit;
    }
  }

  /** Two flipped bits less than 2040 apart, as they are in every frame the program takes, are always detected. */
  lemma TwoFlipsDetected(f: seq<bv8>, g: seq<bv8>, p: nat, q: nat)
    requires |f| == |g| && CrcOk(f) && JustTwo(Difference(f, g), p, q) && q - p < 2040
    ensures !CrcOk(g)
  {
    hide CrcOk, JustTwo;
    if CrcOk(g) {
      var e := Difference(f, g);
      AcceptedPairDifference(f, g);
      ResidueBitByBit(0, e, |e|);
      assert e[..|e|] == e;
      InRange(e, p, q);
      TwoBitsLeave(e, p, q, 8 * |e|);
    }
  }

  lemma InRange(e: seq<bv8>, p: nat, q: nat)
    requires JustTwo(e, p, q)
    ensures p < q < 8 * |e|
  {}

  lemma {:induction false} NoBit(e: seq<bv8>, n: nat)
    requires n <= 8 * |e| && CountOnLine(e, n) == 0
    ensures forall k :: 0 <= k < n ==> !OnLine(e, k)
  {
    hide OnLine;
    if n > 0 { NoBit(e, n - 1); }
  }

  lemma {:induction false} OneBit(e: seq<bv8>, n: nat) returns (p: nat)
    requires n <= 8 * |e| && CountOnLine(e, n) == 1
    ensures p < n && forall k :: 0 <= k < n ==> (OnLine(e, k) <==> k == p)
  {
    hide OnLine;
    if OnLine(e, n - 1) {
      p := n - 1;
      NoBit(e, n - 1);
    } else {
      p := OneBit(e, n - 1);
    }
  }

  lemma {:induction false} TwoBits(e: seq<bv8>, n: nat) returns (p: nat, q: nat)
    requires n <= 8 * |e| && CountOnLine(e, n) == 2
    ensures p < q < n && forall k :: 0 <= k < n ==> (OnLine(e, k) <==> k == p || k == q)
  {
    hide OnLine;
    if OnLine(e, n - 1) {
      q := n - 1;
      p := OneBit(e, n - 1);
    } else {
      p, q := TwoBits(e, n - 1);
    }
  }

  /** Any two frames the program accepts, of one length, differ in at least four bits. */
  lemma FourBitsApart(f: seq<bv8>, g: seq<bv8>)
    requires |f| == |g| <= 255 && f != g && CrcOk(f) && CrcOk(g)
    ensures CountOnLine(Difference(f, g), 8 * |f|) >= 4
  {
    hide CrcOk, OnLine;
    var e := Difference(f, g);
    var n := CountOnLine(e, 8 * |e|);
    if n % 2 == 1 {
      OddFlipsDetected(f, g);
    } else if n == 2 {
      var p, q := TwoBits(e, 8 * |e|);
      TwoFlipsDetected(f, g, p, q);
    } else if n == 0 {
      NoBit(e, 8 * |e|);
      NothingFlipped(f, g);
    }
  }

  lemma NothingFlipped(f: seq<bv8>, g: seq<bv8>)
    requires |f| == |g| && forall k :: 0 <= k < 8 * |f| ==> !OnLine(Difference(f, g), k)
    ensures f == g
  {
    var e := Difference(f, g);
    hide OnLine, Bit;
    forall i | 0 <= i < |f| ensures f[i] == g[i] {
      ByteOnLine(e, i, 0); ByteOnLine(e, i, 1); ByteOnLine(e, i, 2); ByteOnLine(e, i, 3);
      ByteOnLine(e, i, 4); ByteOnLine(e, i, 5); ByteOnLine(e, i, 6); ByteOnLine(e, i, 7);
      ZeroByte(e[i]);
      SameByte(f[i], g[i]);
    }
  }

  lemma ByteOnLine(e: seq<bv8>, i: nat, k: nat)
    requires i < |e| && k < 8
    ensures OnLine(e, 8 * i + k) == Bit(e[i], k)
  {
    assert (8 * i + k) / 8 == i && (8 * i + k) % 8 == k;
  }

  lemma ZeroByte(b: bv8)
    requires !Bit(b, 0) && !Bit(b, 1) && !Bit(b, 2) && !Bit(b, 3) && !Bit(b, 4) && !Bit(b, 5) && !Bit(b, 6) && !Bit(b, 7)
    ensures b == 0
  {}

  lemma SameByte(x: bv8, y: bv8)
    requires x ^ y == 0
    ensures x == y
  {}
}
