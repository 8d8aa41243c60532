/**
  The table of cached powers of ten: every entry is right to half a unit in its
  last place, and the entry looked up for a binary exponent is in the range
  asked for.
 */
module CachedPowers {
  import opened Positional
  import opened DigitLoops
  import opened Decimal
  import opened RealPowers
  import opened MachineWords
  import opened DiyFpModel

  datatype Cached = Cached(significand: nat, binaryExponent: int, decimalExponent: int)

  // The table, ten entries to a row: 10^(8 * index - 348), rounded to 64 bits.

  const POWERS_0: seq<Cached> := [
    Cached(0xfa8fd5a0_081c0288, -1220, -348),
    Cached(0xbaaee17f_a23ebf76, -1193, -340),
    Cached(0x8b16fb20_3055ac76, -1166, -332),
    Cached(0xcf42894a_5dce35ea, -1140, -324),
    Cached(0x9a6bb0aa_55653b2d, -1113, -316),
    Cached(0xe61acf03_3d1a45df, -1087, -308),
    Cached(0xab70fe17_c79ac6ca, -1060, -300),
    Cached(0xff77b1fc_bebcdc4f, -1034, -292),
    Cached(0xbe5691ef_416bd60c, -1007, -284),
    Cached(0x8dd01fad_907ffc3c, -980, -276)
  ]

  const POWERS_1: seq<Cached> := [
    Cached(0xd3515c28_31559a83, -954, -268),
    Cached(0x9d71ac8f_ada6c9b5, -927, -260),
    Cached(0xea9c2277_23ee8bcb, -901, -252),
    Cached(0xaecc4991_4078536d, -874, -244),
    Cached(0x823c1279_5db6ce57, -847, -236),
    Cached(0xc2109436_4dfb5637, -821, -228),
    Cached(0x9096ea6f_3848984f, -794, -220),
    Cached(0xd77485cb_25823ac7, -768, -212),
    Cached(0xa086cfcd_97bf97f4, -741, -204),
    Cached(0xef340a98_172aace5, -715, -196)
  ]

  const POWERS_2: seq<Cached> := [
    Cached(0xb23867fb_2a35b28e, -688, -188),
    Cached(0x84c8d4df_d2c63f3b, -661, -180),
    Cached(0xc5dd4427_1ad3cdba, -635, -172),
    Cached(0x936b9fce_bb25c996, -608, -164),
    Cached(0xdbac6c24_7d62a584, -582, -156),
    Cached(0xa3ab6658_0d5fdaf6, -555, -148),
    Cached(0xf3e2f893_dec3f126, -529, -140),
    Cached(0xb5b5ada8_aaff80b8, -502, -132),
    Cached(0x87625f05_6c7c4a8b, -475, -124),
    Cached(0xc9bcff60_34c13053, -449, -116)
  ]

  const POWERS_3: seq<Cached> := [
    Cached(0x964e858c_91ba2655, -422, -108),
    Cached(0xdff97724_70297ebd, -396, -100),
    Cached(0xa6dfbd9f_b8e5b88f, -369, -92),
    Cached(0xf8a95fcf_88747d94, -343, -84),
    Cached(0xb9447093_8fa89bcf, -316, -76),
    Cached(0x8a08f0f8_bf0f156b, -289, -68),
    Cached(0xcdb02555_653131b6, -263, -60),
    Cached(0x993fe2c6_d07b7fac, -236, -52),
    Cached(0xe45c10c4_2a2b3b06, -210, -44),
    Cached(0xaa242499_697392d3, -183, -36)
  ]

  const POWERS_4: seq<Cached> := [
    Cached(0xfd87b5f2_8300ca0e, -157, -28),
    Cached(0xbce50864_92111aeb, -130, -20),
    Cached(0x8cbccc09_6f5088cc, -103, -12),
    Cached(0xd1b71758_e219652c, -77, -4),
    Cached(0x9c400000_00000000, -50, 4),
    Cached(0xe8d4a510_00000000, -24, 12),
    Cached(0xad78ebc5_ac620000, 3, 20),
    Cached(0x813f3978_f8940984, 30, 28),
    Cached(0xc097ce7b_c90715b3, 56, 36),
    Cached(0x8f7e32ce_7bea5c70, 83, 44)
  ]

  const POWERS_5: seq<Cached> := [
    Cached(0xd5d238a4_abe98068, 109, 52),
    Cached(0x9f4f2726_179a2245, 136, 60),
    Cached(0xed63a231_d4c4fb27, 162, 68),
    Cached(0xb0de6538_8cc8ada8, 189, 76),
    Cached(0x83c7088e_1aab65db, 216, 84),
    Cached(0xc45d1df9_42711d9a, 242, 92),
    Cached(0x924d692c_a61be758, 269, 100),
    Cached(0xda01ee64_1a708dea, 295, 108),
    Cached(0xa26da399_9aef774a, 322, 116),
    Cached(0xf209787b_b47d6b85, 348, 124)
  ]

  const POWERS_6: seq<Cached> := [
    Cached(0xb454e4a1_79dd1877, 375, 132),
    Cached(0x865b8692_5b9bc5c2, 402, 140),
    Cached(0xc83553c5_c8965d3d, 428, 148),
    Cached(0x952ab45c_fa97a0b3, 455, 156),
    Cached(0xde469fbd_99a05fe3, 481, 164),
    Cached(0xa59bc234_db398c25, 508, 172),
    Cached(0xf6c69a72_a3989f5c, 534, 180),
    Cached(0xb7dcbf53_54e9bece, 561, 188),
    Cached(0x88fcf317_f22241e2, 588, 196),
    Cached(0xcc20ce9b_d35c78a5, 614, 204)
  ]

  const POWERS_7: seq<Cached> := [
    Cached(0x98165af3_7b2153df, 641, 212),
    Cached(0xe2a0b5dc_971f303a, 667, 220),
    Cached(0xa8d9d153_5ce3b396, 694, 228),
    Cached(0xfb9b7cd9_a4a7443c, 720, 236),
    Cached(0xbb764c4c_a7a44410, 747, 244),
    Cached(0x8bab8eef_b6409c1a, 774, 252),
    Cached(0xd01fef10_a657842c, 800, 260),
    Cached(0x9b10a4e5_e9913129, 827, 268),
    Cached(0xe7109bfb_a19c0c9d, 853, 276),
    Cached(0xac2820d9_623bf429, 880, 284)
  ]

  const POWERS_8: seq<Cached> := [
    Cached(0x80444b5e_7aa7cf85, 907, 292),
    Cached(0xbf21e440_03acdd2d, 933, 300),
    Cached(0x8e679c2f_5e44ff8f, 960, 308),
    Cached(0xd433179d_9c8cb841, 986, 316),
    Cached(0x9e19db92_b4e31ba9, 1013, 324),
    Cached(0xeb96bf6e_badf77d9, 1039, 332),
    Cached(0xaf87023b_9bf0ee6b, 1066, 340)
  ]

  // What each significand leaves out of its power of ten, in units of 2^-64.

  ghost const TAILS_0: seq<int> := [
    0x1732c869_cd60e454, 0x5d79bcf0_0d2df64a, 0x4c3bcb50_21afcc31, 0x52064cac_828675b9,
    0x47b233c9_2125366f, 0x6fb92487_298e33be, 0x6dbd630a_48aaf407, 0x25e8e89c_13bb0f7b,
    0x23cc986b_c656d554, -0x51c25826_80986d1c
  ]

  ghost const TAILS_1: seq<int> := [
    0x0d5a5b44_ca873e04, 0x6f773fc3_603db4a9, 0x465e15a9_79c1cadc, 0x58fae9f7_73886e19,
    0x76c53d08_d6b70858, -0x67a6ea03_ed0abd1b, 0x3ff0d2c8_5def7622, 0x7d633293_366b828b,
    -0x7f175bf1_332dd75b, -0x7904768e_e93783cb
  ]

  ghost const TAILS_2: seq<int> := [
    -0x16619e65_b0dc55bd, 0x29ecd9f4_0041e073, 0x40eff1e1_853f29fe, -0x354ef226_ff4113cb,
    -0x20ba08b9_48b540c7, -0x3ec19f2f_2d1f1446, 0x5a89dba3_c3efccfb, 0x0d819992_132456bb,
    0x11471cd7_64ad4973, -0x03764c6c_22fd0f4a
  ]

  ghost const TAILS_3: seq<int> := [
    0x3a6a07f8_d510f870, 0x59787e2b_93bc56f7, -0x34b332af_f09446ad, 0x75a44c63_97ce912a,
    -0x07f71bf1_72a4c196, 0x1b8e9ecb_641b5900, 0x3792f412_cb06794d, -0x1ab957fc_7101bfd7,
    -0x73476582_4883af95, -0x221af42e_2a2f4616
  ]

  ghost const TAILS_4: seq<int> := [
    -0x74356291_e777ac04, -0x770b44e3_59430a7c, -0x06c07848_bbd1ba2c, -0x2c3c9eec_bfb15b57,
    0x00000000_00000000, 0x00000000_00000000, 0x00000000_00000000, 0x40000000_00000000,
    0x4b9f1000_00000000, -0x1b7dffdc_5e000000
  ]

  ghost const TAILS_5: seq<int> := [
    0x72a49045_98d6d880, 0x01d76242_2c946591, 0x4ca7aaa8_63ee4bdd, 0x3b25a55f_43294bcc,
    0x792667c6_da79e0fa, 0x3ba5d0bd_324f8394, 0x593c2626_705f9c56, -0x17f190b7_df336b6a,
    -0x1c41a1cc_f0c70f62, -0x3f9873a2_42dc5b66
  ]

  ghost const TAILS_6: seq<int> := [
    0x29babe45_98c311fc, 0x0b8a2392_ba45a9b2, 0x6f928294_94e5acc7, -0x226ba58b_840d9e7c,
    0x6fca5f8e_d9aef3bb, 0x43fab983_7e699096, -0x7552ab61_a8d8c2bb, 0x0c11ed6d_538aeb2f,
    0x441fece3_bdf81f03, 0x31ec038d_f7b441f4
  ]

  ghost const TAILS_7: seq<int> := [
    -0x3c8d85cc_85748fb6, 0x2e44ae64_840fd61e, 0x7f1839a7_41a14d0d, 0x169840ef_017da3b1,
    -0x6292e52b_e541c80e, 0x1ad089b6_c2f7548e, 0x2d2b7569_b0432d85, -0x35830d4b_e6e37cd9,
    0x0cc51267_0a783ad5, 0x546345fa_9fbdcd44
  ]

  ghost const TAILS_8: seq<int> := [
    0x7980d163_cf5b81b3, -0x1fb8f59c_1942a93d, 0x570f09ea_a7ea7648, 0x5fa60692_a46151ec,
    0x6c07a2c2_6a8346d1, -0x1be3a42e_73a81771, -0x14705283_80797f4c
  ]

  function Entry(index: nat): Cached
    requires index < 87
  {
    var row := match index / 10
      case 0 => POWERS_0
      case 1 => POWERS_1
      case 2 => POWERS_2
      case 3 => POWERS_3
      case 4 => POWERS_4
      case 5 => POWERS_5
      case 6 => POWERS_6
      case 7 => POWERS_7
      case _ => POWERS_8;
    row[index % 10]
  }

  ghost function Tail(index: nat): int
    requires index < 87
  {
    var row := match index / 10
      case 0 => TAILS_0
      case 1 => TAILS_1
      case 2 => TAILS_2
      case 3 => TAILS_3
      case 4 => TAILS_4
      case 5 => TAILS_5
      case 6 => TAILS_6
      case 7 => TAILS_7
      case _ => TAILS_8;
    row[index % 10]
  }

  /** 10^17 times the source's constant for the logarithm of two. */
  const LOG: int := 30_102_999_566_398_114

  // ---------- The entries ----------

  /** The significand with its tail: 128 bits of the power of ten. */
  ghost function WideOf(c: Cached, tail: int): int {
    c.significand * TWO64 + tail
  }

  /**
    In its place, normalised, rounded to nearest, and with a binary exponent
    that agrees with the logarithm by which entries are looked up.
   */
  ghost predicate Good(i: int, c: Cached, tail: int) {
    && c.decimalExponent == 8 * i - 348 && TWO63 <= c.significand < TWO64
    && 0x10_0000 - TWO63 <= tail <= TWO63 - 0x10_0000
    && c.decimalExponent * 100_000_000_000_000_000 + 10_000_000 < (c.binaryExponent + 64) * LOG
    && (c.binaryExponent + 34) * LOG <= (c.decimalExponent - 8) * 100_000_000_000_000_000 - 10_000_000
  }

  /** The second entry is 10^8 times the first, up to the rounding of the tails. */
  ghost predicate Linked(c: Cached, tail: int, d: Cached, tail': int) {
    var shift := d.binaryExponent - c.binaryExponent;
    && (shift == 26 || shift == 27)
    && Close(WideOf(c, tail) * 100_000_000, WideOf(d, tail') * if shift == 26 then 0x400_0000 else 0x800_0000)
  }

  ghost predicate Close(x: int, y: int) {
    -0x800_0000 <= x - y <= 0x800_0000
  }

  lemma Row0()
    ensures |POWERS_0| == |TAILS_0| == 10
    ensures |POWERS_1| > 0 && |TAILS_1| > 0
    ensures forall j :: 0 <= j < 10 ==> Good(0 + j, POWERS_0[j], TAILS_0[j])
    ensures forall j :: 0 <= j < 9 ==> Linked(POWERS_0[j], TAILS_0[j], POWERS_0[j + 1], TAILS_0[j + 1])
    ensures Linked(POWERS_0[9], TAILS_0[9], POWERS_1[0], TAILS_1[0])
  {
  }

  lemma Row1()
    ensures |POWERS_1| == |TAILS_1| == 10
    ensures |POWERS_2| > 0 && |TAILS_2| > 0
    ensures forall j :: 0 <= j < 10 ==> Good(10 + j, POWERS_1[j], TAILS_1[j])
    ensures forall j :: 0 <= j < 9 ==> Linked(POWERS_1[j], TAILS_1[j], POWERS_1[j + 1], TAILS_1[j + 1])
    ensures Linked(POWERS_1[9], TAILS_1[9], POWERS_2[0], TAILS_2[0])
  {
  }

  lemma Row2()
    ensures |POWERS_2| == |TAILS_2| == 10
    ensures |POWERS_3| > 0 && |TAILS_3| > 0
    ensures forall j :: 0 <= j < 10 ==> Good(20 + j, POWERS_2[j], TAILS_2[j])
    ensures forall j :: 0 <= j < 9 ==> Linked(POWERS_2[j], TAILS_2[j], POWERS_2[j + 1], TAILS_2[j + 1])
    ensures Linked(POWERS_2[9], TAILS_2[9], POWERS_3[0], TAILS_3[0])
  {
  }

  lemma Row3()
    ensures |POWERS_3| == |TAILS_3| == 10
    ensures |POWERS_4| > 0 && |TAILS_4| > 0
    ensures forall j :: 0 <= j < 10 ==> Good(30 + j, POWERS_3[j], TAILS_3[j])
    ensures forall j :: 0 <= j < 9 ==> Linked(POWERS_3[j], TAILS_3[j], POWERS_3[j + 1], TAILS_3[j + 1])
    ensures Linked(POWERS_3[9], TAILS_3[9], POWERS_4[0], TAILS_4[0])
  {
  }

  lemma Row4()
    ensures |POWERS_4| == |TAILS_4| == 10
    ensures |POWERS_5| > 0 && |TAILS_5| > 0
    ensures forall j :: 0 <= j < 10 ==> Good(40 + j, POWERS_4[j], TAILS_4[j])
    ensures forall j :: 0 <= j < 9 ==> Linked(POWERS_4[j], TAILS_4[j], POWERS_4[j + 1], TAILS_4[j + 1])
    ensures Linked(POWERS_4[9], TAILS_4[9], POWERS_5[0], TAILS_5[0])
  {
  }

  lemma Row5()
    ensures |POWERS_5| == |TAILS_5| == 10
    ensures |POWERS_6| > 0 && |TAILS_6| > 0
    ensures forall j :: 0 <= j < 10 ==> Good(50 + j, POWERS_5[j], TAILS_5[j])
    ensures forall j :: 0 <= j < 9 ==> Linked(POWERS_5[j], TAILS_5[j], POWERS_5[j + 1], TAILS_5[j + 1])
    ensures Linked(POWERS_5[9], TAILS_5[9], POWERS_6[0], TAILS_6[0])
  {
  }

  lemma Row6()
    ensures |POWERS_6| == |TAILS_6| == 10
    ensures |POWERS_7| > 0 && |TAILS_7| > 0
    ensures forall j :: 0 <= j < 10 ==> Good(60 + j, POWERS_6[j], TAILS_6[j])
    ensures forall j :: 0 <= j < 9 ==> Linked(POWERS_6[j], TAILS_6[j], POWERS_6[j + 1], TAILS_6[j + 1])
    ensures Linked(POWERS_6[9], TAILS_6[9], POWERS_7[0], TAILS_7[0])
  {
  }

  lemma Row7()
    ensures |POWERS_7| == |TAILS_7| == 10
    ensures |POWERS_8| > 0 && |TAILS_8| > 0
    ensures forall j :: 0 <= j < 10 ==> Good(70 + j, POWERS_7[j], TAILS_7[j])
    ensures forall j :: 0 <= j < 9 ==> Linked(POWERS_7[j], TAILS_7[j], POWERS_7[j + 1], TAILS_7[j + 1])
    ensures Linked(POWERS_7[9], TAILS_7[9], POWERS_8[0], TAILS_8[0])
  {
  }

  lemma Row8()
    ensures |POWERS_8| == |TAILS_8| == 7
    ensures forall j :: 0 <= j < 7 ==> Good(80 + j, POWERS_8[j], TAILS_8[j])
    ensures forall j :: 0 <= j < 6 ==> Linked(POWERS_8[j], TAILS_8[j], POWERS_8[j + 1], TAILS_8[j + 1])
  {
  }

  ghost predicate GoodEntry(i: nat)
    requires i < 87
  {
    Good(i, Entry(i), Tail(i))
  }

  ghost predicate LinkedEntry(i: nat)
    requires i < 86
  {
    Linked(Entry(i), Tail(i), Entry(i + 1), Tail(i + 1))
  }

  ghost function Wide(i: nat): int
    requires i < 87
  {
    WideOf(Entry(i), Tail(i))
  }

  lemma Entries(i: nat)
    requires i < 87
    ensures GoodEntry(i) && (i < 86 ==> LinkedEntry(i))
  {
    hide Good, Linked;
    var r, j := i / 10, i % 10;
    assert i == 10 * r + j && (j < 9 ==> (i + 1) / 10 == r && (i + 1) % 10 == j + 1);
    assert j == 9 ==> (i + 1) / 10 == r + 1 && (i + 1) % 10 == 0;
    if r == 0 { Row0(); }
    else if r == 1 { Row1(); }
    else if r == 2 { Row2(); }
    else if r == 3 { Row3(); }
    else if r == 4 { Row4(); }
    else if r == 5 { Row5(); }
    else if r == 6 { Row6(); }
    else if r == 7 { Row7(); }
    else { Row8(); }
  }

  // ---------- From one entry to the next ----------

  const GRAIN: int := 0x100_0000_0000_0000_0000_0000_0000_0000

  /** t is w units u, up to n parts in 2^120. */
  ghost predicate Brackets(w: int, n: int, u: real, t: real) {
    ((w * (GRAIN - n)) as real) * u <= t * (GRAIN as real) <= ((w * (GRAIN + n)) as real) * u
  }

  lemma CloseProducts(x: int, y: int, n: int)
    requires Close(x, y) && 0x40_0000_0000_0000_0000_0000_0000_0000_0000_0000 <= y && 0 <= n <= 100
    ensures x * (GRAIN + n) <= y * (GRAIN + (n + 1))
    ensures y * (GRAIN - (n + 1)) <= x * (GRAIN - n)
  {
    MulMonotone(x, y + 0x800_0000, GRAIN + n);
    MulMonotone(y - 0x800_0000, x, GRAIN - n);
    assert y * (GRAIN + (n + 1)) == y * (GRAIN + n) + y && y * (GRAIN - (n + 1)) == y * (GRAIN - n) - y;
  }

  /** Multiplying by p where the unit grows by q: a lower bound and an upper bound. */
  lemma LowerUp(w: int, g: int, w': int, g': int, p: int, q: int, u: real, t: real, u': real, t': real)
    requires ((w * g) as real) * u <= t * (GRAIN as real)
    requires u > 0.0 && p > 0 && u' == (q as real) * u && t' == (p as real) * t && w' * q * g' <= w * p * g
    ensures ((w' * g') as real) * u' <= t' * (GRAIN as real)
  {
    Moved(w, g, p, u, t);
    InUnits(w', g', q, u, u');
    ScaleOrder(w' * q * g', w * p * g, u);
    TimesGrain(p, t, t');
  }

  lemma UpperUp(w: int, g: int, w': int, g': int, p: int, q: int, u: real, t: real, u': real, t': real)
    requires t * (GRAIN as real) <= ((w * g) as real) * u
    requires u > 0.0 && p > 0 && u' == (q as real) * u && t' == (p as real) * t && w * p * g <= w' * q * g'
    ensures t' * (GRAIN as real) <= ((w' * g') as real) * u'
  {
    Moved(w, g, p, u, t);
    InUnits(w', g', q, u, u');
    ScaleOrder(w * p * g, w' * q * g', u);
    TimesGrain(p, t, t');
  }

  /** Dividing by p where the unit shrinks by q. */
  lemma LowerDown(w: int, g: int, w': int, g': int, p: int, q: int, u: real, t: real, u': real, t': real)
    requires ((w' * g') as real) * u' <= t' * (GRAIN as real)
    requires u > 0.0 && p > 0 && u' == (q as real) * u && t' == (p as real) * t && w * p * g <= w' * q * g'
    ensures ((w * g) as real) * u <= t * (GRAIN as real)
  {
    Moved(w, g, p, u, t);
    InUnits(w', g', q, u, u');
    ScaleOrder(w * p * g, w' * q * g', u);
    TimesGrain(p, t, t');
  }

  lemma UpperDown(w: int, g: int, w': int, g': int, p: int, q: int, u: real, t: real, u': real, t': real)
    requires t' * (GRAIN as real) <= ((w' * g') as real) * u'
    requires u > 0.0 && p > 0 && u' == (q as real) * u && t' == (p as real) * t && w' * q * g' <= w * p * g
    ensures t * (GRAIN as real) <= ((w * g) as real) * u
  {
    Moved(w, g, p, u, t);
    InUnits(w', g', q, u, u');
    ScaleOrder(w' * q * g', w * p * g, u);
    TimesGrain(p, t, t');
  }

  lemma BracketUp(w: int, w': int, n: int, p: int, q: int, u: real, t: real, u': real, t': real)
    requires Brackets(w, n, u, t) && u > 0.0 && p > 0 && u' == (q as real) * u && t' == (p as real) * t
    requires w * p * (GRAIN + n) <= w' * q * (GRAIN + (n + 1))
    requires w' * q * (GRAIN - (n + 1)) <= w * p * (GRAIN - n)
    ensures Brackets(w', n + 1, u', t')
  {
    LowerUp(w, GRAIN - n, w', GRAIN - (n + 1), p, q, u, t, u', t');
    UpperUp(w, GRAIN + n, w', GRAIN + (n + 1), p, q, u, t, u', t');
  }

  lemma BracketDown(w: int, w': int, n: int, p: int, q: int, u: real, t: real, u': real, t': real)
    requires Brackets(w', n, u', t') && u > 0.0 && p > 0 && u' == (q as real) * u && t' == (p as real) * t
    requires w' * q * (GRAIN + n) <= w * p * (GRAIN + (n + 1))
    requires w * p * (GRAIN - (n + 1)) <= w' * q * (GRAIN - n)
    ensures Brackets(w, n + 1, u, t)
  {
    LowerDown(w, GRAIN - (n + 1), w', GRAIN - n, p, q, u, t, u', t');
    UpperDown(w, GRAIN + (n + 1), w', GRAIN + n, p, q, u, t, u', t');
  }

  /** Comparing with w * g units is the same after multiplying both sides by p. */
  lemma Moved(w: int, g: int, p: int, u: real, t: real)
    requires p > 0
    ensures ((w * g) as real) * u <= t * (GRAIN as real)
      <==> ((w * p * g) as real) * u <= (p as real) * (t * (GRAIN as real))
    ensures t * (GRAIN as real) <= ((w * g) as real) * u
      <==> (p as real) * (t * (GRAIN as real)) <= ((w * p * g) as real) * u
  {
    var x, y := ((w * g) as real) * u, t * (GRAIN as real);
    RMonotone(x, y, p as real);
    RMonotone(y, x, p as real);
    RCommute(x, p as real);
    RCommute(y, p as real);
    RAssoc(p as real, (w * g) as real, u);
    IntProduct(p, w * g);
    assert p * (w * g) == w * p * g;
  }

  lemma TimesGrain(p: int, t: real, t': real)
    requires t' == (p as real) * t
    ensures t' * (GRAIN as real) == (p as real) * (t * (GRAIN as real))
  {
    RAssoc(p as real, t, GRAIN as real);
  }

  lemma InUnits(w: int, g: int, q: int, u: real, u': real)
    requires u' == (q as real) * u
    ensures ((w * g) as real) * u' == ((w * q * g) as real) * u
  {
    RAssoc((w * g) as real, q as real, u);
    IntProduct(w * g, q);
    assert (w * g) * q == w * q * g;
  }

  // ---------- The whole table ----------

  ghost function Away(i: int): nat {
    if i < 44 then 44 - i else i - 44
  }

  lemma WideRange(i: nat)
    requires i < 87 && GoodEntry(i)
    ensures 0x4000_0000_0000_0000_0000_0000_0000_0000 <= Wide(i) < 0x2_0000_0000_0000_0000_0000_0000_0000_0000
  {
    hide Entry, Tail;
  }

  /** The unit and the power of the next entry. */
  lemma NextEntry(i: nat)
    requires i < 86 && GoodEntry(i) && GoodEntry(i + 1) && LinkedEntry(i)
    ensures var q := if Entry(i + 1).binaryExponent - Entry(i).binaryExponent == 26 then 0x400_0000 else 0x800_0000;
      && Two(Entry(i + 1).binaryExponent - 64) == (q as real) * Two(Entry(i).binaryExponent - 64)
      && Ten(Entry(i + 1).decimalExponent) == 100_000_000.0 * Ten(Entry(i).decimalExponent)
      && Close(Wide(i) * 100_000_000, Wide(i + 1) * q)
      && Close(Wide(i + 1) * q, Wide(i) * 100_000_000)
      && 0x40_0000_0000_0000_0000_0000_0000_0000_0000_0000 <= Wide(i + 1) * q
      && 0x40_0000_0000_0000_0000_0000_0000_0000_0000_0000 <= Wide(i) * 100_000_000
  {
    hide Entry, Tail, Two, Ten, Pow2, Pow10, WideOf;
    var e := Entry(i).binaryExponent - 64;
    WideRange(i);
    WideRange(i + 1);
    Factors();
    TwoAdd(e, 26);
    TwoAdd(e, 27);
    TenAdd(Entry(i).decimalExponent, 8);
    RCommute(Two(e), 67108864.0);
    RCommute(Two(e), 134217728.0);
    RCommute(Ten(Entry(i).decimalExponent), 100_000_000.0);
  }

  lemma Factors()
    ensures Pow2(12) == 4096 && Pow2(13) == 8192 && Pow2(26) == 0x400_0000 && Pow2(27) == 0x800_0000
    ensures Pow10(4) == 10_000 && Pow10(8) == 100_000_000 && Ten(0) == 1.0
  {
    Pow2Add(13, 13);
    Pow10Add(4, 4);
  }

  ghost predicate IsPower(i: nat, n: int)
    requires i < 87
  {
    Brackets(Wide(i), n, Two(Entry(i).binaryExponent - 64), Ten(Entry(i).decimalExponent))
  }

  lemma StepUp(i: nat, n: nat)
    requires i < 86 && n <= 100 && IsPower(i, n)
    ensures IsPower(i + 1, n + 1)
  {
    hide Entry, Tail, GoodEntry, LinkedEntry, Brackets, Wide, Close, Two, Ten;
    Entries(i);
    Entries(i + 1);
    NextEntry(i);
    var u, u' := Two(Entry(i).binaryExponent - 64), Two(Entry(i + 1).binaryExponent - 64);
    var t, t' := Ten(Entry(i).decimalExponent), Ten(Entry(i + 1).decimalExponent);
    var q := if Entry(i + 1).binaryExponent - Entry(i).binaryExponent == 26 then 0x400_0000 else 0x800_0000;
    CloseProducts(Wide(i) * 100_000_000, Wide(i + 1) * q, n);
    BracketUp(Wide(i), Wide(i + 1), n, 100_000_000, q, u, t, u', t');
  }

  lemma StepDown(i: nat, n: nat)
    requires i < 86 && n <= 100 && IsPower(i + 1, n)
    ensures IsPower(i, n + 1)
  {
    hide Entry, Tail, GoodEntry, LinkedEntry, Brackets, Wide, Close, Two, Ten;
    Entries(i);
    Entries(i + 1);
    NextEntry(i);
    var u, u' := Two(Entry(i).binaryExponent - 64), Two(Entry(i + 1).binaryExponent - 64);
    var t, t' := Ten(Entry(i).decimalExponent), Ten(Entry(i + 1).decimalExponent);
    var q := if Entry(i + 1).binaryExponent - Entry(i).binaryExponent == 26 then 0x400_0000 else 0x800_0000;
    CloseProducts(Wide(i + 1) * q, Wide(i) * 100_000_000, n);
    BracketDown(Wide(i), Wide(i + 1), n, 100_000_000, q, u, t, u', t');
  }

  /** 10^4 is exact. */
  lemma TenThousand()
    ensures IsPower(44, 0)
  {
    hide Two, Ten, Pow2, Pow10;
    assert Wide(44) == 10_000 * 0x4_0000_0000_0000_0000_0000_0000_0000 && Entry(44) == Cached(0x9c400000_00000000, -50, 4);
    Pow2Words();
    Pow2Add(50, 64);
    Pow2Add(25, 25);
    Pow2Add(12, 13);
    TwoAdd(-114, 114);
    TwoZero();
    TenAdd(0, 4);
    Factors();
    var u, h := Two(-114), Pow2(114) as real;
    RAssoc(10_000.0, h, u);
    RCommute(u, h);
    RAssoc(GRAIN as real, (Wide(44)) as real, u);
    IntProduct(Wide(44), GRAIN);
  }

  /** Every entry with its tail is its power of ten; the error grows by one part with each step from 10^4. */
  lemma {:induction false} WideIsPower(i: nat)
    requires i < 87
    ensures IsPower(i, Away(i))
    decreases Away(i)
  {
    hide IsPower;
    if i == 44 {
      TenThousand();
    } else if i > 44 {
      WideIsPower(i - 1);
      StepUp(i - 1, Away(i - 1));
    } else {
      WideIsPower(i + 1);
      StepDown(i, Away(i + 1));
    }
  }

  /** Normalised, and 10^mk to within half a unit. */
  ghost predicate CachedPower(f: int, e: int, mk: int) {
    && TWO63 <= f < TWO64
    && (f as real - 0.5) * Two(e) <= Ten(mk) <= (f as real + 0.5) * Two(e)
  }

  /** Without their tails the entries are right to half a unit. */
  lemma EntryIsPower(i: nat)
    requires i < 87
    ensures CachedPower(Entry(i).significand, Entry(i).binaryExponent, Entry(i).decimalExponent)
  {
    hide Entry, Tail, Two, Ten, Pow2, Brackets;
    var c := Entry(i);
    Entries(i);
    WideIsPower(i);
    Pow2Words();
    TwoAdd(c.binaryExponent - 64, 64);
    WithoutTail(c.significand, Tail(i), Away(i), Two(c.binaryExponent - 64), Two(c.binaryExponent), Ten(c.decimalExponent));
  }

  lemma WithoutTail(f: int, tail: int, n: int, u: real, v: real, t: real)
    requires TWO63 <= f < TWO64 && 0x10_0000 - TWO63 <= tail <= TWO63 - 0x10_0000 && 0 <= n <= 44
    requires Brackets(f * TWO64 + tail, n, u, t) && u > 0.0 && v == u * 18446744073709551616.0
    ensures (f as real - 0.5) * v <= t <= (f as real + 0.5) * v
  {
    var w, low, high := f * TWO64 + tail, f * TWO64 - TWO63, f * TWO64 + TWO63;
    RoomForError(f, tail, n);
    AtLeast(low, w * (GRAIN - n), u, t);
    AtMost(w * (GRAIN + n), high, u, t);
    HalfUnit(f, u, v);
  }

  lemma AtLeast(low: int, x: int, u: real, t: real)
    requires u > 0.0 && low * GRAIN <= x && (x as real) * u <= t * (GRAIN as real)
    ensures (low as real) * u <= t
  {
    ScaleOrder(low * GRAIN, x, u);
    CancelGrain(low, u, t);
  }

  lemma AtMost(x: int, high: int, u: real, t: real)
    requires u > 0.0 && x <= high * GRAIN && t * (GRAIN as real) <= (x as real) * u
    ensures t <= (high as real) * u
  {
    ScaleOrder(x, high * GRAIN, u);
    CancelGrain(high, u, t);
  }

  lemma RoomForError(f: int, tail: int, n: int)
    requires TWO63 <= f < TWO64 && 0x10_0000 - TWO63 <= tail <= TWO63 - 0x10_0000 && 0 <= n <= 44
    ensures var w := f * TWO64 + tail;
      (f * TWO64 - TWO63) * GRAIN <= w * (GRAIN - n) && w * (GRAIN + n) <= (f * TWO64 + TWO63) * GRAIN
  {
    var w := f * TWO64 + tail;
    MulMonotone(n, 44, w);
    assert w * (GRAIN - n) == w * GRAIN - n * w && w * (GRAIN + n) == w * GRAIN + n * w;
  }

  lemma CancelGrain(x: int, u: real, t: real)
    ensures ((x * GRAIN) as real) * u <= t * (GRAIN as real) <==> (x as real) * u <= t
    ensures t * (GRAIN as real) <= ((x * GRAIN) as real) * u <==> t <= (x as real) * u
  {
    var g, y := GRAIN as real, (x as real) * u;
    IntProduct(x, GRAIN);
    RCommute(x as real, g);
    RAssoc(g, x as real, u);
    RCommute(g, y);
    RMonotone(y, t, g);
    RMonotone(t, y, g);
  }

  lemma HalfUnit(f: int, u: real, v: real)
    requires v == u * 18446744073709551616.0
    ensures (f as real - 0.5) * v == ((f * TWO64 - TWO63) as real) * u
    ensures (f as real + 0.5) * v == ((f * TWO64 + TWO63) as real) * u
  {
    RCommute(u, 18446744073709551616.0);
    RAssoc(f as real - 0.5, 18446744073709551616.0, u);
    RAssoc(f as real + 0.5, 18446744073709551616.0, u);
  }

  // ---------- Looking up ----------

  function Ceiling(x: real): int {
    -((-x).Floor)
  }

  /** A product with the logarithm of two as it comes out in floating point: with an error, but a small one. */
  predicate NearLog(x: real, n: int) {
    -0.0000000001 <= x - (n as real) * 0.30102999566398114 <= 0.0000000001
  }

  /**
    A cached power of ten with a binary exponent in the range asked for, however
    the product that selects it was rounded.
   */
  method GetCachedPowerForBinaryExponentRange(minExponent: int, maxExponent: int) returns (power: DiyFp, decimalExponent: int)
    requires -1200 <= minExponent <= 1060 && minExponent + 28 <= maxExponent
    ensures fresh(power) && CachedPower(power.f, power.e, decimalExponent)
    ensures minExponent <= power.e <= maxExponent
  {
    hide Entry, GoodEntry, CachedPower;
    LogExists(minExponent + 63);
    var product: real :| NearLog(product, minExponent + 63);
    var k := Ceiling(product);
    IndexInRange(minExponent, product);
    var index := (348 + k - 1) / 8 + 1;
    EntryIsPower(index);
    Entries(index);
    InRange(minExponent, product, index);
    power := new DiyFp(Entry(index).significand, Entry(index).binaryExponent);
    decimalExponent := Entry(index).decimalExponent;
  }

  lemma LogExists(n: int)
    ensures exists x: real :: NearLog(x, n)
  {
    assert NearLog((n as real) * 0.30102999566398114, n);
  }

  lemma IndexInRange(minExponent: int, product: real)
    requires -1200 <= minExponent <= 1060 && NearLog(product, minExponent + 63)
    ensures 0 <= (348 + Ceiling(product) - 1) / 8 + 1 < 87
    ensures 0 <= 348 + Ceiling(product) - 1
  {
  }

  lemma InRange(minExponent: int, product: real, index: nat)
    requires NearLog(product, minExponent + 63) && index == (348 + Ceiling(product) - 1) / 8 + 1 && index < 87
    requires GoodEntry(index)
    ensures minExponent <= Entry(index).binaryExponent <= minExponent + 28
  {
    hide Entry, Tail;
  }
}
