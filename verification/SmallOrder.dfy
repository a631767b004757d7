/**
 The list of points that a key conversion refuses: what the listed strings are,
 and for which keys the conversion meets them.
 */
module SmallOrder {
  import opened ByteNumbers
  import opened Curve
  import opened Modular

  // ---- The strings around the modulus ----

  lemma {:induction false} OnesValue(k: nat)
    ensures LittleEndian(Ones(k)) == Pow256(k) - 1
  {
    if k != 0 {
      assert Ones(k)[1..] == Ones(k - 1);
      OnesValue(k - 1);
    }
  }

  lemma NearTop(k: nat, x: byte)
    ensures LittleEndian([x] + Ones(k) + [0x7f]) == 128 * Pow256(k + 1) - 256 + x
  {
    var b := [x] + Ones(k) + [0x7f];
    assert b[1..] == Ones(k) + [0x7f];
    LittleEndianJoin(Ones(k), [0x7f]);
    OnesValue(k);
    assert LittleEndian([0x7f]) == 0x7f;
  }

  lemma NearModulus(x: byte)
    ensures LittleEndian([x] + Ones(30) + [0x7f]) == P + x - 0xed
  {
    NearTop(30, x);
    ModulusFits();
  }

  // ---- The two points of order 8 ----

  const U8: nat := 0x00b8495f_16056286_fdb1329c_eb8d09da_6ac49ff1_fae35616_aeb8413b_7c7aebe0
  const V8: nat := 0x57119fd0_dd4e22d8_868e1c58_c45c4404_5bef839c_55b1d0b1_248c50a3_bc959c5f

  /** The y of the first; that of the second is its negative. */
  const Y8: int := 0x7a03ac92_77fdc74e_c6cc392c_fa53202a_0f67100d_760b3cba_4fd84d3d_706a17c7

  /** The coefficient of Curve25519: v^2 = u^3 + A * u^2 + u. */
  const A: nat := 486662

  function DoubleDenominator(u: int): int {
    4 * u * (u * u + A * u + 1)
  }

  /** Doubling a point of coordinate u gives v, without division. */
  ghost predicate Doubles(u: int, v: int) {
    Cong(P, v * DoubleDenominator(u), (u * u - 1) * (u * u - 1))
  }

  /** Doubling a point of coordinate u gives the neutral element. */
  ghost predicate Halts(u: int) {
    Cong(P, DoubleDenominator(u), 0)
  }

  lemma FirstDoubles()
    ensures Doubles(U8, 1)
  {
    // The quotient of the two sides' difference by the modulus.
    var k := -0x897e94e2_4fc71095_25303fa1_6be96f78_2f0b5af7_7b36dfae_bf965bba_212815d0_abb1fa30_20fd17cf_5cf98df0_4188bc0b_6fec67d7_ade4fc9a_157a6b99_c0ca6c2e_2a3e1ac1_db82e60a_2d741489_b8c243dc_479debaa_8bd1bb6e_a965b065;
    CongBy(P, 1 * DoubleDenominator(U8), (U8 * U8 - 1) * (U8 * U8 - 1), k);
  }

  lemma FirstGoesOn()
    ensures !Halts(U8)
  {
    var q := 0x000002fb_ff1bda51_6d5d5b8f_302b9382_0cc905ce_b1c7b05b_c415d2cc_d2b239a3_ddeaf8e0_802895ef_aaac4929_c9dcc4fe_f4b34524_1e2e2ae5_89b8a51b_13de86f5;
    var r := 0x645dbe95_d13ee359_d8b5abcb_6a92e773_97da1a2a_5790f3e7_a517633b_5e7613af;
    NotCongruentToZero(P, DoubleDenominator(U8), q, r);
  }

  lemma SecondDoubles()
    ensures Doubles(V8, 1)
  {
    var k := -0x06d9e2a5_058d325d_f0f8a92b_788d5665_cf240f1d_200c700a_f32f0049_f35b18f9_47142df2_f5f7e405_e063c211_179764ea_1de7ba91_e063d2ab_0a969f2b_69e425a6_528db91b_959642d0_35bf323d_4b7414f4_20f78a5a_f2ece33d_5e9cb902_ed1c39b0;
    CongBy(P, 1 * DoubleDenominator(V8), (V8 * V8 - 1) * (V8 * V8 - 1), k);
  }

  lemma SecondGoesOn()
    ensures !Halts(V8)
  {
    var q := 0x50931bfa_78b03603_a2850920_b7d7279b_a1eed074_479f28c8_b514e12d_20feea4a_d7537394_54821a9a_6892cebf_51ddbcd9_fda3773f_85035cab_a72367d9_42231a5d;
    var r := 0x36fcf743_c9abc86a_33612a80_e5ee973e_d2e41d0a_e17a84b0_20726662_4c61ccf7;
    NotCongruentToZero(P, DoubleDenominator(V8), q, r);
  }

  lemma OneDoubles()
    ensures Doubles(1, 0)
  {
    CongBy(P, 0 * DoubleDenominator(1), 0, 0);
  }

  lemma OneGoesOn()
    ensures !Halts(1)
  {
    NotCongruentToZero(P, DoubleDenominator(1), 0, 1946656);
  }

  lemma ZeroHalts()
    ensures Halts(0)
  {
    CongBy(P, DoubleDenominator(0), 0, 0);
  }

  /** Three doublings, and no fewer, take the point to the neutral element. */
  ghost predicate HasOrderEight(u: int) {
    !Halts(u) && Doubles(u, 1) && !Halts(1) && Doubles(1, 0) && Halts(0)
  }

  lemma OrderEight()
    ensures HasOrderEight(U8) && HasOrderEight(V8)
  {
    FirstDoubles();
    FirstGoesOn();
    SecondDoubles();
    SecondGoesOn();
    OneDoubles();
    OneGoesOn();
    ZeroHalts();
  }

  lemma EightMaps()
    ensures Maps(P, Y8, U8) && Maps(P, -Y8, V8)
  {
    CongBy(P, U8 * (1 - Y8), 1 + Y8, -0x00afab38_ceafddab_b367e736_9a7c04a4_05ad611c_a738bb62_bf211af3_df4b1228);
    CongBy(P, V8 * (1 + Y8), 1 - Y8, 0x52ff4c20_224d9fa5_aa47a880_74fe94b5_1e88aba4_81c31650_6288b76a_723a2b36);
    assert 1 - (-Y8) == 1 + Y8 && 1 + (-Y8) == 1 - Y8;
  }

  lemma Quad(b0: byte, b1: byte, b2: byte, b3: byte)
    ensures LittleEndian([b0, b1, b2, b3]) == b0 + 0x100 * b1 + 0x10000 * b2 + 0x1000000 * b3
  {
    assert [b0, b1, b2, b3][1..] == [b1, b2, b3] && [b1, b2, b3][1..] == [b2, b3] && [b2, b3][1..] == [b3];
    assert LittleEndian([b3]) == b3;
    assert LittleEndian([b2, b3]) == b2 + 0x100 * b3;
    assert LittleEndian([b1, b2, b3]) == b1 + 0x100 * b2 + 0x10000 * b3;
  }

  lemma Word(b0: byte, b1: byte, b2: byte, b3: byte, b4: byte, b5: byte, b6: byte, b7: byte)
    ensures LittleEndian([b0, b1, b2, b3, b4, b5, b6, b7])
         == b0 + 0x100 * b1 + 0x10000 * b2 + 0x1000000 * b3
          + 0x1_00000000 * (b4 + 0x100 * b5 + 0x10000 * b6 + 0x1000000 * b7)
  {
    Quad(b0, b1, b2, b3);
    Quad(b4, b5, b6, b7);
    assert [b0, b1, b2, b3, b4, b5, b6, b7] == [b0, b1, b2, b3] + [b4, b5, b6, b7];
    LittleEndianJoin([b0, b1, b2, b3], [b4, b5, b6, b7]);
    assert Pow256(4) == 0x1_00000000 by {
      SmallPowers();
    }
  }

  lemma JoinWord(a: seq<byte>, b: seq<byte>)
    requires |a| == 8
    ensures LittleEndian(a + b) == LittleEndian(a) + 0x1_00000000_00000000 * LittleEndian(b)
  {
    LittleEndianJoin(a, b);
    assert Pow256(8) == 0x1_00000000_00000000 by {
      SmallPowers();
    }
  }

  lemma FourWords(a: seq<byte>, b: seq<byte>, c: seq<byte>, d: seq<byte>)
    requires |a| == 8 && |b| == 8 && |c| == 8
    ensures LittleEndian(a + (b + (c + d))) == LittleEndian(a) + 0x1_00000000_00000000 * (LittleEndian(b)
              + 0x1_00000000_00000000 * (LittleEndian(c) + 0x1_00000000_00000000 * LittleEndian(d)))
  {
    JoinWord(a, b + (c + d));
    JoinWord(b, c + d);
    JoinWord(c, d);
  }

  lemma WordIs(s: seq<byte>, b0: byte, b1: byte, b2: byte, b3: byte, b4: byte, b5: byte, b6: byte, b7: byte, w: nat)
    requires s == [b0, b1, b2, b3, b4, b5, b6, b7]
    requires w == b0 + 0x100 * b1 + 0x10000 * b2 + 0x1000000 * b3
                + 0x1_00000000 * (b4 + 0x100 * b5 + 0x10000 * b6 + 0x1000000 * b7)
    ensures |s| == 8 && LittleEndian(s) == w
  {
    Word(b0, b1, b2, b3, b4, b5, b6, b7);
  }

  lemma ValueOfWords(a: seq<byte>, b: seq<byte>, c: seq<byte>, d: seq<byte>, wa: nat, wb: nat, wc: nat, wd: nat)
    requires |a| == 8 && |b| == 8 && |c| == 8
    requires LittleEndian(a) == wa && LittleEndian(b) == wb && LittleEndian(c) == wc && LittleEndian(d) == wd
    ensures LittleEndian(a + (b + (c + d)))
         == wa + 0x1_00000000_00000000 * (wb + 0x1_00000000_00000000 * (wc + 0x1_00000000_00000000 * wd))
  {
    FourWords(a, b, c, d);
  }

  lemma FirstValue(a: seq<byte>, b: seq<byte>, c: seq<byte>, d: seq<byte>)
    requires a == [0xe0, 0xeb, 0x7a, 0x7c, 0x3b, 0x41, 0xb8, 0xae] && b == [0x16, 0x56, 0xe3, 0xfa, 0xf1, 0x9f, 0xc4, 0x6a]
    requires c == [0xda, 0x09, 0x8d, 0xeb, 0x9c, 0x32, 0xb1, 0xfd] && d == [0x86, 0x62, 0x05, 0x16, 0x5f, 0x49, 0xb8, 0x00]
    ensures ORDER_8 == a + (b + (c + d)) && LittleEndian(a + (b + (c + d))) == U8
  {
    WordIs(a, 0xe0, 0xeb, 0x7a, 0x7c, 0x3b, 0x41, 0xb8, 0xae, 0xaeb8413b_7c7aebe0);
    WordIs(b, 0x16, 0x56, 0xe3, 0xfa, 0xf1, 0x9f, 0xc4, 0x6a, 0x6ac49ff1_fae35616);
    WordIs(c, 0xda, 0x09, 0x8d, 0xeb, 0x9c, 0x32, 0xb1, 0xfd, 0xfdb1329c_eb8d09da);
    WordIs(d, 0x86, 0x62, 0x05, 0x16, 0x5f, 0x49, 0xb8, 0x00, 0x00b8495f_16056286);
    ValueOfWords(a, b, c, d, 0xaeb8413b_7c7aebe0, 0x6ac49ff1_fae35616, 0xfdb1329c_eb8d09da, 0x00b8495f_16056286);
  }

  lemma SecondValue(a: seq<byte>, b: seq<byte>, c: seq<byte>, d: seq<byte>)
    requires a == [0x5f, 0x9c, 0x95, 0xbc, 0xa3, 0x50, 0x8c, 0x24] && b == [0xb1, 0xd0, 0xb1, 0x55, 0x9c, 0x83, 0xef, 0x5b]
    requires c == [0x04, 0x44, 0x5c, 0xc4, 0x58, 0x1c, 0x8e, 0x86] && d == [0xd8, 0x22, 0x4e, 0xdd, 0xd0, 0x9f, 0x11, 0x57]
    ensures OTHER_ORDER_8 == a + (b + (c + d)) && LittleEndian(a + (b + (c + d))) == V8
  {
    WordIs(a, 0x5f, 0x9c, 0x95, 0xbc, 0xa3, 0x50, 0x8c, 0x24, 0x248c50a3_bc959c5f);
    WordIs(b, 0xb1, 0xd0, 0xb1, 0x55, 0x9c, 0x83, 0xef, 0x5b, 0x5bef839c_55b1d0b1);
    WordIs(c, 0x04, 0x44, 0x5c, 0xc4, 0x58, 0x1c, 0x8e, 0x86, 0x868e1c58_c45c4404);
    WordIs(d, 0xd8, 0x22, 0x4e, 0xdd, 0xd0, 0x9f, 0x11, 0x57, 0x57119fd0_dd4e22d8);
    ValueOfWords(a, b, c, d, 0x248c50a3_bc959c5f, 0x5bef839c_55b1d0b1, 0x868e1c58_c45c4404, 0x57119fd0_dd4e22d8);
  }

  // ---- Which keys are refused ----

  lemma EightImages()
    ensures Image(P, Y8, ORDER_8) && Image(P, -Y8, OTHER_ORDER_8)
  {
    FirstValue([0xe0, 0xeb, 0x7a, 0x7c, 0x3b, 0x41, 0xb8, 0xae], [0x16, 0x56, 0xe3, 0xfa, 0xf1, 0x9f, 0xc4, 0x6a],
               [0xda, 0x09, 0x8d, 0xeb, 0x9c, 0x32, 0xb1, 0xfd], [0x86, 0x62, 0x05, 0x16, 0x5f, 0x49, 0xb8, 0x00]);
    SecondValue([0x5f, 0x9c, 0x95, 0xbc, 0xa3, 0x50, 0x8c, 0x24], [0xb1, 0xd0, 0xb1, 0x55, 0x9c, 0x83, 0xef, 0x5b],
                [0x04, 0x44, 0x5c, 0xc4, 0x58, 0x1c, 0x8e, 0x86], [0xd8, 0x22, 0x4e, 0xdd, 0xd0, 0x9f, 0x11, 0x57]);
    EightMaps();
  }

  /** Of the seven listed strings, p and p + 1 are never reduced and p - 1 belongs
      to no y; the others are the images of y = -1, of y = 0 and of the two y of
      the points of order 8. */
  lemma RejectedIff(y: int, b: seq<byte>)
    requires Image(P, y, b)
    ensures b in SMALL_ORDER <==> Cong(P, y, -1) || Cong(P, y, 0) || Cong(P, y, Y8) || Cong(P, y, -Y8)
  {
    Listed(b);
    NeverListed(y, b);
    ZeroIff(y, b);
    OneIff(y, b);
    EightImages();
    ImageIff(P, y, b, Y8, ORDER_8);
    ImageIff(P, y, b, -Y8, OTHER_ORDER_8);
  }

  lemma Listed(b: seq<byte>)
    ensures b in SMALL_ORDER <==>
              || b == Zeros(32) || b == [1] + Zeros(31) || b == ORDER_8 || b == OTHER_ORDER_8
              || b == [0xec] + Ones(30) + [0x7f] || b == [0xed] + Ones(30) + [0x7f] || b == [0xee] + Ones(30) + [0x7f]
  {
  }

  lemma NeverListed(y: int, b: seq<byte>)
    requires Image(P, y, b)
    ensures b != [0xec] + Ones(30) + [0x7f] && b != [0xed] + Ones(30) + [0x7f] && b != [0xee] + Ones(30) + [0x7f]
  {
    NearModulus(0xec);
    NearModulus(0xed);
    NearModulus(0xee);
    ModulusFits();
    NoSuchMinusOne(P, y);
  }

  lemma NoSuchMinusOne(n: nat, y: int)
    requires n > 2 && n % 2 == 1
    ensures !Maps(n, y, n - 1)
  {
    if Maps(n, y, n - 1) {
      MapsProduct(n, y, n - 1);
      var k := Turns(n, n * (1 - y), 2);
      assert 2 == ((1 - y) - k) * n;
      FarFromZero(n, (1 - y) - k);
    }
  }

  lemma ZeroIff(y: int, b: seq<byte>)
    requires Image(P, y, b)
    ensures b == Zeros(32) <==> Cong(P, y, -1)
  {
    LittleEndianZeros(32);
    if b == Zeros(32) {
      var k := Turns(P, 0 * (1 - y), 1 + y);
      CongBy(P, y, -1, -k);
    }
    if Cong(P, y, -1) {
      var k := Turns(P, y, -1);
      CongBy(P, 0 * (1 - y), 1 + y, -k);
      ImageIsUnique(P, y, b, Zeros(32));
    }
  }

  lemma OneIff(y: int, b: seq<byte>)
    requires Image(P, y, b)
    ensures b == [1] + Zeros(31) <==> Cong(P, y, 0)
  {
    var one := [1] + Zeros(31);
    LittleEndianZeros(31);
    assert one[1..] == Zeros(31);
    assert LittleEndian(one) == 1;
    ModulusFits();
    if b == one {
      MapsBack(P, y, 1);
      HalfOfZero(P, y);
    }
    if Cong(P, y, 0) {
      CongScale(P, y, 0, 2);
      MapsBack(P, y, 1);
      ImageIsUnique(P, y, b, one);
    }
  }

  lemma HalfOfZero(n: nat, y: int)
    requires n % 2 == 1 && Cong(n, y * 2, 0)
    ensures Cong(n, y, 0)
  {
    assert Half(n) * 2 == 1 + 1 * n;
    CongBy(n, Half(n) * 2, 1, 1);
    CongCancel(n, 2, Half(n), y, 0);
  }
}
