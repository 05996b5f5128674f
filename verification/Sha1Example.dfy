/** The first example of FIPS PUB 180-1 (appendix A), worked out. */
module Sha1Example {
  import opened Sha1

  /** The message of three octets with its padding. */
  const ABC_BLOCK: block := [0x61, 0x62, 0x63, 0x80] + Zeros(59) + [0x18]

  lemma WordIs(t: nat, w3: word, w8: word, w14: word, w16: word, w: word)
    requires 16 <= t && Schedule(ABC_BLOCK, t - 3) == w3 && Schedule(ABC_BLOCK, t - 8) == w8
    requires Schedule(ABC_BLOCK, t - 14) == w14 && Schedule(ABC_BLOCK, t - 16) == w16
             && S(1, Xor(w3, w8, w14, w16)) == w
    ensures Schedule(ABC_BLOCK, t) == w
  {
    hide S, Xor;
  }

  lemma RoundIs(t: nat, r: Digest, w: word, r': Digest)
    requires Rounds(INITIAL, ABC_BLOCK, t) == r && Schedule(ABC_BLOCK, t) == w && Round(r, t, w) == r'
    ensures Rounds(INITIAL, ABC_BLOCK, t + 1) == r'
  {
    hide Round, Schedule;
  }

  lemma Words0()
    ensures Schedule(ABC_BLOCK, 0) == 0x6162_6380 && Schedule(ABC_BLOCK, 1) == 0x0000_0000
    ensures Schedule(ABC_BLOCK, 2) == 0x0000_0000 && Schedule(ABC_BLOCK, 3) == 0x0000_0000
    ensures Schedule(ABC_BLOCK, 4) == 0x0000_0000 && Schedule(ABC_BLOCK, 5) == 0x0000_0000
    ensures Schedule(ABC_BLOCK, 6) == 0x0000_0000 && Schedule(ABC_BLOCK, 7) == 0x0000_0000
    ensures Schedule(ABC_BLOCK, 8) == 0x0000_0000 && Schedule(ABC_BLOCK, 9) == 0x0000_0000
    ensures Schedule(ABC_BLOCK, 10) == 0x0000_0000 && Schedule(ABC_BLOCK, 11) == 0x0000_0000
    ensures Schedule(ABC_BLOCK, 12) == 0x0000_0000 && Schedule(ABC_BLOCK, 13) == 0x0000_0000
    ensures Schedule(ABC_BLOCK, 14) == 0x0000_0000 && Schedule(ABC_BLOCK, 15) == 0x0000_0018
  {
    hide S, Xor;
  }

  lemma Words16()
    ensures Schedule(ABC_BLOCK, 16) == 0xC2C4_C700 && Schedule(ABC_BLOCK, 17) == 0x0000_0000
    ensures Schedule(ABC_BLOCK, 18) == 0x0000_0030 && Schedule(ABC_BLOCK, 19) == 0x8589_8E01
    ensures Schedule(ABC_BLOCK, 20) == 0x0000_0000 && Schedule(ABC_BLOCK, 21) == 0x0000_0060
    ensures Schedule(ABC_BLOCK, 22) == 0x0B13_1C03 && Schedule(ABC_BLOCK, 23) == 0x0000_0030
    ensures Schedule(ABC_BLOCK, 24) == 0x8589_8EC1 && Schedule(ABC_BLOCK, 25) == 0x1626_3806
    ensures Schedule(ABC_BLOCK, 26) == 0x0000_0000 && Schedule(ABC_BLOCK, 27) == 0x0000_0180
    ensures Schedule(ABC_BLOCK, 28) == 0x2C4C_700C && Schedule(ABC_BLOCK, 29) == 0x0000_00F0
    ensures Schedule(ABC_BLOCK, 30) == 0x93AF_B507 && Schedule(ABC_BLOCK, 31) == 0x5898_E048
  {
    hide Schedule;
    Words0();
    WordIs(16, 0x0000_0000, 0x0000_0000, 0x0000_0000, 0x6162_6380, 0xC2C4_C700);
    WordIs(17, 0x0000_0000, 0x0000_0000, 0x0000_0000, 0x0000_0000, 0x0000_0000);
    WordIs(18, 0x0000_0018, 0x0000_0000, 0x0000_0000, 0x0000_0000, 0x0000_0030);
    WordIs(19, 0xC2C4_C700, 0x0000_0000, 0x0000_0000, 0x0000_0000, 0x8589_8E01);
    WordIs(20, 0x0000_0000, 0x0000_0000, 0x0000_0000, 0x0000_0000, 0x0000_0000);
    WordIs(21, 0x0000_0030, 0x0000_0000, 0x0000_0000, 0x0000_0000, 0x0000_0060);
    WordIs(22, 0x8589_8E01, 0x0000_0000, 0x0000_0000, 0x0000_0000, 0x0B13_1C03);
    WordIs(23, 0x0000_0000, 0x0000_0018, 0x0000_0000, 0x0000_0000, 0x0000_0030);
    WordIs(24, 0x0000_0060, 0xC2C4_C700, 0x0000_0000, 0x0000_0000, 0x8589_8EC1);
    WordIs(25, 0x0B13_1C03, 0x0000_0000, 0x0000_0000, 0x0000_0000, 0x1626_3806);
    WordIs(26, 0x0000_0030, 0x0000_0030, 0x0000_0000, 0x0000_0000, 0x0000_0000);
    WordIs(27, 0x8589_8EC1, 0x8589_8E01, 0x0000_0000, 0x0000_0000, 0x0000_0180);
    WordIs(28, 0x1626_3806, 0x0000_0000, 0x0000_0000, 0x0000_0000, 0x2C4C_700C);
    WordIs(29, 0x0000_0000, 0x0000_0060, 0x0000_0018, 0x0000_0000, 0x0000_00F0);
    WordIs(30, 0x0000_0180, 0x0B13_1C03, 0xC2C4_C700, 0x0000_0000, 0x93AF_B507);
    WordIs(31, 0x2C4C_700C, 0x0000_0030, 0x0000_0000, 0x0000_0018, 0x5898_E048);
  }

  lemma Words32()
    ensures Schedule(ABC_BLOCK, 32) == 0x8E9A_9202 && Schedule(ABC_BLOCK, 33) == 0x0000_0600
    ensures Schedule(ABC_BLOCK, 34) == 0xB131_C0F0 && Schedule(ABC_BLOCK, 35) == 0x1626_3BC6
    ensures Schedule(ABC_BLOCK, 36) == 0x4EBE_D41E && Schedule(ABC_BLOCK, 37) == 0x6263_80A1
    ensures Schedule(ABC_BLOCK, 38) == 0x1626_3806 && Schedule(ABC_BLOCK, 39) == 0x0000_18C0
    ensures Schedule(ABC_BLOCK, 40) == 0xD2E1_38C4 && Schedule(ABC_BLOCK, 41) == 0x0000_0F00
    ensures Schedule(ABC_BLOCK, 42) == 0x3AFB_5079 && Schedule(ABC_BLOCK, 43) == 0x898E_04E5
    ensures Schedule(ABC_BLOCK, 44) == 0xE2BA_3C2B && Schedule(ABC_BLOCK, 45) == 0x0000_60C0
    ensures Schedule(ABC_BLOCK, 46) == 0x053A_37CD && Schedule(ABC_BLOCK, 47) == 0x7445_8547
  {
    hide Schedule;
    Words16();
    WordIs(32, 0x0000_00F0, 0x8589_8EC1, 0x0000_0030, 0xC2C4_C700, 0x8E9A_9202);
    WordIs(33, 0x93AF_B507, 0x1626_3806, 0x8589_8E01, 0x0000_0000, 0x0000_0600);
    WordIs(34, 0x5898_E048, 0x0000_0000, 0x0000_0000, 0x0000_0030, 0xB131_C0F0);
    WordIs(35, 0x8E9A_9202, 0x0000_0180, 0x0000_0060, 0x8589_8E01, 0x1626_3BC6);
    WordIs(36, 0x0000_0600, 0x2C4C_700C, 0x0B13_1C03, 0x0000_0000, 0x4EBE_D41E);
    WordIs(37, 0xB131_C0F0, 0x0000_00F0, 0x0000_0030, 0x0000_0060, 0x6263_80A1);
    WordIs(38, 0x1626_3BC6, 0x93AF_B507, 0x8589_8EC1, 0x0B13_1C03, 0x1626_3806);
    WordIs(39, 0x4EBE_D41E, 0x5898_E048, 0x1626_3806, 0x0000_0030, 0x0000_18C0);
    WordIs(40, 0x6263_80A1, 0x8E9A_9202, 0x0000_0000, 0x8589_8EC1, 0xD2E1_38C4);
    WordIs(41, 0x1626_3806, 0x0000_0600, 0x0000_0180, 0x1626_3806, 0x0000_0F00);
    WordIs(42, 0x0000_18C0, 0xB131_C0F0, 0x2C4C_700C, 0x0000_0000, 0x3AFB_5079);
    WordIs(43, 0xD2E1_38C4, 0x1626_3BC6, 0x0000_00F0, 0x0000_0180, 0x898E_04E5);
    WordIs(44, 0x0000_0F00, 0x4EBE_D41E, 0x93AF_B507, 0x2C4C_700C, 0xE2BA_3C2B);
    WordIs(45, 0x3AFB_5079, 0x6263_80A1, 0x5898_E048, 0x0000_00F0, 0x0000_60C0);
    WordIs(46, 0x898E_04E5, 0x1626_3806, 0x8E9A_9202, 0x93AF_B507, 0x053A_37CD);
    WordIs(47, 0xE2BA_3C2B, 0x0000_18C0, 0x0000_0600, 0x5898_E048, 0x7445_8547);
  }

  lemma Words48()
    ensures Schedule(ABC_BLOCK, 48) == 0xDA94_15ED && Schedule(ABC_BLOCK, 49) == 0x2638_0A16
    ensures Schedule(ABC_BLOCK, 50) == 0x6263_83A1 && Schedule(ABC_BLOCK, 51) == 0x4EBF_54DE
    ensures Schedule(ABC_BLOCK, 52) == 0x3835_B44B && Schedule(ABC_BLOCK, 53) == 0x0000_F600
    ensures Schedule(ABC_BLOCK, 54) == 0x1E84_C7A3 && Schedule(ABC_BLOCK, 55) == 0x98E0_4D98
    ensures Schedule(ABC_BLOCK, 56) == 0x651D_16A0 && Schedule(ABC_BLOCK, 57) == 0x6265_8CA1
    ensures Schedule(ABC_BLOCK, 58) == 0x4585_44D6 && Schedule(ABC_BLOCK, 59) == 0x4458_4CB7
    ensures Schedule(ABC_BLOCK, 60) == 0x7BA0_6619 && Schedule(ABC_BLOCK, 61) == 0x6380_AEA2
    ensures Schedule(ABC_BLOCK, 62) == 0x0AE5_5269 && Schedule(ABC_BLOCK, 63) == 0x627B_49A1
  {
    hide Schedule;
    Words32();
    WordIs(48, 0x0000_60C0, 0xD2E1_38C4, 0xB131_C0F0, 0x8E9A_9202, 0xDA94_15ED);
    WordIs(49, 0x053A_37CD, 0x0000_0F00, 0x1626_3BC6, 0x0000_0600, 0x2638_0A16);
    WordIs(50, 0x7445_8547, 0x3AFB_5079, 0x4EBE_D41E, 0xB131_C0F0, 0x6263_83A1);
    WordIs(51, 0xDA94_15ED, 0x898E_04E5, 0x6263_80A1, 0x1626_3BC6, 0x4EBF_54DE);
    WordIs(52, 0x2638_0A16, 0xE2BA_3C2B, 0x1626_3806, 0x4EBE_D41E, 0x3835_B44B);
    WordIs(53, 0x6263_83A1, 0x0000_60C0, 0x0000_18C0, 0x6263_80A1, 0x0000_F600);
    WordIs(54, 0x4EBF_54DE, 0x053A_37CD, 0xD2E1_38C4, 0x1626_3806, 0x1E84_C7A3);
    WordIs(55, 0x3835_B44B, 0x7445_8547, 0x0000_0F00, 0x0000_18C0, 0x98E0_4D98);
    WordIs(56, 0x0000_F600, 0xDA94_15ED, 0x3AFB_5079, 0xD2E1_38C4, 0x651D_16A0);
    WordIs(57, 0x1E84_C7A3, 0x2638_0A16, 0x898E_04E5, 0x0000_0F00, 0x6265_8CA1);
    WordIs(58, 0x98E0_4D98, 0x6263_83A1, 0xE2BA_3C2B, 0x3AFB_5079, 0x4585_44D6);
    WordIs(59, 0x651D_16A0, 0x4EBF_54DE, 0x0000_60C0, 0x898E_04E5, 0x4458_4CB7);
    WordIs(60, 0x6265_8CA1, 0x3835_B44B, 0x053A_37CD, 0xE2BA_3C2B, 0x7BA0_6619);
    WordIs(61, 0x4585_44D6, 0x0000_F600, 0x7445_8547, 0x0000_60C0, 0x6380_AEA2);
    WordIs(62, 0x4458_4CB7, 0x1E84_C7A3, 0xDA94_15ED, 0x053A_37CD, 0x0AE5_5269);
    WordIs(63, 0x7BA0_6619, 0x98E0_4D98, 0x2638_0A16, 0x7445_8547, 0x627B_49A1);
  }

  lemma Words64()
    ensures Schedule(ABC_BLOCK, 64) == 0x7CD4_5C9D && Schedule(ABC_BLOCK, 65) == 0x000F_0000
    ensures Schedule(ABC_BLOCK, 66) == 0xFB50_753A && Schedule(ABC_BLOCK, 67) == 0xEC67_65E8
    ensures Schedule(ABC_BLOCK, 68) == 0xBA3C_2BE2 && Schedule(ABC_BLOCK, 69) == 0x0060_C000
    ensures Schedule(ABC_BLOCK, 70) == 0x3A37_CD05 && Schedule(ABC_BLOCK, 71) == 0x4585_46F4
    ensures Schedule(ABC_BLOCK, 72) == 0xB859_9DD6 && Schedule(ABC_BLOCK, 73) == 0x380A_1A26
    ensures Schedule(ABC_BLOCK, 74) == 0x01E0_2203 && Schedule(ABC_BLOCK, 75) == 0xE7CC_3456
    ensures Schedule(ABC_BLOCK, 76) == 0xE6E6_0B69 && Schedule(ABC_BLOCK, 77) == 0x00F6_0A00
    ensures Schedule(ABC_BLOCK, 78) == 0x5795_EF4F && Schedule(ABC_BLOCK, 79) == 0x822E_0879
  {
    hide Schedule;
    Words48();
    WordIs(64, 0x6380_AEA2, 0x651D_16A0, 0x6263_83A1, 0xDA94_15ED, 0x7CD4_5C9D);
    WordIs(65, 0x0AE5_5269, 0x6265_8CA1, 0x4EBF_54DE, 0x2638_0A16, 0x000F_0000);
    WordIs(66, 0x627B_49A1, 0x4585_44D6, 0x3835_B44B, 0x6263_83A1, 0xFB50_753A);
    WordIs(67, 0x7CD4_5C9D, 0x4458_4CB7, 0x0000_F600, 0x4EBF_54DE, 0xEC67_65E8);
    WordIs(68, 0x000F_0000, 0x7BA0_6619, 0x1E84_C7A3, 0x3835_B44B, 0xBA3C_2BE2);
    WordIs(69, 0xFB50_753A, 0x6380_AEA2, 0x98E0_4D98, 0x0000_F600, 0x0060_C000);
    WordIs(70, 0xEC67_65E8, 0x0AE5_5269, 0x651D_16A0, 0x1E84_C7A3, 0x3A37_CD05);
    WordIs(71, 0xBA3C_2BE2, 0x627B_49A1, 0x6265_8CA1, 0x98E0_4D98, 0x4585_46F4);
    WordIs(72, 0x0060_C000, 0x7CD4_5C9D, 0x4585_44D6, 0x651D_16A0, 0xB859_9DD6);
    WordIs(73, 0x3A37_CD05, 0x000F_0000, 0x4458_4CB7, 0x6265_8CA1, 0x380A_1A26);
    WordIs(74, 0x4585_46F4, 0xFB50_753A, 0x7BA0_6619, 0x4585_44D6, 0x01E0_2203);
    WordIs(75, 0xB859_9DD6, 0xEC67_65E8, 0x6380_AEA2, 0x4458_4CB7, 0xE7CC_3456);
    WordIs(76, 0x380A_1A26, 0xBA3C_2BE2, 0x0AE5_5269, 0x7BA0_6619, 0xE6E6_0B69);
    WordIs(77, 0x01E0_2203, 0x0060_C000, 0x627B_49A1, 0x6380_AEA2, 0x00F6_0A00);
    WordIs(78, 0xE7CC_3456, 0x3A37_CD05, 0x7CD4_5C9D, 0x0AE5_5269, 0x5795_EF4F);
    WordIs(79, 0xE6E6_0B69, 0x4585_46F4, 0x000F_0000, 0x627B_49A1, 0x822E_0879);
  }

  lemma Rounds10()
    ensures Rounds(INITIAL, ABC_BLOCK, 10) == Digest(0x8351_F929, 0x4B6A_E328, 0x27A3_01F5, 0x664F_8C30, 0x0FF1_F290)
  {
    hide Rounds, Schedule;
    RoundsNone(INITIAL, ABC_BLOCK);
    Words0();
    var r0 := Digest(0x6745_2301, 0xEFCD_AB89, 0x98BA_DCFE, 0x1032_5476, 0xC3D2_E1F0);
    var r1 := Digest(0x0116_FC33, 0x6745_2301, 0x7BF3_6AE2, 0x98BA_DCFE, 0x1032_5476);
    RoundIs(0, r0, 0x6162_6380, r1);
    var r2 := Digest(0x8990_536D, 0x0116_FC33, 0x59D1_48C0, 0x7BF3_6AE2, 0x98BA_DCFE);
    RoundIs(1, r1, 0x0000_0000, r2);
    var r3 := Digest(0xA139_0F08, 0x8990_536D, 0xC045_BF0C, 0x59D1_48C0, 0x7BF3_6AE2);
    RoundIs(2, r2, 0x0000_0000, r3);
    var r4 := Digest(0xCDD8_E11B, 0xA139_0F08, 0x6264_14DB, 0xC045_BF0C, 0x59D1_48C0);
    RoundIs(3, r3, 0x0000_0000, r4);
    var r5 := Digest(0xCFD4_99DE, 0xCDD8_E11B, 0x284E_43C2, 0x6264_14DB, 0xC045_BF0C);
    RoundIs(4, r4, 0x0000_0000, r5);
    var r6 := Digest(0x3FC7_CA40, 0xCFD4_99DE, 0xF376_3846, 0x284E_43C2, 0x6264_14DB);
    RoundIs(5, r5, 0x0000_0000, r6);
    var r7 := Digest(0x993E_30C1, 0x3FC7_CA40, 0xB3F5_2677, 0xF376_3846, 0x284E_43C2);
    RoundIs(6, r6, 0x0000_0000, r7);
    var r8 := Digest(0x9E8C_07D4, 0x993E_30C1, 0x0FF1_F290, 0xB3F5_2677, 0xF376_3846);
    RoundIs(7, r7, 0x0000_0000, r8);
    var r9 := Digest(0x4B6A_E328, 0x9E8C_07D4, 0x664F_8C30, 0x0FF1_F290, 0xB3F5_2677);
    RoundIs(8, r8, 0x0000_0000, r9);
    var r10 := Digest(0x8351_F929, 0x4B6A_E328, 0x27A3_01F5, 0x664F_8C30, 0x0FF1_F290);
    RoundIs(9, r9, 0x0000_0000, r10);
  }

  lemma Rounds20()
    ensures Rounds(INITIAL, ABC_BLOCK, 20) == Digest(0xFD9E_1D7D, 0xDC64_901D, 0x20AA_99CA, 0xD3A4_9608, 0xC82F_758B)
  {
    hide Rounds, Schedule;
    Rounds10();
    Words0();
    Words16();
    var r0 := Digest(0x8351_F929, 0x4B6A_E328, 0x27A3_01F5, 0x664F_8C30, 0x0FF1_F290);
    var r1 := Digest(0xFBDA_9E89, 0x8351_F929, 0x12DA_B8CA, 0x27A3_01F5, 0x664F_8C30);
    RoundIs(10, r0, 0x0000_0000, r1);
    var r2 := Digest(0x6318_8FE4, 0xFBDA_9E89, 0x60D4_7E4A, 0x12DA_B8CA, 0x27A3_01F5);
    RoundIs(11, r1, 0x0000_0000, r2);
    var r3 := Digest(0x4607_B664, 0x6318_8FE4, 0x7EF6_A7A2, 0x60D4_7E4A, 0x12DA_B8CA);
    RoundIs(12, r2, 0x0000_0000, r3);
    var r4 := Digest(0x9128_F695, 0x4607_B664, 0x18C6_23F9, 0x7EF6_A7A2, 0x60D4_7E4A);
    RoundIs(13, r3, 0x0000_0000, r4);
    var r5 := Digest(0x196B_EE77, 0x9128_F695, 0x1181_ED99, 0x18C6_23F9, 0x7EF6_A7A2);
    RoundIs(14, r4, 0x0000_0000, r5);
    var r6 := Digest(0x20BD_D62F, 0x196B_EE77, 0x644A_3DA5, 0x1181_ED99, 0x18C6_23F9);
    RoundIs(15, r5, 0x0000_0018, r6);
    var r7 := Digest(0x4E92_5823, 0x20BD_D62F, 0xC65A_FB9D, 0x644A_3DA5, 0x1181_ED99);
    RoundIs(16, r6, 0xC2C4_C700, r7);
    var r8 := Digest(0x82AA_6728, 0x4E92_5823, 0xC82F_758B, 0xC65A_FB9D, 0x644A_3DA5);
    RoundIs(17, r7, 0x0000_0000, r8);
    var r9 := Digest(0xDC64_901D, 0x82AA_6728, 0xD3A4_9608, 0xC82F_758B, 0xC65A_FB9D);
    RoundIs(18, r8, 0x0000_0030, r9);
    var r10 := Digest(0xFD9E_1D7D, 0xDC64_901D, 0x20AA_99CA, 0xD3A4_9608, 0xC82F_758B);
    RoundIs(19, r9, 0x8589_8E01, r10);
  }

  lemma Rounds30()
    ensures Rounds(INITIAL, ABC_BLOCK, 30) == Digest(0xC5FB_AF5D, 0x8370_B52E, 0xD2AA_1365, 0x6F8D_7EF5, 0x1210_4EE9)
  {
    hide Rounds, Schedule;
    Rounds20();
    Words16();
    var r0 := Digest(0xFD9E_1D7D, 0xDC64_901D, 0x20AA_99CA, 0xD3A4_9608, 0xC82F_758B);
    var r1 := Digest(0x1A37_B0CA, 0xFD9E_1D7D, 0x7719_2407, 0x20AA_99CA, 0xD3A4_9608);
    RoundIs(20, r0, 0x0000_0000, r1);
    var r2 := Digest(0x33A2_3BFC, 0x1A37_B0CA, 0x7F67_875F, 0x7719_2407, 0x20AA_99CA);
    RoundIs(21, r1, 0x0000_0060, r2);
    var r3 := Digest(0x2128_3486, 0x33A2_3BFC, 0x868D_EC32, 0x7F67_875F, 0x7719_2407);
    RoundIs(22, r2, 0x0B13_1C03, r3);
    var r4 := Digest(0xD541_F12D, 0x2128_3486, 0x0CE8_8EFF, 0x868D_EC32, 0x7F67_875F);
    RoundIs(23, r3, 0x0000_0030, r4);
    var r5 := Digest(0xC756_7DC6, 0xD541_F12D, 0x884A_0D21, 0x0CE8_8EFF, 0x868D_EC32);
    RoundIs(24, r4, 0x8589_8EC1, r5);
    var r6 := Digest(0x4841_3BA4, 0xC756_7DC6, 0x7550_7C4B, 0x884A_0D21, 0x0CE8_8EFF);
    RoundIs(25, r5, 0x1626_3806, r6);
    var r7 := Digest(0xBE35_FBD5, 0x4841_3BA4, 0xB1D5_9F71, 0x7550_7C4B, 0x884A_0D21);
    RoundIs(26, r6, 0x0000_0000, r7);
    var r8 := Digest(0x4AA8_4D97, 0xBE35_FBD5, 0x1210_4EE9, 0xB1D5_9F71, 0x7550_7C4B);
    RoundIs(27, r7, 0x0000_0180, r8);
    var r9 := Digest(0x8370_B52E, 0x4AA8_4D97, 0x6F8D_7EF5, 0x1210_4EE9, 0xB1D5_9F71);
    RoundIs(28, r8, 0x2C4C_700C, r9);
    var r10 := Digest(0xC5FB_AF5D, 0x8370_B52E, 0xD2AA_1365, 0x6F8D_7EF5, 0x1210_4EE9);
    RoundIs(29, r9, 0x0000_00F0, r10);
  }

  lemma Rounds40()
    ensures Rounds(INITIAL, ABC_BLOCK, 40) == Digest(0x32DE_1CBA, 0x4C98_6405, 0xF718_E5CF, 0x03D4_47F6, 0xF72E_EC32)
  {
    hide Rounds, Schedule;
    Rounds30();
    Words16();
    Words32();
    var r0 := Digest(0xC5FB_AF5D, 0x8370_B52E, 0xD2AA_1365, 0x6F8D_7EF5, 0x1210_4EE9);
    var r1 := Digest(0x1267_B407, 0xC5FB_AF5D, 0xA0DC_2D4B, 0xD2AA_1365, 0x6F8D_7EF5);
    RoundIs(30, r0, 0x93AF_B507, r1);
    var r2 := Digest(0x3B84_5D33, 0x1267_B407, 0x717E_EBD7, 0xA0DC_2D4B, 0xD2AA_1365);
    RoundIs(31, r1, 0x5898_E048, r2);
    var r3 := Digest(0x046F_AA0A, 0x3B84_5D33, 0xC499_ED01, 0x717E_EBD7, 0xA0DC_2D4B);
    RoundIs(32, r2, 0x8E9A_9202, r3);
    var r4 := Digest(0x2C0E_BC11, 0x046F_AA0A, 0xCEE1_174C, 0xC499_ED01, 0x717E_EBD7);
    RoundIs(33, r3, 0x0000_0600, r4);
    var r5 := Digest(0x2179_6AD4, 0x2C0E_BC11, 0x811B_EA82, 0xCEE1_174C, 0xC499_ED01);
    RoundIs(34, r4, 0xB131_C0F0, r5);
    var r6 := Digest(0xDCBB_B0CB, 0x2179_6AD4, 0x4B03_AF04, 0x811B_EA82, 0xCEE1_174C);
    RoundIs(35, r5, 0x1626_3BC6, r6);
    var r7 := Digest(0x0F51_1FD8, 0xDCBB_B0CB, 0x085E_5AB5, 0x4B03_AF04, 0x811B_EA82);
    RoundIs(36, r6, 0x4EBE_D41E, r7);
    var r8 := Digest(0xDC63_973F, 0x0F51_1FD8, 0xF72E_EC32, 0x085E_5AB5, 0x4B03_AF04);
    RoundIs(37, r7, 0x6263_80A1, r8);
    var r9 := Digest(0x4C98_6405, 0xDC63_973F, 0x03D4_47F6, 0xF72E_EC32, 0x085E_5AB5);
    RoundIs(38, r8, 0x1626_3806, r9);
    var r10 := Digest(0x32DE_1CBA, 0x4C98_6405, 0xF718_E5CF, 0x03D4_47F6, 0xF72E_EC32);
    RoundIs(39, r9, 0x0000_18C0, r10);
  }

  lemma Rounds50()
    ensures Rounds(INITIAL, ABC_BLOCK, 50) == Digest(0x1207_31C5, 0xBAF3_9337, 0xAFAB_40B2, 0x2806_E11B, 0x8714_787C)
  {
    hide Rounds, Schedule;
    Rounds40();
    Words32();
    Words48();
    var r0 := Digest(0x32DE_1CBA, 0x4C98_6405, 0xF718_E5CF, 0x03D4_47F6, 0xF72E_EC32);
    var r1 := Digest(0xFC87_DEDF, 0x32DE_1CBA, 0x5326_1901, 0xF718_E5CF, 0x03D4_47F6);
    RoundIs(40, r0, 0xD2E1_38C4, r1);
    var r2 := Digest(0x970A_0D5C, 0xFC87_DEDF, 0x8CB7_872E, 0x5326_1901, 0xF718_E5CF);
    RoundIs(41, r1, 0x0000_0F00, r2);
    var r3 := Digest(0x7F19_3DC5, 0x970A_0D5C, 0xFF21_F7B7, 0x8CB7_872E, 0x5326_1901);
    RoundIs(42, r2, 0x3AFB_5079, r3);
    var r4 := Digest(0xEE1B_1AAF, 0x7F19_3DC5, 0x25C2_8357, 0xFF21_F7B7, 0x8CB7_872E);
    RoundIs(43, r3, 0x898E_04E5, r4);
    var r5 := Digest(0x40F2_8E09, 0xEE1B_1AAF, 0x5FC6_4F71, 0x25C2_8357, 0xFF21_F7B7);
    RoundIs(44, r4, 0xE2BA_3C2B, r5);
    var r6 := Digest(0x1C51_E1F2, 0x40F2_8E09, 0xFB86_C6AB, 0x5FC6_4F71, 0x25C2_8357);
    RoundIs(45, r5, 0x0000_60C0, r6);
    var r7 := Digest(0xA01B_846C, 0x1C51_E1F2, 0x503C_A382, 0xFB86_C6AB, 0x5FC6_4F71);
    RoundIs(46, r6, 0x053A_37CD, r7);
    var r8 := Digest(0xBEAD_02CA, 0xA01B_846C, 0x8714_787C, 0x503C_A382, 0xFB86_C6AB);
    RoundIs(47, r7, 0x7445_8547, r8);
    var r9 := Digest(0xBAF3_9337, 0xBEAD_02CA, 0x2806_E11B, 0x8714_787C, 0x503C_A382);
    RoundIs(48, r8, 0xDA94_15ED, r9);
    var r10 := Digest(0x1207_31C5, 0xBAF3_9337, 0xAFAB_40B2, 0x2806_E11B, 0x8714_787C);
    RoundIs(49, r9, 0x2638_0A16, r10);
  }

  lemma Rounds60()
    ensures Rounds(INITIAL, ABC_BLOCK, 60) == Digest(0x3F52_DE5A, 0x09D7_85FD, 0x3498_BFD4, 0xF211_824F, 0xD799_15AB)
  {
    hide Rounds, Schedule;
    Rounds50();
    Words48();
    var r0 := Digest(0x1207_31C5, 0xBAF3_9337, 0xAFAB_40B2, 0x2806_E11B, 0x8714_787C);
    var r1 := Digest(0x641D_B2CE, 0x1207_31C5, 0xEEBC_E4CD, 0xAFAB_40B2, 0x2806_E11B);
    RoundIs(50, r0, 0x6263_83A1, r1);
    var r2 := Digest(0x3847_AD66, 0x641D_B2CE, 0x4481_CC71, 0xEEBC_E4CD, 0xAFAB_40B2);
    RoundIs(51, r1, 0x4EBF_54DE, r2);
    var r3 := Digest(0xE490_436D, 0x3847_AD66, 0x9907_6CB3, 0x4481_CC71, 0xEEBC_E4CD);
    RoundIs(52, r2, 0x3835_B44B, r3);
    var r4 := Digest(0x27E9_F1D8, 0xE490_436D, 0x8E11_EB59, 0x9907_6CB3, 0x4481_CC71);
    RoundIs(53, r3, 0x0000_F600, r4);
    var r5 := Digest(0x7B71_F76D, 0x27E9_F1D8, 0x7924_10DB, 0x8E11_EB59, 0x9907_6CB3);
    RoundIs(54, r4, 0x1E84_C7A3, r5);
    var r6 := Digest(0x5E64_56AF, 0x7B71_F76D, 0x09FA_7C76, 0x7924_10DB, 0x8E11_EB59);
    RoundIs(55, r5, 0x98E0_4D98, r6);
    var r7 := Digest(0xC846_093F, 0x5E64_56AF, 0x5EDC_7DDB, 0x09FA_7C76, 0x7924_10DB);
    RoundIs(56, r6, 0x651D_16A0, r7);
    var r8 := Digest(0xD262_FF50, 0xC846_093F, 0xD799_15AB, 0x5EDC_7DDB, 0x09FA_7C76);
    RoundIs(57, r7, 0x6265_8CA1, r8);
    var r9 := Digest(0x09D7_85FD, 0xD262_FF50, 0xF211_824F, 0xD799_15AB, 0x5EDC_7DDB);
    RoundIs(58, r8, 0x4585_44D6, r9);
    var r10 := Digest(0x3F52_DE5A, 0x09D7_85FD, 0x3498_BFD4, 0xF211_824F, 0xD799_15AB);
    RoundIs(59, r9, 0x4458_4CB7, r10);
  }

  lemma Rounds70()
    ensures Rounds(INITIAL, ABC_BLOCK, 70) == Digest(0x3F25_88C2, 0x4970_93C0, 0xDE37_534A, 0x030F_7CAD, 0x4405_957E)
  {
    hide Rounds, Schedule;
    Rounds60();
    Words48();
    Words64();
    var r0 := Digest(0x3F52_DE5A, 0x09D7_85FD, 0x3498_BFD4, 0xF211_824F, 0xD799_15AB);
    var r1 := Digest(0xD756_C147, 0x3F52_DE5A, 0x4275_E17F, 0x3498_BFD4, 0xF211_824F);
    RoundIs(60, r0, 0x7BA0_6619, r1);
    var r2 := Digest(0x548C_9CB2, 0xD756_C147, 0x8FD4_B796, 0x4275_E17F, 0x3498_BFD4);
    RoundIs(61, r1, 0x6380_AEA2, r2);
    var r3 := Digest(0xB66C_020B, 0x548C_9CB2, 0xF5D5_B051, 0x8FD4_B796, 0x4275_E17F);
    RoundIs(62, r2, 0x0AE5_5269, r3);
    var r4 := Digest(0x6B61_C9E1, 0xB66C_020B, 0x9523_272C, 0xF5D5_B051, 0x8FD4_B796);
    RoundIs(63, r3, 0x627B_49A1, r4);
    var r5 := Digest(0x19DF_A7AC, 0x6B61_C9E1, 0xED9B_0082, 0x9523_272C, 0xF5D5_B051);
    RoundIs(64, r4, 0x7CD4_5C9D, r5);
    var r6 := Digest(0x1016_55F9, 0x19DF_A7AC, 0x5AD8_7278, 0xED9B_0082, 0x9523_272C);
    RoundIs(65, r5, 0x000F_0000, r6);
    var r7 := Digest(0x0C3D_F2B4, 0x1016_55F9, 0x0677_E9EB, 0x5AD8_7278, 0xED9B_0082);
    RoundIs(66, r6, 0xFB50_753A, r7);
    var r8 := Digest(0x78DD_4D2B, 0x0C3D_F2B4, 0x4405_957E, 0x0677_E9EB, 0x5AD8_7278);
    RoundIs(67, r7, 0xEC67_65E8, r8);
    var r9 := Digest(0x4970_93C0, 0x78DD_4D2B, 0x030F_7CAD, 0x4405_957E, 0x0677_E9EB);
    RoundIs(68, r8, 0xBA3C_2BE2, r9);
    var r10 := Digest(0x3F25_88C2, 0x4970_93C0, 0xDE37_534A, 0x030F_7CAD, 0x4405_957E);
    RoundIs(69, r9, 0x0060_C000, r10);
  }

  lemma Rounds80()
    ensures Rounds(INITIAL, ABC_BLOCK, 80) == Digest(0x4254_1B35, 0x5738_D5E1, 0x2183_4873, 0x681E_6DF6, 0xD8FD_F6AD)
  {
    hide Rounds, Schedule;
    Rounds70();
    Words64();
    var r0 := Digest(0x3F25_88C2, 0x4970_93C0, 0xDE37_534A, 0x030F_7CAD, 0x4405_957E);
    var r1 := Digest(0xC199_F8C7, 0x3F25_88C2, 0x125C_24F0, 0xDE37_534A, 0x030F_7CAD);
    RoundIs(70, r0, 0x3A37_CD05, r1);
    var r2 := Digest(0x3985_9DE7, 0xC199_F8C7, 0x8FC9_6230, 0x125C_24F0, 0xDE37_534A);
    RoundIs(71, r1, 0x4585_46F4, r2);
    var r3 := Digest(0xEDB4_2DE4, 0x3985_9DE7, 0xF066_7E31, 0x8FC9_6230, 0x125C_24F0);
    RoundIs(72, r2, 0xB859_9DD6, r3);
    var r4 := Digest(0x1179_3F6F, 0xEDB4_2DE4, 0xCE61_6779, 0xF066_7E31, 0x8FC9_6230);
    RoundIs(73, r3, 0x380A_1A26, r4);
    var r5 := Digest(0x5EE7_6897, 0x1179_3F6F, 0x3B6D_0B79, 0xCE61_6779, 0xF066_7E31);
    RoundIs(74, r4, 0x01E0_2203, r5);
    var r6 := Digest(0x63F7_DAB7, 0x5EE7_6897, 0xC45E_4FDB, 0x3B6D_0B79, 0xCE61_6779);
    RoundIs(75, r5, 0xE7CC_3456, r6);
    var r7 := Digest(0xA079_B7D9, 0x63F7_DAB7, 0xD7B9_DA25, 0xC45E_4FDB, 0x3B6D_0B79);
    RoundIs(76, r6, 0xE6E6_0B69, r7);
    var r8 := Digest(0x860D_21CC, 0xA079_B7D9, 0xD8FD_F6AD, 0xD7B9_DA25, 0xC45E_4FDB);
    RoundIs(77, r7, 0x00F6_0A00, r8);
    var r9 := Digest(0x5738_D5E1, 0x860D_21CC, 0x681E_6DF6, 0xD8FD_F6AD, 0xD7B9_DA25);
    RoundIs(78, r8, 0x5795_EF4F, r9);
    var r10 := Digest(0x4254_1B35, 0x5738_D5E1, 0x2183_4873, 0x681E_6DF6, 0xD8FD_F6AD);
    RoundIs(79, r9, 0x822E_0879, r10);
  }

  /** The digest of the three letters. */
  lemma DigestOfAbc()
    ensures Sha1.Sha1([0x61, 0x62, 0x63]) == Digest(0xA999_3E36, 0x4706_816A, 0xBA3E_2571, 0x7850_C26C, 0x9CD0_D89D)
  {
    hide Rounds, Schedule;
    Rounds80();
    var padded := Padded([0x61, 0x62, 0x63]);
    assert padded == ABC_BLOCK;
    assert padded[..0] == [] && padded[0..] == ABC_BLOCK;
  }
}
