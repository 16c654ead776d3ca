// The first example of FIPS PUB 180-1, appendix A: the digest of "abc", word by
// word and round by round.

module Sha1Check {
  import opened Words
  import opened Sha1Spec

  const ABC: seq<bv8> := [0x61, 0x62, 0x63]

  ghost predicate IsAbc(m: seq<Word>) {
    |m| == 16 && m[0] == 0x6162_6380 && m[15] == 0x18 && forall t :: 0 < t < 15 ==> m[t] == 0
  }

  // One more schedule word, given the four it comes from.
  lemma Word(m: seq<Word>, t: nat, a: Word, b: Word, c: Word, d: Word, w: Word)
    requires |m| == 16 && t >= 16
    requires Schedule(m, t - 3) == a && Schedule(m, t - 8) == b && Schedule(m, t - 14) == c && Schedule(m, t - 16) == d
    requires var x := a ^ b ^ c ^ d; w == (x << 1) | (x >> 31)
    ensures Schedule(m, t) == w
  {
  }

  lemma Words16(m: seq<Word>)
    requires IsAbc(m)
    ensures Schedule(m, 16) == 0xC2C4_C700 && Schedule(m, 17) == 0x0000_0000
    ensures Schedule(m, 18) == 0x0000_0030 && Schedule(m, 19) == 0x8589_8E01
    ensures Schedule(m, 20) == 0x0000_0000 && Schedule(m, 21) == 0x0000_0060
    ensures Schedule(m, 22) == 0x0B13_1C03 && Schedule(m, 23) == 0x0000_0030
    ensures Schedule(m, 24) == 0x8589_8EC1 && Schedule(m, 25) == 0x1626_3806
    ensures Schedule(m, 26) == 0x0000_0000 && Schedule(m, 27) == 0x0000_0180
    ensures Schedule(m, 28) == 0x2C4C_700C && Schedule(m, 29) == 0x0000_00F0
    ensures Schedule(m, 30) == 0x93AF_B507 && Schedule(m, 31) == 0x5898_E048
  {
    assert forall t: nat :: t < 16 ==> Schedule(m, t) == m[t];
    hide Schedule;
    Word(m, 16, 0x0000_0000, 0x0000_0000, 0x0000_0000, 0x6162_6380, 0xC2C4_C700);
    Word(m, 17, 0x0000_0000, 0x0000_0000, 0x0000_0000, 0x0000_0000, 0x0000_0000);
    Word(m, 18, 0x0000_0018, 0x0000_0000, 0x0000_0000, 0x0000_0000, 0x0000_0030);
    Word(m, 19, 0xC2C4_C700, 0x0000_0000, 0x0000_0000, 0x0000_0000, 0x8589_8E01);
    Word(m, 20, 0x0000_0000, 0x0000_0000, 0x0000_0000, 0x0000_0000, 0x0000_0000);
    Word(m, 21, 0x0000_0030, 0x0000_0000, 0x0000_0000, 0x0000_0000, 0x0000_0060);
    Word(m, 22, 0x8589_8E01, 0x0000_0000, 0x0000_0000, 0x0000_0000, 0x0B13_1C03);
    Word(m, 23, 0x0000_0000, 0x0000_0018, 0x0000_0000, 0x0000_0000, 0x0000_0030);
    Word(m, 24, 0x0000_0060, 0xC2C4_C700, 0x0000_0000, 0x0000_0000, 0x8589_8EC1);
    Word(m, 25, 0x0B13_1C03, 0x0000_0000, 0x0000_0000, 0x0000_0000, 0x1626_3806);
    Word(m, 26, 0x0000_0030, 0x0000_0030, 0x0000_0000, 0x0000_0000, 0x0000_0000);
    Word(m, 27, 0x8589_8EC1, 0x8589_8E01, 0x0000_0000, 0x0000_0000, 0x0000_0180);
    Word(m, 28, 0x1626_3806, 0x0000_0000, 0x0000_0000, 0x0000_0000, 0x2C4C_700C);
    Word(m, 29, 0x0000_0000, 0x0000_0060, 0x0000_0018, 0x0000_0000, 0x0000_00F0);
    Word(m, 30, 0x0000_0180, 0x0B13_1C03, 0xC2C4_C700, 0x0000_0000, 0x93AF_B507);
    Word(m, 31, 0x2C4C_700C, 0x0000_0030, 0x0000_0000, 0x0000_0018, 0x5898_E048);
  }

  lemma Words32(m: seq<Word>)
    requires |m| == 16
    requires Schedule(m, 16) == 0xC2C4_C700 && Schedule(m, 17) == 0x0000_0000
    requires Schedule(m, 18) == 0x0000_0030 && Schedule(m, 19) == 0x8589_8E01
    requires Schedule(m, 20) == 0x0000_0000 && Schedule(m, 21) == 0x0000_0060
    requires Schedule(m, 22) == 0x0B13_1C03 && Schedule(m, 23) == 0x0000_0030
    requires Schedule(m, 24) == 0x8589_8EC1 && Schedule(m, 25) == 0x1626_3806
    requires Schedule(m, 26) == 0x0000_0000 && Schedule(m, 27) == 0x0000_0180
    requires Schedule(m, 28) == 0x2C4C_700C && Schedule(m, 29) == 0x0000_00F0
    requires Schedule(m, 30) == 0x93AF_B507 && Schedule(m, 31) == 0x5898_E048
    ensures Schedule(m, 32) == 0x8E9A_9202 && Schedule(m, 33) == 0x0000_0600
    ensures Schedule(m, 34) == 0xB131_C0F0 && Schedule(m, 35) == 0x1626_3BC6
    ensures Schedule(m, 36) == 0x4EBE_D41E && Schedule(m, 37) == 0x6263_80A1
    ensures Schedule(m, 38) == 0x1626_3806 && Schedule(m, 39) == 0x0000_18C0
    ensures Schedule(m, 40) == 0xD2E1_38C4 && Schedule(m, 41) == 0x0000_0F00
    ensures Schedule(m, 42) == 0x3AFB_5079 && Schedule(m, 43) == 0x898E_04E5
    ensures Schedule(m, 44) == 0xE2BA_3C2B && Schedule(m, 45) == 0x0000_60C0
    ensures Schedule(m, 46) == 0x053A_37CD && Schedule(m, 47) == 0x7445_8547
  {
    hide Schedule;
    Word(m, 32, 0x0000_00F0, 0x8589_8EC1, 0x0000_0030, 0xC2C4_C700, 0x8E9A_9202);
    Word(m, 33, 0x93AF_B507, 0x1626_3806, 0x8589_8E01, 0x0000_0000, 0x0000_0600);
    Word(m, 34, 0x5898_E048, 0x0000_0000, 0x0000_0000, 0x0000_0030, 0xB131_C0F0);
    Word(m, 35, 0x8E9A_9202, 0x0000_0180, 0x0000_0060, 0x8589_8E01, 0x1626_3BC6);
    Word(m, 36, 0x0000_0600, 0x2C4C_700C, 0x0B13_1C03, 0x0000_0000, 0x4EBE_D41E);
    Word(m, 37, 0xB131_C0F0, 0x0000_00F0, 0x0000_0030, 0x0000_0060, 0x6263_80A1);
    Word(m, 38, 0x1626_3BC6, 0x93AF_B507, 0x8589_8EC1, 0x0B13_1C03, 0x1626_3806);
    Word(m, 39, 0x4EBE_D41E, 0x5898_E048, 0x1626_3806, 0x0000_0030, 0x0000_18C0);
    Word(m, 40, 0x6263_80A1, 0x8E9A_9202, 0x0000_0000, 0x8589_8EC1, 0xD2E1_38C4);
    Word(m, 41, 0x1626_3806, 0x0000_0600, 0x0000_0180, 0x1626_3806, 0x0000_0F00);
    Word(m, 42, 0x0000_18C0, 0xB131_C0F0, 0x2C4C_700C, 0x0000_0000, 0x3AFB_5079);
    Word(m, 43, 0xD2E1_38C4, 0x1626_3BC6, 0x0000_00F0, 0x0000_0180, 0x898E_04E5);
    Word(m, 44, 0x0000_0F00, 0x4EBE_D41E, 0x93AF_B507, 0x2C4C_700C, 0xE2BA_3C2B);
    Word(m, 45, 0x3AFB_5079, 0x6263_80A1, 0x5898_E048, 0x0000_00F0, 0x0000_60C0);
    Word(m, 46, 0x898E_04E5, 0x1626_3806, 0x8E9A_9202, 0x93AF_B507, 0x053A_37CD);
    Word(m, 47, 0xE2BA_3C2B, 0x0000_18C0, 0x0000_0600, 0x5898_E048, 0x7445_8547);
  }

  lemma Words48(m: seq<Word>)
    requires |m| == 16
    requires Schedule(m, 32) == 0x8E9A_9202 && Schedule(m, 33) == 0x0000_0600
    requires Schedule(m, 34) == 0xB131_C0F0 && Schedule(m, 35) == 0x1626_3BC6
    requires Schedule(m, 36) == 0x4EBE_D41E && Schedule(m, 37) == 0x6263_80A1
    requires Schedule(m, 38) == 0x1626_3806 && Schedule(m, 39) == 0x0000_18C0
    requires Schedule(m, 40) == 0xD2E1_38C4 && Schedule(m, 41) == 0x0000_0F00
    requires Schedule(m, 42) == 0x3AFB_5079 && Schedule(m, 43) == 0x898E_04E5
    requires Schedule(m, 44) == 0xE2BA_3C2B && Schedule(m, 45) == 0x0000_60C0
    requires Schedule(m, 46) == 0x053A_37CD && Schedule(m, 47) == 0x7445_8547
    ensures Schedule(m, 48) == 0xDA94_15ED && Schedule(m, 49) == 0x2638_0A16
    ensures Schedule(m, 50) == 0x6263_83A1 && Schedule(m, 51) == 0x4EBF_54DE
    ensures Schedule(m, 52) == 0x3835_B44B && Schedule(m, 53) == 0x0000_F600
    ensures Schedule(m, 54) == 0x1E84_C7A3 && Schedule(m, 55) == 0x98E0_4D98
    ensures Schedule(m, 56) == 0x651D_16A0 && Schedule(m, 57) == 0x6265_8CA1
    ensures Schedule(m, 58) == 0x4585_44D6 && Schedule(m, 59) == 0x4458_4CB7
    ensures Schedule(m, 60) == 0x7BA0_6619 && Schedule(m, 61) == 0x6380_AEA2
    ensures Schedule(m, 62) == 0x0AE5_5269 && Schedule(m, 63) == 0x627B_49A1
  {
    hide Schedule;
    Word(m, 48, 0x0000_60C0, 0xD2E1_38C4, 0xB131_C0F0, 0x8E9A_9202, 0xDA94_15ED);
    Word(m, 49, 0x053A_37CD, 0x0000_0F00, 0x1626_3BC6, 0x0000_0600, 0x2638_0A16);
    Word(m, 50, 0x7445_8547, 0x3AFB_5079, 0x4EBE_D41E, 0xB131_C0F0, 0x6263_83A1);
    Word(m, 51, 0xDA94_15ED, 0x898E_04E5, 0x6263_80A1, 0x1626_3BC6, 0x4EBF_54DE);
    Word(m, 52, 0x2638_0A16, 0xE2BA_3C2B, 0x1626_3806, 0x4EBE_D41E, 0x3835_B44B);
    Word(m, 53, 0x6263_83A1, 0x0000_60C0, 0x0000_18C0, 0x6263_80A1, 0x0000_F600);
    Word(m, 54, 0x4EBF_54DE, 0x053A_37CD, 0xD2E1_38C4, 0x1626_3806, 0x1E84_C7A3);
    Word(m, 55, 0x3835_B44B, 0x7445_8547, 0x0000_0F00, 0x0000_18C0, 0x98E0_4D98);
    Word(m, 56, 0x0000_F600, 0xDA94_15ED, 0x3AFB_5079, 0xD2E1_38C4, 0x651D_16A0);
    Word(m, 57, 0x1E84_C7A3, 0x2638_0A16, 0x898E_04E5, 0x0000_0F00, 0x6265_8CA1);
    Word(m, 58, 0x98E0_4D98, 0x6263_83A1, 0xE2BA_3C2B, 0x3AFB_5079, 0x4585_44D6);
    Word(m, 59, 0x651D_16A0, 0x4EBF_54DE, 0x0000_60C0, 0x898E_04E5, 0x4458_4CB7);
    Word(m, 60, 0x6265_8CA1, 0x3835_B44B, 0x053A_37CD, 0xE2BA_3C2B, 0x7BA0_6619);
    Word(m, 61, 0x4585_44D6, 0x0000_F600, 0x7445_8547, 0x0000_60C0, 0x6380_AEA2);
    Word(m, 62, 0x4458_4CB7, 0x1E84_C7A3, 0xDA94_15ED, 0x053A_37CD, 0x0AE5_5269);
    Word(m, 63, 0x7BA0_6619, 0x98E0_4D98, 0x2638_0A16, 0x7445_8547, 0x627B_49A1);
  }

  lemma Words64(m: seq<Word>)
    requires |m| == 16
    requires Schedule(m, 48) == 0xDA94_15ED && Schedule(m, 49) == 0x2638_0A16
    requires Schedule(m, 50) == 0x6263_83A1 && Schedule(m, 51) == 0x4EBF_54DE
    requires Schedule(m, 52) == 0x3835_B44B && Schedule(m, 53) == 0x0000_F600
    requires Schedule(m, 54) == 0x1E84_C7A3 && Schedule(m, 55) == 0x98E0_4D98
    requires Schedule(m, 56) == 0x651D_16A0 && Schedule(m, 57) == 0x6265_8CA1
    requires Schedule(m, 58) == 0x4585_44D6 && Schedule(m, 59) == 0x4458_4CB7
    requires Schedule(m, 60) == 0x7BA0_6619 && Schedule(m, 61) == 0x6380_AEA2
    requires Schedule(m, 62) == 0x0AE5_5269 && Schedule(m, 63) == 0x627B_49A1
    ensures Schedule(m, 64) == 0x7CD4_5C9D && Schedule(m, 65) == 0x000F_0000
    ensures Schedule(m, 66) == 0xFB50_753A && Schedule(m, 67) == 0xEC67_65E8
    ensures Schedule(m, 68) == 0xBA3C_2BE2 && Schedule(m, 69) == 0x0060_C000
    ensures Schedule(m, 70) == 0x3A37_CD05 && Schedule(m, 71) == 0x4585_46F4
    ensures Schedule(m, 72) == 0xB859_9DD6 && Schedule(m, 73) == 0x380A_1A26
    ensures Schedule(m, 74) == 0x01E0_2203 && Schedule(m, 75) == 0xE7CC_3456
    ensures Schedule(m, 76) == 0xE6E6_0B69 && Schedule(m, 77) == 0x00F6_0A00
    ensures Schedule(m, 78) == 0x5795_EF4F && Schedule(m, 79) == 0x822E_0879
  {
    hide Schedule;
    Word(m, 64, 0x6380_AEA2, 0x651D_16A0, 0x6263_83A1, 0xDA94_15ED, 0x7CD4_5C9D);
    Word(m, 65, 0x0AE5_5269, 0x6265_8CA1, 0x4EBF_54DE, 0x2638_0A16, 0x000F_0000);
    Word(m, 66, 0x627B_49A1, 0x4585_44D6, 0x3835_B44B, 0x6263_83A1, 0xFB50_753A);
    Word(m, 67, 0x7CD4_5C9D, 0x4458_4CB7, 0x0000_F600, 0x4EBF_54DE, 0xEC67_65E8);
    Word(m, 68, 0x000F_0000, 0x7BA0_6619, 0x1E84_C7A3, 0x3835_B44B, 0xBA3C_2BE2);
    Word(m, 69, 0xFB50_753A, 0x6380_AEA2, 0x98E0_4D98, 0x0000_F600, 0x0060_C000);
    Word(m, 70, 0xEC67_65E8, 0x0AE5_5269, 0x651D_16A0, 0x1E84_C7A3, 0x3A37_CD05);
    Word(m, 71, 0xBA3C_2BE2, 0x627B_49A1, 0x6265_8CA1, 0x98E0_4D98, 0x4585_46F4);
    Word(m, 72, 0x0060_C000, 0x7CD4_5C9D, 0x4585_44D6, 0x651D_16A0, 0xB859_9DD6);
    Word(m, 73, 0x3A37_CD05, 0x000F_0000, 0x4458_4CB7, 0x6265_8CA1, 0x380A_1A26);
    Word(m, 74, 0x4585_46F4, 0xFB50_753A, 0x7BA0_6619, 0x4585_44D6, 0x01E0_2203);
    Word(m, 75, 0xB859_9DD6, 0xEC67_65E8, 0x6380_AEA2, 0x4458_4CB7, 0xE7CC_3456);
    Word(m, 76, 0x380A_1A26, 0xBA3C_2BE2, 0x0AE5_5269, 0x7BA0_6619, 0xE6E6_0B69);
    Word(m, 77, 0x01E0_2203, 0x0060_C000, 0x627B_49A1, 0x6380_AEA2, 0x00F6_0A00);
    Word(m, 78, 0xE7CC_3456, 0x3A37_CD05, 0x7CD4_5C9D, 0x0AE5_5269, 0x5795_EF4F);
    Word(m, 79, 0xE6E6_0B69, 0x4585_46F4, 0x000F_0000, 0x627B_49A1, 0x822E_0879);
  }

  // One more round: x is the new first register, y the rotated one.
  lemma Next(m: seq<Word>, t: nat, r: Regs, w: Word, x: Word, y: Word) returns (next: Regs)
    requires |m| == 16 && Rounds(H0, m, t) == r && Schedule(m, t) == w
    requires x == Temp((r.a << 5) | (r.a >> 27), F(t, r.b, r.c, r.d), r.e, w, K(t)) && y == (r.b << 30) | (r.b >> 2)
    ensures next == Regs(x, r.a, y, r.c, r.d) && Rounds(H0, m, t + 1) == next
  {
    hide Schedule, F, K, Temp;
    next := Regs(x, r.a, y, r.c, r.d);
  }

  lemma Rounds0(m: seq<Word>)
    requires |m| == 16 && Rounds(H0, m, 0) == Regs(0x6745_2301, 0xEFCD_AB89, 0x98BA_DCFE, 0x1032_5476, 0xC3D2_E1F0)
    requires Schedule(m, 0) == 0x6162_6380 && Schedule(m, 1) == 0x0000_0000 && Schedule(m, 2) == 0x0000_0000
    requires Schedule(m, 3) == 0x0000_0000 && Schedule(m, 4) == 0x0000_0000 && Schedule(m, 5) == 0x0000_0000
    requires Schedule(m, 6) == 0x0000_0000 && Schedule(m, 7) == 0x0000_0000 && Schedule(m, 8) == 0x0000_0000
    requires Schedule(m, 9) == 0x0000_0000
    ensures Rounds(H0, m, 10) == Regs(0x8351_F929, 0x4B6A_E328, 0x27A3_01F5, 0x664F_8C30, 0x0FF1_F290)
  {
    hide Rounds, Schedule;
    var r := Regs(0x6745_2301, 0xEFCD_AB89, 0x98BA_DCFE, 0x1032_5476, 0xC3D2_E1F0);
    r := Next(m, 0, r, 0x6162_6380, 0x0116_FC33, 0x7BF3_6AE2);
    r := Next(m, 1, r, 0x0000_0000, 0x8990_536D, 0x59D1_48C0);
    r := Next(m, 2, r, 0x0000_0000, 0xA139_0F08, 0xC045_BF0C);
    r := Next(m, 3, r, 0x0000_0000, 0xCDD8_E11B, 0x6264_14DB);
    r := Next(m, 4, r, 0x0000_0000, 0xCFD4_99DE, 0x284E_43C2);
    r := Next(m, 5, r, 0x0000_0000, 0x3FC7_CA40, 0xF376_3846);
    r := Next(m, 6, r, 0x0000_0000, 0x993E_30C1, 0xB3F5_2677);
    r := Next(m, 7, r, 0x0000_0000, 0x9E8C_07D4, 0x0FF1_F290);
    r := Next(m, 8, r, 0x0000_0000, 0x4B6A_E328, 0x664F_8C30);
    r := Next(m, 9, r, 0x0000_0000, 0x8351_F929, 0x27A3_01F5);
  }

  lemma Rounds10(m: seq<Word>)
    requires |m| == 16 && Rounds(H0, m, 10) == Regs(0x8351_F929, 0x4B6A_E328, 0x27A3_01F5, 0x664F_8C30, 0x0FF1_F290)
    requires Schedule(m, 10) == 0x0000_0000 && Schedule(m, 11) == 0x0000_0000 && Schedule(m, 12) == 0x0000_0000
    requires Schedule(m, 13) == 0x0000_0000 && Schedule(m, 14) == 0x0000_0000 && Schedule(m, 15) == 0x0000_0018
    requires Schedule(m, 16) == 0xC2C4_C700 && Schedule(m, 17) == 0x0000_0000 && Schedule(m, 18) == 0x0000_0030
    requires Schedule(m, 19) == 0x8589_8E01
    ensures Rounds(H0, m, 20) == Regs(0xFD9E_1D7D, 0xDC64_901D, 0x20AA_99CA, 0xD3A4_9608, 0xC82F_758B)
  {
    hide Rounds, Schedule;
    var r := Regs(0x8351_F929, 0x4B6A_E328, 0x27A3_01F5, 0x664F_8C30, 0x0FF1_F290);
    r := Next(m, 10, r, 0x0000_0000, 0xFBDA_9E89, 0x12DA_B8CA);
    r := Next(m, 11, r, 0x0000_0000, 0x6318_8FE4, 0x60D4_7E4A);
    r := Next(m, 12, r, 0x0000_0000, 0x4607_B664, 0x7EF6_A7A2);
    r := Next(m, 13, r, 0x0000_0000, 0x9128_F695, 0x18C6_23F9);
    r := Next(m, 14, r, 0x0000_0000, 0x196B_EE77, 0x1181_ED99);
    r := Next(m, 15, r, 0x0000_0018, 0x20BD_D62F, 0x644A_3DA5);
    r := Next(m, 16, r, 0xC2C4_C700, 0x4E92_5823, 0xC65A_FB9D);
    r := Next(m, 17, r, 0x0000_0000, 0x82AA_6728, 0xC82F_758B);
    r := Next(m, 18, r, 0x0000_0030, 0xDC64_901D, 0xD3A4_9608);
    r := Next(m, 19, r, 0x8589_8E01, 0xFD9E_1D7D, 0x20AA_99CA);
  }

  lemma Rounds20(m: seq<Word>)
    requires |m| == 16 && Rounds(H0, m, 20) == Regs(0xFD9E_1D7D, 0xDC64_901D, 0x20AA_99CA, 0xD3A4_9608, 0xC82F_758B)
    requires Schedule(m, 20) == 0x0000_0000 && Schedule(m, 21) == 0x0000_0060 && Schedule(m, 22) == 0x0B13_1C03
    requires Schedule(m, 23) == 0x0000_0030 && Schedule(m, 24) == 0x8589_8EC1 && Schedule(m, 25) == 0x1626_3806
    requires Schedule(m, 26) == 0x0000_0000 && Schedule(m, 27) == 0x0000_0180 && Schedule(m, 28) == 0x2C4C_700C
    requires Schedule(m, 29) == 0x0000_00F0
    ensures Rounds(H0, m, 30) == Regs(0xC5FB_AF5D, 0x8370_B52E, 0xD2AA_1365, 0x6F8D_7EF5, 0x1210_4EE9)
  {
    hide Rounds, Schedule;
    var r := Regs(0xFD9E_1D7D, 0xDC64_901D, 0x20AA_99CA, 0xD3A4_9608, 0xC82F_758B);
    r := Next(m, 20, r, 0x0000_0000, 0x1A37_B0CA, 0x7719_2407);
    r := Next(m, 21, r, 0x0000_0060, 0x33A2_3BFC, 0x7F67_875F);
    r := Next(m, 22, r, 0x0B13_1C03, 0x2128_3486, 0x868D_EC32);
    r := Next(m, 23, r, 0x0000_0030, 0xD541_F12D, 0x0CE8_8EFF);
    r := Next(m, 24, r, 0x8589_8EC1, 0xC756_7DC6, 0x884A_0D21);
    r := Next(m, 25, r, 0x1626_3806, 0x4841_3BA4, 0x7550_7C4B);
    r := Next(m, 26, r, 0x0000_0000, 0xBE35_FBD5, 0xB1D5_9F71);
    r := Next(m, 27, r, 0x0000_0180, 0x4AA8_4D97, 0x1210_4EE9);
    r := Next(m, 28, r, 0x2C4C_700C, 0x8370_B52E, 0x6F8D_7EF5);
    r := Next(m, 29, r, 0x0000_00F0, 0xC5FB_AF5D, 0xD2AA_1365);
  }

  lemma Rounds30(m: seq<Word>)
    requires |m| == 16 && Rounds(H0, m, 30) == Regs(0xC5FB_AF5D, 0x8370_B52E, 0xD2AA_1365, 0x6F8D_7EF5, 0x1210_4EE9)
    requires Schedule(m, 30) == 0x93AF_B507 && Schedule(m, 31) == 0x5898_E048 && Schedule(m, 32) == 0x8E9A_9202
    requires Schedule(m, 33) == 0x0000_0600 && Schedule(m, 34) == 0xB131_C0F0 && Schedule(m, 35) == 0x1626_3BC6
    requires Schedule(m, 36) == 0x4EBE_D41E && Schedule(m, 37) == 0x6263_80A1 && Schedule(m, 38) == 0x1626_3806
    requires Schedule(m, 39) == 0x0000_18C0
    ensures Rounds(H0, m, 40) == Regs(0x32DE_1CBA, 0x4C98_6405, 0xF718_E5CF, 0x03D4_47F6, 0xF72E_EC32)
  {
    hide Rounds, Schedule;
    var r := Regs(0xC5FB_AF5D, 0x8370_B52E, 0xD2AA_1365, 0x6F8D_7EF5, 0x1210_4EE9);
    r := Next(m, 30, r, 0x93AF_B507, 0x1267_B407, 0xA0DC_2D4B);
    r := Next(m, 31, r, 0x5898_E048, 0x3B84_5D33, 0x717E_EBD7);
    r := Next(m, 32, r, 0x8E9A_9202, 0x046F_AA0A, 0xC499_ED01);
    r := Next(m, 33, r, 0x0000_0600, 0x2C0E_BC11, 0xCEE1_174C);
    r := Next(m, 34, r, 0xB131_C0F0, 0x2179_6AD4, 0x811B_EA82);
    r := Next(m, 35, r, 0x1626_3BC6, 0xDCBB_B0CB, 0x4B03_AF04);
    r := Next(m, 36, r, 0x4EBE_D41E, 0x0F51_1FD8, 0x085E_5AB5);
    r := Next(m, 37, r, 0x6263_80A1, 0xDC63_973F, 0xF72E_EC32);
    r := Next(m, 38, r, 0x1626_3806, 0x4C98_6405, 0x03D4_47F6);
    r := Next(m, 39, r, 0x0000_18C0, 0x32DE_1CBA, 0xF718_E5CF);
  }

  lemma Rounds40(m: seq<Word>)
    requires |m| == 16 && Rounds(H0, m, 40) == Regs(0x32DE_1CBA, 0x4C98_6405, 0xF718_E5CF, 0x03D4_47F6, 0xF72E_EC32)
    requires Schedule(m, 40) == 0xD2E1_38C4 && Schedule(m, 41) == 0x0000_0F00 && Schedule(m, 42) == 0x3AFB_5079
    requires Schedule(m, 43) == 0x898E_04E5 && Schedule(m, 44) == 0xE2BA_3C2B && Schedule(m, 45) == 0x0000_60C0
    requires Schedule(m, 46) == 0x053A_37CD && Schedule(m, 47) == 0x7445_8547 && Schedule(m, 48) == 0xDA94_15ED
    requires Schedule(m, 49) == 0x2638_0A16
    ensures Rounds(H0, m, 50) == Regs(0x1207_31C5, 0xBAF3_9337, 0xAFAB_40B2, 0x2806_E11B, 0x8714_787C)
  {
    hide Rounds, Schedule;
    var r := Regs(0x32DE_1CBA, 0x4C98_6405, 0xF718_E5CF, 0x03D4_47F6, 0xF72E_EC32);
    r := Next(m, 40, r, 0xD2E1_38C4, 0xFC87_DEDF, 0x5326_1901);
    r := Next(m, 41, r, 0x0000_0F00, 0x970A_0D5C, 0x8CB7_872E);
    r := Next(m, 42, r, 0x3AFB_5079, 0x7F19_3DC5, 0xFF21_F7B7);
    r := Next(m, 43, r, 0x898E_04E5, 0xEE1B_1AAF, 0x25C2_8357);
    r := Next(m, 44, r, 0xE2BA_3C2B, 0x40F2_8E09, 0x5FC6_4F71);
    r := Next(m, 45, r, 0x0000_60C0, 0x1C51_E1F2, 0xFB86_C6AB);
    r := Next(m, 46, r, 0x053A_37CD, 0xA01B_846C, 0x503C_A382);
    r := Next(m, 47, r, 0x7445_8547, 0xBEAD_02CA, 0x8714_787C);
    r := Next(m, 48, r, 0xDA94_15ED, 0xBAF3_9337, 0x2806_E11B);
    r := Next(m, 49, r, 0x2638_0A16, 0x1207_31C5, 0xAFAB_40B2);
  }

  lemma Rounds50(m: seq<Word>)
    requires |m| == 16 && Rounds(H0, m, 50) == Regs(0x1207_31C5, 0xBAF3_9337, 0xAFAB_40B2, 0x2806_E11B, 0x8714_787C)
    requires Schedule(m, 50) == 0x6263_83A1 && Schedule(m, 51) == 0x4EBF_54DE && Schedule(m, 52) == 0x3835_B44B
    requires Schedule(m, 53) == 0x0000_F600 && Schedule(m, 54) == 0x1E84_C7A3 && Schedule(m, 55) == 0x98E0_4D98
    requires Schedule(m, 56) == 0x651D_16A0 && Schedule(m, 57) == 0x6265_8CA1 && Schedule(m, 58) == 0x4585_44D6
    requires Schedule(m, 59) == 0x4458_4CB7
    ensures Rounds(H0, m, 60) == Regs(0x3F52_DE5A, 0x09D7_85FD, 0x3498_BFD4, 0xF211_824F, 0xD799_15AB)
  {
    hide Rounds, Schedule;
    var r := Regs(0x1207_31C5, 0xBAF3_9337, 0xAFAB_40B2, 0x2806_E11B, 0x8714_787C);
    r := Next(m, 50, r, 0x6263_83A1, 0x641D_B2CE, 0xEEBC_E4CD);
    r := Next(m, 51, r, 0x4EBF_54DE, 0x3847_AD66, 0x4481_CC71);
    r := Next(m, 52, r, 0x3835_B44B, 0xE490_436D, 0x9907_6CB3);
    r := Next(m, 53, r, 0x0000_F600, 0x27E9_F1D8, 0x8E11_EB59);
    r := Next(m, 54, r, 0x1E84_C7A3, 0x7B71_F76D, 0x7924_10DB);
    r := Next(m, 55, r, 0x98E0_4D98, 0x5E64_56AF, 0x09FA_7C76);
    r := Next(m, 56, r, 0x651D_16A0, 0xC846_093F, 0x5EDC_7DDB);
    r := Next(m, 57, r, 0x6265_8CA1, 0xD262_FF50, 0xD799_15AB);
    r := Next(m, 58, r, 0x4585_44D6, 0x09D7_85FD, 0xF211_824F);
    r := Next(m, 59, r, 0x4458_4CB7, 0x3F52_DE5A, 0x3498_BFD4);
  }

  lemma Rounds60(m: seq<Word>)
    requires |m| == 16 && Rounds(H0, m, 60) == Regs(0x3F52_DE5A, 0x09D7_85FD, 0x3498_BFD4, 0xF211_824F, 0xD799_15AB)
    requires Schedule(m, 60) == 0x7BA0_6619 && Schedule(m, 61) == 0x6380_AEA2 && Schedule(m, 62) == 0x0AE5_5269
    requires Schedule(m, 63) == 0x627B_49A1 && Schedule(m, 64) == 0x7CD4_5C9D && Schedule(m, 65) == 0x000F_0000
    requires Schedule(m, 66) == 0xFB50_753A && Schedule(m, 67) == 0xEC67_65E8 && Schedule(m, 68) == 0xBA3C_2BE2
    requires Schedule(m, 69) == 0x0060_C000
    ensures Rounds(H0, m, 70) == Regs(0x3F25_88C2, 0x4970_93C0, 0xDE37_534A, 0x030F_7CAD, 0x4405_957E)
  {
    hide Rounds, Schedule;
    var r := Regs(0x3F52_DE5A, 0x09D7_85FD, 0x3498_BFD4, 0xF211_824F, 0xD799_15AB);
    r := Next(m, 60, r, 0x7BA0_6619, 0xD756_C147, 0x4275_E17F);
    r := Next(m, 61, r, 0x6380_AEA2, 0x548C_9CB2, 0x8FD4_B796);
    r := Next(m, 62, r, 0x0AE5_5269, 0xB66C_020B, 0xF5D5_B051);
    r := Next(m, 63, r, 0x627B_49A1, 0x6B61_C9E1, 0x9523_272C);
    r := Next(m, 64, r, 0x7CD4_5C9D, 0x19DF_A7AC, 0xED9B_0082);
    r := Next(m, 65, r, 0x000F_0000, 0x1016_55F9, 0x5AD8_7278);
    r := Next(m, 66, r, 0xFB50_753A, 0x0C3D_F2B4, 0x0677_E9EB);
    r := Next(m, 67, r, 0xEC67_65E8, 0x78DD_4D2B, 0x4405_957E);
    r := Next(m, 68, r, 0xBA3C_2BE2, 0x4970_93C0, 0x030F_7CAD);
    r := Next(m, 69, r, 0x0060_C000, 0x3F25_88C2, 0xDE37_534A);
  }

  lemma Rounds70(m: seq<Word>)
    requires |m| == 16 && Rounds(H0, m, 70) == Regs(0x3F25_88C2, 0x4970_93C0, 0xDE37_534A, 0x030F_7CAD, 0x4405_957E)
    requires Schedule(m, 70) == 0x3A37_CD05 && Schedule(m, 71) == 0x4585_46F4 && Schedule(m, 72) == 0xB859_9DD6
    requires Schedule(m, 73) == 0x380A_1A26 && Schedule(m, 74) == 0x01E0_2203 && Schedule(m, 75) == 0xE7CC_3456
    requires Schedule(m, 76) == 0xE6E6_0B69 && Schedule(m, 77) == 0x00F6_0A00 && Schedule(m, 78) == 0x5795_EF4F
    requires Schedule(m, 79) == 0x822E_0879
    ensures Rounds(H0, m, 80) == Regs(0x4254_1B35, 0x5738_D5E1, 0x2183_4873, 0x681E_6DF6, 0xD8FD_F6AD)
  {
    hide Rounds, Schedule;
    var r := Regs(0x3F25_88C2, 0x4970_93C0, 0xDE37_534A, 0x030F_7CAD, 0x4405_957E);
    r := Next(m, 70, r, 0x3A37_CD05, 0xC199_F8C7, 0x125C_24F0);
    r := Next(m, 71, r, 0x4585_46F4, 0x3985_9DE7, 0x8FC9_6230);
    r := Next(m, 72, r, 0xB859_9DD6, 0xEDB4_2DE4, 0xF066_7E31);
    r := Next(m, 73, r, 0x380A_1A26, 0x1179_3F6F, 0xCE61_6779);
    r := Next(m, 74, r, 0x01E0_2203, 0x5EE7_6897, 0x3B6D_0B79);
    r := Next(m, 75, r, 0xE7CC_3456, 0x63F7_DAB7, 0xC45E_4FDB);
    r := Next(m, 76, r, 0xE6E6_0B69, 0xA079_B7D9, 0xD7B9_DA25);
    r := Next(m, 77, r, 0x00F6_0A00, 0x860D_21CC, 0xD8FD_F6AD);
    r := Next(m, 78, r, 0x5795_EF4F, 0x5738_D5E1, 0x681E_6DF6);
    r := Next(m, 79, r, 0x822E_0879, 0x4254_1B35, 0x2183_4873);
  }

  lemma AbcLength()
    ensures LengthField(24) == [0, 0, 0, 0, 0, 0, 0, 24] && ZeroCount(3) == 52
  {
    Zero24(0x100_0000_0000_0000);
    Zero24(0x1_0000_0000_0000);
    Zero24(0x100_0000_0000);
    Zero24(0x1_0000_0000);
    Zero24(0x100_0000);
    Zero24(0x1_0000);
    Zero24(0x100);
    assert ByteAt(24, 1) == 24;
    hide ByteAt;
  }

  lemma Zero24(unit: int)
    requires unit > 24
    ensures ByteAt(24, unit) == 0
  {
  }

  lemma AbcPad()
    ensures var p := Pad(ABC);
      && |p| == 64 && p[..4] == ABC + [0x80] && p[63] == 24 && forall i :: 4 <= i < 63 ==> p[i] == 0
  {
    AbcLength();
    hide LengthField, ZeroCount;
    assert 8 * |ABC| % TWO64 == 24;
  }

  lemma AbcBytes()
    ensures Big(0x61, 0x62, 0x63, 0x80) == 0x6162_6380 && Big(0, 0, 0, 24) == 0x18 && Big(0, 0, 0, 0) == 0
  {
  }

  lemma AbcWords()
    ensures |Pad(ABC)| == 64 && IsAbc(BlockWords(Pad(ABC)))
  {
    AbcPad();
    AbcBytes();
    hide Pad, Big;
    var p := Pad(ABC);
    assert p[0] == p[..4][0] && p[1] == p[..4][1] && p[2] == p[..4][2] && p[3] == p[..4][3];
  }

  lemma AbcRounds(m: seq<Word>)
    requires IsAbc(m)
    ensures Rounds(H0, m, 80) == Regs(0x4254_1B35, 0x5738_D5E1, 0x2183_4873, 0x681E_6DF6, 0xD8FD_F6AD)
  {
    assert forall t: nat :: t < 16 ==> Schedule(m, t) == m[t];
    assert Rounds(H0, m, 0) == H0;
    hide Rounds, Schedule;
    Words16(m);
    Words32(m);
    Words48(m);
    Words64(m);
    Rounds0(m);
    Rounds10(m);
    Rounds20(m);
    Rounds30(m);
    Rounds40(m);
    Rounds50(m);
    Rounds60(m);
    Rounds70(m);
  }

  lemma AbcChain()
    ensures Chain(H0, Regs(0x4254_1B35, 0x5738_D5E1, 0x2183_4873, 0x681E_6DF6, 0xD8FD_F6AD)) ==
            Regs(0xA999_3E36, 0x4706_816A, 0xBA3E_2571, 0x7850_C26C, 0x9CD0_D89D)
  {
  }

  lemma AbcAbsorbed(p: seq<bv8>)
    requires |p| == 64
    ensures Absorb(p) == Compress(H0, p)
  {
    hide Compress;
    assert p[..0] == [] && p[0..64] == p && Absorb([]) == H0;
  }

  lemma AbcOutput()
    ensures BigBytes(0xA999_3E36) == [0xA9, 0x99, 0x3E, 0x36]
    ensures BigBytes(0x4706_816A) == [0x47, 0x06, 0x81, 0x6A]
    ensures BigBytes(0xBA3E_2571) == [0xBA, 0x3E, 0x25, 0x71]
    ensures BigBytes(0x7850_C26C) == [0x78, 0x50, 0xC2, 0x6C]
    ensures BigBytes(0x9CD0_D89D) == [0x9C, 0xD0, 0xD8, 0x9D]
  {
  }

  lemma AbcCompressed(p: seq<bv8>)
    requires |p| == 64 && IsAbc(BlockWords(p))
    ensures Compress(H0, p) == Regs(0xA999_3E36, 0x4706_816A, 0xBA3E_2571, 0x7850_C26C, 0x9CD0_D89D)
  {
    hide Rounds, BlockWords, Chain, IsAbc;
    AbcRounds(BlockWords(p));
    AbcChain();
  }

  // The digest that the standard gives, and the header of the source.
  lemma AbcDigest()
    ensures Sha1(ABC) == [
        0xA9, 0x99, 0x3E, 0x36, 0x47, 0x06, 0x81, 0x6A, 0xBA, 0x3E,
        0x25, 0x71, 0x78, 0x50, 0xC2, 0x6C, 0x9C, 0xD0, 0xD8, 0x9D
      ]
  {
    hide Compress, BlockWords, Absorb, Pad, BigBytes, IsAbc;
    var p := Pad(ABC);
    AbcWords();
    AbcCompressed(p);
    AbcAbsorbed(p);
    AbcOutput();
  }
}
