// Check values of CRC-32C: section B.4 of RFC 3720 gives that of 32 zero bytes,
// and the nine digits are the customary one.

module Crc32cCheck {
  import opened Words
  import opened Crc32c

  lemma OneBit(l: Word, m: Word)
    requires m == (l >> 1) ^ if l & 1 == 1 then 0x82F6_3B78 else 0
    ensures FeedBit(l, false) == m
  {
    var odd := l & 1 == 1;
    assert Odd(l) == odd && Tap(odd) == if odd then 0x82F6_3B78 else 0;
    hide Odd, Tap;
  }

  lemma Eight(a: Word, b: Word, c: Word, d: Word, e: Word, f: Word, g: Word, h: Word, i: Word)
    requires b == (a >> 1) ^ if a & 1 == 1 then 0x82F6_3B78 else 0
    requires c == (b >> 1) ^ if b & 1 == 1 then 0x82F6_3B78 else 0
    requires d == (c >> 1) ^ if c & 1 == 1 then 0x82F6_3B78 else 0
    requires e == (d >> 1) ^ if d & 1 == 1 then 0x82F6_3B78 else 0
    requires f == (e >> 1) ^ if e & 1 == 1 then 0x82F6_3B78 else 0
    requires g == (f >> 1) ^ if f & 1 == 1 then 0x82F6_3B78 else 0
    requires h == (g >> 1) ^ if g & 1 == 1 then 0x82F6_3B78 else 0
    requires i == (h >> 1) ^ if h & 1 == 1 then 0x82F6_3B78 else 0
    ensures Zero8(a) == i
  {
    hide FeedBit;
    OneBit(a, b);
    OneBit(b, c);
    OneBit(c, d);
    OneBit(d, e);
    OneBit(e, f);
    OneBit(f, g);
    OneBit(g, h);
    OneBit(h, i);
    assert Zeros(g, 2) == i;
    assert Zeros(e, 4) == i;
    assert Zeros(c, 6) == i;
  }

  // A byte enters the low end of the register, then eight zero bits pass.
  lemma ByteIn(l: Word, b: bv8)
    ensures Step1(l, b) == Zero8(Xor(l, b as Word))
  {
    hide Xor, Zeros;
    XorByte(l, b);
    Zero8Split(Xor(l, b as Word));
  }

  lemma Next(m: seq<bv8>, k: nat, l: Word, a: Word, i: Word)
    requires k < |m| && Reg(0xFFFF_FFFF, m[..k]) == l && a == l ^ (m[k] as Word) && Zero8(a) == i
    ensures Reg(0xFFFF_FFFF, m[..k + 1]) == i
  {
    hide Reg, Step1, Zero8;
    RegStep1(0xFFFF_FFFF, m, k);
    ByteIn(l, m[k]);
  }

  lemma Start(m: seq<bv8>)
    ensures Reg(0xFFFF_FFFF, m[..0]) == 0xFFFF_FFFF && !(0 as Word) == 0xFFFF_FFFF
  {
  }

  lemma Digits()
    ensures Crc(0, [0x31, 0x32, 0x33, 0x34, 0x35, 0x36, 0x37, 0x38, 0x39]) == 0xE3069283
  {
    hide Reg, Zero8, Crc;
    var m: seq<bv8> := [0x31, 0x32, 0x33, 0x34, 0x35, 0x36, 0x37, 0x38, 0x39];
    Start(m);
    Eight(0xFFFFFFCE, 0x7FFFFFE7, 0xBD09C48B, 0xDC72D93D, 0xECCF57E6, 0x7667ABF3, 0xB9C5EE81, 0xDE14CC38, 0x6F0A661C);
    Next(m, 0, 0xFFFFFFFF, 0xFFFFFFCE, 0x6F0A661C);
    Eight(0x6F0A662E, 0x37853317, 0x9934A2F3, 0xCE6C6A01, 0xE5C00E78, 0x72E0073C, 0x3970039E, 0x1CB801CF, 0x8CAA3B9F);
    Next(m, 1, 0x6F0A661C, 0x6F0A662E, 0x8CAA3B9F);
    Eight(0x8CAA3BAC, 0x46551DD6, 0x232A8EEB, 0x93637C0D, 0xCB47857E, 0x65A3C2BF, 0xB027DA27, 0xDAE5D66B, 0xEF84D04D);
    Next(m, 2, 0x8CAA3B9F, 0x8CAA3BAC, 0xEF84D04D);
    Eight(0xEF84D079, 0xF5345344, 0x7A9A29A2, 0x3D4D14D1, 0x9C50B110, 0x4E285888, 0x27142C44, 0x138A1622, 0x09C50B11);
    Next(m, 3, 0xEF84D04D, 0xEF84D079, 0x09C50B11);
    Eight(0x09C50B24, 0x04E28592, 0x027142C9, 0x83CE9A1C, 0x41E74D0E, 0x20F3A687, 0x928FE83B, 0xCBB1CF65, 0xE72EDCCA);
    Next(m, 4, 0x09C50B11, 0x09C50B24, 0xE72EDCCA);
    Eight(0xE72EDCFC, 0x73976E7E, 0x39CBB73F, 0x9E13E0E7, 0xCDFFCB0B, 0xE409DEFD, 0xF0F2D406, 0x78796A03, 0xBECA8E79);
    Next(m, 5, 0xE72EDCCA, 0xE72EDCFC, 0xBECA8E79);
    Eight(0xBECA8E4E, 0x5F654727, 0xAD4498EB, 0xD454770D, 0xE8DC00FE, 0x746E007F, 0xB8C13B47, 0xDE96A6DB, 0xEDBD6815);
    Next(m, 6, 0xBECA8E79, 0xBECA8E4E, 0xEDBD6815);
    Eight(0xEDBD682D, 0xF4288F6E, 0x7A1447B7, 0xBFFC18A3, 0xDD083729, 0xEC7220EC, 0x76391076, 0x3B1C883B, 0x9F787F65);
    Next(m, 7, 0xEDBD6815, 0xEDBD682D, 0x9F787F65);
    Eight(0x9F787F5C, 0x4FBC3FAE, 0x27DE1FD7, 0x91193493, 0xCA7AA131, 0xE7CB6BE0, 0x73E5B5F0, 0x39F2DAF8, 0x1CF96D7C);
    Next(m, 8, 0x9F787F65, 0x9F787F5C, 0x1CF96D7C);
    assert m[..9] == m;
    Complement(m, 0x1CF96D7C);
  }

  lemma Zeros0(m: seq<bv8>)
    requires |m| == 32 && (forall k :: 0 <= k < 32 ==> m[k] == 0)
    requires Reg(0xFFFF_FFFF, m[..0]) == 0xFFFFFFFF
    ensures Reg(0xFFFF_FFFF, m[..8]) == 0x73D74D75
  {
    hide Reg, Zero8;
    Eight(0xFFFFFFFF, 0xFD09C487, 0xFC72D93B, 0xFCCF57E5, 0xFC91908A, 0x7E48C845, 0xBDD25F5A, 0x5EE92FAD, 0xAD82ACAE);
    Next(m, 0, 0xFFFFFFFF, 0xFFFFFFFF, 0xAD82ACAE);
    Eight(0xAD82ACAE, 0x56C15657, 0xA9969053, 0xD63D7351, 0xE9E882D0, 0x74F44168, 0x3A7A20B4, 0x1D3D105A, 0x0E9E882D);
    Next(m, 1, 0xAD82ACAE, 0xAD82ACAE, 0x0E9E882D);
    Eight(0x0E9E882D, 0x85B97F6E, 0x42DCBFB7, 0xA39864A3, 0xD33A0929, 0xEB6B3FEC, 0x75B59FF6, 0x3ADACFFB, 0x9F9B5C85);
    Next(m, 2, 0x0E9E882D, 0x0E9E882D, 0x9F9B5C85);
    Eight(0x9F9B5C85, 0xCD3B953A, 0x669DCA9D, 0xB1B8DE36, 0x58DC6F1B, 0xAE980CF5, 0xD5BA3D02, 0x6ADD1E81, 0xB798B438);
    Next(m, 3, 0x9F9B5C85, 0x9F9B5C85, 0xB798B438);
    Eight(0xB798B438, 0x5BCC5A1C, 0x2DE62D0E, 0x16F31687, 0x898FB03B, 0xC631E365, 0xE1EECACA, 0x70F76565, 0xBA8D89CA);
    Next(m, 4, 0xB798B438, 0xB798B438, 0xBA8D89CA);
    Eight(0xBA8D89CA, 0x5D46C4E5, 0xAC55590A, 0x562AAC85, 0xA9E36D3A, 0x54F1B69D, 0xA88EE036, 0x5447701B, 0xA8D58375);
    Next(m, 5, 0xBA8D89CA, 0xBA8D89CA, 0xA8D58375);
    Eight(0xA8D58375, 0xD69CFAC2, 0x6B4E7D61, 0xB75105C8, 0x5BA882E4, 0x2DD44172, 0x16EA20B9, 0x89832B24, 0x44C19592);
    Next(m, 6, 0xA8D58375, 0xA8D58375, 0x44C19592);
    Eight(0x44C19592, 0x2260CAC9, 0x93C65E1C, 0x49E32F0E, 0x24F19787, 0x908EF0BB, 0xCAB14325, 0xE7AE9AEA, 0x73D74D75);
    Next(m, 7, 0x44C19592, 0x44C19592, 0x73D74D75);
  }

  lemma Zeros8(m: seq<bv8>)
    requires |m| == 32 && (forall k :: 0 <= k < 32 ==> m[k] == 0)
    requires Reg(0xFFFF_FFFF, m[..8]) == 0x73D74D75
    ensures Reg(0xFFFF_FFFF, m[..16]) == 0xBD8F6515
  {
    hide Reg, Zero8;
    Eight(0x73D74D75, 0xBB1D9DC2, 0x5D8ECEE1, 0xAC315C08, 0x5618AE04, 0x2B0C5702, 0x15862B81, 0x88352EB8, 0x441A975C);
    Next(m, 8, 0x73D74D75, 0x73D74D75, 0x441A975C);
    Eight(0x441A975C, 0x220D4BAE, 0x1106A5D7, 0x8A756993, 0xC7CC8FB1, 0xE1107CA0, 0x70883E50, 0x38441F28, 0x1C220F94);
    Next(m, 9, 0x441A975C, 0x441A975C, 0x1C220F94);
    Eight(0x1C220F94, 0x0E1107CA, 0x070883E5, 0x81727A8A, 0x40B93D45, 0xA2AAA5DA, 0x515552ED, 0xAA5C920E, 0x552E4907);
    Next(m, 10, 0x1C220F94, 0x1C220F94, 0x552E4907);
    Eight(0x552E4907, 0xA8611FFB, 0xD6C6B485, 0xE995613A, 0x74CAB09D, 0xB8936336, 0x5C49B19B, 0xACD2E3B5, 0xD49F4AA2);
    Next(m, 11, 0x552E4907, 0x552E4907, 0xD49F4AA2);
    Eight(0xD49F4AA2, 0x6A4FA551, 0xB7D1E9D0, 0x5BE8F4E8, 0x2DF47A74, 0x16FA3D3A, 0x0B7D1E9D, 0x8748B436, 0x43A45A1B);
    Next(m, 12, 0xD49F4AA2, 0xD49F4AA2, 0x43A45A1B);
    Eight(0x43A45A1B, 0xA3241675, 0xD3643042, 0x69B21821, 0xB62F3768, 0x5B179BB4, 0x2D8BCDDA, 0x16C5E6ED, 0x8994C80E);
    Next(m, 13, 0x43A45A1B, 0x43A45A1B, 0x8994C80E);
    Eight(0x8994C80E, 0x44CA6407, 0xA093097B, 0xD2BFBFC5, 0xEBA9E49A, 0x75D4F24D, 0xB81C425E, 0x5C0E212F, 0xACF12BEF);
    Next(m, 14, 0x8994C80E, 0x8994C80E, 0xACF12BEF);
    Eight(0xACF12BEF, 0xD48EAE8F, 0xE8B16C3F, 0xF6AE8D67, 0xF9A17DCB, 0xFE26859D, 0xFDE579B6, 0x7EF2BCDB, 0xBD8F6515);
    Next(m, 15, 0xACF12BEF, 0xACF12BEF, 0xBD8F6515);
  }

  lemma Zeros16(m: seq<bv8>)
    requires |m| == 32 && (forall k :: 0 <= k < 32 ==> m[k] == 0)
    requires Reg(0xFFFF_FFFF, m[..16]) == 0xBD8F6515
    ensures Reg(0xFFFF_FFFF, m[..24]) == 0x7B041311
  {
    hide Reg, Zero8;
    Eight(0xBD8F6515, 0xDC3189F2, 0x6E18C4F9, 0xB5FA5904, 0x5AFD2C82, 0x2D7E9641, 0x94497058, 0x4A24B82C, 0x25125C16);
    Next(m, 16, 0xBD8F6515, 0xBD8F6515, 0x25125C16);
    Eight(0x25125C16, 0x12892E0B, 0x8BB2AC7D, 0xC72F6D46, 0x6397B6A3, 0xB33DE029, 0xDB68CB6C, 0x6DB465B6, 0x36DA32DB);
    Next(m, 17, 0x25125C16, 0x25125C16, 0x36DA32DB);
    Eight(0x36DA32DB, 0x999B2215, 0xCE3BAA72, 0x671DD539, 0xB178D1E4, 0x58BC68F2, 0x2C5E3479, 0x94D92144, 0x4A6C90A2);
    Next(m, 18, 0x36DA32DB, 0x36DA32DB, 0x4A6C90A2);
    Eight(0x4A6C90A2, 0x25364851, 0x906D1F50, 0x48368FA8, 0x241B47D4, 0x120DA3EA, 0x0906D1F5, 0x86755382, 0x433AA9C1);
    Next(m, 19, 0x4A6C90A2, 0x4A6C90A2, 0x433AA9C1);
    Eight(0x433AA9C1, 0xA36B6F98, 0x51B5B7CC, 0x28DADBE6, 0x146D6DF3, 0x88C08D81, 0xC6967DB8, 0x634B3EDC, 0x31A59F6E);
    Next(m, 20, 0x433AA9C1, 0x433AA9C1, 0x31A59F6E);
    Eight(0x31A59F6E, 0x18D2CFB7, 0x8E9F5CA3, 0xC5B99529, 0xE02AF1EC, 0x701578F6, 0x380ABC7B, 0x9EF36545, 0xCD8F89DA);
    Next(m, 21, 0x31A59F6E, 0x31A59F6E, 0xCD8F89DA);
    Eight(0xCD8F89DA, 0x66C7C4ED, 0xB195D90E, 0x58CAEC87, 0xAE934D3B, 0xD5BF9DE5, 0xE829F58A, 0x7414FAC5, 0xB8FC461A);
    Next(m, 22, 0xCD8F89DA, 0xCD8F89DA, 0xB8FC461A);
    Eight(0xB8FC461A, 0x5C7E230D, 0xACC92AFE, 0x5664957F, 0xA9C471C7, 0xD614039B, 0xE9FC3AB5, 0xF6082622, 0x7B041311);
    Next(m, 23, 0xB8FC461A, 0xB8FC461A, 0x7B041311);
  }

  lemma Zeros24(m: seq<bv8>)
    requires |m| == 32 && (forall k :: 0 <= k < 32 ==> m[k] == 0)
    requires Reg(0xFFFF_FFFF, m[..24]) == 0x7B041311
    ensures Reg(0xFFFF_FFFF, m[..32]) == 0x756EC955
  {
    hide Reg, Zero8;
    Eight(0x7B041311, 0xBF7432F0, 0x5FBA1978, 0x2FDD0CBC, 0x17EE865E, 0x0BF7432F, 0x870D9AEF, 0xC170F60F, 0xE24E407F);
    Next(m, 24, 0x7B041311, 0x7B041311, 0xE24E407F);
    Eight(0xE24E407F, 0xF3D11B47, 0xFB1EB6DB, 0xFF796015, 0xFD4A8B72, 0x7EA545B9, 0xBDA499A4, 0x5ED24CD2, 0x2F692669);
    Next(m, 25, 0xE24E407F, 0xE24E407F, 0x2F692669);
    Eight(0x2F692669, 0x9542A84C, 0x4AA15426, 0x2550AA13, 0x905E6E71, 0xCAD90C40, 0x656C8620, 0x32B64310, 0x195B2188);
    Next(m, 26, 0x2F692669, 0x2F692669, 0x195B2188);
    Eight(0x195B2188, 0x0CAD90C4, 0x0656C862, 0x032B6431, 0x83638960, 0x41B1C4B0, 0x20D8E258, 0x106C712C, 0x08363896);
    Next(m, 27, 0x195B2188, 0x195B2188, 0x08363896);
    Eight(0x08363896, 0x041B1C4B, 0x80FBB55D, 0xC28BE1D6, 0x6145F0EB, 0xB254C30D, 0xDBDC5AFE, 0x6DEE2D7F, 0xB4012DC7);
    Next(m, 28, 0x08363896, 0x08363896, 0xB4012DC7);
    Eight(0xB4012DC7, 0xD8F6AD9B, 0xEE8D6DB5, 0xF5B08DA2, 0x7AD846D1, 0xBF9A1810, 0x5FCD0C08, 0x2FE68604, 0x17F34302);
    Next(m, 29, 0xB4012DC7, 0xB4012DC7, 0x17F34302);
    Eight(0x17F34302, 0x0BF9A181, 0x870AEBB8, 0x438575DC, 0x21C2BAEE, 0x10E15D77, 0x8A8695C3, 0xC7B57199, 0xE12C83B4);
    Next(m, 30, 0x17F34302, 0x17F34302, 0xE12C83B4);
    Eight(0xE12C83B4, 0x709641DA, 0x384B20ED, 0x9ED3AB0E, 0x4F69D587, 0xA542D1BB, 0xD05753A5, 0xEADD92AA, 0x756EC955);
    Next(m, 31, 0xE12C83B4, 0xE12C83B4, 0x756EC955);
  }

  lemma ZeroBytes(m: seq<bv8>)
    requires |m| == 32 && forall k :: 0 <= k < 32 ==> m[k] == 0
    ensures Crc(0, m) == 0x8A9136AA
  {
    hide Reg, Crc;
    Start(m);
    Zeros0(m);
    Zeros8(m);
    Zeros16(m);
    Zeros24(m);
    assert m[..32] == m;
    Complement(m, 0x756EC955);
  }

  lemma Complement(m: seq<bv8>, l: Word)
    requires Reg(0xFFFF_FFFF, m) == l
    ensures Crc(0, m) == !l
  {
    hide Reg, Crc;
    RegIsCrc(0, m);
    NotZero(0);
  }

  lemma NotZero(x: Word)
    requires x == 0
    ensures !x == 0xFFFF_FFFF
  {
  }
}
