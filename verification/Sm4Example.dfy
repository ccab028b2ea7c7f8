/** The S-box of core/crypto/sm4.c, and the first steps of the example in annex A of GM/T 0002-2012. */
module Sm4Example {
  import opened Prelude
  import opened Blocks
  import opened Sm4Spec
  import opened Sm4
  import opened Sm4Mixing

  function Row0(b: Byte): Byte {
    if b == 0x00 then 0xd6 else if b == 0x01 then 0x90 else if b == 0x02 then 0xe9 else if b == 0x03 then 0xfe else
    if b == 0x04 then 0xcc else if b == 0x05 then 0xe1 else if b == 0x06 then 0x3d else if b == 0x07 then 0xb7 else
    if b == 0x08 then 0x16 else if b == 0x09 then 0xb6 else if b == 0x0a then 0x14 else if b == 0x0b then 0xc2 else
    if b == 0x0c then 0x28 else if b == 0x0d then 0xfb else if b == 0x0e then 0x2c else 0x05
  }

  function Row1(b: Byte): Byte {
    if b == 0x10 then 0x2b else if b == 0x11 then 0x67 else if b == 0x12 then 0x9a else if b == 0x13 then 0x76 else
    if b == 0x14 then 0x2a else if b == 0x15 then 0xbe else if b == 0x16 then 0x04 else if b == 0x17 then 0xc3 else
    if b == 0x18 then 0xaa else if b == 0x19 then 0x44 else if b == 0x1a then 0x13 else if b == 0x1b then 0x26 else
    if b == 0x1c then 0x49 else if b == 0x1d then 0x86 else if b == 0x1e then 0x06 else 0x99
  }

  function Row2(b: Byte): Byte {
    if b == 0x20 then 0x9c else if b == 0x21 then 0x42 else if b == 0x22 then 0x50 else if b == 0x23 then 0xf4 else
    if b == 0x24 then 0x91 else if b == 0x25 then 0xef else if b == 0x26 then 0x98 else if b == 0x27 then 0x7a else
    if b == 0x28 then 0x33 else if b == 0x29 then 0x54 else if b == 0x2a then 0x0b else if b == 0x2b then 0x43 else
    if b == 0x2c then 0xed else if b == 0x2d then 0xcf else if b == 0x2e then 0xac else 0x62
  }

  function Row3(b: Byte): Byte {
    if b == 0x30 then 0xe4 else if b == 0x31 then 0xb3 else if b == 0x32 then 0x1c else if b == 0x33 then 0xa9 else
    if b == 0x34 then 0xc9 else if b == 0x35 then 0x08 else if b == 0x36 then 0xe8 else if b == 0x37 then 0x95 else
    if b == 0x38 then 0x80 else if b == 0x39 then 0xdf else if b == 0x3a then 0x94 else if b == 0x3b then 0xfa else
    if b == 0x3c then 0x75 else if b == 0x3d then 0x8f else if b == 0x3e then 0x3f else 0xa6
  }

  function Row4(b: Byte): Byte {
    if b == 0x40 then 0x47 else if b == 0x41 then 0x07 else if b == 0x42 then 0xa7 else if b == 0x43 then 0xfc else
    if b == 0x44 then 0xf3 else if b == 0x45 then 0x73 else if b == 0x46 then 0x17 else if b == 0x47 then 0xba else
    if b == 0x48 then 0x83 else if b == 0x49 then 0x59 else if b == 0x4a then 0x3c else if b == 0x4b then 0x19 else
    if b == 0x4c then 0xe6 else if b == 0x4d then 0x85 else if b == 0x4e then 0x4f else 0xa8
  }

  function Row5(b: Byte): Byte {
    if b == 0x50 then 0x68 else if b == 0x51 then 0x6b else if b == 0x52 then 0x81 else if b == 0x53 then 0xb2 else
    if b == 0x54 then 0x71 else if b == 0x55 then 0x64 else if b == 0x56 then 0xda else if b == 0x57 then 0x8b else
    if b == 0x58 then 0xf8 else if b == 0x59 then 0xeb else if b == 0x5a then 0x0f else if b == 0x5b then 0x4b else
    if b == 0x5c then 0x70 else if b == 0x5d then 0x56 else if b == 0x5e then 0x9d else 0x35
  }

  function Row6(b: Byte): Byte {
    if b == 0x60 then 0x1e else if b == 0x61 then 0x24 else if b == 0x62 then 0x0e else if b == 0x63 then 0x5e else
    if b == 0x64 then 0x63 else if b == 0x65 then 0x58 else if b == 0x66 then 0xd1 else if b == 0x67 then 0xa2 else
    if b == 0x68 then 0x25 else if b == 0x69 then 0x22 else if b == 0x6a then 0x7c else if b == 0x6b then 0x3b else
    if b == 0x6c then 0x01 else if b == 0x6d then 0x21 else if b == 0x6e then 0x78 else 0x87
  }

  function Row7(b: Byte): Byte {
    if b == 0x70 then 0xd4 else if b == 0x71 then 0x00 else if b == 0x72 then 0x46 else if b == 0x73 then 0x57 else
    if b == 0x74 then 0x9f else if b == 0x75 then 0xd3 else if b == 0x76 then 0x27 else if b == 0x77 then 0x52 else
    if b == 0x78 then 0x4c else if b == 0x79 then 0x36 else if b == 0x7a then 0x02 else if b == 0x7b then 0xe7 else
    if b == 0x7c then 0xa0 else if b == 0x7d then 0xc4 else if b == 0x7e then 0xc8 else 0x9e
  }

  function Row8(b: Byte): Byte {
    if b == 0x80 then 0xea else if b == 0x81 then 0xbf else if b == 0x82 then 0x8a else if b == 0x83 then 0xd2 else
    if b == 0x84 then 0x40 else if b == 0x85 then 0xc7 else if b == 0x86 then 0x38 else if b == 0x87 then 0xb5 else
    if b == 0x88 then 0xa3 else if b == 0x89 then 0xf7 else if b == 0x8a then 0xf2 else if b == 0x8b then 0xce else
    if b == 0x8c then 0xf9 else if b == 0x8d then 0x61 else if b == 0x8e then 0x15 else 0xa1
  }

  function Row9(b: Byte): Byte {
    if b == 0x90 then 0xe0 else if b == 0x91 then 0xae else if b == 0x92 then 0x5d else if b == 0x93 then 0xa4 else
    if b == 0x94 then 0x9b else if b == 0x95 then 0x34 else if b == 0x96 then 0x1a else if b == 0x97 then 0x55 else
    if b == 0x98 then 0xad else if b == 0x99 then 0x93 else if b == 0x9a then 0x32 else if b == 0x9b then 0x30 else
    if b == 0x9c then 0xf5 else if b == 0x9d then 0x8c else if b == 0x9e then 0xb1 else 0xe3
  }

  function RowA(b: Byte): Byte {
    if b == 0xa0 then 0x1d else if b == 0xa1 then 0xf6 else if b == 0xa2 then 0xe2 else if b == 0xa3 then 0x2e else
    if b == 0xa4 then 0x82 else if b == 0xa5 then 0x66 else if b == 0xa6 then 0xca else if b == 0xa7 then 0x60 else
    if b == 0xa8 then 0xc0 else if b == 0xa9 then 0x29 else if b == 0xaa then 0x23 else if b == 0xab then 0xab else
    if b == 0xac then 0x0d else if b == 0xad then 0x53 else if b == 0xae then 0x4e else 0x6f
  }

  function RowB(b: Byte): Byte {
    if b == 0xb0 then 0xd5 else if b == 0xb1 then 0xdb else if b == 0xb2 then 0x37 else if b == 0xb3 then 0x45 else
    if b == 0xb4 then 0xde else if b == 0xb5 then 0xfd else if b == 0xb6 then 0x8e else if b == 0xb7 then 0x2f else
    if b == 0xb8 then 0x03 else if b == 0xb9 then 0xff else if b == 0xba then 0x6a else if b == 0xbb then 0x72 else
    if b == 0xbc then 0x6d else if b == 0xbd then 0x6c else if b == 0xbe then 0x5b else 0x51
  }

  function RowC(b: Byte): Byte {
    if b == 0xc0 then 0x8d else if b == 0xc1 then 0x1b else if b == 0xc2 then 0xaf else if b == 0xc3 then 0x92 else
    if b == 0xc4 then 0xbb else if b == 0xc5 then 0xdd else if b == 0xc6 then 0xbc else if b == 0xc7 then 0x7f else
    if b == 0xc8 then 0x11 else if b == 0xc9 then 0xd9 else if b == 0xca then 0x5c else if b == 0xcb then 0x41 else
    if b == 0xcc then 0x1f else if b == 0xcd then 0x10 else if b == 0xce then 0x5a else 0xd8
  }

  function RowD(b: Byte): Byte {
    if b == 0xd0 then 0x0a else if b == 0xd1 then 0xc1 else if b == 0xd2 then 0x31 else if b == 0xd3 then 0x88 else
    if b == 0xd4 then 0xa5 else if b == 0xd5 then 0xcd else if b == 0xd6 then 0x7b else if b == 0xd7 then 0xbd else
    if b == 0xd8 then 0x2d else if b == 0xd9 then 0x74 else if b == 0xda then 0xd0 else if b == 0xdb then 0x12 else
    if b == 0xdc then 0xb8 else if b == 0xdd then 0xe5 else if b == 0xde then 0xb4 else 0xb0
  }

  function RowE(b: Byte): Byte {
    if b == 0xe0 then 0x89 else if b == 0xe1 then 0x69 else if b == 0xe2 then 0x97 else if b == 0xe3 then 0x4a else
    if b == 0xe4 then 0x0c else if b == 0xe5 then 0x96 else if b == 0xe6 then 0x77 else if b == 0xe7 then 0x7e else
    if b == 0xe8 then 0x65 else if b == 0xe9 then 0xb9 else if b == 0xea then 0xf1 else if b == 0xeb then 0x09 else
    if b == 0xec then 0xc5 else if b == 0xed then 0x6e else if b == 0xee then 0xc6 else 0x84
  }

  function RowF(b: Byte): Byte {
    if b == 0xf0 then 0x18 else if b == 0xf1 then 0xf0 else if b == 0xf2 then 0x7d else if b == 0xf3 then 0xec else
    if b == 0xf4 then 0x3a else if b == 0xf5 then 0xdc else if b == 0xf6 then 0x4d else if b == 0xf7 then 0x20 else
    if b == 0xf8 then 0x79 else if b == 0xf9 then 0xee else if b == 0xfa then 0x5f else if b == 0xfb then 0x3e else
    if b == 0xfc then 0xd7 else if b == 0xfd then 0xcb else if b == 0xfe then 0x39 else 0x48
  }

  /** sm4Sbox() */
  function Table(b: Byte): Byte {
    if b < 0x10 then Row0(b) else if b < 0x20 then Row1(b) else if b < 0x30 then Row2(b) else
    if b < 0x40 then Row3(b) else if b < 0x50 then Row4(b) else if b < 0x60 then Row5(b) else
    if b < 0x70 then Row6(b) else if b < 0x80 then Row7(b) else if b < 0x90 then Row8(b) else
    if b < 0xa0 then Row9(b) else if b < 0xb0 then RowA(b) else if b < 0xc0 then RowB(b) else
    if b < 0xd0 then RowC(b) else if b < 0xe0 then RowD(b) else if b < 0xf0 then RowE(b) else RowF(b)
  }

  /** 01 23 45 67 89 ab cd ef fe dc ba 98 76 54 32 10, the key and the block of the example. */
  const EXAMPLE: Block :=
    [0x01, 0x23, 0x45, 0x67, 0x89, 0xab, 0xcd, 0xef, 0xfe, 0xdc, 0xba, 0x98, 0x76, 0x54, 0x32, 0x10]

  lemma Key0()
    ensures NextKey(Table, 0xa292_ffa1, 0xdf01_febf, 0x99a1_2b0f, 0xc424_10cc, 0x0007_0e15) == 0xf121_86f9
  {
    assert Mix(0xdf01_febf, 0x99a1_2b0f, 0xc424_10cc, 0x0007_0e15) == 0x8283_cb69;
    assert Table(0x82) == 0x8a && Table(0x83) == 0xd2 && Table(0xcb) == 0x41 && Table(0x69) == 0x22;
    assert Substitute(Table, 0x8283_cb69) == 0x8ad2_4122 by {
      hide Table;
    }
  }

  lemma Key1()
    ensures NextKey(Table, 0xdf01_febf, 0x99a1_2b0f, 0xc424_10cc, 0xf121_86f9, 0x1c23_2a31) == 0x4166_2b61
  {
    assert Mix(0x99a1_2b0f, 0xc424_10cc, 0xf121_86f9, 0x1c23_2a31) == 0xb087_970b;
    assert Table(0xb0) == 0xd5 && Table(0x87) == 0xb5 && Table(0x97) == 0x55 && Table(0x0b) == 0xc2;
    assert Substitute(Table, 0xb087_970b) == 0xd5b5_55c2 by {
      hide Table;
    }
  }

  lemma Key2()
    ensures NextKey(Table, 0x99a1_2b0f, 0xc424_10cc, 0xf121_86f9, 0x4166_2b61, 0x383f_464d) == 0x5a6a_b19a
  {
    assert Mix(0xc424_10cc, 0xf121_86f9, 0x4166_2b61, 0x383f_464d) == 0x4c5c_fb19;
    assert Table(0x4c) == 0xe6 && Table(0x5c) == 0x70 && Table(0xfb) == 0x3e && Table(0x19) == 0x44;
    assert Substitute(Table, 0x4c5c_fb19) == 0xe670_3e44 by {
      hide Table;
    }
  }

  lemma Key3()
    ensures NextKey(Table, 0xc424_10cc, 0xf121_86f9, 0x4166_2b61, 0x5a6a_b19a, 0x545b_6269) == 0x7ba9_2077
  {
    assert Mix(0xf121_86f9, 0x4166_2b61, 0x5a6a_b19a, 0x545b_6269) == 0xbe76_7e6b;
    assert Table(0xbe) == 0x5b && Table(0x76) == 0x27 && Table(0x7e) == 0xc8 && Table(0x6b) == 0x3b;
    assert Substitute(Table, 0xbe76_7e6b) == 0x5b27_c83b by {
      hide Table;
    }
  }

  lemma Round0()
    ensures F(Table, 0x0123_4567, 0x89ab_cdef, 0xfedc_ba98, 0x7654_3210, 0xf121_86f9) == 0x27fa_d345
  {
    assert Mix(0x89ab_cdef, 0xfedc_ba98, 0x7654_3210, 0xf121_86f9) == 0xf002_c39e;
    assert Table(0xf0) == 0x18 && Table(0x02) == 0xe9 && Table(0xc3) == 0x92 && Table(0x9e) == 0xb1;
    assert Substitute(Table, 0xf002_c39e) == 0x18e9_92b1 by {
      hide Table;
    }
  }

  lemma ExampleWords()
    ensures Words(EXAMPLE) == [0x0123_4567, 0x89ab_cdef, 0xfedc_ba98, 0x7654_3210]
  {
    var b := EXAMPLE;
    assert b[..4] == [0x01, 0x23, 0x45, 0x67] && b[4..8] == [0x89, 0xab, 0xcd, 0xef];
    assert b[8..12] == [0xfe, 0xdc, 0xba, 0x98] && b[12..] == [0x76, 0x54, 0x32, 0x10];
  }

  lemma ExampleFirstKeys()
    ensures FirstKeys(EXAMPLE) == [0xa292_ffa1, 0xdf01_febf, 0x99a1_2b0f, 0xc424_10cc]
  {
    hide Words;
    ExampleWords();
  }

  /** The first four round keys of the example. */
  lemma ExampleKeys()
    ensures KeysOf(Table, EXAMPLE)[..4] == [0xf121_86f9, 0x4166_2b61, 0x5a6a_b19a, 0x7ba9_2077]
  {
    hide NextKey, FirstKeys, Table, Schedule;
    var s := Schedule(Table, EXAMPLE, 32);
    ExampleFirstKeys();
    ScheduleStart(Table, EXAMPLE, 32);
    assert s[0] == s[..4][0] && s[1] == s[..4][1] && s[2] == s[..4][2] && s[3] == s[..4][3];
    ScheduleSteps(Table, EXAMPLE, 32, 0);
    ScheduleSteps(Table, EXAMPLE, 32, 1);
    ScheduleSteps(Table, EXAMPLE, 32, 2);
    ScheduleSteps(Table, EXAMPLE, 32, 3);
    Key0();
    Key1();
    Key2();
    Key3();
    assert s[4..][..4] == [s[4], s[5], s[6], s[7]];
  }

  /** The first word it computes from the block. */
  lemma ExampleRound()
    ensures Expand(Table, KeysOf(Table, EXAMPLE), Words(EXAMPLE), 1)[4] == 0x27fa_d345
  {
    hide F, Table, KeysOf, Words;
    var rk, w := KeysOf(Table, EXAMPLE), Words(EXAMPLE);
    ExampleWords();
    ExampleKeys();
    assert rk[0] == rk[..4][0];
    assert Expand(Table, rk, w, 0) == w;
    Round0();
  }
}
