/** The derivation of section 2.3 of the BLAKE3 paper on the published test context and empty key
    material, worked out round by round: two compressions, whose states are the constants below. */
module KnownAnswer {
  import opened Words
  import opened TreeSpec
  import opened Xof
  import opened Hashing
  import opened Blake3
  import opened Compression

  /** "BLAKE3 2019-12-27 16:29:52 test vectors context". */
  const C0: seq<Byte> :=
    [0x42, 0x4C, 0x41, 0x4B, 0x45, 0x33, 0x20, 0x32, 0x30, 0x31, 0x39, 0x2D, 0x31, 0x32, 0x2D, 0x32]
  const C1: seq<Byte> :=
    [0x37, 0x20, 0x31, 0x36, 0x3A, 0x32, 0x39, 0x3A, 0x35, 0x32, 0x20, 0x74, 0x65, 0x73, 0x74, 0x20]
  const C2: seq<Byte> :=
    [0x76, 0x65, 0x63, 0x74, 0x6F, 0x72, 0x73, 0x20, 0x63, 0x6F, 0x6E, 0x74, 0x65, 0x78, 0x74]
  const CONTEXT: seq<Byte> := C0 + C1 + C2

  /** The first 64 bytes of the published output for the empty input. */
  const D0: seq<Byte> :=
    [0x2C, 0xC3, 0x97, 0x83, 0xC2, 0x23, 0x15, 0x4F, 0xEA, 0x8D, 0xFB, 0x7C, 0x1B, 0x16, 0x60, 0xF2]
  const D1: seq<Byte> :=
    [0xAC, 0x2D, 0xCB, 0xD1, 0xC1, 0xDE, 0x82, 0x77, 0xB0, 0xB0, 0xDD, 0x39, 0xB7, 0xE5, 0x0D, 0x7D]
  const D2: seq<Byte> :=
    [0x90, 0x56, 0x30, 0xC8, 0xBE, 0x29, 0x0D, 0xFC, 0xF3, 0xE6, 0x84, 0x2F, 0x13, 0xBD, 0xDD, 0x57]
  const D3: seq<Byte> :=
    [0x3C, 0x09, 0x8C, 0x3F, 0x17, 0x36, 0x1F, 0x1F, 0x20, 0x6B, 0x8C, 0xAD, 0x9D, 0x08, 0x8A, 0xA4]
  const DERIVED: seq<Byte> := D0 + D1 + D2 + D3


  /** The message words, round by round. */
  const M0 := State(
    0x4B414C42, 0x32203345, 0x2D393130, 0x322D3231, 0x36312037, 0x3A39323A, 0x74203235, 0x20747365,
    0x74636576, 0x2073726F, 0x746E6F63, 0x00747865, 0x00000000, 0x00000000, 0x00000000, 0x00000000)
  const M1 := Permute(M0)
  const M2 := Permute(M1)
  const M3 := Permute(M2)
  const M4 := Permute(M3)
  const M5 := Permute(M4)
  const M6 := Permute(M5)

  const ZEROS := State(0, 0, 0, 0, 0, 0, 0, 0, 0, 0, 0, 0, 0, 0, 0, 0)

  /** The states while the context is compressed: before each round, and after its columns. */
  const A0 := State(
    0x6A09E667, 0xBB67AE85, 0x3C6EF372, 0xA54FF53A, 0x510E527F, 0x9B05688C, 0x1F83D9AB, 0x5BE0CD19,
    0x6A09E667, 0xBB67AE85, 0x3C6EF372, 0xA54FF53A, 0x00000000, 0x00000000, 0x0000002F, 0x0000002B)
  const A0' := State(
    0x24759C68, 0x604D0537, 0x90408623, 0x0F018927, 0x43965153, 0xE87D5168, 0x79D3094C, 0x78D1A659,
    0x20D34A5A, 0x94D13EB1, 0x2A67C0A9, 0x11EF0D86, 0x31A15D9A, 0x91280C86, 0x007D3B14, 0x77FBA2FC)
  const A1 := State(
    0x05B90BB3, 0xAE97B1D3, 0x55E5BE40, 0x5F1B3516, 0x3CFCFABB, 0x5AB1F3FD, 0x16E2DD86, 0xFDE12120,
    0xBC4301BA, 0x72FE0702, 0x3B16BB53, 0x2EFA7883, 0xFC8EEBCE, 0x7A751F26, 0xFCBE7567, 0x1EF403FD)
  const A1' := State(
    0xDE19B0C9, 0x6F6B50AF, 0xED88938C, 0x0AF30D0F, 0x91753F31, 0xBAB2973A, 0x4FA3E193, 0xFC199FFE,
    0x4095DE3E, 0xE6CD9416, 0xC4FAF1B8, 0x7B0A69DC, 0xA8024923, 0xACA84C11, 0x0F97C4E2, 0xD67F6380)
  const A2 := State(
    0x62776AC6, 0x10F40102, 0xBA730C6A, 0x831B9207, 0x8E2A6802, 0xB1485775, 0xF224F912, 0xA9631E8D,
    0x01D220A5, 0x677BE116, 0x333DCDC1, 0x05D715FF, 0x0F6B9516, 0xD7539BAA, 0xF80BB901, 0x557ABF76)
  const A2' := State(
    0xBDB203E2, 0x7E51F223, 0x8E3310A9, 0x5D43D44C, 0x8B7AB8EB, 0xD7B3539C, 0xCB3B1952, 0x0CF0EE98,
    0xD9EDAB77, 0x9E0EE422, 0x29ED7098, 0x6827FC55, 0x462C5D2E, 0xDA222113, 0x3A324E44, 0xC5C1CCCD)
  const A3 := State(
    0x37CA49E3, 0xD27606B9, 0xD62C3CC6, 0xCD2F3E21, 0x43610E13, 0x2FC5AAF9, 0x7007A1B0, 0x1D2F6087,
    0xAD2386AE, 0x8D6A118E, 0x16DEF161, 0x1EE4E4AB, 0x95F2BC2A, 0x7C80997D, 0x3271C659, 0xA772B485)
  const A3' := State(
    0x00B4FA1E, 0xCDB8C3E4, 0xB9970143, 0xFF63E27D, 0xF2DD68EF, 0x8B7A2D2F, 0x08E30BDD, 0xA71FC586,
    0x9E12C899, 0x161F0806, 0x30B01E18, 0x9AE78086, 0x757BC780, 0x5FE577BD, 0x01A1B875, 0x51D54EAF)
  const A4 := State(
    0xDBCCBDDF, 0x970BA028, 0x91AC1B5D, 0xEB1494CA, 0x276B043B, 0xC4D50B65, 0x43FEC9D2, 0xCA035038,
    0x83F0A081, 0xE710FE77, 0xA4AE98FB, 0x6DA6CFF3, 0x4318AD02, 0x571F12DE, 0x0A2DD0B1, 0x6AD2E72E)
  const A4' := State(
    0x4BF50858, 0xA73BC4C3, 0x5F22EFCD, 0x2185A787, 0x8C452117, 0xA6A950DB, 0x1263635F, 0x7E93FA08,
    0x6A2DCDF8, 0x7EDB43B1, 0x24B834B2, 0xB1F75930, 0x7724ED48, 0x88A819EF, 0x4A6ABC30, 0x4223A978)
  const A5 := State(
    0x93CEC0E5, 0xFD3D4318, 0x9F26B4B5, 0x3A80BAC2, 0x75D4BF19, 0xD21818EE, 0xF134C362, 0x0A77B20E,
    0x7FD74C5C, 0x083B1302, 0x5F8EB474, 0x4D5607F3, 0xE44A29C7, 0xE5B0DE14, 0x427C63D1, 0xD4F62E91)
  const A5' := State(
    0x8429D7D7, 0x635F10C7, 0x8A0DAB70, 0x1810FE17, 0x7779E6F1, 0x2F10FEAF, 0x80AAA301, 0xDA10136E,
    0xE6E19DD1, 0xD1235DB5, 0xD01F4D23, 0xA8F1E96F, 0x8B5F8319, 0xBE69203A, 0xB23451ED, 0x195A516E)
  const A6 := State(
    0x782F7A27, 0x8BE43A5F, 0xED5DF2A0, 0x22F5A167, 0xA0535DAB, 0x4665819C, 0xA73E489F, 0x61636BCD,
    0x565336ED, 0x156BFD13, 0xA007BF53, 0x770E8521, 0x4B08F79E, 0x9F3D69DD, 0xEF7627D6, 0x47FFC7D0)
  const A6' := State(
    0x8D6D2B34, 0x6CB1ED88, 0xFF54C76D, 0x67718381, 0x337AA52B, 0x8383A4B2, 0xE312562C, 0x042B9F22,
    0xC9274F64, 0xD53FEA50, 0x910FF00B, 0xEF5B4FA0, 0xCB2AC478, 0x37EB597E, 0xA7B606EE, 0xC2D20B3C)
  const A7 := State(
    0xEF5CA5DF, 0x92B54389, 0x5467A5E3, 0xDC34D06B, 0x501AA3CD, 0x6475D65C, 0x9DD75BFF, 0x7BB1E78F,
    0x307B2B51, 0x2D85D2F2, 0x531648A4, 0xFE1A316B, 0x5E2229F4, 0xA595D9A7, 0xBD46CBCC, 0xFD2B8677)

  /** The states while the empty key material is compressed: before each round, and after its columns. */
  const B0 := State(
    0xDF278E8E, 0xBF30917B, 0x0771ED47, 0x222EE100, 0x0E388A39, 0xC1E00FFB, 0x20919033, 0x869A61F8,
    0x6A09E667, 0xBB67AE85, 0x3C6EF372, 0xA54FF53A, 0x00000000, 0x00000000, 0x00000000, 0x0000004B)
  const B0' := State(
    0x8D48E75C, 0x87FA7558, 0xDC6D1502, 0xA8802C97, 0x88411F58, 0xD747DADE, 0x741FC74A, 0x3172B670,
    0xBF6762D1, 0xA504BC89, 0xBB8A32B2, 0x46EDD187, 0x3C958F0A, 0x48268CF4, 0x01A1173D, 0x5EEA3384)
  const B1 := State(
    0xE3B86335, 0x51E32537, 0xF9834563, 0x5BD9E56E, 0x84498AC1, 0xFD06FBA6, 0xDDCD606A, 0x769411A8,
    0xA1ABADCA, 0x0FDDF9BD, 0xFC5A7385, 0xB378DDFB, 0xB8E24BE5, 0x9ABE0500, 0x0E070BD4, 0x4F120659)
  const B1' := State(
    0xAECE2D65, 0xAA66ACB0, 0xA2B8215F, 0x7F9B1CDC, 0x8B1608C7, 0xB4826E04, 0x8CF3CF2A, 0x7BCAF4D4,
    0xCDC85CAA, 0x1A4B8989, 0xB280EED4, 0x48574FFB, 0x8608DDFD, 0xE48FBB78, 0x080CA1F8, 0xA38ED481)
  const B2 := State(
    0x7EBC0A25, 0x1DD0A4A6, 0x44A3241D, 0x52C280AB, 0x81FAD8FD, 0x81CDE0D5, 0x5C0A99A1, 0xFD55BC64,
    0x8CFE3F94, 0xB57D25C8, 0xFD9B047C, 0xE33AF862, 0xF4BBF715, 0x11E9E8DE, 0x16D69982, 0xFB3154CA)
  const B2' := State(
    0xB678EFF0, 0xEE48B470, 0xD6159B90, 0x4F134260, 0xE456351C, 0x18C8191F, 0xEC715C73, 0x4AD1B8FE,
    0x9ED882BC, 0x2AA6A179, 0x0DC9E424, 0x96277A74, 0xFDA24F1B, 0x0783ED3A, 0xEBF2292D, 0x4926D6E9)
  const B3 := State(
    0x08906096, 0xBAABB7D2, 0x4EC87A5F, 0x23F04260, 0x94E9E1A2, 0xEDCD916D, 0xE63DEAA7, 0x5972CA07,
    0x9484267D, 0x84761BAE, 0xDF87E171, 0xC104F51C, 0xCAE55390, 0x3BF77C5D, 0xFB7DA19A, 0xF1D776E6)
  const B3' := State(
    0x995D6E91, 0x8D8E8A92, 0x89BA869A, 0x3AD93BAB, 0x189EACBE, 0x0C6709B4, 0x41A38BEF, 0x87CF61EB,
    0xB4B57355, 0xD6919B55, 0x8571D634, 0x5AC6DA87, 0x0E88F539, 0x1CB8EC19, 0xE14D2648, 0x1F4058B7)
  const B4 := State(
    0x368F187E, 0x4A1A1442, 0x285DD273, 0x6693AB47, 0xEC62807A, 0xC661635C, 0xAE9B9D85, 0x17DB5B57,
    0xFB7E4265, 0x225BFFA8, 0xA07B0E5A, 0x37293F16, 0xF8A9A2D5, 0x422CC1DF, 0x7DA8B219, 0xFA167DA2)
  const B4' := State(
    0xEF6F35E1, 0x3AAD6761, 0x19E67C6A, 0x0BF96287, 0x8A47F986, 0xEE4A37A3, 0xE1F19B9B, 0x387AB9A5,
    0xEF815FAC, 0x0F2A3E34, 0xBA20C182, 0xB0D68975, 0xB9D542EF, 0x368CEC35, 0x3BC407D7, 0xFE70C5E6)
  const B5 := State(
    0x0C423A11, 0x6EE014B7, 0x26305226, 0xBA3F703E, 0x4E0A318B, 0xD22B5F93, 0x9778B067, 0xB08CF1A5,
    0x95B7CECF, 0x26E6D196, 0x3B270564, 0xEE192270, 0xFD2EF3B1, 0xCBFC0A36, 0xBBE1E5DD, 0xD8A42019)
  const B5' := State(
    0xD5F2AA90, 0x72F2E8CA, 0x7A645388, 0xC2A46BD5, 0x94B72AD7, 0xDFA7113C, 0xF4BF5E21, 0x87749E74,
    0x2033553E, 0xE26FEAEF, 0xE3144001, 0xED9733B1, 0xF24DDF0D, 0x3D0C8E62, 0xC09D3455, 0xBD835ED9)
  const B6 := State(
    0x480B34B1, 0xE0C98314, 0xC83A7C4C, 0xDD7CB496, 0x64A79034, 0x65C34E3D, 0xDE17C389, 0x05FDD178,
    0x38893652, 0xD5E907D8, 0x73D66657, 0x72F6F8C6, 0xEB792F16, 0x98B7A440, 0x507F8523, 0xABAD1E3C)
  const B6' := State(
    0x8F46D2A3, 0xC96FC4EB, 0x97314D7E, 0xF1CB7357, 0x18DCEA7C, 0x6F32AB2F, 0x2CE24853, 0x230B87AF,
    0x8CE133B2, 0x1BB7642D, 0x81FB243F, 0x8B933AD8, 0x6864B595, 0xD0BC7E1A, 0x532DC7BB, 0x8069F93B)
  const B7 := State(
    0x94801B32, 0x0C289B07, 0x540E865E, 0x87934A08, 0xE07FAEA9, 0xA97DE72D, 0xB4C04BA3, 0x5F1D8CD2,
    0x1717D81E, 0x433DB8C5, 0x28F50BB4, 0x75F35C13, 0x31B48305, 0xDEFF39EC, 0x8D1DFB13, 0x22106965)

  lemma HalfRounds(v: State, m: State, half: State, v': State)
    requires Columns(v, m) == half && Diagonals(half, m) == v'
    ensures Round(v, m) == v'
  {
  }

  lemma RoundA0()
    ensures Round(A0, M0) == A1
  {
    HalfRounds(A0, M0, A0', A1);
  }

  lemma RoundA1()
    ensures Round(A1, M1) == A2
  {
    HalfRounds(A1, M1, A1', A2);
  }

  lemma RoundA2()
    ensures Round(A2, M2) == A3
  {
    HalfRounds(A2, M2, A2', A3);
  }

  lemma RoundA3()
    ensures Round(A3, M3) == A4
  {
    HalfRounds(A3, M3, A3', A4);
  }

  lemma RoundA4()
    ensures Round(A4, M4) == A5
  {
    HalfRounds(A4, M4, A4', A5);
  }

  lemma RoundA5()
    ensures Round(A5, M5) == A6
  {
    HalfRounds(A5, M5, A5', A6);
  }

  lemma RoundA6()
    ensures Round(A6, M6) == A7
  {
    HalfRounds(A6, M6, A6', A7);
  }

  lemma RoundB0()
    ensures Round(B0, ZEROS) == B1
  {
    HalfRounds(B0, ZEROS, B0', B1);
  }

  lemma RoundB1()
    ensures Round(B1, ZEROS) == B2
  {
    HalfRounds(B1, ZEROS, B1', B2);
  }

  lemma RoundB2()
    ensures Round(B2, ZEROS) == B3
  {
    HalfRounds(B2, ZEROS, B2', B3);
  }

  lemma RoundB3()
    ensures Round(B3, ZEROS) == B4
  {
    HalfRounds(B3, ZEROS, B3', B4);
  }

  lemma RoundB4()
    ensures Round(B4, ZEROS) == B5
  {
    HalfRounds(B4, ZEROS, B4', B5);
  }

  lemma RoundB5()
    ensures Round(B5, ZEROS) == B6
  {
    HalfRounds(B5, ZEROS, B5', B6);
  }

  lemma RoundB6()
    ensures Round(B6, ZEROS) == B7
  {
    HalfRounds(B6, ZEROS, B6', B7);
  }

  lemma RoundsStep(v: State, m: State, n: nat, v': State, m': State)
    requires n > 0 && Round(v, m) == v' && Permute(m) == m'
    ensures Rounds(v, m, n) == Rounds(v', m', n - 1)
  {
    hide Round, Permute;
  }

  lemma RoundsA()
    ensures Rounds(A0, M0, 7) == A7
  {
    hide Round;
    assert Rounds(A7, Permute(M6), 0) == A7;
    hide Rounds;
    RoundA0();
    RoundsStep(A0, M0, 7, A1, M1);
    RoundA1();
    RoundsStep(A1, M1, 6, A2, M2);
    RoundA2();
    RoundsStep(A2, M2, 5, A3, M3);
    RoundA3();
    RoundsStep(A3, M3, 4, A4, M4);
    RoundA4();
    RoundsStep(A4, M4, 3, A5, M5);
    RoundA5();
    RoundsStep(A5, M5, 2, A6, M6);
    RoundA6();
    RoundsStep(A6, M6, 1, A7, Permute(M6));
  }

  lemma RoundsB()
    ensures Rounds(B0, ZEROS, 7) == B7
  {
    hide Round;
    assert Rounds(B7, ZEROS, 0) == B7;
    hide Rounds;
    RoundB0();
    RoundsStep(B0, ZEROS, 7, B1, ZEROS);
    RoundB1();
    RoundsStep(B1, ZEROS, 6, B2, ZEROS);
    RoundB2();
    RoundsStep(B2, ZEROS, 5, B3, ZEROS);
    RoundB3();
    RoundsStep(B3, ZEROS, 4, B4, ZEROS);
    RoundB4();
    RoundsStep(B4, ZEROS, 3, B5, ZEROS);
    RoundB5();
    RoundsStep(B5, ZEROS, 2, B6, ZEROS);
    RoundB6();
    RoundsStep(B6, ZEROS, 1, B7, ZEROS);
  }

  /** The derived key. */
  const KEY: Chain := [0xDF278E8E, 0xBF30917B, 0x0771ED47, 0x222EE100,
                       0x0E388A39, 0xC1E00FFB, 0x20919033, 0x869A61F8]

  const OUTPUT: Block := [0x8397C32C, 0x4F1523C2, 0x7CFB8DEA, 0xF260161B,
                          0xD1CB2DAC, 0x7782DEC1, 0x39DDB0B0, 0x7D0DE5B7,
                          0xC8305690, 0xFC0D29BE, 0x2F84E6F3, 0x57DDBD13,
                          0x3F8C093C, 0x1F1F3617, 0xAD8C6B20, 0xA48A089D]

  lemma ContextCompressed()
    ensures CompressSpec(IV, Store(M0), 0, 47, 0x2B)[..8] == KEY
  {
    hide Rounds;
    RoundsA();
    assert Load(Store(M0)) == M0;
    assert Start(IV, 0, 47, 0x2B) == A0;
    assert FeedForward(A7, A0).w0 == KEY[0];
  }

  lemma MaterialCompressed()
    ensures CompressSpec(KEY, Store(ZEROS), 0, 0, 0x4B) == OUTPUT
  {
    hide Rounds;
    RoundsB();
    assert Load(Store(ZEROS)) == ZEROS;
    assert Start(KEY, 0, 0, 0x4B) == B0;
  }

  /** The bytes of the context and of the output, as words. */
  lemma BytesAndWords()
    ensures ToBlock(CONTEXT) == Store(M0) && ToBlock([]) == Store(ZEROS) && ToWords(DERIVED) == OUTPUT
  {
    ContextWords();
    NoWords();
    OutputWords();
  }

  lemma WordsOfSum(a: seq<Byte>, b: seq<Byte>)
    requires |a| % 4 == 0 && |b| % 4 == 0
    ensures ToWords(a + b) == ToWords(a) + ToWords(b)
  {
    hide ToWord;
  }

  lemma WordsOfParts(a: seq<Byte>, b: seq<Byte>, c: seq<Byte>, d: seq<Byte>)
    requires |a| == |b| == |c| == |d| == 16
    ensures ToWords(a + b + c + d) == ToWords(a) + ToWords(b) + ToWords(c) + ToWords(d)
  {
    hide ToWords;
    WordsOfSum(a, b);
    WordsOfSum(a + b, c);
    WordsOfSum(a + b + c, d);
  }

  lemma FourWords(b: seq<Byte>, w: seq<Word>)
    requires |b| == 16 && |w| == 4
    requires ToWord(b[0], b[1], b[2], b[3]) == w[0] && ToWord(b[4], b[5], b[6], b[7]) == w[1]
    requires ToWord(b[8], b[9], b[10], b[11]) == w[2] && ToWord(b[12], b[13], b[14], b[15]) == w[3]
    ensures ToWords(b) == w
  {
    hide ToWord;
  }

  function Zeros(n: nat): seq<Byte> {
    seq(n, i => 0)
  }

  lemma Padded(a: seq<Byte>, b: seq<Byte>, c: seq<Byte>)
    requires |a| == |b| == 16 && |c| == 15
    ensures ToBlock(a + b + c) == ToWords(a + b + (c + [0]) + Zeros(16))
  {
    hide ToWords;
    assert a + b + c + seq(17, i => 0) == a + b + (c + [0]) + Zeros(16);
  }

  lemma FirstWords()
    ensures ToWords(C0) == [0x4B414C42, 0x32203345, 0x2D393130, 0x322D3231]
    ensures ToWords(C1) == [0x36312037, 0x3A39323A, 0x74203235, 0x20747365]
  {
    hide ToWords;
    FourWords(C0, [0x4B414C42, 0x32203345, 0x2D393130, 0x322D3231]);
    FourWords(C1, [0x36312037, 0x3A39323A, 0x74203235, 0x20747365]);
  }

  lemma OtherWords()
    ensures ToWords(C2 + [0]) == [0x74636576, 0x2073726F, 0x746E6F63, 0x00747865] && ToWords(Zeros(16)) == [0, 0, 0, 0]
  {
    hide ToWords;
    FourWords(C2 + [0], [0x74636576, 0x2073726F, 0x746E6F63, 0x00747865]);
    FourWords(Zeros(16), [0, 0, 0, 0]);
  }

  lemma ContextWords()
    ensures ToBlock(CONTEXT) == Store(M0)
  {
    hide ToWords, ToBlock;
    FirstWords();
    OtherWords();
    WordsOfParts(C0, C1, C2 + [0], Zeros(16));
    Padded(C0, C1, C2);
  }

  lemma NoWords()
    ensures ToBlock([]) == Store(ZEROS)
  {
  }

  lemma OutputWords()
    ensures ToWords(DERIVED) == OUTPUT
  {
    hide ToWords;
    FourWords(D0, [0x8397C32C, 0x4F1523C2, 0x7CFB8DEA, 0xF260161B]);
    FourWords(D1, [0xD1CB2DAC, 0x7782DEC1, 0x39DDB0B0, 0x7D0DE5B7]);
    FourWords(D2, [0xC8305690, 0xFC0D29BE, 0x2F84E6F3, 0x57DDBD13]);
    FourWords(D3, [0x3F8C093C, 0x1F1F3617, 0xAD8C6B20, 0xA48A089D]);
    WordsOfParts(D0, D1, D2, D3);
  }

  lemma ModeFlagsAndRoot(mode: Word, all: Word)
    requires (mode == DERIVE_KEY_CONTEXT && all == 0x2B) || (mode == DERIVE_KEY_MATERIAL && all == 0x4B)
    ensures With(With(With(mode, CHUNK_START), CHUNK_END), ROOT) == all
  {
  }

  /** The first output block of a message of at most one block. */
  lemma OneBlockHash(m: Mode, msg: seq<Byte>, all: Word, output: Block, n: nat)
    requires |msg| <= BLOCK_LEN && n <= 64
    requires With(With(With(m.flags, CHUNK_START), CHUNK_END), ROOT) == all
    requires m.compress(m.key, ToBlock(msg), 0, |msg|, all) == output
    ensures HashBytes(m, msg, n) == ToBytes(output)[..n]
  {
    hide With, ToBlock, ToBytes;
    assert msg[0..] == msg;
    assert m.RootNode(msg) == Node(m.key, ToBlock(msg), 0, |msg|, all);
    assert StreamBlock(m.compress, m.RootNode(msg), 0) == ToBytes(output);
  }

  /** The key that the published context derives. */
  lemma DerivedKey()
    ensures ContextKey(Portable(), CONTEXT) == KEY
  {
    hide CompressSpec, ToBlock, ToBytes, HashBytes, With, ToWords;
    BytesAndWords();
    ContextCompressed();
    ModeFlagsAndRoot(DERIVE_KEY_CONTEXT, 0x2B);
    var output := CompressSpec(IV, Store(M0), 0, 47, 0x2B);
    OneBlockHash(Mode(Portable(), IV, DERIVE_KEY_CONTEXT), CONTEXT, 0x2B, output, 32);
    KeyOfBytes(output);
  }

  lemma KeyOfBytes(output: Block)
    ensures ToWords(ToBytes(output)[..32]) == output[..8]
  {
    hide ToWords, ToBytes;
    ConversionsAreInverse(output, []);
    WordsOfPrefix(ToBytes(output), 8);
  }

  lemma WordsOfPrefix(bytes: seq<Byte>, n: nat)
    requires |bytes| % 4 == 0 && 4 * n <= |bytes|
    ensures ToWords(bytes[..4 * n]) == ToWords(bytes)[..n]
  {
    hide ToWord;
  }

  /** The portable code derives the published output. */
  lemma PublishedDerivation()
    ensures HashBytes(Mode(Portable(), ContextKey(Portable(), CONTEXT), DERIVE_KEY_MATERIAL), [], 64) == DERIVED
  {
    hide CompressSpec, ToBlock, ToBytes, HashBytes, With, ToWords, ContextKey;
    DerivedKey();
    BytesAndWords();
    MaterialCompressed();
    ModeFlagsAndRoot(DERIVE_KEY_MATERIAL, 0x4B);
    OneBlockHash(Mode(Portable(), KEY, DERIVE_KEY_MATERIAL), [], 0x4B, OUTPUT, 64);
    ConversionsAreInverse([], DERIVED);
  }
}
