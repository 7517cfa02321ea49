/** The table of `ACE_crc_ccitt.cpp`; its 16-bit register is the low half of a word. */
module CrcCcitt {
  import opened CrcDivision
  import opened TableCrc

  /** The generator polynomial, bits reversed. */
  const POLY: Word := 0x8408

  const CODE := Code(16, POLY, 0xFFFF, 0x8000, Entry)

  function Row(k: nat): (r: seq<Word>)
    requires k < 16
    ensures |r| == 16
  {
    if k == 0 then
     [0x0000, 0x1189, 0x2312, 0x329B, 0x4624, 0x57AD, 0x6536, 0x74BF,
      0x8C48, 0x9DC1, 0xAF5A, 0xBED3, 0xCA6C, 0xDBE5, 0xE97E, 0xF8F7]
    else
    if k == 1 then
     [0x1081, 0x0108, 0x3393, 0x221A, 0x56A5, 0x472C, 0x75B7, 0x643E,
      0x9CC9, 0x8D40, 0xBFDB, 0xAE52, 0xDAED, 0xCB64, 0xF9FF, 0xE876]
    else
    if k == 2 then
     [0x2102, 0x308B, 0x0210, 0x1399, 0x6726, 0x76AF, 0x4434, 0x55BD,
      0xAD4A, 0xBCC3, 0x8E58, 0x9FD1, 0xEB6E, 0xFAE7, 0xC87C, 0xD9F5]
    else
    if k == 3 then
     [0x3183, 0x200A, 0x1291, 0x0318, 0x77A7, 0x662E, 0x54B5, 0x453C,
      0xBDCB, 0xAC42, 0x9ED9, 0x8F50, 0xFBEF, 0xEA66, 0xD8FD, 0xC974]
    else
    if k == 4 then
     [0x4204, 0x538D, 0x6116, 0x709F, 0x0420, 0x15A9, 0x2732, 0x36BB,
      0xCE4C, 0xDFC5, 0xED5E, 0xFCD7, 0x8868, 0x99E1, 0xAB7A, 0xBAF3]
    else
    if k == 5 then
     [0x5285, 0x430C, 0x7197, 0x601E, 0x14A1, 0x0528, 0x37B3, 0x263A,
      0xDECD, 0xCF44, 0xFDDF, 0xEC56, 0x98E9, 0x8960, 0xBBFB, 0xAA72]
    else
    if k == 6 then
     [0x6306, 0x728F, 0x4014, 0x519D, 0x2522, 0x34AB, 0x0630, 0x17B9,
      0xEF4E, 0xFEC7, 0xCC5C, 0xDDD5, 0xA96A, 0xB8E3, 0x8A78, 0x9BF1]
    else
    if k == 7 then
     [0x7387, 0x620E, 0x5095, 0x411C, 0x35A3, 0x242A, 0x16B1, 0x0738,
      0xFFCF, 0xEE46, 0xDCDD, 0xCD54, 0xB9EB, 0xA862, 0x9AF9, 0x8B70]
    else
    if k == 8 then
     [0x8408, 0x9581, 0xA71A, 0xB693, 0xC22C, 0xD3A5, 0xE13E, 0xF0B7,
      0x0840, 0x19C9, 0x2B52, 0x3ADB, 0x4E64, 0x5FED, 0x6D76, 0x7CFF]
    else
    if k == 9 then
     [0x9489, 0x8500, 0xB79B, 0xA612, 0xD2AD, 0xC324, 0xF1BF, 0xE036,
      0x18C1, 0x0948, 0x3BD3, 0x2A5A, 0x5EE5, 0x4F6C, 0x7DF7, 0x6C7E]
    else
    if k == 10 then
     [0xA50A, 0xB483, 0x8618, 0x9791, 0xE32E, 0xF2A7, 0xC03C, 0xD1B5,
      0x2942, 0x38CB, 0x0A50, 0x1BD9, 0x6F66, 0x7EEF, 0x4C74, 0x5DFD]
    else
    if k == 11 then
     [0xB58B, 0xA402, 0x9699, 0x8710, 0xF3AF, 0xE226, 0xD0BD, 0xC134,
      0x39C3, 0x284A, 0x1AD1, 0x0B58, 0x7FE7, 0x6E6E, 0x5CF5, 0x4D7C]
    else
    if k == 12 then
     [0xC60C, 0xD785, 0xE51E, 0xF497, 0x8028, 0x91A1, 0xA33A, 0xB2B3,
      0x4A44, 0x5BCD, 0x6956, 0x78DF, 0x0C60, 0x1DE9, 0x2F72, 0x3EFB]
    else
    if k == 13 then
     [0xD68D, 0xC704, 0xF59F, 0xE416, 0x90A9, 0x8120, 0xB3BB, 0xA232,
      0x5AC5, 0x4B4C, 0x79D7, 0x685E, 0x1CE1, 0x0D68, 0x3FF3, 0x2E7A]
    else
    if k == 14 then
     [0xE70E, 0xF687, 0xC41C, 0xD595, 0xA12A, 0xB0A3, 0x8238, 0x93B1,
      0x6B46, 0x7ACF, 0x4854, 0x59DD, 0x2D62, 0x3CEB, 0x0E70, 0x1FF9]
    else
     [0xF78F, 0xE606, 0xD49D, 0xC514, 0xB1AB, 0xA022, 0x92B9, 0x8330,
      0x7BC7, 0x6A4E, 0x58D5, 0x495C, 0x3DE3, 0x2C6A, 0x1EF1, 0x0F78]
  }

  /** The table at an index of eight bits. */
  function Entry(x: Word): Word
  {
    Row(((x >> 4) & 0xF) as nat)[(x & 0xF) as nat]
  }

  // ----- the 256 entries -----

  lemma Units()
    ensures Shift8(POLY, 0x01) == 0x1189 && Shift8(POLY, 0x02) == 0x2312
    ensures Shift8(POLY, 0x04) == 0x4624 && Shift8(POLY, 0x08) == 0x8C48
    ensures Shift8(POLY, 0x10) == 0x1081 && Shift8(POLY, 0x20) == 0x2102
    ensures Shift8(POLY, 0x40) == 0x4204 && Shift8(POLY, 0x80) == 0x8408
  {
  }

  lemma FirstRow()
    ensures Nibbles(Row(0), 0x1189, 0x2312, 0x4624, 0x8C48)
  {
  }

  function FirstColumn(): (c: seq<Word>)
    ensures |c| == 16
  {
    [Row(0)[0], Row(1)[0], Row(2)[0], Row(3)[0], Row(4)[0], Row(5)[0], Row(6)[0], Row(7)[0],
     Row(8)[0], Row(9)[0], Row(10)[0], Row(11)[0], Row(12)[0], Row(13)[0], Row(14)[0], Row(15)[0]]
  }

  lemma FirstColumnOk()
    ensures Nibbles(FirstColumn(), 0x1081, 0x2102, 0x4204, 0x8408)
  {
  }

  lemma Row1() ensures RowMatches(Row(1), Row(1)[0], Row(0)) {}
  lemma Row2() ensures RowMatches(Row(2), Row(2)[0], Row(0)) {}
  lemma Row3() ensures RowMatches(Row(3), Row(3)[0], Row(0)) {}
  lemma Row4() ensures RowMatches(Row(4), Row(4)[0], Row(0)) {}
  lemma Row5() ensures RowMatches(Row(5), Row(5)[0], Row(0)) {}
  lemma Row6() ensures RowMatches(Row(6), Row(6)[0], Row(0)) {}
  lemma Row7() ensures RowMatches(Row(7), Row(7)[0], Row(0)) {}
  lemma Row8() ensures RowMatches(Row(8), Row(8)[0], Row(0)) {}
  lemma Row9() ensures RowMatches(Row(9), Row(9)[0], Row(0)) {}
  lemma RowA() ensures RowMatches(Row(10), Row(10)[0], Row(0)) {}
  lemma RowB() ensures RowMatches(Row(11), Row(11)[0], Row(0)) {}
  lemma RowC() ensures RowMatches(Row(12), Row(12)[0], Row(0)) {}
  lemma RowD() ensures RowMatches(Row(13), Row(13)[0], Row(0)) {}
  lemma RowE() ensures RowMatches(Row(14), Row(14)[0], Row(0)) {}
  lemma RowF() ensures RowMatches(Row(15), Row(15)[0], Row(0)) {}

  lemma EachRow(k: nat)
    requires k < 16
    ensures RowMatches(Row(k), Row(k)[0], Row(0))
  {
    if k < 8 {
      match k
      case 0 => MatchesItself(Row(0)); case 1 => Row1(); case 2 => Row2(); case 3 => Row3();
      case 4 => Row4(); case 5 => Row5(); case 6 => Row6(); case 7 => Row7();
    } else {
      match k
      case 8 => Row8(); case 9 => Row9(); case 10 => RowA(); case 11 => RowB();
      case 12 => RowC(); case 13 => RowD(); case 14 => RowE(); case 15 => RowF();
    }
  }

  lemma ColumnAt(k: nat)
    requires k < 16
    ensures FirstColumn()[k] == Row(k)[0]
  {
  }

  lemma RowEntry(hi: Word, lo: Word)
    requires hi < 16 && lo < 16
    ensures Row(hi as nat)[lo as nat] ==
            Xor(Sum4(0x1081, 0x2102, 0x4204, 0x8408, hi), Sum4(0x1189, 0x2312, 0x4624, 0x8C48, lo))
  {
    hide Row; hide FirstColumn; hide Nibbles; hide RowMatches; hide Sum4; hide Xor;
    var k := hi as nat;
    FirstRow();
    FirstColumnOk();
    EachRow(k);
    ColumnAt(k);
    InMatchingRow(Row(k), Row(k)[0], Row(0), lo);
    NibbleAt(Row(0), 0x1189, 0x2312, 0x4624, 0x8C48, lo);
    NibbleAt(FirstColumn(), 0x1081, 0x2102, 0x4204, 0x8408, hi);
  }

  /** Each of the 256 entries is its index divided through eight bits. */
  lemma TableIsShift8(x: Word)
    requires x <= 0xFF
    ensures Entry(x) == Shift8(POLY, x)
  {
    hide Row; hide Shift8; hide Sum4; hide Xor;
    var hi, lo := (x >> 4) & 0xF, x & 0xF;
    SplitByte(x);
    Units();
    RowEntry(hi, lo);
    NibblesAdd(POLY, hi, lo);
  }

  /** So what holds of valid codes holds of this one. */
  lemma CodeIsValid()
    ensures Valid(CODE)
  {
    forall x: Word | x <= 0xFF ensures CODE.entry(x) == Shift8(CODE.poly, x) { TableIsShift8(x); }
  }

  /** Any error burst of up to 16 bits is detected. */
  lemma BurstIsDetected(m: seq<Octet>, n: seq<Octet>, at: nat, crc: Word)
    requires WithinBurst(m, n, at, 16) && m != n && crc <= 0xFFFF
    ensures Check(CODE, m, crc) != Check(CODE, n, crc)
  {
    CodeIsValid();
    FitsInWord(CODE, crc);
    BurstIsSeen(CODE, m, n, at, crc);
  }

  /** The check value of any message followed by its own. */
  lemma ResidueIs(m: seq<Octet>, crc: Word)
    requires crc <= 0xFFFF
    ensures Check(CODE, m + CheckBytes(2, Check(CODE, m, crc)), crc) == 0x0F47
  {
    hide Check; hide CheckBytes;
    CodeIsValid();
    FitsInWord(CODE, crc);
    AppendedIsConstant(CODE, m, crc);
    RegisterOfOnes();
  }

  lemma RegisterOfOnes()
    ensures Residue(CODE) == 0x0F47
  {
    hide Shift8; hide Tail;
    OneMoreByte(2, 0, 0x0F78);
    OneMoreByte(1, 0x0F78, 0xF0B8);
    assert Tail(POLY, 0, 0xF0B8) == 0xF0B8 by { LastTail(0xF0B8); }
  }

  lemma LastTail(o: Word) ensures Tail(POLY, 0, o) == o {}

  lemma OneMoreByte(n: nat, o: Word, next: Word)
    requires n > 0 && Xor(Entry(Xor(o, 0xFF) & 0xFF), Xor(o, 0xFF) >> 8) == next
    ensures Tail(POLY, n, o) == Tail(POLY, n - 1, next)
  {
    OnesByte(o, next);
    TailOnce(POLY, n, o, next);
  }

  /** One byte of ones, through the table. */
  lemma OnesByte(o: Word, next: Word)
    requires Xor(Entry(Xor(o, 0xFF) & 0xFF), Xor(o, 0xFF) >> 8) == next
    ensures Shift8(POLY, Xor(o, 0xFF)) == next
  {
    hide Shift8; hide Entry;
    var x := Xor(o, 0xFF);
    LowIndex(x);
    TableIsShift8(x & 0xFF);
    TableStep(POLY, x, Entry(x & 0xFF));
  }

  lemma LowIndex(x: Word) ensures x & 0xFF <= 0xFF {}
}
