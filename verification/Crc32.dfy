/** The table of `ACE_crc32.cpp`. */
module Crc32 {
  import opened CrcDivision
  import opened TableCrc

  /** The generator polynomial, bits reversed. */
  const POLY: Word := 0xEDB88320

  const CODE := Code(32, POLY, 0xFFFFFFFF, 0x80000000, Entry)

  function Row(k: nat): (r: seq<Word>)
    requires k < 16
    ensures |r| == 16
  {
    if k == 0 then
     [0x00000000, 0x77073096, 0xEE0E612C, 0x990951BA, 0x076DC419, 0x706AF48F, 0xE963A535, 0x9E6495A3,
      0x0EDB8832, 0x79DCB8A4, 0xE0D5E91E, 0x97D2D988, 0x09B64C2B, 0x7EB17CBD, 0xE7B82D07, 0x90BF1D91]
    else
    if k == 1 then
     [0x1DB71064, 0x6AB020F2, 0xF3B97148, 0x84BE41DE, 0x1ADAD47D, 0x6DDDE4EB, 0xF4D4B551, 0x83D385C7,
      0x136C9856, 0x646BA8C0, 0xFD62F97A, 0x8A65C9EC, 0x14015C4F, 0x63066CD9, 0xFA0F3D63, 0x8D080DF5]
    else
    if k == 2 then
     [0x3B6E20C8, 0x4C69105E, 0xD56041E4, 0xA2677172, 0x3C03E4D1, 0x4B04D447, 0xD20D85FD, 0xA50AB56B,
      0x35B5A8FA, 0x42B2986C, 0xDBBBC9D6, 0xACBCF940, 0x32D86CE3, 0x45DF5C75, 0xDCD60DCF, 0xABD13D59]
    else
    if k == 3 then
     [0x26D930AC, 0x51DE003A, 0xC8D75180, 0xBFD06116, 0x21B4F4B5, 0x56B3C423, 0xCFBA9599, 0xB8BDA50F,
      0x2802B89E, 0x5F058808, 0xC60CD9B2, 0xB10BE924, 0x2F6F7C87, 0x58684C11, 0xC1611DAB, 0xB6662D3D]
    else
    if k == 4 then
     [0x76DC4190, 0x01DB7106, 0x98D220BC, 0xEFD5102A, 0x71B18589, 0x06B6B51F, 0x9FBFE4A5, 0xE8B8D433,
      0x7807C9A2, 0x0F00F934, 0x9609A88E, 0xE10E9818, 0x7F6A0DBB, 0x086D3D2D, 0x91646C97, 0xE6635C01]
    else
    if k == 5 then
     [0x6B6B51F4, 0x1C6C6162, 0x856530D8, 0xF262004E, 0x6C0695ED, 0x1B01A57B, 0x8208F4C1, 0xF50FC457,
      0x65B0D9C6, 0x12B7E950, 0x8BBEB8EA, 0xFCB9887C, 0x62DD1DDF, 0x15DA2D49, 0x8CD37CF3, 0xFBD44C65]
    else
    if k == 6 then
     [0x4DB26158, 0x3AB551CE, 0xA3BC0074, 0xD4BB30E2, 0x4ADFA541, 0x3DD895D7, 0xA4D1C46D, 0xD3D6F4FB,
      0x4369E96A, 0x346ED9FC, 0xAD678846, 0xDA60B8D0, 0x44042D73, 0x33031DE5, 0xAA0A4C5F, 0xDD0D7CC9]
    else
    if k == 7 then
     [0x5005713C, 0x270241AA, 0xBE0B1010, 0xC90C2086, 0x5768B525, 0x206F85B3, 0xB966D409, 0xCE61E49F,
      0x5EDEF90E, 0x29D9C998, 0xB0D09822, 0xC7D7A8B4, 0x59B33D17, 0x2EB40D81, 0xB7BD5C3B, 0xC0BA6CAD]
    else
    if k == 8 then
     [0xEDB88320, 0x9ABFB3B6, 0x03B6E20C, 0x74B1D29A, 0xEAD54739, 0x9DD277AF, 0x04DB2615, 0x73DC1683,
      0xE3630B12, 0x94643B84, 0x0D6D6A3E, 0x7A6A5AA8, 0xE40ECF0B, 0x9309FF9D, 0x0A00AE27, 0x7D079EB1]
    else
    if k == 9 then
     [0xF00F9344, 0x8708A3D2, 0x1E01F268, 0x6906C2FE, 0xF762575D, 0x806567CB, 0x196C3671, 0x6E6B06E7,
      0xFED41B76, 0x89D32BE0, 0x10DA7A5A, 0x67DD4ACC, 0xF9B9DF6F, 0x8EBEEFF9, 0x17B7BE43, 0x60B08ED5]
    else
    if k == 10 then
     [0xD6D6A3E8, 0xA1D1937E, 0x38D8C2C4, 0x4FDFF252, 0xD1BB67F1, 0xA6BC5767, 0x3FB506DD, 0x48B2364B,
      0xD80D2BDA, 0xAF0A1B4C, 0x36034AF6, 0x41047A60, 0xDF60EFC3, 0xA867DF55, 0x316E8EEF, 0x4669BE79]
    else
    if k == 11 then
     [0xCB61B38C, 0xBC66831A, 0x256FD2A0, 0x5268E236, 0xCC0C7795, 0xBB0B4703, 0x220216B9, 0x5505262F,
      0xC5BA3BBE, 0xB2BD0B28, 0x2BB45A92, 0x5CB36A04, 0xC2D7FFA7, 0xB5D0CF31, 0x2CD99E8B, 0x5BDEAE1D]
    else
    if k == 12 then
     [0x9B64C2B0, 0xEC63F226, 0x756AA39C, 0x026D930A, 0x9C0906A9, 0xEB0E363F, 0x72076785, 0x05005713,
      0x95BF4A82, 0xE2B87A14, 0x7BB12BAE, 0x0CB61B38, 0x92D28E9B, 0xE5D5BE0D, 0x7CDCEFB7, 0x0BDBDF21]
    else
    if k == 13 then
     [0x86D3D2D4, 0xF1D4E242, 0x68DDB3F8, 0x1FDA836E, 0x81BE16CD, 0xF6B9265B, 0x6FB077E1, 0x18B74777,
      0x88085AE6, 0xFF0F6A70, 0x66063BCA, 0x11010B5C, 0x8F659EFF, 0xF862AE69, 0x616BFFD3, 0x166CCF45]
    else
    if k == 14 then
     [0xA00AE278, 0xD70DD2EE, 0x4E048354, 0x3903B3C2, 0xA7672661, 0xD06016F7, 0x4969474D, 0x3E6E77DB,
      0xAED16A4A, 0xD9D65ADC, 0x40DF0B66, 0x37D83BF0, 0xA9BCAE53, 0xDEBB9EC5, 0x47B2CF7F, 0x30B5FFE9]
    else
     [0xBDBDF21C, 0xCABAC28A, 0x53B39330, 0x24B4A3A6, 0xBAD03605, 0xCDD70693, 0x54DE5729, 0x23D967BF,
      0xB3667A2E, 0xC4614AB8, 0x5D681B02, 0x2A6F2B94, 0xB40BBE37, 0xC30C8EA1, 0x5A05DF1B, 0x2D02EF8D]
  }

  /** The table at an index of eight bits. */
  function Entry(x: Word): Word
  {
    Row(((x >> 4) & 0xF) as nat)[(x & 0xF) as nat]
  }

  // ----- the 256 entries -----

  lemma Units()
    ensures Shift8(POLY, 0x01) == 0x77073096 && Shift8(POLY, 0x02) == 0xEE0E612C
    ensures Shift8(POLY, 0x04) == 0x076DC419 && Shift8(POLY, 0x08) == 0x0EDB8832
    ensures Shift8(POLY, 0x10) == 0x1DB71064 && Shift8(POLY, 0x20) == 0x3B6E20C8
    ensures Shift8(POLY, 0x40) == 0x76DC4190 && Shift8(POLY, 0x80) == 0xEDB88320
  {
  }

  lemma FirstRow()
    ensures Nibbles(Row(0), 0x77073096, 0xEE0E612C, 0x076DC419, 0x0EDB8832)
  {
  }

  function FirstColumn(): (c: seq<Word>)
    ensures |c| == 16
  {
    [Row(0)[0], Row(1)[0], Row(2)[0], Row(3)[0], Row(4)[0], Row(5)[0], Row(6)[0], Row(7)[0],
     Row(8)[0], Row(9)[0], Row(10)[0], Row(11)[0], Row(12)[0], Row(13)[0], Row(14)[0], Row(15)[0]]
  }

  lemma FirstColumnOk()
    ensures Nibbles(FirstColumn(), 0x1DB71064, 0x3B6E20C8, 0x76DC4190, 0xEDB88320)
  {
  }

  lemma Row1() ensures RowMatches(Row(1), Row(1)[0], Row(0)) {}
  lemma Row2() ensures RowMatches(Row(2), Row(2)[0], Row(0)) {}
  lemma Row3() ensures RowMatches(Row(3), Row(3)[0], Row(0)) {}
  lemma Row4() ensures RowMatches(Row(4), Row(4)[0], Row(0)) {}
  lemma Row5() ensures RowMatches(Row(5), Row(5)[0], Row(0)) {}
  lemma Row6() ensures RowMatches(Row(6), Row(6)[0], Row(0)) {}
  lemma Row7() ensures RowMatches(Row(7), Row(7)[0], Row(0)) {}
  lemma Row8() ensures RowMatches(Row(8), Row(8)[0], Row(0)) {}
  lemma Row9() ensures RowMatches(Row(9), Row(9)[0], Row(0)) {}
  lemma RowA() ensures RowMatches(Row(10), Row(10)[0], Row(0)) {}
  lemma RowB() ensures RowMatches(Row(11), Row(11)[0], Row(0)) {}
  lemma RowC() ensures RowMatches(Row(12), Row(12)[0], Row(0)) {}
  lemma RowD() ensures RowMatches(Row(13), Row(13)[0], Row(0)) {}
  lemma RowE() ensures RowMatches(Row(14), Row(14)[0], Row(0)) {}
  lemma RowF() ensures RowMatches(Row(15), Row(15)[0], Row(0)) {}

  lemma EachRow(k: nat)
    requires k < 16
    ensures RowMatches(Row(k), Row(k)[0], Row(0))
  {
    if k < 8 {
      match k
      case 0 => MatchesItself(Row(0)); case 1 => Row1(); case 2 => Row2(); case 3 => Row3();
      case 4 => Row4(); case 5 => Row5(); case 6 => Row6(); case 7 => Row7();
    } else {
      match k
      case 8 => Row8(); case 9 => Row9(); case 10 => RowA(); case 11 => RowB();
      case 12 => RowC(); case 13 => RowD(); case 14 => RowE(); case 15 => RowF();
    }
  }

  lemma ColumnAt(k: nat)
    requires k < 16
    ensures FirstColumn()[k] == Row(k)[0]
  {
  }

  lemma RowEntry(hi: Word, lo: Word)
    requires hi < 16 && lo < 16
    ensures Row(hi as nat)[lo as nat] ==
            Xor(Sum4(0x1DB71064, 0x3B6E20C8, 0x76DC4190, 0xEDB88320, hi),
              Sum4(0x77073096, 0xEE0E612C, 0x076DC419, 0x0EDB8832, lo))
  {
    hide Row; hide FirstColumn; hide Nibbles; hide RowMatches; hide Sum4; hide Xor;
    var k := hi as nat;
    FirstRow();
    FirstColumnOk();
    EachRow(k);
    ColumnAt(k);
    InMatchingRow(Row(k), Row(k)[0], Row(0), lo);
    NibbleAt(Row(0), 0x77073096, 0xEE0E612C, 0x076DC419, 0x0EDB8832, lo);
    NibbleAt(FirstColumn(), 0x1DB71064, 0x3B6E20C8, 0x76DC4190, 0xEDB88320, hi);
  }

  /** Each of the 256 entries is its index divided through eight bits. */
  lemma TableIsShift8(x: Word)
    requires x <= 0xFF
    ensures Entry(x) == Shift8(POLY, x)
  {
    hide Row; hide Shift8; hide Sum4; hide Xor;
    var hi, lo := (x >> 4) & 0xF, x & 0xF;
    SplitByte(x);
    Units();
    RowEntry(hi, lo);
    NibblesAdd(POLY, hi, lo);
  }

  /** So what holds of valid codes holds of this one. */
  lemma CodeIsValid()
    ensures Valid(CODE)
  {
    forall x: Word | x <= 0xFF ensures CODE.entry(x) == Shift8(CODE.poly, x) { TableIsShift8(x); }
  }

  /** Any error burst of up to 32 bits is detected. */
  lemma BurstIsDetected(m: seq<Octet>, n: seq<Octet>, at: nat, crc: Word)
    requires WithinBurst(m, n, at, 32) && m != n
    ensures Check(CODE, m, crc) != Check(CODE, n, crc)
  {
    CodeIsValid();
    FitsInWord(CODE, crc);
    BurstIsSeen(CODE, m, n, at, crc);
  }

  /** The check value of any message followed by its own. */
  lemma ResidueIs(m: seq<Octet>, crc: Word)
    ensures Check(CODE, m + CheckBytes(4, Check(CODE, m, crc)), crc) == 0x2144DF1C
  {
    hide Check; hide CheckBytes;
    CodeIsValid();
    FitsInWord(CODE, crc);
    AppendedIsConstant(CODE, m, crc);
    RegisterOfOnes();
  }

  lemma RegisterOfOnes()
    ensures Residue(CODE) == 0x2144DF1C
  {
    hide Shift8; hide Tail;
    OneMoreByte(4, 0, 0x2D02EF8D);
    OneMoreByte(3, 0x2D02EF8D, 0xBE2612FF);
    OneMoreByte(2, 0xBE2612FF, 0x00BE2612);
    OneMoreByte(1, 0x00BE2612, 0xDEBB20E3);
    assert Tail(POLY, 0, 0xDEBB20E3) == 0xDEBB20E3 by { LastTail(0xDEBB20E3); }
  }

  lemma LastTail(o: Word) ensures Tail(POLY, 0, o) == o {}

  lemma OneMoreByte(n: nat, o: Word, next: Word)
    requires n > 0 && Xor(Entry(Xor(o, 0xFF) & 0xFF), Xor(o, 0xFF) >> 8) == next
    ensures Tail(POLY, n, o) == Tail(POLY, n - 1, next)
  {
    OnesByte(o, next);
    TailOnce(POLY, n, o, next);
  }

  /** One byte of ones, through the table. */
  lemma OnesByte(o: Word, next: Word)
    requires Xor(Entry(Xor(o, 0xFF) & 0xFF), Xor(o, 0xFF) >> 8) == next
    ensures Shift8(POLY, Xor(o, 0xFF)) == next
  {
    hide Shift8; hide Entry;
    var x := Xor(o, 0xFF);
    LowIndex(x);
    TableIsShift8(x & 0xFF);
    TableStep(POLY, x, Entry(x & 0xFF));
  }

  lemma LowIndex(x: Word) ensures x & 0xFF <= 0xFF {}
}
