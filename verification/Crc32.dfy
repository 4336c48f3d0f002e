/** CRC-32 in its two forms: the table-driven one of the operating system library
    (sdk/libtoob/toob_crc32.c) and the bitwise one of the boot loader
    (toobloader_old/core/boot_crc32.c). */
module Crc32 {

  const INIT: bv32 := 0xFFFF_FFFF

  // ---- The bitwise form --------------------------------------------------------------

  /** One division step by the reflected polynomial of clause 3.2.9 of IEEE 802.3. */
  function Reduce(c: bv32): bv32 {
    Xor(Half(c), Feedback(c))
  }

  function Half(c: bv32): bv32 {
    c >> 1
  }

  /** The polynomial if the bit shifted out is set, else nothing. */
  function Feedback(c: bv32): bv32 {
    0xEDB8_8320 & (0 - (c & 1))
  }

  function Xor(a: bv32, b: bv32): bv32 {
    a ^ b
  }

  function Reduce2(c: bv32): bv32 {
    Reduce(Reduce(c))
  }

  function Reduce4(c: bv32): bv32 {
    Reduce2(Reduce2(c))
  }

  function Reduce8(c: bv32): bv32 {
    Reduce4(Reduce4(c))
  }

  /** A data byte enters the low end of the register. */
  function Mix(crc: bv32, b: bv8): bv32 {
    crc ^ (b as bv32)
  }

  /** The checksum register after `data`, byte by byte. */
  function Bytewise(crc: bv32, data: seq<bv8>): bv32 {
    if data == [] then crc else Reduce8(Mix(Bytewise(crc, data[..|data|-1]), data[|data|-1]))
  }

  function Checksum(data: seq<bv8>): bv32 {
    !Bytewise(INIT, data)
  }

  /** A checksum may be taken piece by piece: the register after the first piece is
      the start of the second. */
  lemma {:induction false} Piecewise(crc: bv32, a: seq<bv8>, b: seq<bv8>)
    ensures Bytewise(crc, a + b) == Bytewise(Bytewise(crc, a), b)
    decreases |b|
  {
    hide Reduce8, Mix;
    if b == [] {
      assert a + b == a;
    } else {
      var ab := a + b;
      assert ab[..|ab|-1] == a + b[..|b|-1] && ab[|ab|-1] == b[|b|-1];
      Piecewise(crc, a, b[..|b|-1]);
    }
  }

  lemma OneByte(crc: bv32, d: seq<bv8>, i: nat, next: bv32)
    requires i < |d| && Bytewise(INIT, d[..i]) == crc && Reduce8(Mix(crc, d[i])) == next
    ensures Bytewise(INIT, d[..i + 1]) == next
  {
    assert d[..i + 1][..i] == d[..i];
  }

  /** The check value of this checksum: that of the nine digits "123456789". */
  lemma CheckValue()
    ensures Checksum([0x31, 0x32, 0x33, 0x34, 0x35, 0x36, 0x37, 0x38, 0x39]) == 0xCBF4_3926
  {
    var d: seq<bv8> := [0x31, 0x32, 0x33, 0x34, 0x35, 0x36, 0x37, 0x38, 0x39];
    assert d[..0] == [];
    hide Bytewise;
    OneByte(0xFFFF_FFFF, d, 0, 0x7C23_1048);
    OneByte(0x7C23_1048, d, 1, 0xB0AC_BB32);
    OneByte(0xB0AC_BB32, d, 2, 0x77B7_9C2D);
    OneByte(0x77B7_9C2D, d, 3, 0x641C_1F5C);
    OneByte(0x641C_1F5C, d, 4, 0x340A_C5E3);
    OneByte(0x340A_C5E3, d, 5, 0xF68D_2C9E);
    OneByte(0xF68D_2C9E, d, 6, 0xAFFC_9660);
    OneByte(0xAFFC_9660, d, 7, 0x651F_2550);
    OneByte(0x651F_2550, d, 8, 0x340B_C6D9);
    assert d[..9] == d;
  }

  /** compute_boot_crc32 */
  method ComputeBootCrc32(data: seq<bv8>) returns (r: bv32)
    ensures r == Checksum(data)
  {
    var crc: bv32 := INIT;
    for i := 0 to |data|
      invariant crc == Bytewise(INIT, data[..i])
    {
      hide Reduce2, Reduce4, Reduce8, Reduce, Mix;
      crc := Mix(crc, data[i]);
      ghost var c0 := crc;
      for j := 0 to 8
        invariant crc == Reduced(c0, j)
      {
        crc := Reduce(crc);
      }
      EightSteps(c0);
      assert data[..i + 1][..i] == data[..i];
    }
    assert data[..|data|] == data;
    return !crc;
  }

  function Reduced(c: bv32, j: nat): bv32 {
    if j == 0 then c else Reduce(Reduced(c, j - 1))
  }

  lemma EightSteps(c: bv32)
    ensures Reduced(c, 8) == Reduce8(c)
  {
    hide Reduce;
    assert Reduced(c, 1) == Reduce(Reduced(c, 0));
    assert Reduced(c, 2) == Reduce2(c);
    assert Reduced(c, 3) == Reduce(Reduced(c, 2));
    assert Reduced(c, 4) == Reduce4(c);
    assert Reduced(c, 5) == Reduce(Reduced(c, 4));
    assert Reduced(c, 6) == Reduce2(Reduce4(c));
    assert Reduced(c, 7) == Reduce(Reduced(c, 6));
  }

  // ---- The table-driven form -----------------------------------------------------------

  function Pick(c: bv32, v0: bv32, v1: bv32, v2: bv32, v3: bv32, v4: bv32, v5: bv32, v6: bv32, v7: bv32,
                v8: bv32, v9: bv32, v10: bv32, v11: bv32, v12: bv32, v13: bv32, v14: bv32, v15: bv32): bv32 {
    if c == 0 then v0 else if c == 1 then v1 else if c == 2 then v2 else if c == 3 then v3
    else if c == 4 then v4 else if c == 5 then v5 else if c == 6 then v6 else if c == 7 then v7
    else if c == 8 then v8 else if c == 9 then v9 else if c == 10 then v10 else if c == 11 then v11
    else if c == 12 then v12 else if c == 13 then v13 else if c == 14 then v14 else v15
  }

  /** toob_crc32_table, by the two halves of the index. */
  function Table(i: bv32): bv32 {
    var r, c := (i >> 4) & 0xF, i & 0xF;
    if r == 0 then Pick(c,
      0x00000000, 0x77073096, 0xEE0E612C, 0x990951BA, 0x076DC419, 0x706AF48F, 0xE963A535, 0x9E6495A3,
      0x0EDB8832, 0x79DCB8A4, 0xE0D5E91E, 0x97D2D988, 0x09B64C2B, 0x7EB17CBD, 0xE7B82D07, 0x90BF1D91)
    else if r == 1 then Pick(c,
      0x1DB71064, 0x6AB020F2, 0xF3B97148, 0x84BE41DE, 0x1ADAD47D, 0x6DDDE4EB, 0xF4D4B551, 0x83D385C7,
      0x136C9856, 0x646BA8C0, 0xFD62F97A, 0x8A65C9EC, 0x14015C4F, 0x63066CD9, 0xFA0F3D63, 0x8D080DF5)
    else if r == 2 then Pick(c,
      0x3B6E20C8, 0x4C69105E, 0xD56041E4, 0xA2677172, 0x3C03E4D1, 0x4B04D447, 0xD20D85FD, 0xA50AB56B,
      0x35B5A8FA, 0x42B2986C, 0xDBBBC9D6, 0xACBCF940, 0x32D86CE3, 0x45DF5C75, 0xDCD60DCF, 0xABD13D59)
    else if r == 3 then Pick(c,
      0x26D930AC, 0x51DE003A, 0xC8D75180, 0xBFD06116, 0x21B4F4B5, 0x56B3C423, 0xCFBA9599, 0xB8BDA50F,
      0x2802B89E, 0x5F058808, 0xC60CD9B2, 0xB10BE924, 0x2F6F7C87, 0x58684C11, 0xC1611DAB, 0xB6662D3D)
    else if r == 4 then Pick(c,
      0x76DC4190, 0x01DB7106, 0x98D220BC, 0xEFD5102A, 0x71B18589, 0x06B6B51F, 0x9FBFE4A5, 0xE8B8D433,
      0x7807C9A2, 0x0F00F934, 0x9609A88E, 0xE10E9818, 0x7F6A0DBB, 0x086D3D2D, 0x91646C97, 0xE6635C01)
    else if r == 5 then Pick(c,
      0x6B6B51F4, 0x1C6C6162, 0x856530D8, 0xF262004E, 0x6C0695ED, 0x1B01A57B, 0x8208F4C1, 0xF50FC457,
      0x65B0D9C6, 0x12B7E950, 0x8BBEB8EA, 0xFCB9887C, 0x62DD1DDF, 0x15DA2D49, 0x8CD37CF3, 0xFBD44C65)
    else if r == 6 then Pick(c,
      0x4DB26158, 0x3AB551CE, 0xA3BC0074, 0xD4BB30E2, 0x4ADFA541, 0x3DD895D7, 0xA4D1C46D, 0xD3D6F4FB,
      0x4369E96A, 0x346ED9FC, 0xAD678846, 0xDA60B8D0, 0x44042D73, 0x33031DE5, 0xAA0A4C5F, 0xDD0D7CC9)
    else if r == 7 then Pick(c,
      0x5005713C, 0x270241AA, 0xBE0B1010, 0xC90C2086, 0x5768B525, 0x206F85B3, 0xB966D409, 0xCE61E49F,
      0x5EDEF90E, 0x29D9C998, 0xB0D09822, 0xC7D7A8B4, 0x59B33D17, 0x2EB40D81, 0xB7BD5C3B, 0xC0BA6CAD)
    else if r == 8 then Pick(c,
      0xEDB88320, 0x9ABFB3B6, 0x03B6E20C, 0x74B1D29A, 0xEAD54739, 0x9DD277AF, 0x04DB2615, 0x73DC1683,
      0xE3630B12, 0x94643B84, 0x0D6D6A3E, 0x7A6A5AA8, 0xE40ECF0B, 0x9309FF9D, 0x0A00AE27, 0x7D079EB1)
    else if r == 9 then Pick(c,
      0xF00F9344, 0x8708A3D2, 0x1E01F268, 0x6906C2FE, 0xF762575D, 0x806567CB, 0x196C3671, 0x6E6B06E7,
      0xFED41B76, 0x89D32BE0, 0x10DA7A5A, 0x67DD4ACC, 0xF9B9DF6F, 0x8EBEEFF9, 0x17B7BE43, 0x60B08ED5)
    else if r == 10 then Pick(c,
      0xD6D6A3E8, 0xA1D1937E, 0x38D8C2C4, 0x4FDFF252, 0xD1BB67F1, 0xA6BC5767, 0x3FB506DD, 0x48B2364B,
      0xD80D2BDA, 0xAF0A1B4C, 0x36034AF6, 0x41047A60, 0xDF60EFC3, 0xA867DF55, 0x316E8EEF, 0x4669BE79)
    else if r == 11 then Pick(c,
      0xCB61B38C, 0xBC66831A, 0x256FD2A0, 0x5268E236, 0xCC0C7795, 0xBB0B4703, 0x220216B9, 0x5505262F,
      0xC5BA3BBE, 0xB2BD0B28, 0x2BB45A92, 0x5CB36A04, 0xC2D7FFA7, 0xB5D0CF31, 0x2CD99E8B, 0x5BDEAE1D)
    else if r == 12 then Pick(c,
      0x9B64C2B0, 0xEC63F226, 0x756AA39C, 0x026D930A, 0x9C0906A9, 0xEB0E363F, 0x72076785, 0x05005713,
      0x95BF4A82, 0xE2B87A14, 0x7BB12BAE, 0x0CB61B38, 0x92D28E9B, 0xE5D5BE0D, 0x7CDCEFB7, 0x0BDBDF21)
    else if r == 13 then Pick(c,
      0x86D3D2D4, 0xF1D4E242, 0x68DDB3F8, 0x1FDA836E, 0x81BE16CD, 0xF6B9265B, 0x6FB077E1, 0x18B74777,
      0x88085AE6, 0xFF0F6A70, 0x66063BCA, 0x11010B5C, 0x8F659EFF, 0xF862AE69, 0x616BFFD3, 0x166CCF45)
    else if r == 14 then Pick(c,
      0xA00AE278, 0xD70DD2EE, 0x4E048354, 0x3903B3C2, 0xA7672661, 0xD06016F7, 0x4969474D, 0x3E6E77DB,
      0xAED16A4A, 0xD9D65ADC, 0x40DF0B66, 0x37D83BF0, 0xA9BCAE53, 0xDEBB9EC5, 0x47B2CF7F, 0x30B5FFE9)
    else Pick(c,
      0xBDBDF21C, 0xCABAC28A, 0x53B39330, 0x24B4A3A6, 0xBAD03605, 0xCDD70693, 0x54DE5729, 0x23D967BF,
      0xB3667A2E, 0xC4614AB8, 0x5D681B02, 0x2A6F2B94, 0xB40BBE37, 0xC30C8EA1, 0x5A05DF1B, 0x2D02EF8D)
  }

  lemma FirstEight(i: bv32)
    requires i < 8
    ensures Table(i) == Reduce8(i)
  {
  }

  lemma SecondEight(i: bv32)
    requires 8 <= i < 0x10
    ensures Table(i) == Reduce8(i)
  {
  }

  lemma RestOfQuarter(i: bv32)
    requires 0x10 <= i < 0x40
    ensures Table(i) == Reduce8(i)
  {
  }

  lemma SecondQuarter(i: bv32)
    requires 0x40 <= i < 0x80
    ensures Table(i) == Reduce8(i)
  {
  }

  lemma ThirdQuarter(i: bv32)
    requires 0x80 <= i < 0xC0
    ensures Table(i) == Reduce8(i)
  {
  }

  lemma FourthQuarter(i: bv32)
    requires 0xC0 <= i <= 0xFF
    ensures Table(i) == Reduce8(i)
  {
  }

  /** Every entry of the table is eight reduction steps on its index. */
  lemma TableIsReduce8(i: bv32)
    requires i <= 0xFF
    ensures Table(i) == Reduce8(i)
  {
    hide Table, Reduce8;
    if i < 8 { FirstEight(i); }
    else if i < 0x10 { SecondEight(i); }
    else if i < 0x40 { RestOfQuarter(i); }
    else if i < 0x80 { SecondQuarter(i); }
    else if i < 0xC0 { ThirdQuarter(i); }
    else { FourthQuarter(i); }
  }

  lemma FeedbackCases(c: bv32)
    ensures Feedback(c) == if c & 1 == 1 then 0xEDB8_8320 else 0
  {
  }

  lemma FeedbackXor(a: bv32, b: bv32)
    ensures Feedback(Xor(a, b)) == Xor(Feedback(a), Feedback(b))
  {
    LowBits(a, b);
    FeedbackCases(a);
    FeedbackCases(b);
    FeedbackCases(Xor(a, b));
    hide Feedback, Xor;
    XorBits();
  }

  lemma LowBits(a: bv32, b: bv32)
    ensures a & 1 == 0 || a & 1 == 1
    ensures b & 1 == 0 || b & 1 == 1
    ensures Xor(a, b) & 1 == if a & 1 == b & 1 then 0 else 1
  {
  }

  lemma XorBits()
    ensures Xor(0xEDB8_8320, 0xEDB8_8320) == 0 && Xor(0, 0) == 0
    ensures Xor(0xEDB8_8320, 0) == 0xEDB8_8320 && Xor(0, 0xEDB8_8320) == 0xEDB8_8320
  {
  }

  lemma HalfXor(a: bv32, b: bv32)
    ensures Half(Xor(a, b)) == Xor(Half(a), Half(b))
  {
  }

  lemma XorMiddle(p: bv32, q: bv32, r: bv32, s: bv32)
    ensures Xor(Xor(p, q), Xor(r, s)) == Xor(Xor(p, r), Xor(q, s))
  {
    hide Xor;
    XorAssoc(p, q, Xor(r, s));
    XorAssoc(q, r, s);
    XorAssoc(r, q, s);
    XorAssoc(p, r, Xor(q, s));
    XorComm(q, r);
  }

  lemma XorAssoc(a: bv32, b: bv32, c: bv32)
    ensures Xor(Xor(a, b), c) == Xor(a, Xor(b, c))
  {
    RawAssoc(a, b, c);
  }

  lemma RawAssoc(a: bv32, b: bv32, c: bv32)
    ensures (a ^ b) ^ c == a ^ (b ^ c)
  {
  }

  lemma XorComm(a: bv32, b: bv32)
    ensures Xor(a, b) == Xor(b, a)
  {
  }

  /** Reduction is linear over exclusive or, and a register whose low byte is clear is
      only shifted by eight steps. */
  lemma ReduceXor(a: bv32, b: bv32)
    ensures Reduce(Xor(a, b)) == Xor(Reduce(a), Reduce(b))
  {
    hide Xor, Half, Feedback;
    HalfXor(a, b);
    FeedbackXor(a, b);
    XorMiddle(Half(a), Half(b), Feedback(a), Feedback(b));
  }

  lemma Reduce2Xor(a: bv32, b: bv32)
    ensures Reduce2(Xor(a, b)) == Xor(Reduce2(a), Reduce2(b))
  {
    hide Reduce, Xor;
    ReduceXor(a, b);
    ReduceXor(Reduce(a), Reduce(b));
  }

  lemma Reduce4Xor(a: bv32, b: bv32)
    ensures Reduce4(Xor(a, b)) == Xor(Reduce4(a), Reduce4(b))
  {
    hide Reduce2, Xor;
    Reduce2Xor(a, b);
    Reduce2Xor(Reduce2(a), Reduce2(b));
  }

  lemma Reduce8Xor(a: bv32, b: bv32)
    ensures Reduce8(Xor(a, b)) == Xor(Reduce8(a), Reduce8(b))
  {
    hide Reduce4, Xor;
    Reduce4Xor(a, b);
    Reduce4Xor(Reduce4(a), Reduce4(b));
  }

  function Low(c: bv32): bv32 {
    c & 0xFF
  }

  function High(c: bv32): bv32 {
    c & 0xFFFF_FF00
  }

  function Shifted(c: bv32): bv32 {
    c >> 8
  }

  lemma Reduce8High(c: bv32)
    requires Low(c) == 0
    ensures Reduce8(c) == Shifted(c)
  {
  }

  lemma Split(c: bv32)
    ensures Low(c) <= 0xFF && Low(High(c)) == 0
    ensures Xor(Low(c), High(c)) == c && Shifted(High(c)) == Shifted(c)
  {
  }

  /** One table step is eight reduction steps. */
  lemma TableStep(c: bv32)
    ensures Xor(Table(Low(c)), Shifted(c)) == Reduce8(c)
  {
    hide Xor, Table, Reduce8, Low, High, Shifted;
    Split(c);
    Reduce8Xor(Low(c), High(c));
    TableIsReduce8(Low(c));
    Reduce8High(High(c));
  }

  /** toob_lib_crc32 */
  method ToobLibCrc32(data: seq<bv8>) returns (r: bv32)
    ensures r == Checksum(data)
  {
    var crc: bv32 := INIT;
    for i := 0 to |data|
      invariant crc == Bytewise(INIT, data[..i])
    {
      hide Xor, Table, Reduce8, Low, Shifted, Mix;
      TableStep(Mix(crc, data[i]));
      ByteIsLow(crc, data[i]);
      crc := Xor(Table(Low(Mix(crc, data[i]))), Shifted(crc));
      assert data[..i + 1][..i] == data[..i];
    }
    assert data[..|data|] == data;
    FinalXor(crc);
    return crc ^ 0xFFFF_FFFF;
  }

  lemma ByteIsLow(c: bv32, b: bv8)
    ensures Shifted(Mix(c, b)) == Shifted(c)
  {
  }

  lemma FinalXor(c: bv32)
    ensures c ^ 0xFFFF_FFFF == !c
  {
  }
}
