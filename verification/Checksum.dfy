/** The checksums of the T=1 blocks (checksum.c) and of the serial frames (crc8.cpp
    and its copy in ifd-cardemu.c).

    The specification of each CRC is the bit-serial shift register; the methods compute
    with the lookup tables, as the source does. */
module Checksum {
  import opened Bytes

  // ---- bit-serial definitions ----

  /** One shift of the CRC-8 register, polynomial 0x31, most significant bit first. */
  function Shift8(v: bv8): bv8 {
    (v << 1) ^ (if v & 0x80 != 0 then 0x31 else 0)
  }

  function EightShifts8(v: bv8): bv8 {
    Shift8(Shift8(Shift8(Shift8(Shift8(Shift8(Shift8(Shift8(v))))))))
  }

  /** One shift of the reflected CRC-16 register, polynomial 0x8408. */
  function Shift16(v: bv16): bv16 {
    (v >> 1) ^ (if v & 1 != 0 then 0x8408 else 0)
  }

  function EightShifts16(v: bv16): bv16 {
    Shift16(Shift16(Shift16(Shift16(Shift16(Shift16(Shift16(Shift16(v))))))))
  }

  function Mix(a: bv16, b: bv16): bv16 {
    a ^ b
  }

  /** How the CRC-8 register, the CRC-16 register and the LRC take in one byte. */
  function TakeCrc8(r: bv8, d: bv8): bv8 {
    EightShifts8(r ^ d)
  }

  function TakeCrc16(r: bv16, d: bv8): bv16 {
    EightShifts16(Mix(r, d as bv16))
  }

  function TakeLrc(r: bv8, d: bv8): bv8 {
    r ^ d
  }

  function AllBits(data: seq<byte>): (bits: seq<bv8>)
    ensures |bits| == |data|
  {
    seq(|data|, i requires 0 <= i < |data| => Bits(data[i]))
  }

  /** The register after all of `data`. */
  function Fold<S>(take: (S, bv8) -> S, start: S, data: seq<bv8>): S {
    if data == [] then start else take(Fold(take, start, data[..|data| - 1]), data[|data| - 1])
  }

  // ---- the lookup tables ----

  function Pick8(k: bv8, a: bv8, b: bv8, c: bv8, d: bv8, e: bv8, f: bv8, g: bv8, h: bv8): bv8 {
    match k case 0 => a case 1 => b case 2 => c case 3 => d case 4 => e case 5 => f case 6 => g case _ => h
  }

  function Pick16(k: bv8, a: bv16, b: bv16, c: bv16, d: bv16, e: bv16, f: bv16, g: bv16, h: bv16): bv16 {
    match k case 0 => a case 1 => b case 2 => c case 3 => d case 4 => e case 5 => f case 6 => g case _ => h
  }

  /** Entry `i` of the CRC-8 table, eight entries a row as in the source. */
  function Crc8Table(i: bv8): bv8 {
    var k := i & 7;
    match i >> 3
    case 0 => Pick8(k, 0x00, 0x31, 0x62, 0x53, 0xC4, 0xF5, 0xA6, 0x97)
    case 1 => Pick8(k, 0xB9, 0x88, 0xDB, 0xEA, 0x7D, 0x4C, 0x1F, 0x2E)
    case 2 => Pick8(k, 0x43, 0x72, 0x21, 0x10, 0x87, 0xB6, 0xE5, 0xD4)
    case 3 => Pick8(k, 0xFA, 0xCB, 0x98, 0xA9, 0x3E, 0x0F, 0x5C, 0x6D)
    case 4 => Pick8(k, 0x86, 0xB7, 0xE4, 0xD5, 0x42, 0x73, 0x20, 0x11)
    case 5 => Pick8(k, 0x3F, 0x0E, 0x5D, 0x6C, 0xFB, 0xCA, 0x99, 0xA8)
    case 6 => Pick8(k, 0xC5, 0xF4, 0xA7, 0x96, 0x01, 0x30, 0x63, 0x52)
    case 7 => Pick8(k, 0x7C, 0x4D, 0x1E, 0x2F, 0xB8, 0x89, 0xDA, 0xEB)
    case 8 => Pick8(k, 0x3D, 0x0C, 0x5F, 0x6E, 0xF9, 0xC8, 0x9B, 0xAA)
    case 9 => Pick8(k, 0x84, 0xB5, 0xE6, 0xD7, 0x40, 0x71, 0x22, 0x13)
    case 10 => Pick8(k, 0x7E, 0x4F, 0x1C, 0x2D, 0xBA, 0x8B, 0xD8, 0xE9)
    case 11 => Pick8(k, 0xC7, 0xF6, 0xA5, 0x94, 0x03, 0x32, 0x61, 0x50)
    case 12 => Pick8(k, 0xBB, 0x8A, 0xD9, 0xE8, 0x7F, 0x4E, 0x1D, 0x2C)
    case 13 => Pick8(k, 0x02, 0x33, 0x60, 0x51, 0xC6, 0xF7, 0xA4, 0x95)
    case 14 => Pick8(k, 0xF8, 0xC9, 0x9A, 0xAB, 0x3C, 0x0D, 0x5E, 0x6F)
    case 15 => Pick8(k, 0x41, 0x70, 0x23, 0x12, 0x85, 0xB4, 0xE7, 0xD6)
    case 16 => Pick8(k, 0x7A, 0x4B, 0x18, 0x29, 0xBE, 0x8F, 0xDC, 0xED)
    case 17 => Pick8(k, 0xC3, 0xF2, 0xA1, 0x90, 0x07, 0x36, 0x65, 0x54)
    case 18 => Pick8(k, 0x39, 0x08, 0x5B, 0x6A, 0xFD, 0xCC, 0x9F, 0xAE)
    case 19 => Pick8(k, 0x80, 0xB1, 0xE2, 0xD3, 0x44, 0x75, 0x26, 0x17)
    case 20 => Pick8(k, 0xFC, 0xCD, 0x9E, 0xAF, 0x38, 0x09, 0x5A, 0x6B)
    case 21 => Pick8(k, 0x45, 0x74, 0x27, 0x16, 0x81, 0xB0, 0xE3, 0xD2)
    case 22 => Pick8(k, 0xBF, 0x8E, 0xDD, 0xEC, 0x7B, 0x4A, 0x19, 0x28)
    case 23 => Pick8(k, 0x06, 0x37, 0x64, 0x55, 0xC2, 0xF3, 0xA0, 0x91)
    case 24 => Pick8(k, 0x47, 0x76, 0x25, 0x14, 0x83, 0xB2, 0xE1, 0xD0)
    case 25 => Pick8(k, 0xFE, 0xCF, 0x9C, 0xAD, 0x3A, 0x0B, 0x58, 0x69)
    case 26 => Pick8(k, 0x04, 0x35, 0x66, 0x57, 0xC0, 0xF1, 0xA2, 0x93)
    case 27 => Pick8(k, 0xBD, 0x8C, 0xDF, 0xEE, 0x79, 0x48, 0x1B, 0x2A)
    case 28 => Pick8(k, 0xC1, 0xF0, 0xA3, 0x92, 0x05, 0x34, 0x67, 0x56)
    case 29 => Pick8(k, 0x78, 0x49, 0x1A, 0x2B, 0xBC, 0x8D, 0xDE, 0xEF)
    case 30 => Pick8(k, 0x82, 0xB3, 0xE0, 0xD1, 0x46, 0x77, 0x24, 0x15)
    case _ => Pick8(k, 0x3B, 0x0A, 0x59, 0x68, 0xFF, 0xCE, 0x9D, 0xAC)
  }

  /** Entry `i` of the CRC-16 table. */
  function Crc16Table(i: bv8): bv16 {
    var k := i & 7;
    match i >> 3
    case 0 => Pick16(k, 0x0000, 0x1189, 0x2312, 0x329b, 0x4624, 0x57ad, 0x6536, 0x74bf)
    case 1 => Pick16(k, 0x8c48, 0x9dc1, 0xaf5a, 0xbed3, 0xca6c, 0xdbe5, 0xe97e, 0xf8f7)
    case 2 => Pick16(k, 0x1081, 0x0108, 0x3393, 0x221a, 0x56a5, 0x472c, 0x75b7, 0x643e)
    case 3 => Pick16(k, 0x9cc9, 0x8d40, 0xbfdb, 0xae52, 0xdaed, 0xcb64, 0xf9ff, 0xe876)
    case 4 => Pick16(k, 0x2102, 0x308b, 0x0210, 0x1399, 0x6726, 0x76af, 0x4434, 0x55bd)
    case 5 => Pick16(k, 0xad4a, 0xbcc3, 0x8e58, 0x9fd1, 0xeb6e, 0xfae7, 0xc87c, 0xd9f5)
    case 6 => Pick16(k, 0x3183, 0x200a, 0x1291, 0x0318, 0x77a7, 0x662e, 0x54b5, 0x453c)
    case 7 => Pick16(k, 0xbdcb, 0xac42, 0x9ed9, 0x8f50, 0xfbef, 0xea66, 0xd8fd, 0xc974)
    case 8 => Pick16(k, 0x4204, 0x538d, 0x6116, 0x709f, 0x0420, 0x15a9, 0x2732, 0x36bb)
    case 9 => Pick16(k, 0xce4c, 0xdfc5, 0xed5e, 0xfcd7, 0x8868, 0x99e1, 0xab7a, 0xbaf3)
    case 10 => Pick16(k, 0x5285, 0x430c, 0x7197, 0x601e, 0x14a1, 0x0528, 0x37b3, 0x263a)
    case 11 => Pick16(k, 0xdecd, 0xcf44, 0xfddf, 0xec56, 0x98e9, 0x8960, 0xbbfb, 0xaa72)
    case 12 => Pick16(k, 0x6306, 0x728f, 0x4014, 0x519d, 0x2522, 0x34ab, 0x0630, 0x17b9)
    case 13 => Pick16(k, 0xef4e, 0xfec7, 0xcc5c, 0xddd5, 0xa96a, 0xb8e3, 0x8a78, 0x9bf1)
    case 14 => Pick16(k, 0x7387, 0x620e, 0x5095, 0x411c, 0x35a3, 0x242a, 0x16b1, 0x0738)
    case 15 => Pick16(k, 0xffcf, 0xee46, 0xdcdd, 0xcd54, 0xb9eb, 0xa862, 0x9af9, 0x8b70)
    case 16 => Pick16(k, 0x8408, 0x9581, 0xa71a, 0xb693, 0xc22c, 0xd3a5, 0xe13e, 0xf0b7)
    case 17 => Pick16(k, 0x0840, 0x19c9, 0x2b52, 0x3adb, 0x4e64, 0x5fed, 0x6d76, 0x7cff)
    case 18 => Pick16(k, 0x9489, 0x8500, 0xb79b, 0xa612, 0xd2ad, 0xc324, 0xf1bf, 0xe036)
    case 19 => Pick16(k, 0x18c1, 0x0948, 0x3bd3, 0x2a5a, 0x5ee5, 0x4f6c, 0x7df7, 0x6c7e)
    case 20 => Pick16(k, 0xa50a, 0xb483, 0x8618, 0x9791, 0xe32e, 0xf2a7, 0xc03c, 0xd1b5)
    case 21 => Pick16(k, 0x2942, 0x38cb, 0x0a50, 0x1bd9, 0x6f66, 0x7eef, 0x4c74, 0x5dfd)
    case 22 => Pick16(k, 0xb58b, 0xa402, 0x9699, 0x8710, 0xf3af, 0xe226, 0xd0bd, 0xc134)
    case 23 => Pick16(k, 0x39c3, 0x284a, 0x1ad1, 0x0b58, 0x7fe7, 0x6e6e, 0x5cf5, 0x4d7c)
    case 24 => Pick16(k, 0xc60c, 0xd785, 0xe51e, 0xf497, 0x8028, 0x91a1, 0xa33a, 0xb2b3)
    case 25 => Pick16(k, 0x4a44, 0x5bcd, 0x6956, 0x78df, 0x0c60, 0x1de9, 0x2f72, 0x3efb)
    case 26 => Pick16(k, 0xd68d, 0xc704, 0xf59f, 0xe416, 0x90a9, 0x8120, 0xb3bb, 0xa232)
    case 27 => Pick16(k, 0x5ac5, 0x4b4c, 0x79d7, 0x685e, 0x1ce1, 0x0d68, 0x3ff3, 0x2e7a)
    case 28 => Pick16(k, 0xe70e, 0xf687, 0xc41c, 0xd595, 0xa12a, 0xb0a3, 0x8238, 0x93b1)
    case 29 => Pick16(k, 0x6b46, 0x7acf, 0x4854, 0x59dd, 0x2d62, 0x3ceb, 0x0e70, 0x1ff9)
    case 30 => Pick16(k, 0xf78f, 0xe606, 0xd49d, 0xc514, 0xb1ab, 0xa022, 0x92b9, 0x8330)
    case _ => Pick16(k, 0x7bc7, 0x6a4e, 0x58d5, 0x495c, 0x3de3, 0x2c6a, 0x1ef1, 0x0f78)
  }

  lemma Table8FirstEighth(i: bv8)
    requires i >> 5 == 0
    ensures Crc8Table(i) == EightShifts8(i)
  {
  }

  lemma Table8SecondEighth(i: bv8)
    requires i >> 5 == 1
    ensures Crc8Table(i) == EightShifts8(i)
  {
  }

  lemma Table8FirstQuarter(i: bv8)
    requires i >> 6 == 0
    ensures Crc8Table(i) == EightShifts8(i)
  {
    hide Crc8Table, EightShifts8;
    if i >> 5 == 0 {
      Table8FirstEighth(i);
    } else {
      Table8SecondEighth(i);
    }
  }

  lemma Table8SecondQuarter(i: bv8)
    requires i >> 6 == 1
    ensures Crc8Table(i) == EightShifts8(i)
  {
  }

  lemma Table8ThirdQuarter(i: bv8)
    requires i >> 6 == 2
    ensures Crc8Table(i) == EightShifts8(i)
  {
  }

  lemma Table8FourthQuarter(i: bv8)
    requires i >> 6 == 3
    ensures Crc8Table(i) == EightShifts8(i)
  {
  }

  /** Every entry of the CRC-8 table is eight shifts of its index. */
  lemma Table8IsSerial(i: bv8)
    ensures Crc8Table(i) == EightShifts8(i)
  {
    match i >> 6
    case 0 => Table8FirstQuarter(i);
    case 1 => Table8SecondQuarter(i);
    case 2 => Table8ThirdQuarter(i);
    case _ => Table8FourthQuarter(i);
  }

  lemma Table16FirstQuarter(i: bv8)
    requires i >> 6 == 0
    ensures Crc16Table(i) == EightShifts16(i as bv16)
  {
  }

  lemma Table16SecondQuarter(i: bv8)
    requires i >> 6 == 1
    ensures Crc16Table(i) == EightShifts16(i as bv16)
  {
  }

  lemma Table16ThirdQuarter(i: bv8)
    requires i >> 6 == 2
    ensures Crc16Table(i) == EightShifts16(i as bv16)
  {
  }

  lemma Table16FourthQuarter(i: bv8)
    requires i >> 6 == 3
    ensures Crc16Table(i) == EightShifts16(i as bv16)
  {
  }

  /** Every entry of the CRC-16 table is eight shifts of its index. */
  lemma Table16IsSerial(i: bv8)
    ensures Crc16Table(i) == EightShifts16(i as bv16)
  {
    match i >> 6
    case 0 => Table16FirstQuarter(i);
    case 1 => Table16SecondQuarter(i);
    case 2 => Table16ThirdQuarter(i);
    case _ => Table16FourthQuarter(i);
  }

  method Crc8Entry(i: bv8) returns (v: bv8)
    ensures v == EightShifts8(i)
  {
    Table8IsSerial(i);
    v := Crc8Table(i);
  }

  method Crc16Entry(i: bv8) returns (v: bv16)
    ensures v == EightShifts16(i as bv16)
  {
    Table16IsSerial(i);
    v := Crc16Table(i);
  }

  function Down(v: bv16): bv16 {
    v >> 1
  }

  predicate Even(v: bv16) {
    v & 1 == 0
  }

  lemma DownOfMix(a: bv16, b: bv16)
    ensures Down(Mix(a, b)) == Mix(Down(a), Down(b))
  {
  }

  lemma EvenMix(a: bv16, b: bv16)
    requires Even(a)
    ensures Even(Mix(a, b)) == Even(b)
  {
  }

  lemma MixAssociates(a: bv16, b: bv16, c: bv16)
    ensures Mix(Mix(a, b), c) == Mix(a, Mix(b, c))
  {
  }

  lemma ShiftIs(v: bv16)
    ensures Shift16(v) == Mix(Down(v), if Even(v) then 0 else 0x8408)
  {
  }

  /** A shift takes an even part and the rest apart. */
  lemma ShiftApart(h: bv16, l: bv16)
    requires Even(h)
    ensures Shift16(Mix(h, l)) == Mix(Down(h), Shift16(l))
  {
    hide Shift16, Mix, Down, Even;
    ShiftIs(Mix(h, l));
    ShiftIs(l);
    DownOfMix(h, l);
    EvenMix(h, l);
    MixAssociates(Down(h), Down(l), if Even(l) then 0 else 0x8408);
  }

  /** Whether eight shifts move `h` down only. */
  predicate Clear4(h: bv16) {
    Even(h) && Even(Down(h)) && Even(Down(Down(h))) && Even(Down(Down(Down(h))))
  }

  function Down4(h: bv16): bv16 {
    Down(Down(Down(Down(h))))
  }

  function FourShifts16(v: bv16): bv16 {
    Shift16(Shift16(Shift16(Shift16(v))))
  }

  lemma FourShiftsApart(h: bv16, l: bv16)
    requires Clear4(h)
    ensures FourShifts16(Mix(h, l)) == Mix(Down4(h), FourShifts16(l))
  {
    hide Shift16, Mix, Down, Even;
    ShiftApart(h, l);
    ShiftApart(Down(h), Shift16(l));
    ShiftApart(Down(Down(h)), Shift16(Shift16(l)));
    ShiftApart(Down(Down(Down(h))), Shift16(Shift16(Shift16(l))));
  }

  lemma EightShiftsApart(h: bv16, l: bv16)
    requires Clear4(h) && Clear4(Down4(h))
    ensures EightShifts16(Mix(h, l)) == Mix(Down4(Down4(h)), EightShifts16(l))
  {
    hide Shift16, Mix, Down4, Clear4;
    FourShiftsApart(h, l);
    FourShiftsApart(Down4(h), FourShifts16(l));
  }

  /** The two bytes of the register after the data byte went in. */
  function Upper(v: bv16): bv16 {
    v & 0xFF00
  }

  function TableIndex(v: bv16, d: bv8): bv8 {
    ((v ^ (d as bv16)) & 0xFF) as bv8
  }

  function UpperByte(v: bv16): bv16 {
    (v >> 8) & 0xFF
  }

  lemma RegisterParts(v: bv16, d: bv8)
    ensures Clear4(Upper(v)) && Clear4(Down4(Upper(v))) && Down4(Down4(Upper(v))) == UpperByte(v)
    ensures Mix(v, d as bv16) == Mix(Upper(v), TableIndex(v, d) as bv16)
  {
  }

  /** The table step of the source is eight shifts: the high byte only moves down. */
  lemma TableStepIsSerial(v: bv16, d: bv8, entry: bv16)
    requires entry == EightShifts16(TableIndex(v, d) as bv16)
    ensures Mix(UpperByte(v), entry) == TakeCrc16(v, d)
  {
    hide EightShifts16, Mix, Down4, Clear4, Upper, UpperByte, TableIndex;
    RegisterParts(v, d);
    EightShiftsApart(Upper(v), TableIndex(v, d) as bv16);
  }

  method Crc16Step(v: bv16, d: bv8) returns (w: bv16)
    ensures w == TakeCrc16(v, d)
  {
    hide EightShifts16, TakeCrc16, TableIndex, UpperByte, Mix;
    var entry := Crc16Entry(TableIndex(v, d));
    TableStepIsSerial(v, d, entry);
    w := Mix(UpperByte(v), entry);
  }

  // ---- the checksum functions of the source ----

  method Crc8(data: seq<byte>, len: nat) returns (crc: byte)
    requires len <= |data|
    ensures crc == Crc8Of(data[..len])
  {
    var v: bv8 := 0xFF;
    var p := 0;
    var rest := len;
    while rest != 0
      invariant p + rest == len
      invariant v == Fold(TakeCrc8, 0xFF, AllBits(data[..p]))
    {
      v := Crc8Entry(v ^ Bits(data[p]));
      p := p + 1;
      rest := rest - 1;
      assert AllBits(data[..p])[..p - 1] == AllBits(data[..p - 1]);
    }
    crc := Val(v);
  }

  method LrcCompute(data: seq<byte>, len: nat) returns (rc: seq<byte>)
    requires len <= |data|
    ensures rc == Sum(Lrc, data[..len])
  {
    var lrc: bv8 := 0;
    var p := 0;
    var rest := len;
    while rest != 0
      invariant p + rest == len
      invariant lrc == Fold(TakeLrc, 0, AllBits(data[..p]))
    {
      lrc := lrc ^ Bits(data[p]);
      p := p + 1;
      rest := rest - 1;
      assert AllBits(data[..p])[..p - 1] == AllBits(data[..p - 1]);
    }
    rc := [Val(lrc)];
  }

  method CrcCompute(data: seq<byte>, len: nat) returns (rc: seq<byte>)
    requires len <= |data|
    ensures rc == Sum(Crc, data[..len])
  {
    var v: bv16 := 0xFFFF;
    var p := 0;
    var rest := len;
    while rest != 0
      invariant p + rest == len
      invariant v == Fold(TakeCrc16, 0xFFFF, AllBits(data[..p]))
    {
      v := Crc16Step(v, Bits(data[p]));
      p := p + 1;
      rest := rest - 1;
      assert AllBits(data[..p])[..p - 1] == AllBits(data[..p - 1]);
    }
    rc := [Val(High(v)), Val(Low(v))];
  }

  // ---- checksum of a block, as bytes ----

  datatype Kind = Lrc | Crc

  function RcBytes(kind: Kind): nat {
    match kind case Lrc => 1 case Crc => 2
  }

  function High(v: bv16): bv8 {
    ((v >> 8) & 0xFF) as bv8
  }

  function Low(v: bv16): bv8 {
    (v & 0xFF) as bv8
  }

  function Crc8Of(data: seq<byte>): byte {
    Val(Fold(TakeCrc8, 0xFF, AllBits(data)))
  }

  function Sum(kind: Kind, data: seq<byte>): (rc: seq<byte>)
    ensures |rc| == RcBytes(kind)
  {
    match kind
    case Lrc => [Val(Fold(TakeLrc, 0, AllBits(data)))]
    case Crc =>
      var v := Fold(TakeCrc16, 0xFFFF, AllBits(data));
      [Val(High(v)), Val(Low(v))]
  }

  // ---- one changed byte is always noticed ----

  /** `take` loses nothing: neither the register it starts from nor the byte it takes in. */
  ghost predicate Lossless<S(!new)>(take: (S, bv8) -> S) {
    && (forall r, s, d :: take(r, d) == take(s, d) ==> r == s)
    && (forall r, d, e :: take(r, d) == take(r, e) ==> d == e)
  }

  /** `b` is `a` with the item at `i`, and no other, changed. */
  predicate ChangedAt<T(==)>(a: seq<T>, b: seq<T>, i: nat) {
    |a| == |b| && i < |a| && a[i] != b[i] && b == a[i := b[i]]
  }

  lemma LosslessRegister<S(!new)>(take: (S, bv8) -> S, r: S, s: S, d: bv8)
    requires Lossless(take) && r != s
    ensures take(r, d) != take(s, d)
  {
  }

  lemma LosslessItem<S(!new)>(take: (S, bv8) -> S, r: S, d: bv8, e: bv8)
    requires Lossless(take) && d != e
    ensures take(r, d) != take(r, e)
  {
  }

  lemma {:induction false} FoldDiffers<S(!new)>(take: (S, bv8) -> S, start: S, a: seq<bv8>, b: seq<bv8>, i: nat)
    requires Lossless(take) && ChangedAt(a, b, i)
    ensures Fold(take, start, a) != Fold(take, start, b)
  {
    var n := |a| - 1;
    if i == n {
      assert a[..n] == b[..n];
      LosslessItem(take, Fold(take, start, a[..n]), a[n], b[n]);
    } else {
      assert b[..n] == a[..n][i := b[i]];
      FoldDiffers(take, start, a[..n], b[..n], i);
      assert a[n] == b[n];
      LosslessRegister(take, Fold(take, start, a[..n]), Fold(take, start, b[..n]), a[n]);
    }
  }

  lemma AllBitsChanged(a: seq<byte>, b: seq<byte>, i: nat)
    requires ChangedAt(a, b, i)
    ensures ChangedAt(AllBits(a), AllBits(b), i)
  {
    if Bits(a[i]) == Bits(b[i]) {
      BitsInjective(a[i], b[i]);
    }
    assert AllBits(b) == AllBits(a)[i := AllBits(b)[i]];
  }

  lemma Shifts8Injective(a: bv8, b: bv8)
    requires EightShifts8(a) == EightShifts8(b)
    ensures a == b
  {
  }

  lemma Shifts16Injective(a: bv16, b: bv16)
    requires EightShifts16(a) == EightShifts16(b)
    ensures a == b
  {
  }

  lemma Crc8Lossless()
    ensures Lossless(TakeCrc8)
  {
    forall r, s, d | TakeCrc8(r, d) == TakeCrc8(s, d)
      ensures r == s
    {
      Shifts8Injective(r ^ d, s ^ d);
    }
    forall r, d, e | TakeCrc8(r, d) == TakeCrc8(r, e)
      ensures d == e
    {
      Shifts8Injective(r ^ d, r ^ e);
    }
  }

  lemma Crc16Lossless()
    ensures Lossless(TakeCrc16)
  {
    forall r, s, d | TakeCrc16(r, d) == TakeCrc16(s, d)
      ensures r == s
    {
      Shifts16Injective(r ^ (d as bv16), s ^ (d as bv16));
    }
    forall r, d, e | TakeCrc16(r, d) == TakeCrc16(r, e)
      ensures d == e
    {
      Shifts16Injective(r ^ (d as bv16), r ^ (e as bv16));
    }
  }

  lemma HighLowInjective(a: bv16, b: bv16)
    requires High(a) == High(b) && Low(a) == Low(b)
    ensures a == b
  {
  }

  /** One changed byte changes the CRC-8. */
  lemma Crc8Differs(a: seq<byte>, b: seq<byte>, i: nat)
    requires ChangedAt(a, b, i)
    ensures Crc8Of(a) != Crc8Of(b)
  {
    Crc8Lossless();
    AllBitsChanged(a, b, i);
    FoldDiffers(TakeCrc8, 0xFF, AllBits(a), AllBits(b), i);
    if Crc8Of(a) == Crc8Of(b) {
      ValInjective(Fold(TakeCrc8, 0xFF, AllBits(a)), Fold(TakeCrc8, 0xFF, AllBits(b)));
    }
  }

  /** One changed byte changes the LRC and the CRC-16. */
  lemma SumDiffers(kind: Kind, a: seq<byte>, b: seq<byte>, i: nat)
    requires ChangedAt(a, b, i)
    ensures Sum(kind, a) != Sum(kind, b)
  {
    AllBitsChanged(a, b, i);
    if Sum(kind, a) == Sum(kind, b) {
      match kind
      case Lrc =>
        FoldDiffers(TakeLrc, 0, AllBits(a), AllBits(b), i);
        assert Sum(kind, a)[0] == Sum(kind, b)[0];
        ValInjective(Fold(TakeLrc, 0, AllBits(a)), Fold(TakeLrc, 0, AllBits(b)));
      case Crc =>
        Crc16Lossless();
        FoldDiffers(TakeCrc16, 0xFFFF, AllBits(a), AllBits(b), i);
        var v, w := Fold(TakeCrc16, 0xFFFF, AllBits(a)), Fold(TakeCrc16, 0xFFFF, AllBits(b));
        assert Sum(kind, a)[0] == Sum(kind, b)[0] && Sum(kind, a)[1] == Sum(kind, b)[1];
        ValInjective(High(v), High(w));
        ValInjective(Low(v), Low(w));
        HighLowInjective(v, w);
    }
  }
}
