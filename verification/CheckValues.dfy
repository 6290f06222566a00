/** The checksums of the nine characters "123456789", by which such codes are told apart: these are the
    published check values of a CRC-8 with polynomial 0x31 from 0xFF, and of a reflected CRC-16 with
    polynomial 0x1021 from 0xFFFF. */
module CheckValues {
  import opened Bytes
  import opened Checksum

  const DIGITS: seq<byte> := [0x31, 0x32, 0x33, 0x34, 0x35, 0x36, 0x37, 0x38, 0x39]

  const CODES: seq<bv8> := [0x31, 0x32, 0x33, 0x34, 0x35, 0x36, 0x37, 0x38, 0x39]

  lemma FoldStep<S>(take: (S, bv8) -> S, start: S, n: nat)
    requires n < |CODES|
    ensures Fold(take, start, CODES[..n + 1]) == take(Fold(take, start, CODES[..n]), CODES[n])
  {
    assert CODES[..n + 1][..n] == CODES[..n];
  }

  lemma DigitCodes()
    ensures AllBits(DIGITS) == CODES
  {
  }

  lemma Crc8Codes()
    ensures Fold(TakeCrc8, 0xFF, CODES) == 0xF7
  {
    hide Fold;
    var r: seq<bv8> := [0xFF, 0x58, 0x60, 0x2D, 0xCB, 0x9D, 0x16, 0xB7, 0x54, 0xF7];
    FoldNothing(TakeCrc8, 0xFF);
    var n := 0;
    while n < 9
      invariant 0 <= n <= 9 && Fold(TakeCrc8, 0xFF, CODES[..n]) == r[n]
    {
      FoldStep(TakeCrc8, 0xFF, n);
      n := n + 1;
    }
    assert CODES[..9] == CODES;
  }

  lemma FoldNothing<S>(take: (S, bv8) -> S, start: S)
    ensures Fold(take, start, CODES[..0]) == start
  {
  }

  lemma Crc16FirstCodes()
    ensures TakeCrc16(0xFFFF, 0x31) == 0x2F8D
    ensures TakeCrc16(0x2F8D, 0x32) == 0x4D53
    ensures TakeCrc16(0x4D53, 0x33) == 0x634B
  {
  }

  lemma Crc16NextCodes()
    ensures TakeCrc16(0x634B, 0x34) == 0x8B13
    ensures TakeCrc16(0x8B13, 0x35) == 0x44BF
    ensures TakeCrc16(0x44BF, 0x36) == 0x198D
  {
  }

  lemma Crc16LastCodes()
    ensures TakeCrc16(0x198D, 0x37) == 0x1AC8
    ensures TakeCrc16(0x1AC8, 0x38) == 0xF795
    ensures TakeCrc16(0xF795, 0x39) == 0x6F91
  {
  }

  lemma Crc16Codes()
    ensures Fold(TakeCrc16, 0xFFFF, CODES) == 0x6F91
  {
    hide Fold, TakeCrc16;
    Crc16FirstCodes();
    Crc16NextCodes();
    Crc16LastCodes();
    var r: seq<bv16> := [0xFFFF, 0x2F8D, 0x4D53, 0x634B, 0x8B13, 0x44BF, 0x198D, 0x1AC8, 0xF795, 0x6F91];
    FoldNothing(TakeCrc16, 0xFFFF);
    var n := 0;
    while n < 9
      invariant 0 <= n <= 9 && Fold(TakeCrc16, 0xFFFF, CODES[..n]) == r[n]
    {
      FoldStep(TakeCrc16, 0xFFFF, n);
      n := n + 1;
    }
    assert CODES[..9] == CODES;
  }

  lemma LrcCodes()
    ensures Fold(TakeLrc, 0, CODES) == 0x31
  {
    hide Fold;
    var r: seq<bv8> := [0, 0x31, 0x03, 0x30, 0x04, 0x31, 0x07, 0x30, 0x08, 0x31];
    FoldNothing(TakeLrc, 0);
    var n := 0;
    while n < 9
      invariant 0 <= n <= 9 && Fold(TakeLrc, 0, CODES[..n]) == r[n]
    {
      FoldStep(TakeLrc, 0, n);
      n := n + 1;
    }
    assert CODES[..9] == CODES;
  }

  /** The CRC-8 is 0xF7, the LRC 0x31, and the CRC-16 0x6F91 with its high byte first. */
  lemma CheckValuesHold()
    ensures Crc8Of(DIGITS) == 0xF7 && Sum(Lrc, DIGITS) == [0x31] && Sum(Crc, DIGITS) == [0x6F, 0x91]
  {
    hide Fold, AllBits;
    DigitCodes();
    Crc8Codes();
    Crc16Codes();
    LrcCodes();
    assert Val(0xF7) == 0xF7 && Val(0x31) == 0x31 && Val(0x6F) == 0x6F && Val(0x91) == 0x91;
  }
}
