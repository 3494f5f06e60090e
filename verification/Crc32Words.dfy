/** module_calculate_crc on 32-bit words, as the source writes it, refined to the CRC on bits.
 */
module Crc32Words {
  import opened Crc32

  predicate Odd(c: bv32) { c & 1 == 1 }

  function Half(c: bv32): bv32 { c >> 1 }

  function XorWord(a: bv32, b: bv32): bv32 { a ^ b }

  /** The lowest `n` bits of a word, least significant first. */
  function LowBits(c: bv32, n: nat): (bits: seq<bool>)
    ensures |bits| == n
    decreases n
  {
    if n == 0 then [] else [Odd(c)] + LowBits(Half(c), n - 1)
  }

  function WordBits(c: bv32): Word { LowBits(c, 32) }

  function ByteBits(b: bv8): Byte { LowBits(b as bv32, 8) }

  function BytesBits(data: seq<bv8>): (r: seq<Byte>)
    ensures |r| == |data|
  {
    seq(|data|, i requires 0 <= i < |data| => ByteBits(data[i]))
  }

  // ----- operators -----

  lemma XorHalves(a: bv32, b: bv32)
    ensures Half(XorWord(a, b)) == XorWord(Half(a), Half(b)) && Odd(XorWord(a, b)) == (Odd(a) != Odd(b))
  {
  }

  lemma {:induction false} LowBitsXor(a: bv32, b: bv32, n: nat)
    ensures forall i :: 0 <= i < n ==> LowBits(XorWord(a, b), n)[i] == (LowBits(a, n)[i] != LowBits(b, n)[i])
    decreases n
  {
    hide Odd, Half, XorWord;
    if n == 0 {
    } else {
      XorHalves(a, b);
      LowBitsXor(Half(a), Half(b), n - 1);
    }
  }

  lemma XorBits(a: bv32, b: bv32)
    ensures WordBits(XorWord(a, b)) == Xor(WordBits(a), WordBits(b))
  {
    hide LowBits, XorWord;
    LowBitsXor(a, b, 32);
  }

  /** The lowest four bits. */
  function Nibble(c: bv32): (r: seq<bool>)
    ensures |r| == 4
  {
    [c & 1 == 1, c & 2 == 2, c & 4 == 4, c & 8 == 8]
  }

  function Shift4(c: bv32): bv32 { c >> 4 }

  lemma NibbleIs(c: bv32)
    ensures Nibble(c) == [Odd(c), Odd(Half(c)), Odd(Half(Half(c))), Odd(Half(Half(Half(c))))]
    ensures Shift4(c) == Half(Half(Half(Half(c))))
  {
  }

  lemma Unfolds(c: bv32, n: nat)
    requires n > 0
    ensures LowBits(c, n) == [Odd(c)] + LowBits(Half(c), n - 1) && Ends(c, n) == Ends(Half(c), n - 1)
  {
  }

  lemma LowBits4(c: bv32, n: nat)
    ensures LowBits(c, n + 4) == Nibble(c) + LowBits(Shift4(c), n)
    ensures Ends(c, n + 4) == Ends(Shift4(c), n)
  {
    hide Odd, Half, Nibble, Shift4, LowBits, Ends;
    NibbleIs(c);
    Unfolds(c, n + 4);
    Unfolds(Half(c), n + 3);
    Unfolds(Half(Half(c)), n + 2);
    Unfolds(Half(Half(Half(c))), n + 1);
  }

  /** A word by its hexadecimal digits. */
  lemma WordNibbles(c: bv32)
    ensures var d := Shift4(Shift4(Shift4(Shift4(c))));
      WordBits(c) ==
      Nibble(c) + Nibble(Shift4(c)) + Nibble(Shift4(Shift4(c))) + Nibble(Shift4(Shift4(Shift4(c)))) +
      (Nibble(d) + Nibble(Shift4(d)) + Nibble(Shift4(Shift4(d))) + Nibble(Shift4(Shift4(Shift4(d)))))
  {
    hide Nibble, Shift4;
    LowBits16(c, 16);
    LowBits16(Shift4(Shift4(Shift4(Shift4(c)))), 0);
  }

  lemma LowBits16(c: bv32, n: nat)
    ensures var c1 := Shift4(c); var c2 := Shift4(c1); var c3 := Shift4(c2);
      && LowBits(c, n + 16) ==
         Nibble(c) + Nibble(c1) + Nibble(c2) + Nibble(c3) + LowBits(Shift4(c3), n)
      && Ends(c, n + 16) == Ends(Shift4(c3), n)
  {
    hide LowBits, Ends, Nibble, Shift4;
    LowBits4(c, n + 12);
    LowBits4(Shift4(c), n + 8);
    LowBits4(Shift4(Shift4(c)), n + 4);
    LowBits4(Shift4(Shift4(Shift4(c))), n);
  }

  lemma OnesBits()
    ensures WordBits(0xFFFF_FFFF) == Ones()
  {
    hide LowBits;
    WordNibbles(0xFFFF_FFFF);
    FullNibble(0xFFFF_FFFF);
    FullNibble(0xFFF_FFFF);
    FullNibble(0xFF_FFFF);
    FullNibble(0xF_FFFF);
    FullNibble(0xFFFF);
    FullNibble(0xFFF);
    FullNibble(0xFF);
    FullNibble(0xF);
    hide Nibble;
  }

  lemma FullNibble(c: bv32)
    requires c & 15 == 15
    ensures Nibble(c) == [true, true, true, true]
  {
  }

  lemma NotIsXor(c: bv32)
    ensures !c == XorWord(c, 0xFFFF_FFFF)
  {
  }

  lemma NotBits(c: bv32)
    ensures WordBits(!c) == Not(WordBits(c))
  {
    hide LowBits, XorWord;
    NotIsXor(c);
    XorBits(c, 0xFFFF_FFFF);
    OnesBits();
  }

  /** Nothing is left of the word after `n` halvings. */
  predicate Ends(c: bv32, n: nat) { if n == 0 then c == 0 else Ends(Half(c), n - 1) }

  /** Above the bits a word has there are zeros. */
  lemma {:induction false} BitsEnd(c: bv32, n: nat, k: nat)
    requires Ends(c, n)
    ensures LowBits(c, n + k) == LowBits(c, n) + Zeros(k)
    decreases n + k
  {
    ZeroWord();
    hide Odd, Half;
    if n > 0 {
      BitsEnd(Half(c), n - 1, k);
    } else if k > 0 {
      BitsEnd(0, 0, k - 1);
    }
  }

  lemma ZeroWord()
    ensures Half(0) == 0 && !Odd(0)
  {
  }

  /** The polynomial's bits are those of 0xEDB88320. */
  lemma PolynomialIs()
    ensures forall i :: 0 <= i < 32 ==> (WordBits(0xEDB8_8320)[i] <==> i in POLYNOMIAL_BITS)
  {
    hide LowBits;
    WordNibbles(0xEDB8_8320);
  }

  lemma Halvings(c: bv32)
    ensures Ends(c, 32)
  {
    hide LowBits;
    LowBits16(c, 16);
    LowBits16(Shift4(Shift4(Shift4(Shift4(c)))), 0);
  }

  lemma ShiftBits(c: bv32)
    ensures WordBits(Half(c)) == WordBits(c)[1..] + [false]
  {
    hide Half, Odd, LowBits, Ends;
    Halvings(c);
    Unfolds(c, 32);
    BitsEnd(Half(c), 31, 1);
  }

  lemma ByteEnds(b: bv8)
    ensures Ends(b as bv32, 8)
  {
    hide LowBits;
    LowBits4(b as bv32, 4);
    LowBits4(Shift4(b as bv32), 0);
  }

  lemma ByteInWord(b: bv8)
    ensures WordBits(b as bv32) == Low(ByteBits(b))
  {
    ByteEnds(b);
    BitsEnd(b as bv32, 8, 24);
  }

  /** One turn of the inner loop. */
  function WordStep(c: bv32): bv32 { (c >> 1) ^ (0xEDB8_8320 & -(c & 1)) }

  function Mask(b: bv32): bv32 { 0xEDB8_8320 & -b }

  function LastBit(c: bv32): bv32 { c & 1 }

  lemma Masks()
    ensures Mask(1) == 0xEDB8_8320 && Mask(0) == 0
  {
  }

  lemma LastBitIs(c: bv32)
    ensures LastBit(c) == if Odd(c) then 1 else 0
  {
  }

  lemma XorNothing(c: bv32)
    ensures XorWord(c, 0) == c
  {
  }

  lemma WordStepParts(c: bv32)
    ensures WordStep(c) == XorWord(Half(c), Mask(LastBit(c)))
  {
    WordStepRaw(c);
    hide WordStep, XorWord, Half, Mask, LastBit;
    HalfIs(c);
    LastBitUnfolds(c);
    MaskUnfolds(c & 1);
    XorIs(c >> 1, 0xEDB8_8320 & -(c & 1));
  }

  lemma WordStepRaw(c: bv32)
    ensures WordStep(c) == (c >> 1) ^ (0xEDB8_8320 & -(c & 1))
  {
  }

  lemma HalfIs(c: bv32)
    ensures Half(c) == c >> 1
  {
  }

  lemma LastBitUnfolds(c: bv32)
    ensures LastBit(c) == c & 1
  {
  }

  lemma MaskUnfolds(b: bv32)
    ensures Mask(b) == 0xEDB8_8320 & -b
  {
  }

  lemma WordStepIs(c: bv32)
    ensures WordStep(c) == if Odd(c) then XorWord(Half(c), 0xEDB8_8320) else Half(c)
  {
    hide WordStep, XorWord, Half, Mask, LastBit, Odd;
    WordStepParts(c);
    Masks();
    LastBitIs(c);
    XorNothing(Half(c));
  }

  lemma StepByCases(c: Word, half: Word, p: Word)
    requires half == c[1..] + [false] && forall i :: 0 <= i < 32 ==> (p[i] <==> i in POLYNOMIAL_BITS)
    ensures BitStep(c) == if c[0] then Xor(half, p) else half
  {
  }

  lemma StepIs(c: bv32)
    ensures WordBits(WordStep(c)) == BitStep(WordBits(c))
  {
    hide WordStep, Odd, Half, XorWord, LowBits, BitStep;
    WordStepIs(c);
    ShiftBits(c);
    XorBits(Half(c), 0xEDB8_8320);
    PolynomialIs();
    Unfolds(c, 32);
    StepByCases(WordBits(c), WordBits(Half(c)), WordBits(0xEDB8_8320));
  }

  // ----- the loop -----

  function WordSteps(c: bv32, n: nat): bv32
    decreases n
  {
    if n == 0 then c else WordSteps(WordStep(c), n - 1)
  }

  lemma {:induction false} StepsAre(c: bv32, n: nat)
    ensures WordBits(WordSteps(c, n)) == Steps(WordBits(c), n)
    decreases n
  {
    hide WordStep, WordBits, BitStep;
    if n == 0 {
    } else {
      StepIs(c);
      StepsAre(WordStep(c), n - 1);
    }
  }

  /** One more byte: the outer loop's turn is one byte step of the CRC on bits. */
  lemma ByteStepIs(c: bv32, b: bv8)
    ensures WordBits(WordSteps(XorWord(c, b as bv32), 8)) == ByteStep(WordBits(c), ByteBits(b))
  {
    hide WordSteps, WordBits, ByteBits, Steps, XorWord, Low, Xor;
    XorBits(c, b as bv32);
    ByteInWord(b);
    StepsAre(XorWord(c, b as bv32), 8);
  }

  lemma NextByte(c: bv32, data: seq<bv8>, i: nat)
    requires i < |data|
    ensures Register(WordBits(c), BytesBits(data)[i..]) ==
            Register(WordBits(WordSteps(XorWord(c, data[i] as bv32), 8)), BytesBits(data)[i + 1..])
  {
    hide WordSteps, WordBits, XorWord, Xor, Low, Steps;
    RegisterUnfolds(WordBits(c), BytesBits(data), i);
    ByteStepIs(c, data[i]);
  }

  lemma NextStep(c: bv32, n: nat)
    requires n > 0
    ensures WordSteps(c, n) == WordSteps((c >> 1) ^ (0xEDB8_8320 & -(c & 1)), n - 1)
  {
    assert WordStep(c) == (c >> 1) ^ (0xEDB8_8320 & -(c & 1));
    hide WordStep;
  }

  lemma NoStep(c: bv32)
    ensures WordSteps(c, 0) == c
  {
  }

  /** module_calculate_crc: the nested loop over 32-bit words computes the CRC. */
  method ModuleCalculateCrc(data: seq<bv8>) returns (r: bv32)
    ensures WordBits(r) == Crc(BytesBits(data))
  {
    hide WordBits, BytesBits, WordSteps, Register, Xor, XorWord;
    var crc: bv32 := 0xFFFF_FFFF;
    OnesBits();
    ghost var bytes := BytesBits(data);
    assert bytes[0..] == bytes;
    for i := 0 to |data|
      invariant Register(Ones(), bytes) == Register(WordBits(crc), bytes[i..])
    {
      NextByte(crc, data, i);
      XorIs(crc, data[i] as bv32);
      crc := crc ^ data[i] as bv32;
      ghost var start := crc;
      for j := 0 to 8
        invariant WordSteps(start, 8) == WordSteps(crc, 8 - j)
      {
        NextStep(crc, 8 - j);
        crc := (crc >> 1) ^ (0xEDB8_8320 & -(crc & 1));
      }
      NoStep(crc);
    }
    RegisterUnfolds(WordBits(crc), bytes, |data|);
    NotBits(crc);
    return !crc;
  }

  lemma XorIs(a: bv32, b: bv32)
    ensures XorWord(a, b) == a ^ b
  {
  }

  // ----- the check value -----

  /** A word's bytes, low byte first. */
  function Quarters(w: Word): (r: seq<Byte>)
    ensures |r| == 4
  {
    [w[..8], w[8..16], w[16..24], w[24..]]
  }

  lemma QuartersBits(w: Word)
    ensures Bits(Quarters(w)) == w
  {
    var q := Quarters(w);
    assert q[1..][1..][1..][1..] == [];
    assert Bits(q[1..][1..][1..]) == w[24..];
    assert Bits(q[1..][1..]) == w[16..24] + w[24..];
  }

  lemma {:induction false} RegisterAppend(c: Word, a: seq<Byte>, b: seq<Byte>)
    ensures Register(c, a + b) == Register(Register(c, a), b)
    decreases |a|
  {
    hide ByteStep;
    if a == [] {
      assert a + b == b;
    } else {
      RegisterAppend(ByteStep(c, a[0]), a[1..], b);
      assert (a + b)[1..] == a[1..] + b;
    }
  }

  /** Four bytes enter as one word. */
  lemma WordEnters(c: Word, w: Word)
    ensures Register(c, Quarters(w)) == Steps(Xor(c, w), 32)
  {
    hide Register, Bits, Steps, BitRegister, Quarters;
    RegisterIsBitwise(c, Quarters(w));
    QuartersBits(w);
    EnterTogether(c, w);
    assert Low(w) == w;
  }

  lemma XorComplement(c: Word)
    ensures Xor(c, Not(c)) == Ones()
  {
  }

  function Eight(c: bv32): bv32 {
    WordStep(WordStep(WordStep(WordStep(WordStep(WordStep(WordStep(WordStep(c))))))))
  }

  lemma EightSteps(c: bv32)
    ensures WordSteps(c, 8) == Eight(c)
  {
    hide WordStep, WordSteps;
    var d := WordStep(WordStep(WordStep(WordStep(c))));
    FourSteps(c, 4);
    FourSteps(d, 0);
    NoStep(WordStep(WordStep(WordStep(WordStep(d)))));
  }

  lemma FourSteps(c: bv32, n: nat)
    ensures WordSteps(c, n + 4) == WordSteps(WordStep(WordStep(WordStep(WordStep(c)))), n)
  {
    hide WordStep;
    assert WordSteps(c, n + 4) == WordSteps(WordStep(c), n + 3);
    assert WordSteps(WordStep(c), n + 3) == WordSteps(WordStep(WordStep(c)), n + 2);
  }

  lemma ResidueSteps()
    ensures WordSteps(0xFFFF_FFFF, 32) == 0xDEBB_20E3
  {
    assert Eight(0xFFFF_FFFF) == 0x2DFD_1072;
    assert Eight(0x2DFD_1072) == 0xBE26_ED00;
    assert Eight(0xBE26_ED00) == 0x00BE_26ED;
    assert Eight(0x00BE_26ED) == 0xDEBB_20E3;
    hide Eight, WordSteps;
    EightSteps(0xFFFF_FFFF);
    EightSteps(0x2DFD_1072);
    EightSteps(0xBE26_ED00);
    EightSteps(0x00BE_26ED);
    StepsCompose(0xFFFF_FFFF, 8, 24);
    StepsCompose(0x2DFD_1072, 8, 16);
    StepsCompose(0xBE26_ED00, 8, 8);
  }

  lemma {:induction false} StepsCompose(c: bv32, m: nat, n: nat)
    ensures WordSteps(c, m + n) == WordSteps(WordSteps(c, m), n)
    decreases m
  {
    hide WordStep;
    if m == 0 {
    } else {
      StepsCompose(WordStep(c), m - 1, n);
    }
  }

  /** A message followed by its CRC, low byte first, has the CRC 0x2144DF1C; followed by any other word it has
      not. */
  lemma Residue(m: seq<Byte>, w: Word)
    ensures Crc(m + Quarters(w)) == WordBits(0x2144_DF1C) <==> w == Crc(m)
  {
    hide Register, Steps, Xor, Quarters, WordBits, WordSteps;
    var c := Register(Ones(), m);
    RegisterAppend(Ones(), m, Quarters(w));
    WordEnters(c, w);
    StepsAre(0xFFFF_FFFF, 32);
    ResidueSteps();
    OnesBits();
    NotBits(0xDEBB_20E3);
    XorComplement(c);
    if Crc(m + Quarters(w)) == WordBits(0x2144_DF1C) {
      XorInjective(Steps(Xor(c, w), 32), Steps(Ones(), 32), Ones());
      StepsInjective(Xor(c, w), Ones(), 32);
      XorInjective(w, Not(c), c);
    }
  }

  // ----- known values -----

  lemma ByteAt(c: bv32, data: seq<bv8>, i: nat, next: bv32)
    requires i < |data| && Eight(c ^ data[i] as bv32) == next
    ensures Register(WordBits(c), BytesBits(data)[i..]) == Register(WordBits(next), BytesBits(data)[i + 1..])
  {
    hide WordBits, WordSteps, Register, ByteBits, Eight;
    XorIs(c, data[i] as bv32);
    EightSteps(c ^ data[i] as bv32);
    NextByte(c, data, i);
  }

  lemma KnownCrc(data: seq<bv8>, c: bv32)
    requires Register(WordBits(0xFFFF_FFFF), BytesBits(data)[0..]) == Register(WordBits(c), BytesBits(data)[|data|..])
    ensures Crc(BytesBits(data)) == WordBits(!c)
  {
    hide WordBits, Register;
    RegisterUnfolds(WordBits(c), BytesBits(data), |data|);
    assert BytesBits(data)[0..] == BytesBits(data);
    OnesBits();
    NotBits(c);
  }

  lemma ZeroByte()
    ensures Crc([]) == WordBits(0) && Crc([ByteBits(0)]) == WordBits(0xD202_EF8D)
  {
    hide WordBits, Register, ByteBits, Crc;
    KnownCrc([], 0xFFFF_FFFF);
    assert BytesBits([]) == [];
    ByteAt(0xFFFF_FFFF, [0], 0, 0x2DFD_1072);
    KnownCrc([0], 0x2DFD_1072);
    assert BytesBits([0]) == [ByteBits(0)];
  }

  /** The CRCs of no byte, of one zero byte and of the nine digits of the usual check value. */
  lemma KnownValues()
    ensures Crc([]) == WordBits(0) && Crc([ByteBits(0)]) == WordBits(0xD202_EF8D)
    ensures Crc(BytesBits([0x31, 0x32, 0x33, 0x34, 0x35, 0x36, 0x37, 0x38, 0x39])) == WordBits(0xCBF4_3926)
  {
    hide WordBits, Register, ByteBits, Crc, BytesBits;
    ZeroByte();
    var digits: seq<bv8> := [0x31, 0x32, 0x33, 0x34, 0x35, 0x36, 0x37, 0x38, 0x39];
    ByteAt(0xFFFF_FFFF, digits, 0, 0x7C23_1048);
    ByteAt(0x7C23_1048, digits, 1, 0xB0AC_BB32);
    ByteAt(0xB0AC_BB32, digits, 2, 0x77B7_9C2D);
    ByteAt(0x77B7_9C2D, digits, 3, 0x641C_1F5C);
    ByteAt(0x641C_1F5C, digits, 4, 0x340A_C5E3);
    ByteAt(0x340A_C5E3, digits, 5, 0xF68D_2C9E);
    ByteAt(0xF68D_2C9E, digits, 6, 0xAFFC_9660);
    ByteAt(0xAFFC_9660, digits, 7, 0x651F_2550);
    ByteAt(0x651F_2550, digits, 8, 0x340B_C6D9);
    KnownCrc(digits, 0x340B_C6D9);
  }
}
