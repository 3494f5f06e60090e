/** The bitwise CRC-32 of module_calculate_crc: linear, equal to the table-driven form of section 8
    of RFC 1952, and able to detect every burst of errors of up to 32 bits.

    Words and bytes are modelled by their bits, least significant first.
 */
module Crc32 {

  const BYTE0 := [false, false, false, false, false, false, false, false]

  type Word = w: seq<bool> | |w| == 32 witness BYTE0 + BYTE0 + BYTE0 + BYTE0
  type Byte = b: seq<bool> | |b| == 8 witness BYTE0

  /** The one bits of 0xEDB88320. */
  const POLYNOMIAL_BITS: set<nat> := {5, 8, 9, 15, 19, 20, 21, 23, 24, 26, 27, 29, 30, 31}

  function Zeros(n: nat): (z: seq<bool>)
    ensures |z| == n && forall i :: 0 <= i < n ==> !z[i]
  {
    seq(n, _ => false)
  }

  function Ones(): (w: Word)
    ensures forall i :: 0 <= i < 32 ==> w[i]
  {
    seq(32, _ => true)
  }

  function Xor(a: Word, b: Word): (r: Word)
    ensures forall i :: 0 <= i < 32 ==> r[i] == (a[i] != b[i])
  {
    seq(32, i requires 0 <= i < 32 => a[i] != b[i])
  }

  /** A short bit string in the low bits of a word. */
  function Low(bits: seq<bool>): (r: Word)
    requires |bits| <= 32
  {
    bits + Zeros(32 - |bits|)
  }

  /** One bit of the division: `(crc >> 1) ^ (0xEDB88320 & -(crc & 1))`. */
  function BitStep(c: Word): (r: Word)
    ensures forall i :: 0 <= i < 32 ==> r[i] == ((i < 31 && c[i + 1]) != (c[0] && i in POLYNOMIAL_BITS))
  {
    seq(32, i requires 0 <= i < 32 => (i < 31 && c[i + 1]) != (c[0] && i in POLYNOMIAL_BITS))
  }

  function Steps(c: Word, n: nat): Word
    decreases n
  {
    if n == 0 then c else Steps(BitStep(c), n - 1)
  }

  function ByteStep(c: Word, byte: Byte): Word { Steps(Xor(c, Low(byte)), 8) }

  /** The register after all bytes of `data`, started from `c`. */
  function Register(c: Word, data: seq<Byte>): Word
    decreases |data|
  {
    if data == [] then c else Register(ByteStep(c, data[0]), data[1..])
  }

  function Not(c: Word): Word { Xor(c, Ones()) }

  function Crc(data: seq<Byte>): Word { Not(Register(Ones(), data)) }

  lemma RegisterUnfolds(c: Word, data: seq<Byte>, i: nat)
    requires i <= |data|
    ensures Register(c, data[i..]) ==
            if i == |data| then c else Register(Steps(Xor(c, Low(data[i])), 8), data[i + 1..])
  {
    hide Xor, Low, Steps;
    if i < |data| { assert data[i..][0] == data[i] && data[i..][1..] == data[i + 1..]; }
  }

  // ----- linearity -----

  lemma BitStepLinear(a: Word, b: Word)
    ensures BitStep(Xor(a, b)) == Xor(BitStep(a), BitStep(b))
  {
  }

  lemma {:induction false} StepsLinear(a: Word, b: Word, n: nat)
    ensures Steps(Xor(a, b), n) == Xor(Steps(a, n), Steps(b, n))
    decreases n
  {
    hide BitStep, Xor;
    if n == 0 {
    } else {
      BitStepLinear(a, b);
      StepsLinear(BitStep(a), BitStep(b), n - 1);
    }
  }

  function XorByte(a: Byte, b: Byte): Byte {
    seq(8, i requires 0 <= i < 8 => a[i] != b[i])
  }

  function XorBytes(a: seq<Byte>, b: seq<Byte>): (r: seq<Byte>)
    requires |a| == |b|
    ensures |r| == |a|
  {
    seq(|a|, i requires 0 <= i < |a| => XorByte(a[i], b[i]))
  }

  function ZeroBytes(n: nat): (r: seq<Byte>)
    ensures |r| == n
  {
    seq(n, _ => Zeros(8))
  }

  lemma XorExchange(c: Word, d: Word, x: Byte, y: Byte)
    ensures Xor(Xor(c, d), Low(XorByte(x, y))) == Xor(Xor(c, Low(x)), Xor(d, Low(y)))
  {
  }

  lemma {:induction false} RegisterLinear(c: Word, d: Word, a: seq<Byte>, b: seq<Byte>)
    requires |a| == |b|
    ensures Register(Xor(c, d), XorBytes(a, b)) == Xor(Register(c, a), Register(d, b))
    decreases |a|
  {
    hide Steps, Xor, Low;
    if a == [] {
    } else {
      XorExchange(c, d, a[0], b[0]);
      StepsLinear(Xor(c, Low(a[0])), Xor(d, Low(b[0])), 8);
      RegisterLinear(ByteStep(c, a[0]), ByteStep(d, b[0]), a[1..], b[1..]);
      assert XorBytes(a, b)[1..] == XorBytes(a[1..], b[1..]);
    }
  }

  lemma XorLaws(x: Word, y: Word, z: Word)
    ensures Xor(x, Xor(x, x)) == x
    ensures Not(Xor(x, Xor(y, z))) == Xor(Xor(Not(x), Not(y)), Not(z))
  {
  }

  lemma XorWithZeros(b: seq<Byte>)
    ensures XorBytes(b, ZeroBytes(|b|)) == b
  {
    forall i | 0 <= i < |b| ensures XorByte(b[i], Zeros(8)) == b[i] {}
  }

  /** The CRC of a difference is the difference of the CRCs, up to the CRC of zeros. */
  lemma CrcOfXor(a: seq<Byte>, b: seq<Byte>)
    requires |a| == |b|
    ensures Crc(XorBytes(a, b)) == Xor(Xor(Crc(a), Crc(b)), Crc(ZeroBytes(|a|)))
  {
    hide Register, Xor;
    var z := ZeroBytes(|a|);
    RegisterLinear(Ones(), Ones(), b, z);
    RegisterLinear(Ones(), Xor(Ones(), Ones()), a, XorBytes(b, z));
    XorWithZeros(b);
    XorLaws(Ones(), Ones(), Ones());
    XorLaws(Register(Ones(), a), Register(Ones(), b), Register(Ones(), z));
  }

  // ----- injectivity -----

  /** The step can be undone: the polynomial's top bit tells which branch was taken. */
  lemma BitStepInjective(a: Word, b: Word)
    requires BitStep(a) == BitStep(b)
    ensures a == b
  {
    assert BitStep(a)[31] == a[0] && BitStep(b)[31] == b[0];
    forall i | 0 < i < 32 ensures a[i] == b[i] {
      assert BitStep(a)[i - 1] == (a[i] != (a[0] && i - 1 in POLYNOMIAL_BITS));
      assert BitStep(b)[i - 1] == (b[i] != (b[0] && i - 1 in POLYNOMIAL_BITS));
    }
  }

  lemma {:induction false} StepsInjective(a: Word, b: Word, n: nat)
    requires Steps(a, n) == Steps(b, n)
    ensures a == b
    decreases n
  {
    hide BitStep;
    if n == 0 {
    } else {
      StepsInjective(BitStep(a), BitStep(b), n - 1);
      BitStepInjective(a, b);
    }
  }

  lemma XorInjective(a: Word, b: Word, x: Word)
    ensures Xor(a, x) == Xor(b, x) ==> a == b
    ensures Xor(x, a) == Xor(x, b) ==> a == b
  {
    if Xor(a, x) == Xor(b, x) {
      forall i | 0 <= i < 32 ensures a[i] == b[i] { assert Xor(a, x)[i] == Xor(b, x)[i]; }
    }
    if Xor(x, a) == Xor(x, b) {
      forall i | 0 <= i < 32 ensures a[i] == b[i] { assert Xor(x, a)[i] == Xor(x, b)[i]; }
    }
  }

  // ----- the message as a bit stream -----

  /** The same division, one message bit at a time. */
  function BitRegister(c: Word, bits: seq<bool>): Word
    decreases |bits|
  {
    if bits == [] then c else BitRegister(BitStep(Xor(c, Low([bits[0]]))), bits[1..])
  }

  /** The bits of a message in the order they enter the register. */
  function Bits(data: seq<Byte>): (bits: seq<bool>)
    ensures |bits| == 8 * |data|
    decreases |data|
  {
    if data == [] then [] else data[0] + Bits(data[1..])
  }

  function ShiftUp(w: Word): Word { [false] + w[..31] }

  /** Bits above the lowest just move down in one step. */
  lemma BitsMove(x: Word, y: Word)
    requires !y[31]
    ensures BitStep(Xor(x, ShiftUp(y))) == Xor(BitStep(x), y)
  {
    forall i | 0 <= i < 32 ensures BitStep(Xor(x, ShiftUp(y)))[i] == Xor(BitStep(x), y)[i] {
      if i < 31 { assert ShiftUp(y)[i + 1] == y[i]; }
    }
  }

  lemma SplitLow(c: Word, bits: seq<bool>)
    requires 0 < |bits| <= 32
    ensures Xor(c, Low(bits)) == Xor(Xor(c, Low([bits[0]])), ShiftUp(Low(bits[1..])))
    ensures !Low(bits[1..])[31]
  {
  }

  /** Up to 32 bits may enter the register at once and be divided together. */
  lemma {:induction false} EnterTogether(c: Word, bits: seq<bool>)
    requires |bits| <= 32
    ensures Steps(Xor(c, Low(bits)), |bits|) == BitRegister(c, bits)
    decreases |bits|
  {
    if bits == [] {
      assert Xor(c, Low([])) == c;
    } else {
      EnterTogetherStep(c, bits);
    }
  }

  lemma {:induction false} EnterTogetherStep(c: Word, bits: seq<bool>)
    requires 0 < |bits| <= 32
    ensures Steps(Xor(c, Low(bits)), |bits|) == BitRegister(c, bits)
    decreases |bits|, 0
  {
    hide Xor, Low, BitStep, ShiftUp;
    var x := Xor(c, Low([bits[0]]));
    SplitLow(c, bits);
    BitsMove(x, Low(bits[1..]));
    EnterTogether(BitStep(x), bits[1..]);
  }

  lemma {:induction false} BitRegisterAppend(c: Word, a: seq<bool>, b: seq<bool>)
    ensures BitRegister(c, a + b) == BitRegister(BitRegister(c, a), b)
    decreases |a|
  {
    hide Xor, Low, BitStep;
    if a == [] {
      assert a + b == b;
    } else {
      BitRegisterAppend(BitStep(Xor(c, Low([a[0]]))), a[1..], b);
      assert (a + b)[1..] == a[1..] + b;
    }
  }

  /** The bytewise loop divides the bit stream. */
  lemma {:induction false} RegisterIsBitwise(c: Word, data: seq<Byte>)
    ensures Register(c, data) == BitRegister(c, Bits(data))
    decreases |data|
  {
    hide Xor, Low, Steps, BitRegister;
    if data == [] {
      EmptyBits(c);
    } else {
      EnterTogether(c, data[0]);
      RegisterIsBitwise(ByteStep(c, data[0]), data[1..]);
      BitRegisterAppend(c, data[0], Bits(data[1..]));
    }
  }

  lemma EmptyBits(c: Word)
    ensures BitRegister(c, []) == c
  {
  }

  /** Different registers stay different over the same bits. */
  lemma {:induction false} BitRegisterInjective(c: Word, d: Word, bits: seq<bool>)
    requires BitRegister(c, bits) == BitRegister(d, bits)
    ensures c == d
    decreases |bits|
  {
    hide Xor, Low, BitStep;
    if bits == [] {
    } else {
      var x := Low([bits[0]]);
      BitRegisterInjective(BitStep(Xor(c, x)), BitStep(Xor(d, x)), bits[1..]);
      BitStepInjective(Xor(c, x), Xor(d, x));
      XorInjective(c, d, x);
    }
  }

  /** Two messages of the same length whose bits differ, but only within 32 consecutive positions,
      have different CRCs. `before` and `after` are the common bits around the burst. */
  lemma BurstDetected(m: seq<Byte>, n: seq<Byte>, before: seq<bool>, u: seq<bool>, v: seq<bool>, after: seq<bool>)
    requires Bits(m) == before + u + after && Bits(n) == before + v + after
    requires |u| == |v| <= 32 && u != v
    ensures Crc(m) != Crc(n)
  {
    hide BitRegister, Register, Bits, Steps, Xor, Low;
    RegisterIsBitwise(Ones(), m);
    RegisterIsBitwise(Ones(), n);
    BitRegisterAppend(Ones(), before + u, after);
    BitRegisterAppend(Ones(), before + v, after);
    BitRegisterAppend(Ones(), before, u);
    BitRegisterAppend(Ones(), before, v);
    if Crc(m) == Crc(n) {
      var c := BitRegister(Ones(), before);
      XorInjective(Register(Ones(), m), Register(Ones(), n), Ones());
      BitRegisterInjective(BitRegister(c, u), BitRegister(c, v), after);
      EnterTogether(c, u);
      EnterTogether(c, v);
      StepsInjective(Xor(c, Low(u)), Xor(c, Low(v)), |u|);
      XorInjective(Low(u), Low(v), c);
      LowInjective(u, v);
    }
  }

  lemma LowInjective(u: seq<bool>, v: seq<bool>)
    requires |u| == |v| <= 32 && Low(u) == Low(v)
    ensures u == v
  {
    assert Low(u)[..|u|] == u && Low(v)[..|v|] == v;
  }

  lemma {:induction false} BitsAppend(a: seq<Byte>, b: seq<Byte>)
    ensures Bits(a + b) == Bits(a) + Bits(b)
    decreases |a|
  {
    if a == [] {
      assert a + b == b;
    } else {
      BitsAppend(a[1..], b);
      assert (a + b)[1..] == a[1..] + b;
    }
  }

  lemma {:induction false} BitsInjective(a: seq<Byte>, b: seq<Byte>)
    requires |a| == |b| && Bits(a) == Bits(b)
    ensures a == b
    decreases |a|
  {
    if a == [] {
    } else {
      assert Bits(a)[..8] == a[0] && Bits(b)[..8] == b[0];
      assert Bits(a)[8..] == Bits(a[1..]) && Bits(b)[8..] == Bits(b[1..]);
      BitsInjective(a[1..], b[1..]);
      assert a == [a[0]] + a[1..] && b == [b[0]] + b[1..];
    }
  }

  /** In particular, any change confined to four consecutive bytes is detected, in messages of any
      length. */
  lemma FourByteErrorDetected(before: seq<Byte>, u: seq<Byte>, v: seq<Byte>, after: seq<Byte>)
    requires |u| == |v| <= 4 && u != v
    ensures Crc(before + u + after) != Crc(before + v + after)
  {
    hide Crc, Bits;
    BitsAppend(before + u, after);
    BitsAppend(before, u);
    BitsAppend(before + v, after);
    BitsAppend(before, v);
    if Bits(u) == Bits(v) { BitsInjective(u, v); }
    BurstDetected(before + u + after, before + v + after, Bits(before), Bits(u), Bits(v), Bits(after));
  }

  // ----- the table-driven form -----

  /** The table of section 8 of RFC 1952: eight steps from every single byte. */
  function Table(b: Byte): Word { Steps(Low(b), 8) }

  function ShiftDown8(c: Word): Word { c[8..] + Zeros(8) }

  lemma {:induction false} HighBitsShift(w: Word, n: nat)
    requires n <= 32 && forall i :: 0 <= i < n ==> !w[i]
    ensures Steps(w, n) == w[n..] + Zeros(n)
    decreases n
  {
    if n > 0 {
      LowBitClear(w);
      hide BitStep;
      HighBitsShift(BitStep(w), n - 1);
      ShiftOnce(w, BitStep(w), n);
    } else {
      assert w[0..] + Zeros(0) == w;
    }
  }

  lemma LowBitClear(w: Word)
    requires !w[0]
    ensures BitStep(w) == w[1..] + [false]
  {
  }

  lemma ShiftOnce(w: Word, v: Word, n: nat)
    requires 0 < n <= 32 && v == w[1..] + [false]
    ensures v[n - 1..] + Zeros(n - 1) == w[n..] + Zeros(n)
  {
  }

  lemma SplitByte(x: Word)
    ensures x == Xor(Low(x[..8]), Zeros(8) + x[8..])
  {
  }

  lemma HighPart(c: Word, byte: Byte)
    ensures Xor(c, Low(byte))[8..] == c[8..]
  {
  }

  /** Eight bit steps are one table lookup: `table[(c ^ byte) & 0xff] ^ (c >> 8)`. */
  lemma TableStep(c: Word, byte: Byte)
    ensures ByteStep(c, byte) == Xor(Table(Xor(c, Low(byte))[..8]), ShiftDown8(c))
  {
    var x := Xor(c, Low(byte));
    SplitByte(x);
    HighPart(c, byte);
    hide Steps, Xor, Low;
    StepsLinear(Low(x[..8]), Zeros(8) + x[8..], 8);
    HighBitsShift(Zeros(8) + x[8..], 8);
    assert (Zeros(8) + x[8..])[8..] == x[8..];
  }

  /** The table-driven CRC. */
  function TableRegister(c: Word, data: seq<Byte>): Word
    decreases |data|
  {
    if data == [] then c
    else TableRegister(Xor(Table(Xor(c, Low(data[0]))[..8]), ShiftDown8(c)), data[1..])
  }

  lemma {:induction false} TableFormAgrees(c: Word, data: seq<Byte>)
    ensures TableRegister(c, data) == Register(c, data)
    decreases |data|
  {
    hide Xor, Low, Table, ByteStep;
    if data == [] {
    } else {
      TableStep(c, data[0]);
      TableFormAgrees(ByteStep(c, data[0]), data[1..]);
    }
  }
}
