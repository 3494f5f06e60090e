/** The CRC as the remainder of a division of polynomials over two elements: the message, with 32 ones in
    front, by the generator of ITU-T V.42.
 */
module Crc32Polynomial {
  import opened Crc32

  /** The exponents whose coefficient is 1. */
  type Poly = iset<nat>

  const GENERATOR: Poly := iset{32, 26, 23, 22, 16, 12, 11, 10, 8, 7, 5, 4, 2, 1, 0}

  ghost function Add(a: Poly, b: Poly): Poly { iset e: nat | (e in a) != (e in b) }

  /** The polynomial times x^n. */
  ghost function Shift(a: Poly, n: nat): Poly { iset e: nat | Shifted(a, n, e) }

  ghost predicate Shifted(a: Poly, n: nat, e: nat) { e >= n && e - n in a }

  /** The generator times the sum of the powers in `q`. */
  ghost function Product(q: seq<nat>): Poly
    decreases |q|
  {
    if q == [] then iset{} else Add(Shift(GENERATOR, q[0]), Product(q[1..]))
  }

  predicate Decreasing(q: seq<nat>) { forall i, j :: 0 <= i < j < |q| ==> q[i] > q[j] }

  predicate AllBelow(q: seq<nat>, n: nat) { forall i :: 0 <= i < |q| ==> q[i] < n }

  ghost predicate Below(p: Poly, n: nat) { forall e :: e in p ==> e < n }

  /** `r` is what division of `p` by the generator leaves. */
  ghost predicate IsRemainder(p: Poly, r: Poly) {
    Below(r, 32) && exists q: seq<nat> :: Decreasing(q) && p == Add(Product(q), r)
  }

  // ----- the remainder is unique -----

  /** A product has no exponent beyond that of its first power, which it has. */
  lemma {:induction false} Leading(q: seq<nat>)
    requires Decreasing(q)
    ensures if q == [] then Product(q) == iset{} else q[0] + 32 in Product(q) && Below(Product(q), q[0] + 33)
    decreases |q|
  {
    if q == [] {
    } else {
      Leading(q[1..]);
    }
  }

  /** The sum of two products is a product. */
  lemma {:induction false} ProductsAdd(a: seq<nat>, b: seq<nat>) returns (q: seq<nat>)
    requires Decreasing(a) && Decreasing(b)
    ensures Decreasing(q) && Product(q) == Add(Product(a), Product(b))
    ensures q != [] ==> (a != [] && q[0] <= a[0]) || (b != [] && q[0] <= b[0])
    decreases |a| + |b|
  {
    if a == [] {
      q := b;
    } else if b == [] {
      q := a;
    } else if a[0] == b[0] {
      q := ProductsAdd(a[1..], b[1..]);
      Cancels(Shift(GENERATOR, a[0]), Product(a[1..]), Product(b[1..]));
    } else if a[0] > b[0] {
      var tail := ProductsAdd(a[1..], b);
      q := [a[0]] + tail;
      Associates(Shift(GENERATOR, a[0]), Product(a[1..]), Product(b));
    } else {
      var tail := ProductsAdd(a, b[1..]);
      q := [b[0]] + tail;
      Associates(Shift(GENERATOR, b[0]), Product(b[1..]), Product(a));
    }
  }

  lemma Cancels(g: Poly, p: Poly, r: Poly)
    ensures Add(Add(g, p), Add(g, r)) == Add(p, r)
  {
  }

  lemma Associates(g: Poly, p: Poly, r: Poly)
    ensures Add(Add(g, p), r) == Add(g, Add(p, r)) && Add(r, Add(g, p)) == Add(g, Add(r, p)) && Add(p, r) == Add(r, p)
  {
  }

  lemma RemainderUnique(p: Poly, r: Poly, s: Poly)
    requires IsRemainder(p, r) && IsRemainder(p, s)
    ensures r == s
  {
    var a: seq<nat> :| Decreasing(a) && p == Add(Product(a), r);
    var b: seq<nat> :| Decreasing(b) && p == Add(Product(b), s);
    var q := ProductsAdd(a, b);
    SameSum(Product(a), r, Product(b), s);
    Leading(q);
  }

  lemma SameSum(p: Poly, r: Poly, q: Poly, s: Poly)
    requires Add(p, r) == Add(q, s)
    ensures Add(p, q) == Add(r, s)
    ensures Add(r, s) == iset{} ==> r == s
  {
    forall e: nat | true ensures e in Add(p, q) <==> e in Add(r, s) {
      assert e in Add(p, r) <==> e in Add(q, s);
    }
    if Add(r, s) == iset{} {
      forall e: nat | true ensures e in r <==> e in s { assert e !in Add(r, s); }
    }
  }

  // ----- the register as a polynomial -----

  /** The coefficients of a stream of bits or of a word, the first bit the highest. */
  ghost function StreamPoly(bits: seq<bool>): Poly { iset e: nat | IsTerm(bits, e) }

  ghost predicate IsTerm(bits: seq<bool>, e: nat) { e < |bits| && bits[|bits| - 1 - e] }

  /** What is divided: the stream times x^32, with the register in front of it. */
  ghost function Dividend(c: Word, bits: seq<bool>): Poly {
    Add(Shift(StreamPoly(c), |bits|), Shift(StreamPoly(bits), 32))
  }

  ghost function When(b: bool, p: Poly): Poly { if b then p else iset{} }

  /** One step multiplies by x and takes the generator off when there is an x^32. */
  lemma StepDivides(c: Word)
    ensures StreamPoly(BitStep(c)) == Add(Shift(StreamPoly(c), 1), When(c[0], GENERATOR))
  {
    hide BitStep, GENERATOR, StreamPoly;
    forall e: nat | true
      ensures e in StreamPoly(BitStep(c)) <==> e in Add(Shift(StreamPoly(c), 1), When(c[0], GENERATOR))
    {
      StepTerm(c, e);
    }
  }

  lemma StepTerm(c: Word, e: nat)
    ensures e in StreamPoly(BitStep(c)) <==> (e >= 1 && e - 1 in StreamPoly(c)) != (c[0] && e in GENERATOR)
  {
    hide BitStep, GENERATOR, POLYNOMIAL_BITS;
    GeneratorBits(e);
  }

  /** The bits of the polynomial in the source are the generator without x^32. */
  lemma GeneratorBits(e: nat)
    ensures e in GENERATOR <==> e == 32 || (e < 32 && 31 - e in POLYNOMIAL_BITS)
  {
  }

  /** The next bit of the stream enters at x^31. */
  lemma BitEnters(c: Word, b: bool)
    ensures StreamPoly(Xor(c, Low([b]))) == Add(StreamPoly(c), When(b, iset{31}))
  {
  }

  lemma StreamFirst(bits: seq<bool>)
    requires bits != []
    ensures StreamPoly(bits) == Add(StreamPoly(bits[1..]), When(bits[0], iset{|bits| - 1}))
  {
  }

  /** The dividend changes by a multiple of the generator with every bit. */
  lemma DividendStep(c: Word, bits: seq<bool>)
    requires bits != []
    ensures var x := Xor(c, Low([bits[0]]));
      Dividend(c, bits) ==
      Add(When(x[0], Shift(GENERATOR, |bits| - 1)), Dividend(BitStep(x), bits[1..]))
  {
    hide Xor, Low, BitStep, StreamPoly, GENERATOR, Add, Shift, When;
    var x := Xor(c, Low([bits[0]]));
    BitEnters(c, bits[0]);
    StepDivides(x);
    StreamFirst(bits);
    StepAlgebra(StreamPoly(c), StreamPoly(bits[1..]), bits[0], When(x[0], GENERATOR), |bits| - 1);
    WhenShifted(x[0], GENERATOR, |bits| - 1);
  }

  lemma WhenShifted(b: bool, p: Poly, n: nat)
    ensures Shift(When(b, p), n) == When(b, Shift(p, n))
  {
  }

  lemma ShiftAdd(a: Poly, b: Poly, n: nat)
    ensures Shift(Add(a, b), n) == Add(Shift(a, n), Shift(b, n))
  {
  }

  lemma ShiftTwice(a: Poly, n: nat)
    ensures Shift(Shift(a, 1), n) == Shift(a, n + 1)
  {
  }

  lemma SameTerm(b: bool, n: nat)
    ensures Shift(When(b, iset{31}), n + 1) == Shift(When(b, iset{n}), 32)
  {
  }

  lemma Rearranged(a: Poly, s: Poly, t: Poly, g: Poly)
    ensures Add(a, Add(s, t)) == Add(g, Add(Add(Add(a, t), g), s))
  {
  }

  /** With `p` the register, `s` the rest of the stream, and `g` what the step takes off. */
  lemma StepAlgebra(p: Poly, s: Poly, b: bool, g: Poly, n: nat)
    ensures Add(Shift(p, n + 1), Shift(Add(s, When(b, iset{n})), 32)) ==
            Add(Shift(g, n), Add(Shift(Add(Shift(Add(p, When(b, iset{31})), 1), g), n), Shift(s, 32)))
  {
    hide Add, Shift, When;
    var t := When(b, iset{31});
    ShiftAdd(s, When(b, iset{n}), 32);
    SameTerm(b, n);
    ShiftAdd(Shift(Add(p, t), 1), g, n);
    ShiftTwice(Add(p, t), n);
    ShiftAdd(p, t, n + 1);
    Rearranged(Shift(p, n + 1), Shift(s, 32), Shift(t, n + 1), Shift(g, n));
  }

  /** Feeding bits into the register is the division. */
  lemma {:induction false} RegisterDivides(c: Word, bits: seq<bool>) returns (q: seq<nat>)
    ensures Decreasing(q) && AllBelow(q, |bits|)
    ensures Dividend(c, bits) == Add(Product(q), StreamPoly(BitRegister(c, bits)))
    decreases |bits|
  {
    if bits == [] {
      q := [];
      NothingToDivide(c);
    } else {
      q := DivideOneMore(c, bits);
    }
  }

  lemma {:induction false} DivideOneMore(c: Word, bits: seq<bool>) returns (q: seq<nat>)
    requires bits != []
    ensures Decreasing(q) && AllBelow(q, |bits|)
    ensures Dividend(c, bits) == Add(Product(q), StreamPoly(BitRegister(c, bits)))
    decreases |bits|, 0
  {
    hide Xor, Low, BitStep, StreamPoly, GENERATOR, Dividend, Add, Shift, Product, Decreasing, AllBelow;
    var x := Xor(c, Low([bits[0]]));
    DividendStep(c, bits);
    q := RegisterDivides(BitStep(x), bits[1..]);
    AddNothing(Dividend(BitStep(x), bits[1..]));
    OneMorePower(|bits| - 1, q);
    if x[0] {
      Regroup(Shift(GENERATOR, |bits| - 1), Product(q), StreamPoly(BitRegister(c, bits)));
      q := [|bits| - 1] + q;
    }
  }

  lemma Regroup(g: Poly, p: Poly, r: Poly)
    ensures Add(g, Add(p, r)) == Add(Add(g, p), r)
  {
  }

  lemma OneMorePower(h: nat, q: seq<nat>)
    requires Decreasing(q) && AllBelow(q, h)
    ensures Decreasing([h] + q) && AllBelow([h] + q, h + 1)
    ensures AllBelow(q, h + 1)
    ensures Product([h] + q) == Add(Shift(GENERATOR, h), Product(q))
  {
    hide GENERATOR, Add, Shift;
    assert ([h] + q)[1..] == q;
  }

  lemma NothingToDivide(c: Word)
    ensures Dividend(c, []) == StreamPoly(c) == Add(Product([]), StreamPoly(c))
  {
  }

  lemma AddNothing(p: Poly)
    ensures Add(iset{}, p) == p
  {
  }

  /** For every message, the complement of its CRC is what division by the generator leaves of the message
      times x^32 with 32 ones added in front of it, and nothing else is. */
  lemma CrcIsRemainder(data: seq<Byte>, r: Poly)
    ensures IsRemainder(Dividend(Ones(), Bits(data)), r) <==> r == StreamPoly(Not(Crc(data)))
  {
    hide BitRegister, Register, Bits, Xor, Dividend;
    var s := StreamPoly(Not(Crc(data)));
    RegisterIsBitwise(Ones(), data);
    NotNot(Register(Ones(), data));
    var q := RegisterDivides(Ones(), Bits(data));
    assert IsRemainder(Dividend(Ones(), Bits(data)), s);
    if IsRemainder(Dividend(Ones(), Bits(data)), r) {
      RemainderUnique(Dividend(Ones(), Bits(data)), r, s);
    }
  }

  lemma NotNot(c: Word)
    ensures Not(Not(c)) == c
  {
  }
}
