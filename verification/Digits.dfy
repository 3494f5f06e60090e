/** Numbers as text: utoa, itoa and itohex fill a buffer and reverse it in place.
 */
module Digits {
  import opened Division
  import opened Machine

  const DIGITS: string := "0123456789ABCDEFGHIJKLMNOPQRSTUVWXYZ"
  const NUL: char := '\0'

  predicate Base(b: int) { 2 <= b <= 36 }

  /** The digits of `v`, least significant first, at least one. */
  function LowFirst(v: nat, b: nat): (s: string)
    requires Base(b)
    ensures |s| > 0
    decreases v
  {
    Shrinks(v, b);
    if v / b == 0 then [DIGITS[v % b]] else [DIGITS[v % b]] + LowFirst(v / b, b)
  }

  lemma Shrinks(v: nat, b: nat)
    requires b >= 2
    ensures 0 <= v / b && 0 <= v % b < b && (v > 0 ==> v / b < v) && v == v / b * b + v % b
    ensures v / b == 0 ==> v == v % b
  {
    QuotientNotNegative(v, b);
    var q: nat := v / b;
    assert v == q * b + v % b;
    DoubleAtMost(q, b);
  }

  lemma QuotientNotNegative(v: nat, b: nat)
    requires b > 0
    ensures v / b >= 0
  {
  }

  lemma DoubleAtMost(q: nat, b: nat)
    requires b >= 2
    ensures 2 * q <= q * b && (q == 0 ==> q * b == 0)
  {
    assert q * (b - 2) >= 0;
    assert q * (b - 2) == q * b - q * 2;
  }

  function Reversed<T>(s: seq<T>): (r: seq<T>)
    ensures |r| == |s|
  {
    seq(|s|, i requires 0 <= i < |s| => s[|s| - 1 - i])
  }

  /** The usual notation of `v` in base `b`. */
  function Text(v: nat, b: nat): (s: string)
    requires Base(b)
    ensures |s| > 0
  {
    Reversed(LowFirst(v, b))
  }

  // ----- reading back -----

  function DigitValue(c: char): nat {
    if '0' <= c <= '9' then c as int - '0' as int
    else if 'A' <= c <= 'Z' then c as int - 'A' as int + 10
    else 0
  }

  lemma DigitRoundTrip(d: nat)
    requires d < 36
    ensures DigitValue(DIGITS[d]) == d && DIGITS[d] != NUL
    ensures d < 10 ==> '0' <= DIGITS[d] <= '9'
    ensures d < 16 ==> '0' <= DIGITS[d] <= '9' || 'A' <= DIGITS[d] <= 'F'
  {
  }

  lemma DigitIsIts(c: char)
    requires '0' <= c <= '9' || 'A' <= c <= 'F'
    ensures DigitValue(c) < 16 && DIGITS[DigitValue(c)] == c && ('0' <= c <= '9' ==> DigitValue(c) < 10)
  {
  }

  /** Reading digits onto a number already read. */
  function ReadOnto(acc: nat, s: string, b: nat): nat
    decreases |s|
  {
    if s == [] then acc else ReadOnto(acc * b + DigitValue(s[0]), s[1..], b)
  }

  lemma {:induction false} ReadAppend(acc: nat, s: string, c: char, b: nat)
    ensures ReadOnto(acc, s + [c], b) == ReadOnto(acc, s, b) * b + DigitValue(c)
    decreases |s|
  {
    if s == [] {
      assert s + [c] == [c];
      assert ReadOnto(acc, [c], b) == ReadOnto(acc * b + DigitValue(c), [], b);
    } else {
      ReadAppend(acc * b + DigitValue(s[0]), s[1..], c, b);
      assert (s + [c])[1..] == s[1..] + [c];
    }
  }

  lemma ReversedCons<T>(x: T, s: seq<T>)
    ensures Reversed([x] + s) == Reversed(s) + [x]
  {
  }

  /** Reading the notation back gives the value, in every base from 2 to 36. */
  lemma {:induction false} ReadBack(v: nat, b: nat)
    requires Base(b)
    ensures ReadOnto(0, Text(v, b), b) == v
    decreases v
  {
    Shrinks(v, b);
    DigitRoundTrip(v % b);
    if v / b == 0 {
      assert Text(v, b) == [DIGITS[v % b]];
      assert ReadOnto(0, Text(v, b), b) == ReadOnto(0 * b + v % b, [], b);
    } else {
      ReadBack(v / b, b);
      ReversedCons(DIGITS[v % b], LowFirst(v / b, b));
      ReadAppend(0, Text(v / b, b), DIGITS[v % b], b);
    }
  }

  predicate Plain(s: string) { NUL !in s }

  lemma {:induction false} LowFirstPlain(v: nat, b: nat)
    requires Base(b)
    ensures Plain(LowFirst(v, b))
    ensures b == 10 ==> forall i :: 0 <= i < |LowFirst(v, b)| ==> '0' <= LowFirst(v, b)[i] <= '9'
    decreases v
  {
    Shrinks(v, b);
    DigitRoundTrip(v % b);
    if v / b == 0 {
    } else {
      LowFirstPlain(v / b, b);
    }
  }

  lemma TextPlain(v: nat, b: nat)
    requires Base(b)
    ensures Plain(Text(v, b))
    ensures b == 10 ==> forall i :: 0 <= i < |Text(v, b)| ==> '0' <= Text(v, b)[i] <= '9'
  {
    LowFirstPlain(v, b);
    var s := LowFirst(v, b);
    forall i | 0 <= i < |s| ensures Text(v, b)[i] in s { assert Text(v, b)[i] == s[|s| - 1 - i]; }
  }

  /** `s` is the usual decimal notation of `v`: decimal digits only, without a leading zero unless it is "0", that
      read back as `v`. */
  ghost predicate Decimal(s: string, v: nat) {
    && 0 < |s| && (forall i :: 0 <= i < |s| ==> '0' <= s[i] <= '9')
    && (s[0] == '0' ==> |s| == 1)
    && ReadOnto(0, s, 10) == v
  }

  /** The highest digit is a zero only for the number zero. */
  lemma {:induction false} TopDigit(v: nat, b: nat)
    requires Base(b)
    ensures LowFirst(v, b)[|LowFirst(v, b)| - 1] == '0' ==> v == 0 && |LowFirst(v, b)| == 1
    decreases v
  {
    Shrinks(v, b);
    DigitRoundTrip(v % b);
    if v / b == 0 {
    } else {
      TopDigit(v / b, b);
    }
  }

  lemma TextIsDecimal(v: nat)
    ensures Decimal(Text(v, 10), v)
  {
    TopDigit(v, 10);
    TextPlain(v, 10);
    ReadBack(v, 10);
    hide LowFirst;
  }

  lemma TextStep(v: nat, b: nat)
    requires Base(b)
    ensures Text(v, b) == (if v / b <= 0 then "" else Text(v / b, b)) + [DIGITS[v % b]]
  {
    Shrinks(v, b);
    if v / b > 0 { ReversedCons(DIGITS[v % b], LowFirst(v / b, b)); }
  }

  /** And it is the only decimal notation of that number. */
  lemma {:induction false} DecimalUnique(s: string, v: nat)
    requires Decimal(s, v)
    ensures s == Text(v, 10)
    decreases |s|
  {
    hide Text, DigitValue;
    var t, c := s[..|s| - 1], s[|s| - 1];
    assert s == t + [c];
    ReadAppend(0, t, c, 10);
    DigitIsIts(c);
    var q := ReadOnto(0, t, 10);
    DivisionUnique(v, 10, q, DigitValue(c));
    TextStep(v, 10);
    if t == "" {
    } else {
      assert t[0] == s[0];
      DecimalUnique(t, q);
      if q == 0 { TextStep(0, 10); }
    }
  }

  /** A 32-bit number has at most ten decimal digits. */
  lemma {:induction false} TextShort(v: nat, limit: nat, n: nat)
    requires v < limit && n >= 1
    requires limit == Power10(n)
    ensures |Text(v, 10)| <= n
    decreases n
  {
    Shrinks(v, 10);
    if v / 10 == 0 {
    } else {
      TextShort(v / 10, Power10(n - 1), n - 1);
    }
  }

  function Power10(n: nat): (p: nat)
    ensures p > 0
  {
    if n == 0 then 1 else 10 * Power10(n - 1)
  }

  lemma WordTextShort(v: nat)
    requires v < TWO32
    ensures |Text(v, 10)| <= 10
  {
    hide Text;
    assert Power10(4) == 10 * Power10(3) && Power10(3) == 10 * Power10(2) && Power10(2) == 10 * Power10(1);
    assert Power10(7) == 10 * Power10(6) && Power10(6) == 10 * Power10(5) && Power10(5) == 10 * Power10(4);
    assert Power10(10) == 10 * Power10(9) && Power10(9) == 10 * Power10(8) && Power10(8) == 10 * Power10(7);
    TextShort(v, Power10(10), 10);
  }

  // ----- the conversions -----

  /** The digit loop of utoa and itoa: writes digits low first from `start`. */
  method PutDigits(v: nat, str: array<char>, start: nat, b: nat) returns (end: nat)
    requires Base(b) && start + |LowFirst(v, b)| <= str.Length
    modifies str
    ensures end == start + |LowFirst(v, b)|
    ensures str[..] == old(str[..start]) + LowFirst(v, b) + old(str[end..])
  {
    hide LowFirst;
    var value: nat := v;
    end := start;
    ghost var was := str[..];
    ghost var done: string := [];
    while true
      invariant start <= end && end + |LowFirst(value, b)| <= str.Length && |done| == end - start
      invariant LowFirst(v, b) == done + LowFirst(value, b)
      invariant str[..] == was[..start] + done + was[end..]
      decreases value
    {
      LowFirstStep(value, b);
      var digit := DIGITS[value % b];
      str[end] := digit;
      end := end + 1;
      assert str[..] == was[..start] + (done + [digit]) + was[end..];
      value := value / b;
      if value == 0 { return; }
      assert done + ([digit] + LowFirst(value, b)) == (done + [digit]) + LowFirst(value, b);
      done := done + [digit];
    }
  }

  lemma LowFirstStep(v: nat, b: nat)
    requires Base(b)
    ensures 0 <= v / b && 0 <= v % b < 36 && (v / b != 0 ==> v / b < v)
    ensures LowFirst(v, b) == [DIGITS[v % b]] + if v / b == 0 then [] else LowFirst(v / b, b)
  {
    Shrinks(v, b);
  }

  /** The reversal loop: swaps from both ends towards the middle. */
  method ReverseRange(str: array<char>, start: nat, end: nat)
    requires start <= end <= str.Length
    modifies str
    ensures str[..] == old(str[..start]) + Reversed(old(str[start..end])) + old(str[end..])
  {
    var low, ptr := start, end - 1;
    while low < ptr
      invariant start <= low <= ptr + 2 && low + ptr == start + end - 1
      invariant forall k :: 0 <= k < str.Length && !(start <= k < end) ==> str[k] == old(str[k])
      invariant forall k :: start <= k < low ==> str[k] == old(str[start + end - 1 - k])
      invariant forall k :: ptr < k < end ==> str[k] == old(str[start + end - 1 - k])
      invariant forall k :: low <= k <= ptr ==> str[k] == old(str[k])
    {
      var tmp := str[low];
      str[low] := str[ptr];
      low := low + 1;
      str[ptr] := tmp;
      ptr := ptr - 1;
    }
    ReversedRange(old(str[..]), str[..], start, end);
  }

  lemma ReversedRange(was: seq<char>, now: seq<char>, start: nat, end: nat)
    requires start <= end <= |was| == |now|
    requires forall k :: 0 <= k < |now| && !(start <= k < end) ==> now[k] == was[k]
    requires forall k :: start <= k < end ==> now[k] == was[start + end - 1 - k]
    ensures now == was[..start] + Reversed(was[start..end]) + was[end..]
  {
  }

  lemma Terminated(was: string, put: string, mid: string, start: nat, end: nat, digits: string)
    requires start <= end < |was| && end == start + |digits| && put == was[..start] + digits + was[end..]
    requires mid == put[end := NUL]
    ensures mid[start..end] == digits && mid[end..] == [NUL] + was[end + 1..] && mid[..start] == was[..start]
  {
  }

  lemma Regrouped(a: string, b: string, c: string, d: string)
    ensures a + b + (c + d) == a + b + c + d
  {
  }

  /** What utoa and itoa share: digits from `start`, a terminator, and the reversal. */
  method PutNumber(v: nat, str: array<char>, start: nat, b: nat)
    requires Base(b) && start + |Text(v, b)| < str.Length
    modifies str
    ensures str[..] == old(str[..start]) + Text(v, b) + [NUL] + old(str[start + |Text(v, b)| + 1..])
  {
    hide LowFirst, Reversed;
    ghost var was := str[..];
    var end := PutDigits(v, str, start, b);
    ghost var put := str[..];
    str[end] := NUL;
    ghost var mid := str[..];
    assert mid == put[end := NUL];
    Terminated(was, put, mid, start, end, LowFirst(v, b));
    ReverseRange(str, start, end);
    Regrouped(was[..start], Text(v, b), [NUL], was[end + 1..]);
  }

  /** utoa: the notation of an unsigned number, terminated; an unusable base gives the empty string. */
  method Utoa(v: nat, str: array<char>, base: int)
    requires str.Length > 0 && (Base(base) ==> |Text(v, base)| < str.Length)
    modifies str
    ensures Base(base) ==> str[..] == Text(v, base) + [NUL] + old(str[|Text(v, base)| + 1..])
    ensures !Base(base) ==> str[..] == [NUL] + old(str[1..])
  {
    hide Text;
    if base < 2 || base > 36 {
      str[0] := NUL;
      return;
    }
    PutNumber(v, str, 0, base);
  }

  /** The notation of a signed number. */
  function Signed(i: int, b: nat): string
    requires Base(b)
  {
    if i < 0 then "-" + Text(-i, b) else Text(i, b)
  }

  /** itoa, for every int whose negation does not overflow; only base 10 takes negative ones. */
  method Itoa(i: int, str: array<char>, base: int)
    requires -0x8000_0000 < i < 0x8000_0000 && (Base(base) && base != 10 ==> i >= 0)
    requires str.Length > 0 && (Base(base) ==> |Signed(i, base)| < str.Length)
    modifies str
    ensures Base(base) ==> str[..] == Signed(i, base) + [NUL] + old(str[|Signed(i, base)| + 1..])
    ensures !Base(base) ==> str[..] == [NUL] + old(str[1..])
  {
    hide Text;
    ghost var was := str[..];
    if base < 2 || base > 36 {
      str[0] := NUL;
      return;
    }
    if i < 0 && base == 10 {
      str[0] := '-';
      assert str[..1] == ['-'] && str[1..] == was[1..];
      PutNumber(-i, str, 1, base);
    } else {
      PutNumber(i, str, 0, base);
    }
  }

  /** The low `width` hexadecimal digits of `v`, high first. */
  function Hex(v: nat, width: nat): (s: string)
    ensures |s| == width
  {
    if width == 0 then [] else Hex(v / 16, width - 1) + [DIGITS[v % 16]]
  }

  lemma {:induction false} HexPlain(v: nat, width: nat)
    ensures Plain(Hex(v, width))
    decreases width
  {
    if width == 0 {
    } else {
      HexPlain(v / 16, width - 1);
      DigitRoundTrip(v % 16);
    }
  }

  /** Eight hexadecimal digits read back as the 32-bit value. */
  lemma {:induction false} HexReadBack(v: nat, width: nat, limit: nat)
    requires v < limit && limit == Power16(width)
    ensures ReadOnto(0, Hex(v, width), 16) == v
    decreases width
  {
    if width == 0 {
    } else {
      HexReadBack(v / 16, width - 1, Power16(width - 1));
      DigitRoundTrip(v % 16);
      ReadAppend(0, Hex(v / 16, width - 1), DIGITS[v % 16], 16);
    }
  }

  function Power16(n: nat): (p: nat)
    ensures p > 0
  {
    if n == 0 then 1 else 16 * Power16(n - 1)
  }

  /** `s` is `v` in eight hexadecimal digits, high first. */
  ghost predicate HexWord(s: string, v: nat) {
    && |s| == 8 && (forall i :: 0 <= i < |s| ==> '0' <= s[i] <= '9' || 'A' <= s[i] <= 'F')
    && ReadOnto(0, s, 16) == v
  }

  lemma {:induction false} HexDigits(v: nat, width: nat)
    ensures forall i :: 0 <= i < width ==> '0' <= Hex(v, width)[i] <= '9' || 'A' <= Hex(v, width)[i] <= 'F'
    decreases width
  {
    hide Hex;
    HexUnfolds(v, width);
    if width == 0 {
    } else {
      HexDigits(v / 16, width - 1);
      DigitRoundTrip(v % 16);
    }
  }

  /** A string of hexadecimal digits is the notation of what it reads as. */
  lemma {:induction false} HexUnique(s: string)
    requires forall i :: 0 <= i < |s| ==> '0' <= s[i] <= '9' || 'A' <= s[i] <= 'F'
    ensures s == Hex(ReadOnto(0, s, 16), |s|)
    decreases |s|
  {
    hide Hex, DigitValue;
    HexUnfolds(ReadOnto(0, s, 16), |s|);
    if s == "" {
    } else {
      var t, c := s[..|s| - 1], s[|s| - 1];
      assert s == t + [c];
      ReadAppend(0, t, c, 16);
      DigitIsIts(c);
      DivisionUnique(ReadOnto(0, s, 16), 16, ReadOnto(0, t, 16), DigitValue(c));
      HexUnique(t);
    }
  }

  lemma HexIsWord(v: nat)
    requires v < TWO32
    ensures HexWord(Hex(v, 8), v)
  {
    hide Hex;
    assert Power16(4) == 16 * Power16(3) && Power16(3) == 16 * Power16(2) && Power16(2) == 16 * Power16(1);
    assert Power16(8) == 16 * Power16(7) && Power16(7) == 16 * Power16(6) && Power16(6) == 16 * Power16(5);
    assert Power16(5) == 16 * Power16(4);
    HexDigits(v, 8);
    HexReadBack(v, 8, Power16(8));
  }

  lemma HexUnfolds(v: nat, width: nat)
    ensures Hex(v, width) == if width == 0 then [] else Hex(v / 16, width - 1) + [DIGITS[v % 16]]
  {
  }

  lemma InTwo(str: string, width: nat, left: string, right: string)
    requires width <= |str| && left == "" + str[0..width] && right == str[width..]
    ensures str == left + right
  {
  }

  /** itohex: fills the buffer from the right. */
  method Itohex(v: nat, str: array<char>, width: nat)
    requires width < str.Length
    modifies str
    ensures str[..] == Hex(v, width) + [NUL] + old(str[width + 1..])
  {
    hide Hex;
    str[width] := NUL;
    ghost var tail := str[width..];
    assert tail == [NUL] + old(str[width + 1..]);
    var value, left := v, width;
    while left > 0
      invariant 0 <= left <= width && 0 <= value
      invariant Hex(v, width) == Hex(value, left) + str[left..width]
      invariant str[width..] == tail
    {
      HexUnfolds(value, left);
      left := left - 1;
      ghost var before := str[left + 1..width];
      str[left] := DIGITS[value % 16];
      assert str[left..width] == [DIGITS[value % 16]] + before;
      value := value / 16;
    }
    HexUnfolds(value, 0);
    InTwo(str[..], width, Hex(v, width), tail);
  }
}
