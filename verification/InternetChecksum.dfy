/** net_checksum: the one's complement sum of 16-bit words, on a little-endian machine.
 */
module InternetChecksum {
  import opened Division
  import opened Machine

  type Byte = b: nat | b < 256
  type Buffer = seq<Byte>

  // ----- sums of words -----

  /** The little-endian word at offset `k`. */
  function WordAt(data: Buffer, k: nat): nat
    requires k + 2 <= |data|
  {
    data[k] as nat + 256 * data[k + 1] as nat
  }

  /** The sum of little-endian 16-bit words; a last odd byte stands alone. */
  function SumLE(data: Buffer): nat
    decreases |data|
  {
    if |data| == 0 then 0
    else if |data| == 1 then data[0]
    else WordAt(data, 0) + SumLE(data[2..])
  }

  /** The sum of big-endian 16-bit words; a last odd byte is padded with zero on the right. */
  function SumBE(data: Buffer): nat
    decreases |data|
  {
    if |data| == 0 then 0
    else if |data| == 1 then 256 * data[0]
    else 256 * data[0] + data[1] + SumBE(data[2..])
  }

  /** Up to 131072 bytes the sum fits in 32 bits. */
  lemma {:induction false} SumFits(data: Buffer)
    ensures 2 * SumLE(data) <= 0xFFFF * (|data| + 1)
    ensures |data| % 2 == 0 ==> 2 * SumLE(data) <= 0xFFFF * |data|
    decreases |data|
  {
    if |data| <= 1 {
    } else {
      SumFits(data[2..]);
    }
  }

  /** A last odd byte counts as if a zero byte followed it, as in RFC 1071. */
  lemma {:induction false} OddLengthPads(data: Buffer)
    requires |data| % 2 == 1
    ensures SumLE(data + [0]) == SumLE(data)
    decreases |data|
  {
    if |data| == 1 {
      assert (data + [0])[2..] == [];
    } else {
      OddLengthPads(data[2..]);
      assert (data + [0])[2..] == data[2..] + [0];
    }
  }

  // ----- folding -----

  /** The folding loop: add the carries back in until none is left. Each pass shrinks the sum. */
  function Fold(sum: nat): nat
    decreases sum
  {
    if sum >= 0x1_0000 then Fold(sum % 0x1_0000 + sum / 0x1_0000) else sum
  }

  /** Folding computes the residue modulo 65535, with 65535 in place of 0 for a nonzero sum. */
  lemma {:induction false} FoldIsResidue(sum: nat)
    ensures Fold(sum) < 0x1_0000 && Fold(sum) % 0xFFFF == sum % 0xFFFF
    ensures Fold(sum) == 0 <==> sum == 0
    decreases sum
  {
    if sum < 0x1_0000 {
    } else {
      var next := sum % 0x1_0000 + sum / 0x1_0000;
      assert sum == next + 0xFFFF * (sum / 0x1_0000);
      AddMultiple(next, sum / 0x1_0000, 0xFFFF);
      FoldIsResidue(next);
    }
  }

  /** Two sums fold to the same value exactly when they agree modulo 65535 and in being zero. */
  lemma FoldDetermined(a: nat, b: nat)
    ensures Fold(a) == Fold(b) <==> a % 0xFFFF == b % 0xFFFF && (a == 0 <==> b == 0)
  {
    FoldIsResidue(a);
    FoldIsResidue(b);
  }

  function Complement(sum: nat): nat
    requires sum < 0x1_0000
  {
    0xFFFF - sum
  }

  /** The checksum of a buffer, from its little-endian sum. */
  function Checksum(data: Buffer): (c: nat)
    ensures c < 0x1_0000
  {
    FoldIsResidue(SumLE(data));
    Complement(Fold(SumLE(data)))
  }

  lemma SumFrom(data: Buffer, i: nat)
    requires i <= |data|
    ensures SumLE(data[i..]) ==
            if i == |data| then 0 else if i + 1 == |data| then data[i] else WordAt(data, i) + SumLE(data[i + 2..])
  {
    if i + 1 < |data| { assert data[i..][2..] == data[i + 2..]; }
  }

  lemma ModAdd(a: nat, b: nat)
    ensures (a % TWO32 + b) % TWO32 == (a + b) % TWO32
  {
  }

  /** net_checksum, with the 32-bit accumulator it uses. For up to 131072 bytes that is the checksum. */
  method NetChecksum(data: Buffer) returns (c: nat)
    ensures Fold(SumLE(data) % TWO32) < 0x1_0000 && c == Complement(Fold(SumLE(data) % TWO32))
    ensures |data| <= 131072 ==> c == Checksum(data)
  {
    hide Fold, SumLE;
    SumFits(data);
    var sum, i := 0, 0;
    assert data[0..] == data;
    while |data| - i > 1
      invariant 0 <= i <= |data|
      invariant 0 <= sum < TWO32 && (sum + SumLE(data[i..])) % TWO32 == SumLE(data) % TWO32
      decreases |data| - i
    {
      SumFrom(data, i);
      ModAdd(sum + WordAt(data, i), SumLE(data[i + 2..]));
      sum := (sum + WordAt(data, i)) % TWO32;
      i := i + 2;
    }
    SumFrom(data, i);
    if |data| - i > 0 {
      sum := (sum + data[i]) % TWO32;
    }
    assert sum == SumLE(data) % TWO32;
    FoldIsResidue(sum);
    c := FoldSum(sum);
    c := 0xFFFF - c;
  }

  /** The folding loop. */
  method FoldSum(start: nat) returns (sum: nat)
    ensures sum == Fold(start)
  {
    sum := start;
    while sum >= 0x1_0000
      invariant Fold(sum) == Fold(start)
      decreases sum
    {
      sum := sum % 0x1_0000 + sum / 0x1_0000;
    }
  }

  /** Beyond 131072 bytes the accumulator may wrap, and every lost carry counts: the result is the
      checksum exactly when the number of wraps is a multiple of 65535 and no nonzero sum turns to 0. */
  lemma WrapLosesCarries(sum: nat)
    ensures Fold(sum % TWO32) == Fold(sum) <==>
            (sum / TWO32) % 0xFFFF == 0 && (sum % TWO32 == 0 ==> sum == 0)
  {
    hide Fold;
    var q, r := sum / TWO32, sum % TWO32;
    FoldDetermined(r, sum);
    assert sum == (r + q) + 0xFFFF * (0x1_0001 * q);
    AddMultiple(r + q, 0x1_0001 * q, 0xFFFF);
    SameResidue(r, q);
  }

  lemma SameResidue(r: nat, q: nat)
    ensures (r + q) % 0xFFFF == r % 0xFFFF <==> q % 0xFFFF == 0
  {
    var a, b := r % 0xFFFF, q % 0xFFFF;
    assert r + q == (a + b) + 0xFFFF * (r / 0xFFFF + q / 0xFFFF);
    AddMultiple(a + b, r / 0xFFFF + q / 0xFFFF, 0xFFFF);
  }

  function Filled(n: nat): (data: Buffer)
    ensures |data| == n
  {
    seq(n, _ => 255)
  }

  lemma {:induction false} FilledSum(n: nat)
    ensures SumLE(Filled(2 * n)) == 0xFFFF * n
  {
    if n == 0 {
    } else {
      FilledSum(n - 1);
      assert Filled(2 * n)[2..] == Filled(2 * (n - 1));
    }
  }

  lemma FoldSmall(sum: nat)
    requires sum < 0x1_0000
    ensures Fold(sum) == sum
  {
  }

  /** Such a buffer: 131076 bytes of 0xFF verify, and net_checksum returns 1 for them. */
  method LongBufferMisjudged() returns (data: Buffer, c: nat)
    ensures |data| == 131076 && Checksum(data) == 0 && c == 1
  {
    hide Fold, SumLE, Filled;
    data := Filled(131076);
    FilledSum(65538);
    FoldIsResidue(SumLE(data));
    FoldIsResidue(0xFFFE);
    assert SumLE(data) == 0xFFFF * 0x1_0002 && SumLE(data) % TWO32 == 0xFFFE;
    FoldSmall(0xFFFE);
    c := NetChecksum(data);
  }

  // ----- byte order -----

  function Swap(x: nat): nat
    requires x < 0x1_0000
  {
    x % 256 * 256 + x / 256
  }

  /** The sum of the bytes at even positions. */
  function EvenBytes(data: Buffer): nat
    decreases |data|
  {
    if |data| == 0 then 0 else data[0] + if |data| == 1 then 0 else EvenBytes(data[2..])
  }

  /** The two sums agree up to a factor 256 modulo 65535. */
  lemma {:induction false} SumsRelated(data: Buffer)
    ensures 256 * SumBE(data) == SumLE(data) + 0xFFFF * EvenBytes(data)
    ensures SumBE(data) == 0 <==> SumLE(data) == 0
    decreases |data|
  {
    if |data| <= 1 {
    } else {
      SumsRelated(data[2..]);
    }
  }

  /** Below 65536, a residue and being zero or not determine a number. */
  lemma ResidueDetermines(x: nat, y: nat)
    requires x < 0x1_0000 && y < 0x1_0000 && x % 0xFFFF == y % 0xFFFF && (x == 0 <==> y == 0)
    ensures x == y
  {
  }

  lemma SwapResidue(x: nat)
    requires x < 0x1_0000
    ensures Swap(x) < 0x1_0000 && Swap(x) % 0xFFFF == 256 * x % 0xFFFF && (Swap(x) == 0 <==> x == 0)
  {
    assert 256 * x == Swap(x) + 0xFFFF * (x / 256);
    AddMultiple(Swap(x), x / 256, 0xFFFF);
  }

  lemma SwapBytes(x: nat)
    requires x < 0x1_0000
    ensures Swap(x) < 0x1_0000 && Complement(Swap(x)) == Swap(Complement(x))
    ensures Store16(Swap(x)) == [x / 256, x % 256]
  {
    hide Swap, Store16;
    var a, b := x / 256, x % 256;
    SwapTwo(a, b);
    SwapTwo(255 - a, 255 - b);
  }

  lemma SwapTwo(a: nat, b: nat)
    requires a < 256 && b < 256
    ensures Swap(256 * a + b) == 256 * b + a && Store16(256 * b + a) == [a, b]
  {
    assert (256 * a + b) / 256 == a && (256 * b + a) / 256 == b;
  }

  lemma ScaledResidue(x: nat, y: nat)
    requires x % 0xFFFF == y % 0xFFFF
    ensures 256 * x % 0xFFFF == 256 * y % 0xFFFF
  {
    var r := x % 0xFFFF;
    assert 256 * x == 256 * r + 0xFFFF * (256 * (x / 0xFFFF));
    assert 256 * y == 256 * r + 0xFFFF * (256 * (y / 0xFFFF));
    AddMultiple(256 * r, 256 * (x / 0xFFFF), 0xFFFF);
    AddMultiple(256 * r, 256 * (y / 0xFFFF), 0xFFFF);
  }

  /** The checksum a big-endian machine computes. */
  function ChecksumBE(data: Buffer): (c: nat)
    ensures c < 0x1_0000
  {
    FoldIsResidue(SumBE(data));
    Complement(Fold(SumBE(data)))
  }

  /** Byte order independence (section 2(B) of RFC 1071): summing little-endian words gives the byte
      swap of the big-endian checksum, odd lengths included, so storing the result in host order puts
      the right bytes on the wire. */
  lemma ByteOrderIndependence(data: Buffer)
    ensures Checksum(data) == Swap(ChecksumBE(data))
    ensures Store16(Checksum(data)) == [ChecksumBE(data) / 256, ChecksumBE(data) % 256]
  {
    hide Fold, SumLE, SumBE, Swap, Store16;
    FoldsSwapped(data);
    FoldIsResidue(SumBE(data));
    SwapBytes(Fold(SumBE(data)));
    SwapBytes(ChecksumBE(data));
  }

  lemma FoldsSwapped(data: Buffer)
    ensures Fold(SumBE(data)) < 0x1_0000 && Fold(SumLE(data)) == Swap(Fold(SumBE(data)))
  {
    hide Fold, SumLE, SumBE, Swap;
    var le, be := SumLE(data), SumBE(data);
    FoldIsResidue(le);
    FoldIsResidue(be);
    SumsRelated(data);
    AddMultiple(le, EvenBytes(data), 0xFFFF);
    ScaledResidue(Fold(be), be);
    SwapResidue(Fold(be));
    ResidueDetermines(Fold(le), Swap(Fold(be)));
  }

  /** A 16-bit value in memory, little-endian. */
  function Store16(x: nat): Buffer
    requires x < 0x1_0000
  {
    [x % 256, x / 256]
  }

  // ----- verification and error detection -----

  /** `word` written at an even offset of `data`. */
  function Insert(data: Buffer, k: nat, word: nat): (r: Buffer)
    requires k + 2 <= |data| && word < 0x1_0000
    ensures |r| == |data|
  {
    data[..k] + Store16(word) + data[k + 2..]
  }

  lemma {:induction false} InsertSum(data: Buffer, k: nat, word: nat)
    requires k % 2 == 0 && k + 2 <= |data| && word < 0x1_0000
    ensures SumLE(Insert(data, k, word)) == SumLE(data) - WordAt(data, k) + word
    decreases k
  {
    var r := Insert(data, k, word);
    if k == 0 {
      assert r[2..] == data[2..];
    } else {
      InsertSum(data[2..], k - 2, word);
      assert r[2..] == Insert(data[2..], k - 2, word);
    }
  }

  /** The checksum is the one 16-bit number that makes the sum a multiple of 65535, with 0 in place of 65535 unless
      the buffer is all zero. */
  lemma ChecksumIs(data: Buffer, c: nat)
    ensures c == Checksum(data) <==>
            c < 0x1_0000 && (SumLE(data) + c) % 0xFFFF == 0 && (c == 0xFFFF <==> SumLE(data) == 0)
  {
    hide SumLE, Fold;
    FoldIsResidue(SumLE(data));
    var s, f := SumLE(data), Fold(SumLE(data));
    var q, r := s / 0xFFFF, f / 0xFFFF;
    assert s == s % 0xFFFF + 0xFFFF * q && f == f % 0xFFFF + 0xFFFF * r;
    assert (s + (0xFFFF - f)) == 0xFFFF * (q - r + 1);
  }

  /** A buffer passes the receiver's test exactly when its sum is a positive multiple of 65535. */
  lemma VerifiesWhen(data: Buffer)
    ensures Checksum(data) == 0 <==> SumLE(data) > 0 && SumLE(data) % 0xFFFF == 0
  {
    FoldIsResidue(SumLE(data));
  }

  /** Self-verification: zero the check field, insert the checksum, and the second checksum is 0. */
  lemma SelfVerifies(data: Buffer, k: nat)
    requires k % 2 == 0 && k + 2 <= |data| && WordAt(data, k) == 0
    ensures Checksum(Insert(data, k, Checksum(data))) == 0
  {
    hide Fold, SumLE;
    var s, c := SumLE(data), Checksum(data);
    InsertSum(data, k, c);
    FoldIsResidue(s);
    var f := Fold(s);
    assert (s + (0xFFFF - f)) % 0xFFFF == 0 by {
      assert s == f % 0xFFFF + 0xFFFF * (s / 0xFFFF);
      assert f == f % 0xFFFF + 0xFFFF * (f / 0xFFFF);
    }
    VerifiesWhen(Insert(data, k, c));
  }

  /** Changing one aligned word of a buffer that verifies goes unnoticed exactly when it turns
      0x0000 into 0xFFFF or back and the buffer is not left all zero. */
  lemma WordErrorDetected(data: Buffer, k: nat, word: nat)
    requires k % 2 == 0 && k + 2 <= |data| && word < 0x1_0000 && word != WordAt(data, k)
    requires Checksum(data) == 0
    ensures Checksum(Insert(data, k, word)) == 0 <==>
            {word, WordAt(data, k)} == {0, 0xFFFF} && SumLE(Insert(data, k, word)) > 0
  {
    hide Fold, SumLE;
    InsertSum(data, k, word);
    VerifiesWhen(data);
    VerifiesWhen(Insert(data, k, word));
    var w, s := WordAt(data, k), SumLE(data);
    if word > w {
      SameResidue(s, word - w);
    } else {
      SameResidue(s - (w - word), w - word);
    }
  }

  // ----- the IPv4 header of ip_transmit and ip_receive -----

  /** htons and ntohs. */
  function Htons(x: nat): nat
    requires x < 0x1_0000
  {
    x % 256 * 256 + x / 256 % 256
  }

  /** htonl and ntohl. */
  function Htonl(x: nat): (r: nat)
    requires x < TWO32
    ensures r < TWO32
  {
    x % 256 * 0x100_0000 + x / 256 % 256 * 0x1_0000 + x / 256 / 256 % 256 * 0x100 + x / 256 / 256 / 256
  }

  /** A 32-bit value in memory, little-endian. */
  function Store32(x: nat): (r: Buffer)
    requires x < TWO32
    ensures |r| == 4
  {
    [x % 256, x / 256 % 256, x / 256 / 256 % 256, x / 256 / 256 / 256]
  }

  function Load32(data: Buffer, k: nat): (r: nat)
    requires k + 4 <= |data|
    ensures r < TWO32
  {
    data[k] as nat + 0x100 * data[k + 1] as nat + 0x1_0000 * data[k + 2] as nat + 0x100_0000 * data[k + 3] as nat
  }

  lemma Peel(low: nat, high: nat)
    requires low < 256
    ensures (low + 256 * high) % 256 == low && (low + 256 * high) / 256 == high
  {
  }

  lemma Htonl4(a: nat, b: nat, c: nat, d: nat)
    requires a < 256 && b < 256 && c < 256 && d < 256
    ensures Htonl(a + 0x100 * b + 0x1_0000 * c + 0x100_0000 * d) == d + 0x100 * c + 0x1_0000 * b + 0x100_0000 * a
    ensures Store32(a + 0x100 * b + 0x1_0000 * c + 0x100_0000 * d) == [a, b, c, d]
  {
    Peel(c, d);
    Peel(b, c + 256 * d);
    Peel(a, b + 256 * (c + 256 * d));
    assert a + 256 * (b + 256 * (c + 256 * d)) == a + 0x100 * b + 0x1_0000 * c + 0x100_0000 * d;
  }

  /** ntohl undoes htonl, and what htonl leaves in memory is network order. */
  lemma NetworkOrder(x: nat)
    requires x < TWO32
    ensures Htonl(Htonl(x)) == x
    ensures Store32(Htonl(x)) == [x / 256 / 256 / 256, x / 256 / 256 % 256, x / 256 % 256, x % 256]
  {
    hide Htonl, Store32;
    var y, z := x / 256, x / 256 / 256;
    var a, b, c, d := x % 256, y % 256, z % 256, z / 256;
    assert x == a + 256 * y && y == b + 256 * z && z == c + 256 * d;
    assert x == a + 0x100 * b + 0x1_0000 * c + 0x100_0000 * d;
    Htonl4(a, b, c, d);
    Htonl4(d, c, b, a);
  }

  /** The header ip_transmit builds, with its check field zero. `len` is the payload length. */
  function Header(src: nat, dest: nat, protocol: Byte, len: nat): (h: Buffer)
    requires src < TWO32 && dest < TWO32
    ensures |h| == 20 && WordAt(h, 10) == 0
  {
    [0x45, 0] + Store16(Htons((20 + len) % 0x1_0000)) + Store16(Htons(1)) + [0, 0] + [64, protocol] + [0, 0] +
    Store32(Htonl(src)) + Store32(Htonl(dest))
  }

  function Transmitted(src: nat, dest: nat, protocol: Byte, len: nat): (h: Buffer)
    requires src < TWO32 && dest < TWO32
    ensures |h| == 20
  {
    Insert(Header(src, dest, protocol, len), 10, Checksum(Header(src, dest, protocol, len)))
  }

  lemma LoadStore(h: Buffer, k: nat, x: nat)
    requires k + 4 <= |h| && x < TWO32 && h[k..k + 4] == Store32(x)
    ensures Load32(h, k) == x
  {
    var s := h[k..k + 4];
    assert h[k] == s[0] && h[k + 1] == s[1] && h[k + 2] == s[2] && h[k + 3] == s[3];
  }

  /** Every header ip_transmit sends passes ip_receive's checksum test, and the receiver reads back
      the destination, the source and the protocol. */
  lemma ReceiverAccepts(src: nat, dest: nat, protocol: Byte, len: nat)
    requires src < TWO32 && dest < TWO32
    ensures var h := Transmitted(src, dest, protocol, len);
      && Checksum(h) == 0
      && Htonl(Load32(h, 12)) == src && Htonl(Load32(h, 16)) == dest && h[9] == protocol
      && h[0] / 16 == 4 && h[0] % 16 * 4 == |h| && h[8] == 64
      && Htons(WordAt(h, 2)) == (20 + len) % 0x1_0000 && Htons(WordAt(h, 4)) == 1
      && h[2] as nat * 256 + h[3] as nat == (20 + len) % 0x1_0000
  {
    hide Checksum, Htonl, Load32, Store32, Htons;
    var h, t := Header(src, dest, protocol, len), Transmitted(src, dest, protocol, len);
    SelfVerifies(h, 10);
    NetworkOrder(src);
    NetworkOrder(dest);
    var a, b := Store32(Htonl(src)), Store32(Htonl(dest));
    assert h[12..] == a + b;
    assert t[12..] == a + b;
    assert t[12..16] == a && t[16..20] == b;
    LoadStore(t, 12, Htonl(src));
    LoadStore(t, 16, Htonl(dest));
    var n := (20 + len) % 0x1_0000;
    ShortOrder(n);
    ShortOrder(1);
    var s, i := Store16(Htons(n)), Store16(Htons(1));
    assert t[2] == s[0] && t[3] == s[1] && t[4] == i[0] && t[5] == i[1];
  }

  /** ntohs undoes htons, and what htons leaves in memory is network order. */
  lemma ShortOrder(x: nat)
    requires x < 0x1_0000
    ensures Htons(x) < 0x1_0000 && Htons(Htons(x)) == x
    ensures Store16(Htons(x)) == [x / 256, x % 256]
  {
  }
}
