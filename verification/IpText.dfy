/** ip_ntoa and ip_aton: dotted quads through the kernel's own formatter, and back.
 */
module IpText {
  import opened Bits
  import opened Digits
  import opened Format
  import opened Machine

  /** `(ip << 8) | octet` in 32 bits. */
  function Shifted(ip: nat, octet: nat): nat {
    Or(ip * 256 % TWO32, octet)
  }

  lemma ShiftedIsSum(ip: nat, octet: nat)
    requires octet < 256 && ip * 256 < TWO32
    ensures Shifted(ip, octet) == ip * 256 + octet
  {
    hide Or, Power2;
    WordBits();
    OrIsSum(ip, octet, 8);
  }

  /** What ip_aton computes from the middle of a string: dots push the octet, digits extend it, other
      characters are skipped. */
  function AtonFrom(ip: nat, octet: nat, s: string): nat
    decreases |s|
  {
    if s == [] then Shifted(ip, octet)
    else if s[0] == '.' then AtonFrom(Shifted(ip, octet), 0, s[1..])
    else if '0' <= s[0] <= '9' then AtonFrom(ip, (octet * 10 + DigitValue(s[0])) % TWO32, s[1..])
    else AtonFrom(ip, octet, s[1..])
  }

  /** ip_aton. */
  method IpAton(s: string) returns (r: nat)
    ensures r == AtonFrom(0, 0, s)
  {
    hide Shifted;
    var ip, octet: nat := 0, 0;
    for i := 0 to |s|
      invariant AtonFrom(0, 0, s) == AtonFrom(ip, octet, s[i..])
    {
      assert s[i..][1..] == s[i + 1..];
      if s[i] == '.' {
        ip := Shifted(ip, octet);
        octet := 0;
      } else if '0' <= s[i] <= '9' {
        octet := (octet * 10 + (s[i] as int - '0' as int)) % TWO32;
      }
    }
    return Shifted(ip, octet);
  }

  /** The digits and dots of a string, in order. */
  function Essential(s: string): string
    decreases |s|
  {
    if s == "" then ""
    else (if s[0] == '.' || '0' <= s[0] <= '9' then [s[0]] else "") + Essential(s[1..])
  }

  /** Nothing else counts. */
  lemma {:induction false} AtonIgnoresTheRest(ip: nat, octet: nat, s: string)
    ensures AtonFrom(ip, octet, s) == AtonFrom(ip, octet, Essential(s))
    decreases |s|
  {
    hide Shifted;
    if s == "" {
    } else if s[0] == '.' {
      AtonIgnoresTheRest(Shifted(ip, octet), 0, s[1..]);
    } else if '0' <= s[0] <= '9' {
      AtonIgnoresTheRest(ip, (octet * 10 + DigitValue(s[0])) % TWO32, s[1..]);
    } else {
      AtonIgnoresTheRest(ip, octet, s[1..]);
      assert Essential(s) == Essential(s[1..]);
    }
  }

  const QUAD: string := "%d.%d.%d.%d"

  function Octets(ip: nat): seq<Arg> {
    [Int(ip / 256 / 256 / 256 % 256), Int(ip / 256 / 256 % 256), Int(ip / 256 % 256), Int(ip % 256)]
  }

  lemma NothingRenders(args: seq<Arg>)
    ensures Matches("", args) && Render("", args) == ""
  {
  }

  lemma DecimalRenders(rest: string, args: seq<Arg>)
    requires args != [] && args[0].Int? && 0 <= args[0].i < 256 && Matches(rest, args[1..])
    ensures Matches("%d" + rest, args) && Render("%d" + rest, args) == Text(args[0].i, 10) + Render(rest, args[1..])
  {
    hide Text;
    assert ("%d" + rest)[2..] == rest;
  }

  lemma DotRenders(rest: string, args: seq<Arg>)
    requires Matches(rest, args)
    ensures Matches("." + rest, args) && Render("." + rest, args) == "." + Render(rest, args)
  {
    assert ("." + rest)[1..] == rest;
  }

  lemma FourParts(a: string, b: string, c: string, d: string)
    ensures a + "." + b + "." + c + "." + d == a + ("." + (b + ("." + (c + ("." + d)))))
  {
  }

  /** The dotted quad the formatter produces. */
  lemma QuadRenders(ip: nat)
    ensures Matches(QUAD, Octets(ip))
    ensures Render(QUAD, Octets(ip)) ==
            Text(ip / 256 / 256 / 256 % 256, 10) + "." + Text(ip / 256 / 256 % 256, 10) + "." +
            Text(ip / 256 % 256, 10) + "." + Text(ip % 256, 10)
  {
    hide Text, Matches, Render;
    var args := Octets(ip);
    var a1, a2, a3 := args[1..], args[1..][1..], args[1..][1..][1..];
    assert a1[0] == args[1] && a2[0] == args[2] && a3[0] == args[3];
    NothingRenders(a3[1..]);
    DecimalRenders("", a3);
    DotRenders("%d" + "", a3);
    DecimalRenders("." + ("%d" + ""), a2);
    DotRenders("%d" + ("." + ("%d" + "")), a2);
    DecimalRenders("." + ("%d" + ("." + ("%d" + ""))), a1);
    DotRenders("%d" + ("." + ("%d" + ("." + ("%d" + "")))), a1);
    DecimalRenders("." + ("%d" + ("." + ("%d" + ("." + ("%d" + ""))))), args);
    assert QUAD == "%d" + ("." + ("%d" + ("." + ("%d" + ("." + ("%d" + ""))))));
    FourParts(Text(args[0].i, 10), Text(args[1].i, 10), Text(args[2].i, 10), Text(args[3].i, 10));
    assert Text(args[3].i, 10) + "" == Text(args[3].i, 10);
  }

  /** Reading digits only grows the number read. */
  lemma {:induction false} ReadGrows(acc: nat, s: string)
    ensures acc <= ReadOnto(acc, s, 10)
    decreases |s|
  {
    if s == [] {
    } else {
      ReadGrows(acc * 10 + DigitValue(s[0]), s[1..]);
    }
  }

  lemma AtonDigit(ip: nat, octet: nat, s: string)
    requires s != [] && '0' <= s[0] <= '9' && octet * 10 + DigitValue(s[0]) < TWO32
    ensures AtonFrom(ip, octet, s) == AtonFrom(ip, octet * 10 + DigitValue(s[0]), s[1..])
  {
    hide Shifted;
  }

  /** A run of digits extends the octet by the number it denotes, when that fits a word. */
  lemma {:induction false} AtonDigits(ip: nat, octet: nat, digits: string, rest: string)
    requires forall i :: 0 <= i < |digits| ==> '0' <= digits[i] <= '9'
    requires ReadOnto(octet, digits, 10) < TWO32
    ensures AtonFrom(ip, octet, digits + rest) == AtonFrom(ip, ReadOnto(octet, digits, 10), rest)
    decreases |digits|
  {
    hide AtonFrom;
    if digits == [] {
      assert digits + rest == rest;
    } else {
      var next := octet * 10 + DigitValue(digits[0]);
      ReadGrows(next, digits[1..]);
      AtonDigit(ip, octet, digits + rest);
      assert (digits + rest)[1..] == digits[1..] + rest;
      AtonDigits(ip, next, digits[1..], rest);
    }
  }

  /** One octet and the dot after it. */
  lemma AtonOctet(ip: nat, octet: nat, rest: string)
    requires octet < 256 && ip * 256 < TWO32
    ensures AtonFrom(ip, 0, Text(octet, 10) + ("." + rest)) == AtonFrom(ip * 256 + octet, 0, rest)
    ensures AtonFrom(ip, 0, Text(octet, 10)) == ip * 256 + octet
  {
    hide Text, Shifted;
    ReadBack(octet, 10);
    TextPlain(octet, 10);
    ShiftedIsSum(ip, octet);
    AtonDigits(ip, 0, Text(octet, 10), "." + rest);
    assert ("." + rest)[1..] == rest;
    AtonDigits(ip, 0, Text(octet, 10), "");
    assert Text(octet, 10) + "" == Text(octet, 10);
  }

  /** ip_aton undoes ip_ntoa, for every 32-bit address. */
  lemma AtonUndoesNtoa(ip: nat)
    requires ip < TWO32
    ensures Matches(QUAD, Octets(ip))
    ensures AtonFrom(0, 0, Render(QUAD, Octets(ip))) == ip
  {
    hide Text, AtonFrom, Render, Matches;
    QuadRenders(ip);
    var a, b, c, d := ip / 256 / 256 / 256 % 256, ip / 256 / 256 % 256, ip / 256 % 256, ip % 256;
    FourParts(Text(a, 10), Text(b, 10), Text(c, 10), Text(d, 10));
    assert a == ip / 256 / 256 / 256;
    AtonOctet(0, a, Text(b, 10) + ("." + (Text(c, 10) + ("." + Text(d, 10)))));
    AtonOctet(a, b, Text(c, 10) + ("." + Text(d, 10)));
    AtonOctet(a * 256 + b, c, Text(d, 10));
    AtonOctet(a * 256 * 256 + b * 256 + c, d, "");
  }

  /** ip_ntoa: a terminated text that ip_aton reads back; sixteen characters are always enough. */
  method IpNtoa(ip: nat, buffer: array<char>)
    requires ip < TWO32 && buffer.Length >= 16
    modifies buffer
    ensures Matches(QUAD, Octets(ip))
    ensures var text := Render(QUAD, Octets(ip));
      && |text| <= 15 && buffer[..] == text + [NUL] + old(buffer[..])[|text| + 1..]
      && AtonFrom(0, 0, text) == ip
  {
    hide Render, Matches, AtonFrom;
    AtonUndoesNtoa(ip);
    QuadShort(ip);
    var _ := Sprintf(buffer, QUAD, Octets(ip));
  }

  lemma OctetShort(v: nat)
    requires v < 256
    ensures |Text(v, 10)| <= 3
  {
    hide Text;
    assert Power10(3) == 10 * Power10(2) && Power10(2) == 10 * Power10(1);
    TextShort(v, Power10(3), 3);
  }

  lemma QuadShort(ip: nat)
    ensures Matches(QUAD, Octets(ip)) && |Render(QUAD, Octets(ip))| <= 15
  {
    hide Text, Render, Matches;
    QuadRenders(ip);
    OctetShort(ip / 256 / 256 / 256 % 256);
    OctetShort(ip / 256 / 256 % 256);
    OctetShort(ip / 256 % 256);
    OctetShort(ip % 256);
  }
}
