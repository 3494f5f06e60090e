/** The bounded formatter vsnprintf_internal: it writes the unbounded rendering cut to the buffer.
 */
module Format {
  import opened Digits
  import opened Machine

  datatype Arg =
    | Int(i: int)
    | Uint(u: nat)
    | Char(c: char)
    | NullStr
    | Str(s: string)

  /** A 32-bit argument that the formatter converts without overflow, or a terminated string. */
  predicate Fine(a: Arg) {
    match a
    case Int(i) => -0x8000_0000 < i < 0x8000_0000
    case Uint(u) => u < TWO32
    case Char(_) => true
    case NullStr => true
    case Str(s) => Plain(s)
  }

  /** Whether conversion `c` takes an argument, and whether `a` is one it takes. */
  predicate Takes(c: char) { c in {'d', 'i', 'u', 'x', 'X', 'c', 's', 'p'} }

  predicate Accepts(c: char, a: Arg)
    requires Takes(c)
  {
    match c
    case 'd' => a.Int?
    case 'i' => a.Int?
    case 'c' => a.Char?
    case 's' => a.Str? || a.NullStr?
    case _ => a.Uint?
  }

  /** The text of one conversion that takes an argument. */
  function Converted(c: char, a: Arg): string
    requires Takes(c) && Accepts(c, a)
  {
    match c
    case 'd' => Signed(a.i, 10)
    case 'i' => Signed(a.i, 10)
    case 'u' => Text(a.u, 10)
    case 'c' => [a.c]
    case 's' => if a.Str? then a.s else "(null)"
    case 'p' => "0x" + Hex(a.u, 8)
    case _ => Hex(a.u, 8)
  }

  /** The format and the arguments belong together: every argument a conversion takes is there and of
      its kind, and the format does not end in a lone '%'. */
  predicate Matches(fmt: string, args: seq<Arg>)
    decreases |fmt|
  {
    if fmt == [] then true
    else if fmt[0] != '%' then Matches(fmt[1..], args)
    else
      && |fmt| > 1
      && if Takes(fmt[1]) then args != [] && Fine(args[0]) && Accepts(fmt[1], args[0]) && Matches(fmt[2..], args[1..])
         else Matches(fmt[2..], args)
  }

  /** The unbounded rendering. An unknown conversion renders as its own character. */
  function Render(fmt: string, args: seq<Arg>): string
    requires Matches(fmt, args)
    decreases |fmt|
  {
    if fmt == [] then []
    else if fmt[0] != '%' then [fmt[0]] + Render(fmt[1..], args)
    else if Takes(fmt[1]) then Converted(fmt[1], args[0]) + Render(fmt[2..], args[1..])
    else [fmt[1]] + Render(fmt[2..], args)
  }

  /** What the text of a conversion means: a decimal number with its sign, eight hexadecimal digits, or the
      argument itself. */
  ghost predicate Spells(c: char, a: Arg, text: string)
    requires Takes(c) && Accepts(c, a)
  {
    match c
    case 'c' => text == [a.c]
    case 's' => text == if a.NullStr? then "(null)" else a.s
    case 'u' => Decimal(text, a.u)
    case 'x' => HexWord(text, a.u)
    case 'X' => HexWord(text, a.u)
    case 'p' => |text| == 10 && text[..2] == "0x" && HexWord(text[2..], a.u)
    case _ => if a.i < 0 then text != "" && text[0] == '-' && Decimal(text[1..], -a.i) else Decimal(text, a.i)
  }

  /** `out` is the format with every conversion replaced by a text that spells its argument: "%%" is one percent
      sign, an unknown conversion its own character, and all else stands for itself. */
  ghost predicate Prints(fmt: string, args: seq<Arg>, out: string)
    requires Matches(fmt, args)
    decreases |fmt|
  {
    if fmt == "" then out == ""
    else if fmt[0] != '%' then out != "" && out[0] == fmt[0] && Prints(fmt[1..], args, out[1..])
    else if fmt[1] in {'d', 'i', 'u', 'x', 'X', 'p', 'c', 's'} then
      exists n: nat :: n <= |out| && Spells(fmt[1], args[0], out[..n]) && Prints(fmt[2..], args[1..], out[n..])
    else out != "" && out[0] == fmt[1] && Prints(fmt[2..], args, out[1..])
  }

  lemma ConvertedSpells(c: char, a: Arg)
    requires Takes(c) && Accepts(c, a) && Fine(a)
    ensures Spells(c, a, Converted(c, a))
  {
    hide Text, Hex, Decimal, HexWord;
    if c == 'd' || c == 'i' {
      TextIsDecimal(if a.i < 0 then -a.i else a.i);
      if a.i < 0 { assert ("-" + Text(-a.i, 10))[1..] == Text(-a.i, 10); }
    } else if c == 'u' {
      TextIsDecimal(a.u);
    } else if c == 'x' || c == 'X' || c == 'p' {
      HexIsWord(a.u);
      assert ("0x" + Hex(a.u, 8))[2..] == Hex(a.u, 8) && ("0x" + Hex(a.u, 8))[..2] == "0x";
    }
  }

  /** The rendering of every format prints what it says. */
  lemma {:induction false} RenderPrints(fmt: string, args: seq<Arg>)
    requires Matches(fmt, args)
    ensures Prints(fmt, args, Render(fmt, args))
    decreases |fmt|
  {
    hide Converted, Spells;
    var out := Render(fmt, args);
    if fmt == "" {
    } else if fmt[0] != '%' {
      RenderPrints(fmt[1..], args);
      assert out[1..] == Render(fmt[1..], args);
    } else if Takes(fmt[1]) {
      var text := Converted(fmt[1], args[0]);
      ConvertedSpells(fmt[1], args[0]);
      RenderPrints(fmt[2..], args[1..]);
      assert out[..|text|] == text && out[|text|..] == Render(fmt[2..], args[1..]);
    } else {
      RenderPrints(fmt[2..], args);
      assert out[1..] == Render(fmt[2..], args);
    }
  }

  /** A conversion has one spelling only. */
  lemma SpellsOnly(c: char, a: Arg, text: string)
    requires Takes(c) && Accepts(c, a) && Spells(c, a, text)
    ensures text == Converted(c, a)
  {
    hide Text, Hex, Decimal;
    if c == 'd' || c == 'i' {
      if a.i < 0 {
        DecimalUnique(text[1..], -a.i);
        assert text == "-" + text[1..];
      } else {
        DecimalUnique(text, a.i);
      }
    } else if c == 'u' {
      DecimalUnique(text, a.u);
    } else if c == 'p' {
      HexUnique(text[2..]);
      assert text == "0x" + text[2..];
    } else if c == 'x' || c == 'X' {
      HexUnique(text);
    }
  }

  /** So nothing but the rendering does. */
  lemma {:induction false} OnlyRenderPrints(fmt: string, args: seq<Arg>, out: string)
    requires Matches(fmt, args) && Prints(fmt, args, out)
    ensures out == Render(fmt, args)
    decreases |fmt|
  {
    hide Converted, Spells;
    if fmt == "" {
    } else if fmt[0] != '%' {
      OnlyRenderPrints(fmt[1..], args, out[1..]);
      assert out == [out[0]] + out[1..];
    } else if Takes(fmt[1]) {
      var n: nat :| n <= |out| && Spells(fmt[1], args[0], out[..n]) && Prints(fmt[2..], args[1..], out[n..]);
      SpellsOnly(fmt[1], args[0], out[..n]);
      OnlyRenderPrints(fmt[2..], args[1..], out[n..]);
      assert out == out[..n] + out[n..];
    } else {
      OnlyRenderPrints(fmt[2..], args, out[1..]);
      assert out == [out[0]] + out[1..];
    }
  }

  /** `now` is `was` with as much of `text` at position `at` as the limit allows. */
  ghost predicate Emitted(was: string, now: string, at: nat, limit: nat, text: string) {
    var n := Min(limit, at + |text|);
    && at <= n <= |was|
    && now == was[..at] + text[..n - at] + was[n..]
  }

  /** Two texts emitted one after the other are one emitted text. */
  lemma EmitTwice(was: string, mid: string, now: string, at: nat, limit: nat, s: string, t: string)
    requires Emitted(was, mid, at, limit, s) && Emitted(mid, now, Min(limit, at + |s|), limit, t)
    ensures Emitted(was, now, at, limit, s + t)
  {
    if at + |s| >= limit {
      EmitFull(was, mid, now, at, limit, s, t);
    } else {
      EmitRest(was, mid, now, at, limit, s, t);
    }
  }

  /** After a text that reaches the limit nothing is emitted. */
  lemma EmitFull(was: string, mid: string, now: string, at: nat, limit: nat, s: string, t: string)
    requires Emitted(was, mid, at, limit, s) && Emitted(mid, now, limit, limit, t) && at + |s| >= limit
    ensures Emitted(was, now, at, limit, s + t)
  {
    assert now == mid;
    assert at <= limit ==> (s + t)[..limit - at] == s[..limit - at];
  }

  lemma EmitRest(was: string, mid: string, now: string, at: nat, limit: nat, s: string, t: string)
    requires Emitted(was, mid, at, limit, s) && Emitted(mid, now, at + |s|, limit, t) && at + |s| < limit
    ensures Emitted(was, now, at, limit, s + t)
  {
    var n := Min(limit, at + |s| + |t|) - at - |s|;
    assert s[..|s|] == s;
    TwoParts(was, mid, now, at, s, t[..n]);
    assert (s + t)[..|s| + n] == s + t[..n];
  }

  lemma TwoParts(was: string, mid: string, now: string, at: nat, s: string, u: string)
    requires at + |s| + |u| <= |was| && mid == was[..at] + s + was[at + |s|..]
    requires now == mid[..at + |s|] + u + mid[at + |s| + |u|..]
    ensures now == was[..at] + (s + u) + was[at + |s| + |u|..]
  {
    assert mid[..at + |s|] == was[..at] + s;
    assert mid[at + |s| + |u|..] == was[at + |s| + |u|..];
  }

  lemma CopiedIsEmitted(was: string, at: nat, limit: nat, text: string, i: nat)
    requires i <= |text| && at + i <= |was| && at + i == Min(limit, at + |text|)
    ensures Emitted(was, Copied(was, at, text, i), at, limit, text)
  {
  }

  /** The copy loop of every conversion: as much of `text` as the limit allows. */
  method Emit(buf: array<char>, at: nat, limit: nat, text: string) returns (count: nat)
    requires at <= limit && Min(limit, at + |text|) <= buf.Length
    modifies buf
    ensures count == Min(limit, at + |text|)
    ensures Emitted(old(buf[..]), buf[..], at, limit, text)
  {
    hide Copied, Emitted;
    count := at;
    ghost var was := buf[..];
    var i := 0;
    CopyStart(was, at, text);
    while i < |text| && count < limit
      invariant 0 <= i <= |text| && count == at + i <= limit
      invariant buf[..] == Copied(was, at, text, i)
    {
      CopyStep(was, at, text, i);
      buf[count] := text[i];
      count := count + 1;
      i := i + 1;
    }
    CopiedIsEmitted(was, at, limit, text, i);
  }

  /** The same from a terminated scratch buffer. */
  method EmitTemp(buf: array<char>, at: nat, limit: nat, temp: array<char>, ghost text: string) returns (count: nat)
    requires at <= limit && Min(limit, at + |text|) <= buf.Length && buf != temp
    requires Plain(text) && |text| < temp.Length && temp[..|text|] == text && temp[|text|] == NUL
    modifies buf
    ensures count == Min(limit, at + |text|)
    ensures Emitted(old(buf[..]), buf[..], at, limit, text)
  {
    hide Copied, Emitted;
    count := at;
    ghost var was := buf[..];
    var i := 0;
    CopyStart(was, at, text);
    while temp[i] != NUL && count < limit
      invariant 0 <= i <= |text| && count == at + i <= limit
      invariant buf[..] == Copied(was, at, text, i)
      decreases |text| - i
    {
      assert i < |text| && temp[i] == temp[..|text|][i];
      CopyStep(was, at, text, i);
      buf[count] := temp[i];
      count := count + 1;
      i := i + 1;
    }
    if i < |text| { assert temp[..|text|][i] == text[i] && text[i] in text; }
    CopiedIsEmitted(was, at, limit, text, i);
  }

  /** One conversion with an argument, through the scratch buffer where the source uses it. */
  method EmitConverted(buf: array<char>, at: nat, limit: nat, c: char, a: Arg) returns (count: nat)
    requires Takes(c) && Fine(a) && Accepts(c, a) && at < limit
    requires Min(limit, at + |Converted(c, a)|) <= buf.Length
    modifies buf
    ensures count == Min(limit, at + |Converted(c, a)|)
    ensures Emitted(old(buf[..]), buf[..], at, limit, Converted(c, a)) && Spells(c, a, Converted(c, a))
  {
    hide Text, Hex, Emitted, Spells;
    ConvertedSpells(c, a);
    var temp := new char[32];
    match c {
      case 'd' => count := EmitDecimal(buf, at, limit, temp, a.i);
      case 'i' => count := EmitDecimal(buf, at, limit, temp, a.i);
      case 'u' =>
        WordTextShort(a.u);
        TextPlain(a.u, 10);
        Utoa(a.u, temp, 10);
        count := EmitTemp(buf, at, limit, temp, Text(a.u, 10));
      case 'c' => count := Emit(buf, at, limit, [a.c]);
      case 's' =>
        if a.Str? { count := Emit(buf, at, limit, a.s); } else { count := Emit(buf, at, limit, "(null)"); }
      case 'p' =>
        ghost var was := buf[..];
        count := Emit(buf, at, limit, "0x");
        ghost var mid := buf[..];
        count := EmitHex(buf, count, limit, temp, a.u);
        EmitTwice(was, mid, buf[..], at, limit, "0x", Hex(a.u, 8));
      case _ => count := EmitHex(buf, at, limit, temp, a.u);
    }
  }

  method EmitDecimal(buf: array<char>, at: nat, limit: nat, temp: array<char>, i: int) returns (count: nat)
    requires -0x8000_0000 < i < 0x8000_0000 && at <= limit && Min(limit, at + |Signed(i, 10)|) <= buf.Length
    requires buf != temp && temp.Length == 32
    modifies buf, temp
    ensures count == Min(limit, at + |Signed(i, 10)|)
    ensures Emitted(old(buf[..]), buf[..], at, limit, Signed(i, 10))
  {
    hide Text, Emitted;
    WordTextShort(if i < 0 then -i else i);
    TextPlain(if i < 0 then -i else i, 10);
    Itoa(i, temp, 10);
    count := EmitTemp(buf, at, limit, temp, Signed(i, 10));
  }

  method EmitHex(buf: array<char>, at: nat, limit: nat, temp: array<char>, u: nat) returns (count: nat)
    requires at <= limit && Min(limit, at + 8) <= buf.Length && buf != temp && temp.Length == 32
    modifies buf, temp
    ensures count == Min(limit, at + 8)
    ensures Emitted(old(buf[..]), buf[..], at, limit, Hex(u, 8))
  {
    hide Hex, Emitted;
    HexPlain(u, 8);
    Itohex(u, temp, 8);
    count := EmitTemp(buf, at, limit, temp, Hex(u, 8));
  }

  method Terminate(buf: array<char>, count: nat)
    requires count < buf.Length
    modifies buf
    ensures buf[..] == old(buf[..])[count := NUL]
  {
    buf[count] := NUL;
  }

  lemma Associative(a: string, b: string, c: string)
    ensures a + (b + c) == (a + b) + c
  {
  }

  /** One character or one conversion of the format. */
  method FormatOne(buf: array<char>, at: nat, limit: nat, f: string, a: seq<Arg>, ghost left: nat)
    returns (count: nat, f': string, a': seq<Arg>, ghost text: string)
    requires f != [] && Matches(f, a) && at < limit && left == |Render(f, a)| && Min(limit, at + left) <= buf.Length
    modifies buf
    ensures |f'| < |f| && Matches(f', a') && Render(f, a) == text + Render(f', a')
    ensures count == Min(limit, at + |text|) && Emitted(old(buf[..]), buf[..], at, limit, text)
  {
    hide Converted, Emitted;
    if f[0] == '%' {
      if Takes(f[1]) {
        text := Converted(f[1], a[0]);
        count := EmitConverted(buf, at, limit, f[1], a[0]);
        f', a' := f[2..], a[1..];
      } else {
        text := [f[1]];
        count := Emit(buf, at, limit, [f[1]]);
        f', a' := f[2..], a;
      }
    } else {
      text := [f[0]];
      count := Emit(buf, at, limit, [f[0]]);
      f', a' := f[1..], a;
    }
  }

  lemma RenderEmpty(a: seq<Arg>)
    requires Matches([], a)
    ensures Render([], a) == []
  {
  }

  lemma NothingEmitted(was: string, limit: nat)
    ensures Emitted(was, was, 0, limit, "")
  {
  }

  lemma EmittedPrefix(was: string, now: string, limit: nat, done: string, full: string)
    requires Emitted(was, now, 0, limit, done) && done <= full && (done == full || |done| >= limit)
    ensures var n := Min(limit, |full|);
      && n == Min(limit, |done|) && |now| == |was| && n <= |was|
      && (n < |was| ==> now[n := NUL] == full[..n] + [NUL] + was[n + 1..])
  {
  }

  /** `(int)size - 1`, the bound the loop compares with: above 2^31 the cast makes it negative. */
  function Limit(size: nat): int {
    (if size < 0x8000_0000 then size else size - TWO32) - 1
  }

  function Positive(x: int): nat { if x < 0 then 0 else x }

  /** How many characters the loop may store. */
  function Room(size: nat): nat { Positive(Limit(size)) }

  /** A rendering of `n` characters is cut to size - 1 of them exactly for sizes below 2^31, or when there
      is nothing to cut. */
  lemma CutsToSize(size: nat, n: nat)
    requires 1 <= size < TWO32 && size != 0x8000_0000
    ensures Min(Room(size), n) == Min(size - 1, n) <==> size < 0x8000_0000 || n == 0
  {
  }

  /** The loop over the format: it ends with the format or at the limit. */
  method FormatLoop(buf: array<char>, limit: int, fmt: string, args: seq<Arg>) returns (count: nat, ghost done: string)
    requires Matches(fmt, args) && Min(Positive(limit), |Render(fmt, args)|) <= buf.Length
    modifies buf
    ensures done <= Render(fmt, args) && (done == Render(fmt, args) || |done| >= limit)
    ensures count == Min(Positive(limit), |done|) && Emitted(old(buf[..]), buf[..], 0, Positive(limit), done)
  {
    hide Emitted, Matches, Render;
    count, done := 0, "";
    ghost var was, full, room := buf[..], Render(fmt, args), Positive(limit);
    NothingEmitted(was, room);
    var f, a := fmt, args;
    while f != [] && count < limit
      invariant Matches(f, a) && full == done + Render(f, a)
      invariant count == Min(room, |done|) && Emitted(was, buf[..], 0, room, done)
      decreases |f|
    {
      ghost var before, text := buf[..], "";
      count, f, a, text := FormatOne(buf, count, limit, f, a, |full| - |done|);
      EmitTwice(was, before, buf[..], 0, room, done, text);
      Associative(done, text, Render(f, a));
      done := done + text;
    }
    if f == [] { RenderEmpty(a); }
  }

  /** vsnprintf_internal: exactly the first Room(size) characters of the rendering and a terminator, which
      is stored for size 0 too. It writes nothing beyond them. */
  method VsnprintfInternal(buf: array<char>, size: nat, fmt: string, args: seq<Arg>) returns (count: nat)
    requires size < TWO32 && size != 0x8000_0000 && Matches(fmt, args)
    requires Min(Room(size), |Render(fmt, args)|) < buf.Length
    modifies buf
    ensures count == Min(Room(size), |Render(fmt, args)|)
    ensures buf[..] == Render(fmt, args)[..count] + [NUL] + old(buf[..])[count + 1..]
    ensures count < Room(size) ==> Prints(fmt, args, buf[..count])
  {
    hide Emitted, Matches, Render, Prints;
    RenderPrints(fmt, args);
    ghost var was, done := buf[..], "";
    count, done := FormatLoop(buf, Limit(size), fmt, args);
    EmittedPrefix(was, buf[..], Room(size), done, Render(fmt, args));
    Terminate(buf, count);
    assert count < Room(size) ==> buf[..count] == Render(fmt, args);
  }

  /** A size of 0xFFFFFFFF, meant as no limit at all, gives the empty string whatever there is to print;
      and a size of 0 does not keep the terminator out of the buffer. */
  method ExtremeSizes(big: array<char>, none: array<char>, fmt: string, args: seq<Arg>) returns (m: nat, n: nat)
    requires Matches(fmt, args) && big.Length > 0 && none.Length > 0 && big != none
    modifies big, none
    ensures m == 0 && big[..] == [NUL] + old(big[..])[1..]
    ensures n == 0 && none[..] == [NUL] + old(none[..])[1..]
  {
    hide Render, Matches;
    m := VsnprintfInternal(big, 0xFFFF_FFFF, fmt, args);
    n := VsnprintfInternal(none, 0, fmt, args);
  }

  /** sprintf, whose size is INT_MAX: the rendering, cut to INT_MAX - 1 characters. */
  method Sprintf(buf: array<char>, fmt: string, args: seq<Arg>) returns (count: nat)
    requires Matches(fmt, args) && Min(0x7FFF_FFFE, |Render(fmt, args)|) < buf.Length
    modifies buf
    ensures count == Min(0x7FFF_FFFE, |Render(fmt, args)|)
    ensures buf[..] == Render(fmt, args)[..count] + [NUL] + old(buf[..])[count + 1..]
    ensures count < 0x7FFF_FFFE ==> Prints(fmt, args, buf[..count])
  {
    hide Render, Prints;
    count := VsnprintfInternal(buf, 0x7FFF_FFFF, fmt, args);
  }
}
