/** What a format prints, directive by directive, for every format and all arguments. */
module PrintfText {
  import opened Arith
  import opened Printfs

  // ---- Numerals -----------------------------------------------------------

  function DigitVal(c: char): nat {
    if '0' <= c <= '9' then c as int - '0' as int else if 'a' <= c <= 'f' then c as int - 'a' as int + 10 else 16
  }

  /** The number that a text stands for, digit by digit. */
  function Value(t: string, base: nat): nat {
    if t == "" then 0 else Value(t[..|t| - 1], base) * base + DigitVal(t[|t| - 1])
  }

  /** The text is the number in that base, with no zero in front. */
  predicate Numeral(t: string, base: nat, n: nat) {
    && t != "" && (forall i :: 0 <= i < |t| ==> DigitVal(t[i]) < base)
    && Value(t, base) == n && (t[0] == '0' ==> t == "0")
  }

  lemma {:induction false} DigitsNumeral(n: nat, base: nat)
    requires Base(base)
    ensures Numeral(Digits(n, base), base, n) && (n > 0 ==> Digits(n, base)[0] != '0')
  {
    hide Digit, Numeral;
    if n < base {
      DigitIs(n);
      OneDigit(Digit(n), base);
    } else {
      DigitIs(n % base);
      DivMod(n, base);
      DigitsNumeral(n / base, base);
      AppendDigit(Digits(n / base, base), Digit(n % base), base, n / base);
    }
  }

  lemma DigitIs(d: nat)
    requires d < 16
    ensures DigitVal(Digit(d)) == d
  {
  }

  lemma AppendDigit(a: string, c: char, base: nat, m: nat)
    requires Numeral(a, base, m) && a[0] != '0' && DigitVal(c) < base
    ensures Numeral(a + [c], base, m * base + DigitVal(c)) && (a + [c])[0] != '0'
  {
    hide DigitVal;
    assert (a + [c])[..|a|] == a;
  }

  lemma DivMod(n: nat, b: nat)
    requires Base(b) && n >= b
    ensures n / b * b + n % b == n && n / b > 0
  {
  }

  lemma OneDigit(c: char, base: nat)
    requires DigitVal(c) < base
    ensures Numeral([c], base, DigitVal(c)) && (DigitVal(c) > 0 ==> c != '0')
  {
    assert [c][..0] == "";
  }

  /** A number has one numeral in a base. */
  lemma {:induction false} OneNumeral(t: string, u: string, base: nat, n: nat)
    requires 1 < base <= 16 && Numeral(t, base, n) && Numeral(u, base, n)
    ensures t == u
    decreases |t|
  {
    LastDigit(t, base);
    LastDigit(u, base);
    var a, b := t[..|t| - 1], u[..|u| - 1];
    assert t == a + [t[|t| - 1]] && u == b + [u[|u| - 1]];
    SameDigit(t[|t| - 1], u[|u| - 1]);
    if a != "" && b != "" {
      OneNumeral(a, b, base, n / base);
    }
  }

  lemma SameDigit(c: char, d: char)
    requires DigitVal(c) == DigitVal(d) < 16
    ensures c == d
  {
  }

  lemma LastDigit(t: string, base: nat)
    requires base > 1 && t != "" && Numeral(t, base, Value(t, base))
    ensures var a := t[..|t| - 1]; var n := Value(t, base);
      && DigitVal(t[|t| - 1]) == n % base && Value(a, base) == n / base
      && (a != "" ==> Numeral(a, base, n / base) && n / base > 0)
  {
    var a, d := t[..|t| - 1], DigitVal(t[|t| - 1]);
    DivUnique(Value(t, base), Value(a, base), d, base);
    if a != "" {
      Leads(a, base);
    }
  }

  /** A numeral that does not begin with a zero is not nought. */
  lemma {:induction false} Leads(a: string, base: nat)
    requires base > 1 && a != "" && DigitVal(a[0]) < base && a[0] != '0'
    ensures Value(a, base) > 0
    decreases |a|
  {
    if |a| > 1 {
      Leads(a[..|a| - 1], base);
    }
  }

  // ---- Modifiers ----------------------------------------------------------

  predicate IsMod(c: char) {
    c == '#' || c == '-' || c == 'l' || c == 'q' || '0' <= c <= '9'
  }

  predicate Mods(m: string) {
    forall i :: 0 <= i < |m| ==> IsMod(m[i])
  }

  /** The number that the digits among the modifiers make, after n. */
  function Width(m: string, n: nat): nat {
    if m == "" then n else Width(m[1..], if '0' <= m[0] <= '9' then 10 * n + (m[0] as int - '0' as int) else n)
  }

  predicate ZeroAt(m: string, i: nat) {
    i < |m| && m[i] == '0' && forall j :: 0 <= j < i ==> !('1' <= m[j] <= '9')
  }

  /** The first digit is a zero. */
  ghost predicate ZeroFirst(m: string) {
    exists i :: ZeroAt(m, i)
  }

  lemma ZeroLater(m: string, i: nat)
    requires m != ""
    ensures ZeroAt(m, i + 1) <==> !('1' <= m[0] <= '9') && ZeroAt(m[1..], i)
  {
    assert forall j :: 0 <= j < |m[1..]| ==> m[1..][j] == m[j + 1];
    if ZeroAt(m, i + 1) {
      forall j | 0 <= j < i
        ensures !('1' <= m[1..][j] <= '9')
      {
        assert m[1..][j] == m[j + 1];
      }
    }
  }

  lemma ZeroFirstTail(m: string)
    requires m != ""
    ensures ZeroFirst(m) <==> m[0] == '0' || (!('1' <= m[0] <= '9') && ZeroFirst(m[1..]))
  {
    hide ZeroAt;
    assert ZeroAt(m, 0) <==> m[0] == '0' by { ZeroNow(m); }
    if i: nat :| ZeroAt(m, i) {
      if i > 0 { ZeroLater(m, i - 1); }
    }
    if i: nat :| ZeroAt(m[1..], i) {
      ZeroLater(m, i);
    }
  }

  lemma ZeroNow(m: string)
    requires m != ""
    ensures ZeroAt(m, 0) <==> m[0] == '0'
  {
  }

  /** What is known of a directive when its modifiers have been read. */
  ghost function Read(p: Spec, m: string): Spec {
    p.(alt := p.alt || '#' in m, rightspc := p.rightspc || '-' in m, long := p.long || 'l' in m || 'q' in m,
       spacing := Width(m, p.spacing), zero := p.zero || (p.spacing == 0 && ZeroFirst(m)))
  }

  lemma ModifyIs(p: Spec, c: char)
    requires IsMod(c)
    ensures IsModifier(c)
    ensures var digit := '0' <= c <= '9';
      Modify(p, c) == p.(alt := p.alt || c == '#', rightspc := p.rightspc || c == '-',
                         long := p.long || c == 'l' || c == 'q',
                         spacing := if digit then 10 * p.spacing + (c as int - '0' as int) else p.spacing,
                         zero := p.zero || (c == '0' && p.spacing == 0))
  {
    NotModifier(c);
    hide IsModifier;
  }

  lemma OneMod(p: Spec, m: string)
    requires m != "" && IsMod(m[0])
    ensures IsModifier(m[0]) && Read(Modify(p, m[0]), m[1..]) == Read(p, m)
  {
    ModifyIs(p, m[0]);
    ZeroFirstTail(m);
    hide ZeroFirst, Modify, IsModifier;
    assert forall c :: c in m <==> c == m[0] || c in m[1..];
  }

  lemma {:induction false} ModsRead(s: State, m: string)
    requires s.p.inPct && Mods(m)
    ensures FeedAll(s, m) == s.(p := Read(s.p, m))
    decreases |m|
  {
    if m != "" {
      OneMod(s.p, m);
      hide Read, Modify, IsMod;
      ModsRead(Feed(s, m[0]), m[1..]);
    }
  }

  // ---- Directives ---------------------------------------------------------

  function BaseOf(conv: char): nat {
    if conv == 'o' then 8 else if conv == 'x' || conv == 'p' then 16 else 10
  }

  predicate IsNumber(conv: char) {
    conv == 'd' || conv == 'u' || conv == 'o' || conv == 'x' || conv == 'p'
  }

  predicate TakesArg(conv: char) {
    IsNumber(conv) || conv == 's' || conv == 'c'
  }

  /** In a field of a width: on the left, on the right after spaces, or on the right with zeros after the head. */
  predicate Padded(text: string, width: nat, left: bool, zero: bool, head: string, body: string) {
    var fill := Copies(if zero then '0' else ' ', if width > |head| + |body| then width - |head| - |body| else 0);
    text == if left then head + body + fill else if zero then head + fill + body else fill + head + body
  }

  ghost predicate InField(text: string, m: string, head: string, body: string) {
    Padded(text, Width(m, 0), '-' in m, ZeroFirst(m), head, body)
  }

  /** The number of 32 bits, signed, that is the same but for a multiple of 2^32. */
  function Wrapped(x: int): int {
    (x + HALF) % WORD - HALF
  }

  function IntOf(args: seq<Arg>): int {
    if args != [] && args[0].Int? then Wrapped(args[0].v) else 0
  }

  /** A minus for a negative number, and 0x or 0 if the base is to be shown. */
  function HeadOf(m: string, conv: char, v: int): string {
    if conv == 'd' then if v < 0 then "-" else ""
    else if conv == 'p' || (conv == 'x' && '#' in m) then "0x"
    else if conv == 'o' && '#' in m then "0"
    else ""
  }

  /** The size of a signed number; any other is read without a sign. */
  function SizeOf(conv: char, v: int): nat {
    if v >= 0 then v else if conv == 'd' then -v else (v + WORD) % WORD
  }

  /** What a directive prints. */
  ghost predicate Prints(text: string, m: string, conv: char, args: seq<Arg>) {
    if IsNumber(conv) then
      var v := IntOf(args);
      exists t :: Numeral(t, BaseOf(conv), SizeOf(conv, v)) && InField(text, m, HeadOf(m, conv, v), t)
    else if conv == 's' then InField(text, m, "", if args != [] && args[0].Text? then args[0].s else "(null)")
    else if conv == 'c' then
      InField(text, m, "", if IntOf(args) % 256 == 0 then "" else [(IntOf(args) % 256) as char])
    else InField(text, m, "", [conv])
  }

  lemma FieldPadded(p: Spec, head1: string, head2: string, body: string)
    ensures Padded(Field(p, head1, head2, body), p.spacing, p.rightspc, p.zero, head1 + head2, body)
  {
  }

  lemma WordParts(v: int)
    ensures var w := Wrapped(v);
      && Signed(v) == w && Unsigned(v) == (if w < 0 then w + WORD else w) && (w < 0 ==> Unsigned(-w) == -w)
  {
  }

  lemma NumberParts(p: Spec, m: string, conv: char, args: seq<Arg>)
    requires IsNumber(conv) && p.alt == ('#' in m) && !p.neg && !p.baseprefix
    ensures var q := SetBase(GetNum(p, conv, ArgInt(args)), conv); var v := IntOf(args);
      && q.base == BaseOf(conv) && q.num == SizeOf(conv, v)
      && (if q.neg then "-" else "") + BasePrefix(q) == HeadOf(m, conv, v)
      && q.spacing == p.spacing && q.rightspc == p.rightspc && q.zero == p.zero
  {
    hide Unsigned, Signed, SetBase;
    WordParts(ArgInt(args));
    WordParts(0);
    SmallWord(IntOf(args));
    SetBaseIs(GetNum(p, conv, ArgInt(args)), conv);
  }

  lemma SetBaseIs(p: Spec, conv: char)
    requires IsNumber(conv) && !p.baseprefix
    ensures SetBase(p, conv) == p.(base := BaseOf(conv), baseprefix := p.alt || conv == 'p')
  {
  }

  lemma SmallWord(v: int)
    ensures -WORD <= v < 0 ==> (v + WORD) % WORD == v + WORD
  {
  }

  lemma NumberPrints(p: Spec, m: string, conv: char, args: seq<Arg>)
    requires IsNumber(conv) && p == Read(FRESH.(inPct := true), m)
    ensures IsConversion(conv) && Prints(NumText(SetBase(GetNum(p, conv, ArgInt(args)), conv)), m, conv, args)
  {
    hide ZeroFirst, Width, Field, Numeral, Padded, Digits, HeadOf, SizeOf, IntOf, BasePrefix;
    NumberParts(p, m, conv, args);
    var q := SetBase(GetNum(p, conv, ArgInt(args)), conv);
    DigitsNumeral(q.num, q.base);
    FieldPadded(q, if q.neg then "-" else "", BasePrefix(q), Digits(q.num, q.base));
  }

  lemma LowByte(v: int)
    ensures Wrapped(v) % 256 == v % 256
  {
    var q := (v + HALF) / WORD;
    var w := Wrapped(v);
    assert v == w + 256 * (0x100_0000 * q);
    AddBytes(w, 0x100_0000 * q);
  }

  lemma AddBytes(w: int, k: int)
    ensures (w + 256 * k) % 256 == w % 256
  {
  }

  lemma CharIs(args: seq<Arg>)
    ensures CharOf(ArgInt(args)) == if IntOf(args) % 256 == 0 then "" else [(IntOf(args) % 256) as char]
  {
    LowByte(ArgInt(args));
  }

  /** The last character of a directive prints it; the next directive begins afresh. */
  lemma LastPrints(s: State, m: string, conv: char)
    requires s.p == Read(FRESH.(inPct := true), m) && !IsMod(conv)
    ensures var s' := Feed(s, conv);
      && s'.p == FRESH && s'.args == (if TakesArg(conv) then Rest(s.args) else s.args)
      && s.out <= s'.out && Prints(s'.out[|s.out|..], m, conv, s.args)
  {
    hide ZeroFirst, Width, Field, Numeral, Padded, Digits, HeadOf, SizeOf, IntOf, BasePrefix, NumText, GetNum, SetBase;
    hide CharOf;
    NotModifier(conv);
    var s' := Feed(s, conv);
    var text := s'.out[|s.out|..];
    if IsNumber(conv) {
      NumberPrints(s.p, m, conv, s.args);
      assert text == NumText(SetBase(GetNum(s.p, conv, ArgInt(s.args)), conv));
    } else {
      CharIs(s.args);
      var body := if conv == 's' then (if s.args != [] && s.args[0].Text? then s.args[0].s else "(null)")
                  else if conv == 'c' then CharOf(ArgInt(s.args)) else [conv];
      FieldPadded(s.p, "", "", body);
      assert "" + "" == "";
      assert text == Field(s.p, "", "", body);
    }
  }

  lemma NotModifier(c: char)
    ensures IsModifier(c) <==> IsMod(c)
    ensures IsConversion(c) <==> IsNumber(c)
  {
  }

  // ---- Whole formats ------------------------------------------------------

  /** A piece of a format: text without a percent sign, or a whole directive. */
  datatype Item = Plain(text: string) | Directive(mods: string, conv: char)

  predicate WellMade(x: Item) {
    match x
    case Plain(text) => '%' !in text
    case Directive(m, conv) => Mods(m) && !IsMod(conv)
  }

  function Shown(x: Item): string {
    match x
    case Plain(text) => text
    case Directive(m, conv) => "%" + m + [conv]
  }

  function ShownAll(xs: seq<Item>): string {
    if xs == [] then "" else Shown(xs[0]) + ShownAll(xs[1..])
  }

  function ArgsLeft(x: Item, args: seq<Arg>): seq<Arg> {
    if x.Directive? && TakesArg(x.conv) then Rest(args) else args
  }

  /** What a piece of a format prints: plain text itself, a directive what it says. */
  ghost predicate Gives(x: Item, args: seq<Arg>, text: string) {
    match x
    case Plain(t) => text == t
    case Directive(m, conv) => Prints(text, m, conv, args)
  }

  /** The pieces print their texts one after the other, each directive with the arguments that are left for it. */
  ghost predicate GivesAll(xs: seq<Item>, args: seq<Arg>, text: string)
    decreases |xs|
  {
    if xs == [] then text == ""
    else
      exists k :: 0 <= k <= |text| &&
        Gives(xs[0], args, text[..k]) && GivesAll(xs[1..], ArgsLeft(xs[0], args), text[k..])
  }

  lemma {:induction false} PlainPrints(s: State, t: string)
    requires s.p == FRESH && '%' !in t
    ensures FeedAll(s, t) == s.(out := s.out + t)
    decreases |t|
  {
    if t == "" {
      assert s.out + t == s.out;
    } else {
      PlainPrints(Feed(s, t[0]), t[1..]);
      assert s.out + [t[0]] + t[1..] == s.out + t;
    }
  }

  lemma DirectivePrints(s: State, m: string, conv: char)
    requires s.p == FRESH && Mods(m) && !IsMod(conv)
    ensures var s' := FeedAll(s, "%" + m + [conv]);
      && s'.p == FRESH && s'.args == (if TakesArg(conv) then Rest(s.args) else s.args)
      && s.out <= s'.out && Prints(s'.out[|s.out|..], m, conv, s.args)
  {
    var s1 := s.(p := FRESH.(inPct := true));
    assert Feed(s, '%') == s1;
    hide FeedAll, Feed, Prints, Read;
    FeedOne(s, '%');
    FeedJoin(s, "%" + m, [conv]);
    FeedJoin(s, "%", m);
    ModsRead(s1, m);
    var s2 := s1.(p := Read(s1.p, m));
    FeedOne(s2, conv);
    LastPrints(s2, m, conv);
  }

  lemma ItemPrints(s: State, x: Item)
    requires s.p == FRESH && WellMade(x)
    ensures var s' := FeedAll(s, Shown(x));
      && s'.p == FRESH && s'.args == ArgsLeft(x, s.args) && s.out <= s'.out && Gives(x, s.args, s'.out[|s.out|..])
  {
    hide FeedAll, Prints;
    match x
    case Plain(t) => PlainPrints(s, t);
    case Directive(m, conv) => DirectivePrints(s, m, conv);
  }

  lemma {:induction false} ItemsPrint(s: State, xs: seq<Item>)
    requires s.p == FRESH && forall i :: 0 <= i < |xs| ==> WellMade(xs[i])
    ensures var s' := FeedAll(s, ShownAll(xs));
      s'.p == FRESH && s.out <= s'.out && GivesAll(xs, s.args, s'.out[|s.out|..])
    decreases |xs|
  {
    hide FeedAll, Gives, Shown, ArgsLeft, WellMade;
    if xs == [] {
      FeedNothing(s);
    } else {
      ItemPrints(s, xs[0]);
      var s1 := FeedAll(s, Shown(xs[0]));
      ItemsPrint(s1, xs[1..]);
      FeedJoin(s, Shown(xs[0]), ShownAll(xs[1..]));
      var s' := FeedAll(s, ShownAll(xs));
      var text, k := s'.out[|s.out|..], |s1.out| - |s.out|;
      assert text[..k] == s1.out[|s.out|..];
      assert text[k..] == s'.out[|s1.out|..];
    }
  }

  /** A directive that the format breaks off. */
  predicate BrokenOff(t: string) {
    t == "" || (t[0] == '%' && Mods(t[1..]))
  }

  ghost predicate PartsOf(fmt: string, xs: seq<Item>, last: string) {
    (forall i :: 0 <= i < |xs| ==> WellMade(xs[i])) && BrokenOff(last) && fmt == ShownAll(xs) + last
  }

  lemma OnePart(x: Item, fmt: string, xs: seq<Item>, last: string)
    requires WellMade(x) && PartsOf(fmt, xs, last)
    ensures PartsOf(Shown(x) + fmt, [x] + xs, last)
  {
    hide WellMade, Shown, BrokenOff;
    assert ([x] + xs)[1..] == xs;
    assert ShownAll([x] + xs) == Shown(x) + ShownAll(xs);
    assert Shown(x) + (ShownAll(xs) + last) == Shown(x) + ShownAll(xs) + last;
  }

  lemma NoParts(last: string)
    requires BrokenOff(last)
    ensures PartsOf(last, [], last)
  {
    assert ShownAll([]) + last == last;
  }

  lemma FirstPart(fmt: string) returns (x: Item, rest: string)
    requires !BrokenOff(fmt)
    ensures WellMade(x) && fmt == Shown(x) + rest && |rest| < |fmt|
  {
    hide IsMod;
    if fmt[0] != '%' {
      return Plain([fmt[0]]), fmt[1..];
    }
    var k := ModsEnd(fmt, 1);
    assert fmt[1..|fmt|] == fmt[1..];
    return Directive(fmt[1..k], fmt[k]), fmt[k + 1..];
  }

  /** Every format is plain text and directives, the last of which may be broken off. */
  lemma {:induction false} FormatParts(fmt: string) returns (xs: seq<Item>, last: string)
    ensures PartsOf(fmt, xs, last)
    decreases |fmt|
  {
    hide PartsOf, BrokenOff, WellMade, Shown;
    if BrokenOff(fmt) {
      NoParts(fmt);
      return [], fmt;
    }
    var x, rest := FirstPart(fmt);
    var ys;
    ys, last := FormatParts(rest);
    OnePart(x, rest, ys, last);
    xs := [x] + ys;
  }

  lemma {:induction false} ModsEnd(fmt: string, i: nat) returns (k: nat)
    requires 1 <= i <= |fmt| && Mods(fmt[1..i])
    ensures i <= k <= |fmt| && Mods(fmt[1..k]) && (k < |fmt| ==> !IsMod(fmt[k]))
    decreases |fmt| - i
  {
    if i == |fmt| || !IsMod(fmt[i]) {
      k := i;
    } else {
      assert fmt[1..i + 1] == fmt[1..i] + [fmt[i]];
      k := ModsEnd(fmt, i + 1);
    }
  }

  /**
   * Every format prints what its parts say, in order, each with the arguments left for it; a directive that is broken
   * off prints nothing.
   */
  lemma FormatPrints(fmt: string, args: seq<Arg>) returns (xs: seq<Item>, last: string)
    ensures PartsOf(fmt, xs, last) && GivesAll(xs, args, Format(fmt, args))
  {
    hide Feed, Gives, Shown, ArgsLeft, WellMade, GivesAll;
    xs, last := FormatParts(fmt);
    var s := State(FRESH, args, "");
    ItemsPrint(s, xs);
    var s1 := FeedAll(s, ShownAll(xs));
    FeedJoin(s, ShownAll(xs), last);
    LastNothing(s1, last);
    assert s1.out[0..] == s1.out;
  }

  lemma LastNothing(s: State, last: string)
    requires s.p == FRESH && BrokenOff(last)
    ensures FeedAll(s, last).out == s.out
  {
    if last != "" {
      ModsRead(Feed(s, '%'), last[1..]);
    }
  }

  /** A bare directive prints the numeral of the number in its base, after its sign or the prefix of the base. */
  lemma BareNumber(m: string, conv: char, v: int) returns (t: string)
    requires IsNumber(conv) && (m == "" || m == "#")
    ensures var w := IntOf([Int(v)]);
      && Numeral(t, BaseOf(conv), SizeOf(conv, w)) && (conv != 'd' ==> SizeOf(conv, w) == v % WORD)
      && Format("%" + m + [conv], [Int(v)]) == HeadOf(m, conv, w) + t
  {
    hide FeedAll, Prints, Numeral, HeadOf, IntOf, SizeOf, BaseOf, IsMod;
    var text := Format("%" + m + [conv], [Int(v)]);
    NoModifiers(m, conv);
    DirectivePrints(State(FRESH, [Int(v)], ""), m, conv);
    assert text[0..] == text;
    if conv != 'd' { UnsignedSize(conv, v); }
    t := NarrowNumber(text, m, conv, [Int(v)]);
  }

  lemma NoModifiers(m: string, conv: char)
    requires IsNumber(conv) && (m == "" || m == "#")
    ensures Mods(m) && !IsMod(conv) && Width(m, 0) == 0
  {
  }

  lemma UnsignedSize(conv: char, v: int)
    requires conv != 'd'
    ensures SizeOf(conv, IntOf([Int(v)])) == v % WORD
  {
    WordParts(v);
  }

  lemma NarrowNumber(text: string, m: string, conv: char, args: seq<Arg>) returns (t: string)
    requires IsNumber(conv) && Width(m, 0) == 0 && Prints(text, m, conv, args)
    ensures Numeral(t, BaseOf(conv), SizeOf(conv, IntOf(args))) && text == HeadOf(m, conv, IntOf(args)) + t
  {
    hide Numeral, HeadOf, IntOf, SizeOf, BaseOf, ZeroFirst, Width;
    var v := IntOf(args);
    t :| Numeral(t, BaseOf(conv), SizeOf(conv, v)) && InField(text, m, HeadOf(m, conv, v), t);
    var head := HeadOf(m, conv, v);
    assert Copies(if ZeroFirst(m) then '0' else ' ', 0) == "";
    assert head + "" == head && "" + head == head && head + t + "" == head + t;
  }
}
