/** Parsing a decimal integer, and that printing and parsing agree. */
module Atois {
  import opened Printfs
  import T = PrintfText

  predicate IsDigit(c: char) {
    '0' <= c <= '9'
  }

  function DigitOf(c: char): (d: nat)
    requires IsDigit(c)
    ensures d < 10
  {
    c as int - '0' as int
  }

  function Skip(s: string): string {
    if s != "" && (s[0] == ' ' || s[0] == '\t') then Skip(s[1..]) else s
  }

  /** The digits at the front of a string, accumulated in an unsigned word. */
  function Val(s: string, acc: nat): nat
    decreases |s|
  {
    if s == "" || !IsDigit(s[0]) then acc else Val(s[1..], (acc * 10 + DigitOf(s[0])) % WORD)
  }

  function Unblanked(t: string): int {
    if t != "" && t[0] == '-' then Signed(0 - Val(t[1..], 0))
    else if t != "" && t[0] == '+' then Signed(Val(t[1..], 0))
    else Signed(Val(t, 0))
  }

  function Parse(s: string): int {
    Unblanked(Skip(s))
  }

  /** The function of the C library, character by character. */
  method Atoi(s: string) returns (r: int)
    ensures r == Parse(s)
  {
    var val, neg, i := 0, false, 0;
    while i < |s| && (s[i] == ' ' || s[i] == '\t')
      invariant 0 <= i <= |s| && Skip(s) == Skip(s[i..])
    {
      assert s[i..][1..] == s[i + 1..];
      i := i + 1;
    }
    assert Skip(s) == s[i..];
    ghost var t := s[i..];
    if i < |s| && s[i] == '-' {
      neg := true;
      i := i + 1;
    } else if i < |s| && s[i] == '+' {
      i := i + 1;
    }
    ghost var d := s[i..];
    while i < |s| && IsDigit(s[i])
      invariant 0 <= i <= |s| && 0 <= val < WORD && Val(s[i..], val) == Val(d, 0)
    {
      assert s[i..][1..] == s[i + 1..];
      var digit := DigitOf(s[i]);
      val := (val * 10 + digit) % WORD;
      i := i + 1;
    }
    assert val == Val(d, 0);
    assert t != "" && (t[0] == '-' || t[0] == '+') ==> t[1..] == d;
    return if neg then Signed(0 - val) else Signed(val);
  }

  // ---- What is read -------------------------------------------------------

  predicate AllDigits(s: string) {
    forall i :: 0 <= i < |s| ==> IsDigit(s[i])
  }

  predicate Blank(s: string) {
    forall i :: 0 <= i < |s| ==> s[i] == ' ' || s[i] == '\t'
  }

  /** White space, a sign or none, digits, and whatever comes after them. */
  predicate Parts(ws: string, sign: string, ds: string, rest: string) {
    && Blank(ws) && (sign == "" || sign == "-" || sign == "+") && AllDigits(ds) && (rest != "" ==> !IsDigit(rest[0]))
    && (sign == "" && ds == "" && rest != "" ==> rest[0] != ' ' && rest[0] != '\t' && rest[0] != '-' && rest[0] != '+')
  }

  lemma {:induction false} SkipBlank(ws: string, t: string)
    requires Blank(ws)
    ensures Skip(ws + t) == Skip(t)
    decreases |ws|
  {
    if ws == "" {
      assert ws + t == t;
    } else {
      assert (ws + t)[1..] == ws[1..] + t;
      SkipBlank(ws[1..], t);
    }
  }

  lemma {:induction false} ValPositional(ds: string)
    requires AllDigits(ds)
    ensures Val(ds, 0) == T.Value(ds, 10) % WORD
    decreases |ds|
  {
    if ds != "" {
      var a, c := ds[..|ds| - 1], ds[|ds| - 1];
      ValPositional(a);
      assert ds == a + [c] && [c][1..] == "";
      ValJoin(a, [c], 0);
      ModMul(T.Value(a, 10), DigitOf(c));
    }
  }

  /** Every text reads as the number that its digits make after its white space and its sign, in 32 bits. */
  lemma AtoiReads(ws: string, sign: string, ds: string, rest: string)
    requires Parts(ws, sign, ds, rest)
    ensures var n: int := T.Value(ds, 10); var x := if sign == "-" then 0 - n else n;
      Parse(ws + sign + ds + rest) == T.Wrapped(x)
  {
    hide Val, T.Value, T.Wrapped, Unblanked, Parts;
    var t := sign + ds + rest;
    assert ws + sign + ds + rest == ws + t;
    PartsStart(ws, sign, ds, rest);
    SkipBlank(ws, t);
    DigitsRead(ds, rest);
    SignedReads(sign, ds + rest, T.Value(ds, 10));
    assert t == sign + (ds + rest);
  }

  lemma PartsStart(ws: string, sign: string, ds: string, rest: string)
    requires Parts(ws, sign, ds, rest)
    ensures Blank(ws) && (sign == "" || sign == "-" || sign == "+")
    ensures AllDigits(ds) && (rest != "" ==> !IsDigit(rest[0]))
    ensures Skip(sign + ds + rest) == sign + ds + rest
    ensures sign == "" && ds + rest != "" ==> (ds + rest)[0] != '-' && (ds + rest)[0] != '+'
  {
  }

  lemma DigitsRead(ds: string, rest: string)
    requires AllDigits(ds) && (rest != "" ==> !IsDigit(rest[0]))
    ensures Val(ds + rest, 0) == T.Value(ds, 10) % WORD
  {
    hide Val;
    ValJoin(ds, rest, 0);
    ValPositional(ds);
    NoDigit(rest, Val(ds, 0));
  }

  lemma SignedReads(sign: string, u: string, n: nat)
    requires (sign == "" || sign == "-" || sign == "+") && Val(u, 0) == n % WORD
    requires sign == "" && u != "" ==> u[0] != '-' && u[0] != '+'
    ensures var x: int := n; Unblanked(sign + u) == T.Wrapped(if sign == "-" then 0 - x else x)
  {
    SameSigned(n);
    hide Val, T.Wrapped, Signed;
    assert sign != "" ==> (sign + u)[0] == sign[0] && (sign + u)[1..] == u;
    assert sign == "" ==> sign + u == u;
  }

  lemma NoDigit(rest: string, acc: nat)
    requires rest != "" ==> !IsDigit(rest[0])
    ensures Val(rest, acc) == acc
  {
  }

  lemma SameSigned(n: nat)
    ensures Signed(n % WORD) == T.Wrapped(n) && Signed(0 - n % WORD) == T.Wrapped(0 - n)
  {
    hide Signed, T.Wrapped;
    var q, r := n / WORD, n % WORD;
    T.WordParts(r);
    T.WordParts(0 - r);
    WrapAdd(r, q);
    WrapAdd(0 - r, -q);
  }

  lemma WrapAdd(x: int, k: int)
    ensures T.Wrapped(x + WORD * k) == T.Wrapped(x)
  {
    var y := x + HALF;
    ModIs(y + WORD * k, y / WORD + k, y % WORD);
  }

  lemma {:induction false} BlankEnd(s: string, i: nat) returns (k: nat)
    requires i <= |s| && Blank(s[..i])
    ensures i <= k <= |s| && Blank(s[..k]) && (k < |s| ==> s[k] != ' ' && s[k] != '\t')
    decreases |s| - i
  {
    if i == |s| || (s[i] != ' ' && s[i] != '\t') {
      k := i;
    } else {
      assert s[..i + 1] == s[..i] + [s[i]];
      k := BlankEnd(s, i + 1);
    }
  }

  lemma {:induction false} DigitsEnd(s: string, i: nat) returns (k: nat)
    requires i <= |s| && AllDigits(s[..i])
    ensures i <= k <= |s| && AllDigits(s[..k]) && (k < |s| ==> !IsDigit(s[k]))
    decreases |s| - i
  {
    if i == |s| || !IsDigit(s[i]) {
      k := i;
    } else {
      assert s[..i + 1] == s[..i] + [s[i]];
      k := DigitsEnd(s, i + 1);
    }
  }

  /** Every text has such parts. */
  lemma AtoiParts(s: string) returns (ws: string, sign: string, ds: string, rest: string)
    ensures s == ws + sign + ds + rest && Parts(ws, sign, ds, rest)
  {
    var k := BlankEnd(s, 0);
    var t := s[k..];
    ws := s[..k];
    sign := if t != "" && (t[0] == '-' || t[0] == '+') then [t[0]] else "";
    var u := t[|sign|..];
    var j := DigitsEnd(u, 0);
    ds, rest := u[..j], u[j..];
    assert s == ws + t && t == sign + u && u == ds + rest;
  }

  // ---- Reading digits back ------------------------------------------------

  lemma ModMul(a: nat, d: nat)
    ensures (a % WORD * 10 + d) % WORD == (a * 10 + d) % WORD
  {
  }

  lemma DigitBack(d: nat)
    requires d < 10
    ensures IsDigit(Digit(d)) && DigitOf(Digit(d)) == d
  {
  }

  lemma {:induction false} ValJoin(a: string, b: string, acc: nat)
    requires AllDigits(a)
    ensures Val(a + b, acc) == Val(b, Val(a, acc))
    decreases |a|
  {
    if a == "" {
      assert a + b == b;
    } else {
      assert (a + b)[1..] == a[1..] + b;
      ValJoin(a[1..], b, (acc * 10 + DigitOf(a[0])) % WORD);
    }
  }

  lemma {:induction false} DigitsAre(n: nat)
    ensures AllDigits(Digits(n, 10))
  {
    DigitBack(n % 10);
    if n >= 10 {
      DigitsAre(n / 10);
    }
  }

  /** The digits of a number read back as the number, however many zeros go before. */
  lemma {:induction false} ValDigits(n: nat)
    ensures Val(Digits(n, 10), 0) == n % WORD
  {
    DigitBack(n % 10);
    if n < 10 {
      var s := [Digit(n)];
      assert s[1..] == "";
    } else {
      var a, b := Digits(n / 10, 10), [Digit(n % 10)];
      DigitsAre(n / 10);
      ValJoin(a, b, 0);
      ValDigits(n / 10);
      assert b[1..] == "";
      ModMul(n / 10, n % 10);
    }
  }

  lemma {:induction false} ValZeros(k: nat)
    ensures Val(Copies('0', k), 0) == 0 && AllDigits(Copies('0', k))
  {
    if k > 0 {
      ValZeros(k - 1);
      assert Copies('0', k)[1..] == Copies('0', k - 1);
    }
  }

  lemma ValSpaces(k: nat, acc: nat)
    ensures Val(Copies(' ', k), acc) == acc
  {
  }

  lemma {:induction false} SkipSpaces(k: nat, s: string)
    ensures Skip(Copies(' ', k) + s) == Skip(s)
  {
    if k == 0 {
      assert Copies(' ', 0) + s == s;
    } else {
      assert (Copies(' ', k) + s)[1..] == Copies(' ', k - 1) + s;
      SkipSpaces(k - 1, s);
    }
  }

  // ---- Printing and parsing -----------------------------------------------

  function DSpec(v: int, width: nat, left: bool, zero: bool): Spec {
    SetBase(GetNum(FRESH.(inPct := true, spacing := width, rightspc := left, zero := zero), 'd', v), 'd')
  }

  /** What %d prints for a value, a width, an alignment and a fill character. */
  function Printed(v: int, width: nat, left: bool, zero: bool): string {
    NumText(DSpec(v, width, left, zero))
  }

  predicate Int32(v: int) {
    -HALF <= v < HALF
  }

  function Magnitude(v: int): nat {
    if v < 0 then -v else v
  }

  function SignText(v: int): string {
    if v < 0 then "-" else ""
  }

  lemma PrintedIs(v: int, width: nat, left: bool, zero: bool)
    requires Int32(v)
    ensures var t := Digits(Magnitude(v), 10);
      var k := if width > |SignText(v)| + |t| then width - |SignText(v)| - |t| else 0;
      Printed(v, width, left, zero) ==
        if left then SignText(v) + t + Copies(if zero then '0' else ' ', k)
        else if zero then SignText(v) + Copies('0', k) + t
        else Copies(' ', k) + (SignText(v) + t)
  {
    hide Digits, DSpec;
    DSpecIs(v, width, left, zero);
  }

  lemma DSpecIs(v: int, width: nat, left: bool, zero: bool)
    requires Int32(v)
    ensures DSpec(v, width, left, zero) == Spec(true, false, Magnitude(v), v < 0, width, left, zero, 10, false, false)
  {
  }

  /** What follows the sign reads as the magnitude. */
  lemma ParseSigned(v: int, rest: string, sp: nat)
    requires Int32(v) && Val(rest, 0) == Magnitude(v) && rest != "" && IsDigit(rest[0])
    ensures Parse(Copies(' ', sp) + (SignText(v) + rest)) == v
  {
    var t := SignText(v) + rest;
    SkipSpaces(sp, t);
    assert Skip(t) == t;
    assert v < 0 ==> t[1..] == rest;
    assert v >= 0 ==> t == rest;
  }

  lemma MagnitudeFits(v: int)
    requires Int32(v)
    ensures Magnitude(v) % WORD == Magnitude(v)
  {
  }

  /**
   * Printing any 32-bit integer with %d and parsing what was printed gives it back, for every width, aligned
   * right with spaces or zeros or left with spaces.
   */
  lemma RoundTrip(v: int, width: nat, left: bool, zero: bool)
    requires Int32(v) && !(left && zero)
    ensures Parse(Printed(v, width, left, zero)) == v
  {
    hide Printed, Parse, SignText, Digits, Copies;
    var t := Digits(Magnitude(v), 10);
    var k := if width > |SignText(v)| + |t| then width - |SignText(v)| - |t| else 0;
    PrintedIs(v, width, left, zero);
    if left {
      ReadSpaced(v, k);
    } else if zero {
      ReadZeros(v, k);
    } else {
      DigitsAre(Magnitude(v));
      ReadDigits(v);
      ParseSigned(v, t, k);
    }
  }

  lemma ReadDigits(v: int)
    requires Int32(v)
    ensures Val(Digits(Magnitude(v), 10), 0) == Magnitude(v)
  {
    ValDigits(Magnitude(v));
    MagnitudeFits(v);
  }

  lemma ReadSpaced(v: int, k: nat)
    requires Int32(v)
    ensures Parse(SignText(v) + Digits(Magnitude(v), 10) + Copies(' ', k)) == v
  {
    hide Val, Parse, SignText, Digits;
    var t := Digits(Magnitude(v), 10);
    DigitsAre(Magnitude(v));
    ReadDigits(v);
    ValJoin(t, Copies(' ', k), 0);
    ValSpaces(k, Magnitude(v));
    ParseSigned(v, t + Copies(' ', k), 0);
    assert Copies(' ', 0) + (SignText(v) + (t + Copies(' ', k))) == SignText(v) + t + Copies(' ', k);
  }

  lemma ReadZeros(v: int, k: nat)
    requires Int32(v)
    ensures Parse(SignText(v) + Copies('0', k) + Digits(Magnitude(v), 10)) == v
  {
    hide Val, Parse, SignText, Digits;
    var t := Digits(Magnitude(v), 10);
    DigitsAre(Magnitude(v));
    ReadDigits(v);
    ValZeros(k);
    ValJoin(Copies('0', k), t, 0);
    ParseSigned(v, Copies('0', k) + t, 0);
    assert Copies(' ', 0) + (SignText(v) + (Copies('0', k) + t)) == SignText(v) + Copies('0', k) + t;
  }

  // ---- Left alignment with zeros ------------------------------------------

  lemma {:induction false} ValTrailing(acc: nat, k: nat)
    requires acc < WORD
    ensures Val(Copies('0', k), acc) == acc * Power(10, k) % WORD
    decreases k
  {
    if k > 0 {
      assert Copies('0', k)[1..] == Copies('0', k - 1);
      ValTrailing(acc * 10 % WORD, k - 1);
      var p := Power(10, k - 1);
      assert Power(10, k) == 10 * p;
      hide Power;
      MulMod(acc * 10, p);
      Regroup(acc, p);
    }
  }

  lemma Regroup(a: nat, p: nat)
    ensures a * 10 * p == a * (10 * p)
  {
  }

  lemma MulMod(a: nat, b: nat)
    ensures a % WORD * b % WORD == a * b % WORD
  {
    var q, r := a / WORD, a % WORD;
    var x, y := r * b / WORD, r * b % WORD;
    assert a * b == (q * b + x) * WORD + y by { Distribute(q, r, b); }
    ModIs(a * b, q * b + x, y);
  }

  lemma Distribute(q: nat, r: nat, b: nat)
    ensures (q * WORD + r) * b == q * b * WORD + r * b
  {
  }

  lemma ModIs(x: int, q: int, r: nat)
    requires x == q * WORD + r && r < WORD
    ensures x % WORD == r
  {
  }

  lemma PowerTen(k: nat)
    requires k > 0
    ensures Power(10, k) % 10 == 0 && Power(10, k) > 1
  {
    var p := Power(10, k - 1);
    assert Power(10, k) == 10 * p;
  }

  /** A power of two that divides an odd multiple of a number divides the number. */
  lemma {:induction false} OddDivides(v: nat, m: nat, n: nat, q: nat) returns (k: nat)
    requires m % 2 == 1 && v * m == Power(2, n) * q
    ensures v == Power(2, n) * k
    decreases n
  {
    if n == 0 {
      k := v;
    } else {
      var p := Power(2, n - 1);
      assert v * m == 2 * (p * q);
      EvenFactor(v, m);
      var w := v / 2;
      assert 2 * (w * m) == 2 * (p * q);
      k := OddDivides(w, m, n - 1, q);
    }
  }

  lemma EvenFactor(v: nat, m: nat)
    requires m % 2 == 1 && v * m % 2 == 0
    ensures v % 2 == 0
  {
    var k := m / 2;
    assert v * m == 2 * (v * k) + v;
  }

  /** Zeros after a number multiply it; in 32 bits only nought comes out the same. */
  lemma TrailingZeros(m: nat, k: nat)
    requires m < WORD && k > 0 && m * Power(10, k) % WORD == m
    ensures m == 0
  {
    PowerTen(k);
    var p := Power(10, k);
    Times(m, p);
    TwoPower();
    var c := OddDivides(m, p - 1, 32, m * p / WORD);
  }

  lemma Times(m: nat, p: nat)
    requires p > 0 && m * p % WORD == m
    ensures m * (p - 1) == WORD * (m * p / WORD)
  {
    assert m * (p - 1) == m * p - m;
  }

  lemma TwoPower()
    ensures Power(2, 32) == WORD
  {
    assert Power(2, 8) == 256;
    assert Power(2, 16) == 0x1_0000;
    assert Power(2, 24) == 0x100_0000;
  }

  lemma ParseMinus(v: int, rest: string)
    requires rest != "" && IsDigit(rest[0])
    ensures Parse(SignText(v) + rest) == if v < 0 then Signed(0 - Val(rest, 0)) else Signed(Val(rest, 0))
  {
    var t := SignText(v) + rest;
    assert Skip(t) == t;
    assert v < 0 ==> t[1..] == rest;
    assert v >= 0 ==> t == rest;
  }

  lemma SignedBack(v: int, x: nat)
    requires Int32(v) && x < WORD
    ensures (if v < 0 then Signed(0 - x) else Signed(x)) == v <==> x == Magnitude(v)
  {
  }

  /** Aligned left and filled with zeros, a number comes back if and only if it is nought or fills the field. */
  lemma LeftZeroIff(v: int, width: nat)
    requires Int32(v)
    ensures Parse(Printed(v, width, true, true)) == v <==> v == 0 || width <= |SignText(v)| + |Digits(Magnitude(v), 10)|
  {
    hide Printed, Parse, Val, Power, Signed, SignText, Digits, Copies;
    var m := Magnitude(v);
    var t := Digits(m, 10);
    var k := if width > |SignText(v)| + |t| then width - |SignText(v)| - |t| else 0;
    PrintedIs(v, width, true, true);
    var x := m * Power(10, k) % WORD;
    LeftZeroReads(v, k);
    SignedBack(v, x);
    if k == 0 {
      NoPower(m);
    } else if x == m {
      TrailingZeros(m, k);
    }
  }

  /** In a field of two, 1 is printed with a nought after it. */
  lemma OneReadsTen()
    ensures Parse(Printed(1, 2, true, true)) != 1
  {
    hide Printed, Parse;
    LeftZeroIff(1, 2);
  }

  lemma NoPower(m: nat)
    requires m < WORD
    ensures m * Power(10, 0) % WORD == m
  {
  }

  lemma LeftZeroReads(v: int, k: nat)
    requires Int32(v)
    ensures var x := Magnitude(v) * Power(10, k) % WORD;
      Parse(SignText(v) + Digits(Magnitude(v), 10) + Copies('0', k)) == if v < 0 then Signed(0 - x) else Signed(x)
  {
    hide Parse, Val, Power, Signed, Digits, Copies;
    var m := Magnitude(v);
    var t := Digits(m, 10);
    DigitsAre(m);
    ValDigits(m);
    MagnitudeFits(v);
    ValJoin(t, Copies('0', k), 0);
    ValTrailing(m, k);
    assert SignText(v) + t + Copies('0', k) == SignText(v) + (t + Copies('0', k));
    ParseMinus(v, t + Copies('0', k));
  }

  // ---- Through the format string ------------------------------------------

  /** The digits of a width set the width. */
  lemma {:induction false} FeedWidth(s: State, w: nat)
    requires s.p.inPct && s.p.spacing == 0 && w > 0
    ensures FeedAll(s, Digits(w, 10)) == s.(p := s.p.(spacing := w))
    decreases w
  {
    DigitBack(w % 10);
    ModifierDigit(w % 10);
    if w < 10 {
      FeedOne(s, Digit(w));
    } else {
      var a, b := Digits(w / 10, 10), [Digit(w % 10)];
      FeedWidth(s, w / 10);
      FeedJoin(s, a, b);
      FeedOne(FeedAll(s, a), Digit(w % 10));
    }
  }

  lemma ModifierDigit(d: nat)
    requires d < 10
    ensures IsModifier(Digit(d)) && Digit(d) as int == '0' as int + d
    ensures Digit(d) != '#' && Digit(d) != '-' && Digit(d) != 'l' && Digit(d) != 'q' && (Digit(d) == '0' <==> d == 0)
  {
  }

  function Flags(left: bool, zero: bool): string {
    (if left then "-" else "") + (if zero then "0" else "")
  }

  /** A %d directive with flags and a width. */
  function Directive(width: nat, left: bool, zero: bool): string {
    "%" + Flags(left, zero) + (if width == 0 then "" else Digits(width, 10)) + "d"
  }

  lemma FeedFlags(s: State, left: bool, zero: bool)
    requires s.p.inPct && s.p.spacing == 0 && !s.p.rightspc && !s.p.zero
    ensures FeedAll(s, Flags(left, zero)) == s.(p := s.p.(rightspc := left, zero := zero))
  {
    var a, b := if left then "-" else "", if zero then "0" else "";
    FeedJoin(s, a, b);
    if left { FeedOne(s, '-'); }
    var s1 := FeedAll(s, a);
    if zero { FeedOne(s1, '0'); }
  }

  lemma FormatIs(v: int, width: nat, left: bool, zero: bool)
    ensures Format(Directive(width, left, zero), [Int(v)]) == Printed(v, width, left, zero)
  {
    hide FeedAll, Digits, NumText, Flags;
    var s := State(FRESH, [Int(v)], "");
    var w := if width == 0 then "" else Digits(width, 10);
    var f := Flags(left, zero);
    FeedJoin(s, "%" + f + w, "d");
    FeedJoin(s, "%" + f, w);
    FeedJoin(s, "%", f);
    FeedOne(s, '%');
    var s1 := s.(p := FRESH.(inPct := true));
    FeedFlags(s1, left, zero);
    var s2 := s1.(p := s1.p.(rightspc := left, zero := zero));
    if width > 0 { FeedWidth(s2, width); } else { FeedNothing(s2); }
    var s3 := s2.(p := s2.p.(spacing := width));
    FeedOne(s3, 'd');
    LastD(s3, v, width, left, zero);
  }

  lemma LastD(s: State, v: int, width: nat, left: bool, zero: bool)
    requires s == State(FRESH.(inPct := true, spacing := width, rightspc := left, zero := zero), [Int(v)], "")
    ensures Feed(s, 'd').out == Printed(v, width, left, zero)
  {
    hide NumText;
  }

  /** Formatting with %d and parsing, for every 32-bit integer. */
  lemma FormatRoundTrip(v: int, width: nat, left: bool, zero: bool)
    requires Int32(v)
    ensures Parse(Format(Directive(width, left, zero), [Int(v)])) == v <==>
      !(left && zero) || v == 0 || width <= |SignText(v)| + |Digits(Magnitude(v), 10)|
  {
    hide Parse, Format, Printed;
    FormatIs(v, width, left, zero);
    if left && zero {
      LeftZeroIff(v, width);
    } else {
      RoundTrip(v, width, left, zero);
    }
  }
}
