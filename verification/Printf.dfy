/** The guts of printf, as a function of the format and the arguments. */
module Printfs {
  const WORD := 0x1_0000_0000
  const HALF := 0x8000_0000
  const NUMBER_BUF_SIZE := 12

  type Str = s: string | '\0' !in s witness ""

  /** An argument: an integer of 32 bits, signed or not, or a string, which may be null. */
  datatype Arg = Int(v: int) | Text(s: Str) | Null

  // ---- Numbers ------------------------------------------------------------

  function Digit(d: nat): (c: char)
    requires d < 16
    ensures c != '\0'
  {
    "0123456789abcdef"[d]
  }

  predicate Base(b: nat) {
    b == 8 || b == 10 || b == 16
  }

  function Digits(n: nat, base: nat): (s: Str)
    requires Base(base)
    ensures |s| > 0
  {
    if n < base then [Digit(n)] else Digits(n / base, base) + [Digit(n % base)]
  }

  function Power(b: nat, n: nat): (p: nat)
    ensures b > 0 ==> p > 0
  {
    if n == 0 then 1 else b * Power(b, n - 1)
  }

  /** A number has no more digits than its bound allows. */
  lemma {:induction false} DigitsBound(n: nat, base: nat, k: nat)
    requires Base(base) && n < Power(base, k) && k > 0
    ensures |Digits(n, base)| <= k
  {
    if n >= base {
      assert Power(base, k) == base * Power(base, k - 1);
      assert k > 1 by { assert Power(base, 0) == 1; }
      DivBelow(n, base, Power(base, k - 1));
      DigitsBound(n / base, base, k - 1);
    }
  }

  lemma DivBelow(n: nat, b: nat, p: nat)
    requires Base(b) && n < b * p
    ensures n / b < p
  {
  }

  /** Any 32-bit number and the terminator fit the buffer, in every base; in base 8 with nothing to spare. */
  lemma BufferSuffices(n: nat, base: nat)
    requires Base(base) && n < WORD
    ensures |Digits(n, base)| + 1 <= NUMBER_BUF_SIZE
    ensures |Digits(WORD - 1, 8)| + 1 == NUMBER_BUF_SIZE
  {
    Powers();
    DigitsBound(n, base, 11);
    Octal();
  }

  lemma Powers()
    ensures Power(8, 11) >= WORD && Power(10, 11) >= WORD && Power(16, 11) >= WORD
  {
    assert Power(8, 4) == 4096 && Power(10, 4) == 10000 && Power(16, 4) == 65536;
    assert Power(8, 8) == 4096 * 4096 && Power(10, 8) == 10000 * 10000 && Power(16, 8) == 65536 * 65536;
  }

  lemma {:induction false} DigitsAtLeast(n: nat, base: nat, k: nat)
    requires Base(base) && n >= Power(base, k)
    ensures |Digits(n, base)| > k
  {
    if k > 0 {
      DivAtLeast(n, base, Power(base, k - 1));
      DigitsAtLeast(n / base, base, k - 1);
    }
  }

  lemma DivAtLeast(n: nat, b: nat, p: nat)
    requires Base(b) && n >= b * p && p > 0
    ensures n / b >= p && n >= b
  {
  }

  lemma Octal()
    ensures |Digits(WORD - 1, 8)| == 11
  {
    assert Power(8, 4) == 4096 && Power(8, 8) == 4096 * 4096;
    assert Power(8, 10) == 64 * Power(8, 8);
    DigitsAtLeast(WORD - 1, 8, 10);
    Powers();
    DigitsBound(WORD - 1, 8, 11);
  }

  // ---- A field ------------------------------------------------------------

  /** What has been seen of a directive. */
  datatype Spec = Spec(inPct: bool, long: bool, num: nat, neg: bool, spacing: nat, rightspc: bool, zero: bool,
                       base: nat, baseprefix: bool, alt: bool)

  const FRESH := Spec(false, false, 0, false, 0, false, false, 0, false, false)

  function Copies(c: char, n: nat): (s: string)
    ensures |s| == n && forall i :: 0 <= i < n ==> s[i] == c
  {
    seq(n, i => c)
  }

  function Padding(p: Spec, len: nat): nat {
    if p.spacing > len then p.spacing - len else 0
  }

  function FillChar(p: Spec): char {
    if p.zero then '0' else ' '
  }

  /** The prefixes come after padding with spaces and before padding with zeros. */
  function Field(p: Spec, prefix: string, prefix2: string, stuff: string): string {
    var fill := Copies(FillChar(p), Padding(p, |prefix| + |prefix2| + |stuff|));
    (if !p.rightspc && !p.zero then fill else [])
    + prefix + prefix2
    + (if !p.rightspc && p.zero then fill else [])
    + stuff
    + (if p.rightspc then fill else [])
  }

  function BasePrefix(p: Spec): string {
    if p.baseprefix && p.base == 16 then "0x" else if p.baseprefix && p.base == 8 then "0" else ""
  }

  function NumText(p: Spec): string
    requires Base(p.base)
  {
    Field(p, if p.neg then "-" else "", BasePrefix(p), Digits(p.num, p.base))
  }

  // ---- Directives ---------------------------------------------------------

  predicate IsModifier(ch: char) {
    ch in "#-ql0123456789"
  }

  function Modify(p: Spec, ch: char): Spec
    requires IsModifier(ch)
  {
    if ch == '#' then p.(alt := true)
    else if ch == '-' then p.(rightspc := true)
    else if ch == 'l' || ch == 'q' then p.(long := true)
    else if ch == '0' then
      if p.spacing > 0 then p.(spacing := p.spacing * 10) else p.(zero := true)
    else
      p.(spacing := p.spacing * 10 + (ch as int - '0' as int))
  }

  function ArgInt(args: seq<Arg>): int {
    if args != [] && args[0].Int? then args[0].v else 0
  }

  function Rest(args: seq<Arg>): seq<Arg> {
    if args == [] then [] else args[1..]
  }

  /** The two's complement reading of an integer in 32 bits. */
  function Unsigned(v: int): (n: nat)
    ensures n < WORD
  {
    v % WORD
  }

  function Signed(v: int): int {
    if Unsigned(v) < HALF then Unsigned(v) else Unsigned(v) - WORD
  }

  /** The number and its sign; the most negative number is its own negative in 32 bits. */
  function GetNum(p: Spec, ch: char, v: int): Spec {
    if ch == 'd' then
      if Signed(v) < 0 then p.(neg := true, num := Unsigned(-Signed(v))) else p.(num := Unsigned(v))
    else p.(num := Unsigned(v))
  }

  predicate IsConversion(ch: char) {
    ch == 'd' || ch == 'o' || ch == 'u' || ch == 'p' || ch == 'x'
  }

  function SetBase(p: Spec, ch: char): (q: Spec)
    ensures IsConversion(ch) ==> Base(q.base)
    ensures q.num == p.num
  {
    var q :=
      if ch == 'd' || ch == 'u' then p.(base := 10)
      else if ch == 'x' || ch == 'p' then p.(base := 16)
      else if ch == 'o' then p.(base := 8)
      else p;
    if q.alt || ch == 'p' then q.(baseprefix := true) else q
  }

  function CharOf(v: int): string {
    if v % 256 == 0 then "" else [(v % 256) as char]
  }

  datatype State = State(p: Spec, args: seq<Arg>, out: string)

  /** One character of the format. */
  function Feed(s: State, ch: char): State {
    if !s.p.inPct && ch != '%' then s.(out := s.out + [ch])
    else if !s.p.inPct then s.(p := s.p.(inPct := true))
    else if IsModifier(ch) then s.(p := Modify(s.p, ch))
    else if IsConversion(ch) then
      State(FRESH, Rest(s.args), s.out + NumText(SetBase(GetNum(s.p, ch, ArgInt(s.args)), ch)))
    else if ch == 's' then
      var text := if s.args != [] && s.args[0].Text? then s.args[0].s else "(null)";
      State(FRESH, Rest(s.args), s.out + Field(s.p, "", "", text))
    else if ch == 'c' then
      State(FRESH, Rest(s.args), s.out + Field(s.p, "", "", CharOf(ArgInt(s.args))))
    else
      State(FRESH, s.args, s.out + Field(s.p, "", "", [ch]))
  }

  function FeedAll(s: State, fmt: string): State
    decreases |fmt|
  {
    if fmt == "" then s else FeedAll(Feed(s, fmt[0]), fmt[1..])
  }

  function Format(fmt: string, args: seq<Arg>): string {
    FeedAll(State(FRESH, args, ""), fmt).out
  }

  // ---- The format in parts -------------------------------------------------

  lemma {:induction false} FeedJoin(s: State, a: string, b: string)
    ensures FeedAll(s, a + b) == FeedAll(FeedAll(s, a), b)
    decreases |a|
  {
    hide Feed;
    if a == "" {
      assert a + b == b;
    } else {
      assert (a + b)[1..] == a[1..] + b;
      FeedJoin(Feed(s, a[0]), a[1..], b);
    }
  }

  lemma FeedOne(s: State, c: char)
    ensures FeedAll(s, [c]) == Feed(s, c)
  {
    hide Feed;
    assert [c][1..] == "";
    assert FeedAll(Feed(s, c), "") == Feed(s, c);
  }

  lemma FeedNothing(s: State)
    ensures FeedAll(s, "") == s
  {
  }
}
