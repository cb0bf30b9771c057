/** printf as it runs, a character at a time, into a buffer of limited size. */
module Snprintfs {
  import opened Arith
  import opened Printfs

  /** The buffer, how many characters may be stored in it, and how many have been. */
  class Snp {
    const buf: array<char>
    const buflen: nat
    var bufpos: nat

    ghost predicate Valid()
      reads this
    {
      bufpos <= buflen <= buf.Length
    }

    /** What has been stored is the beginning of what has been sent, as far as there is room. */
    ghost predicate Stored(sent: string)
      requires Valid()
      reads this, buf
    {
      bufpos == Min(|sent|, buflen) && buf[..bufpos] == sent[..bufpos]
    }

    constructor (buf: array<char>, len: nat)
      requires len <= buf.Length
      ensures Valid() && this.buf == buf && buflen == (if len == 0 then 0 else len - 1) && Stored("")
    {
      this.buf := buf;
      buflen := if len == 0 then 0 else len - 1;
      bufpos := 0;
    }

    method Send(data: string, ghost sent: string)
      requires Valid() && Stored(sent)
      modifies this`bufpos, buf
      ensures Valid() && Stored(sent + data) && buf[buflen..] == old(buf[buflen..])
    {
      for i := 0 to |data|
        invariant Valid() && Stored(sent + data[..i]) && buf[buflen..] == old(buf[buflen..])
      {
        if bufpos < buflen {
          buf[bufpos] := data[i];
          bufpos := bufpos + 1;
        }
        assert data[..i + 1] == data[..i] + [data[i]];
      }
      assert data[..|data|] == data;
    }
  }

  function Min(a: nat, b: nat): nat {
    if a < b then a else b
  }

  class Printer {
    const snp: Snp
    var charcount: nat
    var p: Spec
    var args: seq<Arg>
    ghost var out: string

    ghost predicate Valid()
      reads this, snp, snp.buf
    {
      snp.Valid() && snp.Stored(out) && charcount == |out|
    }

    ghost function View(): State
      reads this
    {
      State(p, args, out)
    }

    constructor (snp: Snp, args: seq<Arg>)
      requires snp.Valid() && snp.Stored("")
      ensures Valid() && this.snp == snp && View() == State(FRESH, args, "")
    {
      this.snp, this.args := snp, args;
      charcount, p, out := 0, FRESH, "";
    }

    /** The end of the buffer, which no character is ever stored in. */
    twostate predicate EndKept()
      reads snp, snp.buf
    {
      snp.buflen <= snp.buf.Length && snp.buf[snp.buflen..] == old(snp.buf[snp.buflen..])
    }

    method Print(txt: string)
      requires Valid()
      modifies this`charcount, this`out, snp`bufpos, snp.buf
      ensures Valid() && out == old(out) + txt && EndKept()
    {
      snp.Send(txt, out);
      charcount := charcount + |txt|;
      out := out + txt;
    }

    method Fill(spc: nat)
      requires Valid()
      modifies this`charcount, this`out, snp`bufpos, snp.buf
      ensures Valid() && out == old(out) + Copies(FillChar(p), spc) && EndKept()
    {
      var c := if p.zero then '0' else ' ';
      for i := 0 to spc
        invariant Valid() && out == old(out) + Copies(c, i) && EndKept()
      {
        Print([c]);
        assert Copies(c, i) + [c] == Copies(c, i + 1);
      }
    }

    method PrintStuff(prefix: string, prefix2: string, stuff: string)
      requires Valid()
      modifies this`charcount, this`out, snp`bufpos, snp.buf
      ensures Valid() && out == old(out) + Field(p, prefix, prefix2, stuff) && EndKept()
    {
      hide Snp.Stored;
      var len := |prefix| + |prefix2| + |stuff|;
      var spc := p.spacing;
      if spc > len {
        spc := spc - len;
      } else {
        spc := 0;
      }
      ghost var was := out;
      ghost var fill := Copies(FillChar(p), spc);
      if spc > 0 && !p.rightspc && !p.zero {
        Fill(spc);
      }
      Print(prefix);
      Print(prefix2);
      if spc > 0 && !p.rightspc && p.zero {
        Fill(spc);
      }
      Print(stuff);
      if spc > 0 && p.rightspc {
        Fill(spc);
      }
      FieldIs(was, out, p, prefix, prefix2, stuff, fill);
    }

    /** Convert the number to text and print it with its sign and prefix. */
    method PrintNum()
      requires Valid() && Base(p.base) && p.num < WORD
      modifies this`charcount, this`out, snp`bufpos, snp.buf
      ensures Valid() && out == old(out) + NumText(p) && EndKept()
    {
      hide Snp.Stored, Field;
      var text := Convert(p.num, p.base);
      var sprefix := if p.neg then "-" else "";
      PrintStuff(sprefix, BasePrefix(p), text);
    }

    method EndField()
      modifies this`p
      ensures p == FRESH
    {
      p := FRESH;
    }

    method Modifier(ch: char)
      requires IsModifier(ch)
      modifies this`p
      ensures p == Modify(old(p), ch)
    {
      match ch
      case '#' => p := p.(alt := true);
      case '-' => p := p.(rightspc := true);
      case 'l' => p := p.(long := true);
      case 'q' => p := p.(long := true);
      case '0' =>
        if p.spacing > 0 {
          p := p.(spacing := p.spacing * 10);
        } else {
          p := p.(zero := true);
        }
      case _ =>
        assert '0' < ch <= '9';
        p := p.(spacing := p.spacing * 10 + (ch as int - '0' as int));
    }

    /** Fetch a number: a signed one is split into sign and magnitude. */
    method FetchNum(ch: char)
      modifies this`p, this`args
      ensures p == GetNum(old(p), ch, ArgInt(old(args))) && args == Rest(old(args)) && p.num < WORD
    {
      var v := ArgInt(args);
      args := Rest(args);
      if ch == 'd' {
        var signednum := Signed(v);
        if signednum < 0 {
          p := p.(neg := true, num := Unsigned(-signednum));
        } else {
          p := p.(num := Unsigned(v));
        }
      } else {
        p := p.(num := Unsigned(v));
      }
    }

    method ChooseBase(ch: char)
      modifies this`p
      ensures p == SetBase(old(p), ch)
    {
      match ch {
        case 'd' => p := p.(base := 10);
        case 'u' => p := p.(base := 10);
        case 'x' => p := p.(base := 16);
        case 'p' => p := p.(base := 16);
        case 'o' => p := p.(base := 8);
        case _ =>
      }
      if p.alt || ch == 'p' {
        p := p.(baseprefix := true);
      }
    }

    /** One character of the format. */
    method SendChar(ch: char)
      requires Valid()
      modifies this, snp`bufpos, snp.buf
      ensures Valid() && View() == Feed(old(View()), ch) && EndKept()
    {
      hide Snp.Stored, NumText, Field, Modify, GetNum, SetBase, IsModifier;
      if !p.inPct && ch != '%' {
        Print([ch]);
      } else if !p.inPct {
        p := p.(inPct := true);
      } else if IsModifier(ch) {
        Modifier(ch);
      } else if IsConversion(ch) {
        FetchNum(ch);
        ChooseBase(ch);
        PrintNum();
        EndField();
      } else if ch == 's' {
        var str := if args != [] && args[0].Text? then args[0].s else "(null)";
        args := Rest(args);
        PrintStuff("", "", str);
        EndField();
      } else {
        var x := [ch];
        if ch == 'c' {
          x := CharOf(ArgInt(args));
          args := Rest(args);
        }
        PrintStuff("", "", x);
        EndField();
      }
    }
  }

  /** A whole printf. */
  method Vprintf(snp: Snp, format: string, args: seq<Arg>) returns (chars: nat)
    requires snp.Valid() && snp.Stored("")
    modifies snp`bufpos, snp.buf
    ensures snp.Valid() && snp.Stored(Format(format, args)) && chars == |Format(format, args)|
    ensures snp.buf[snp.buflen..] == old(snp.buf[snp.buflen..])
  {
    hide Feed;
    var pf := new Printer(snp, args);
    ghost var s := pf.View();
    for i := 0 to |format|
      invariant fresh(pf) && pf.snp == snp && pf.Valid() && FeedAll(pf.View(), format[i..]) == FeedAll(s, format)
      invariant snp.buf[snp.buflen..] == old(snp.buf[snp.buflen..])
    {
      assert format[i..][1..] == format[i + 1..];
      pf.SendChar(format[i]);
    }
    assert format[|format|..] == "";
    chars := pf.charcount;
  }

  /**
   * Store the first characters of the text, as many as leave room for the terminator, then the terminator;
   * write nothing past it and nothing at all if there is no room; return the length of the whole text.
   */
  method Vsnprintf(buf: array<char>, len: nat, fmt: string, args: seq<Arg>) returns (chars: nat)
    requires len <= buf.Length
    modifies buf
    ensures var text := Format(fmt, args); chars == |text| && (len == 0 ==> buf[..] == old(buf[..]))
    ensures var text := Format(fmt, args); len > 0 ==>
      var k := Min(|text|, len - 1); buf[..k] == text[..k] && buf[k] == '\0' && buf[len..] == old(buf[len..])
  {
    hide Format;
    var snp := new Snp(buf, len);
    ghost var was := buf[..];
    chars := Vprintf(snp, fmt, args);
    ghost var text := Format(fmt, args);
    ghost var k := snp.bufpos;
    if len > 0 {
      ghost var now := buf[..];
      buf[snp.bufpos] := '\0';
      assert buf[..k] == now[..k] == text[..k];
      assert now[len - 1..] == was[len - 1..];
      assert buf[len..] == now[len..] == was[len - 1..][1..] == was[len..];
    } else {
      assert buf[..] == buf[0..] == was[0..] == was;
    }
  }

  /** The digits go into a buffer from its end; it is always long enough. */
  method Convert(num: nat, base: nat) returns (text: string)
    requires Base(base) && num < WORD
    ensures text == Digits(num, base)
  {
    hide Digits;
    var buf := new char[NUMBER_BUF_SIZE](_ => '\0');
    var x := NUMBER_BUF_SIZE - 2;
    BufferSuffices(num, base);
    ghost var whole := Digits(num, base);
    var xnum: nat := num;
    LastDigit(xnum, base);
    buf[x] := Digit(xnum % base);
    assert buf[x..NUMBER_BUF_SIZE - 1] == [Digit(xnum % base)];
    x := x - 1;
    xnum := xnum / base;
    while xnum > 0
      invariant -1 <= x < NUMBER_BUF_SIZE - 2 && Written(whole, buf[x + 1..NUMBER_BUF_SIZE - 1], xnum, base)
      decreases xnum
    {
      ghost var done := buf[x + 1..NUMBER_BUF_SIZE - 1];
      Shorter(whole, done, xnum, base);
      LastDigit(xnum, base);
      WriteMore(whole, done, xnum, base);
      buf[x] := Digit(xnum % base);
      assert buf[x..NUMBER_BUF_SIZE - 1] == [Digit(xnum % base)] + done;
      x := x - 1;
      xnum := xnum / base;
    }
    x := x + 1;
    assert "" + buf[x..NUMBER_BUF_SIZE - 1] == buf[x..NUMBER_BUF_SIZE - 1];
    text := buf[x..NUMBER_BUF_SIZE - 1];
  }

  lemma WriteMore(whole: string, done: string, left: nat, base: nat)
    requires Written(whole, done, left, base) && left > 0
    ensures left % base < 16 && Written(whole, [Digit(left % base)] + done, left / base, base)
  {
    LastDigit(left, base);
    var rest := if left / base == 0 then "" else Digits(left / base, base);
    assert rest + [Digit(left % base)] + done == rest + ([Digit(left % base)] + done);
  }

  /** The digits written so far end the number's text; the rest of it is the text of what is left. */
  ghost predicate Written(whole: string, done: string, left: nat, base: nat) {
    Base(base) && |done| > 0 && whole == (if left == 0 then "" else Digits(left, base)) + done
  }

  lemma LastDigit(n: nat, base: nat)
    requires Base(base)
    ensures n % base < 16
    ensures Digits(n, base) == (if n / base == 0 then "" else Digits(n / base, base)) + [Digit(n % base)]
  {
    hide Digit;
    if n < base {
      Small(n, base);
      assert "" + [Digit(n)] == [Digit(n)];
    } else {
      Quotient(n, base);
    }
  }

  lemma Quotient(n: nat, base: nat)
    requires Base(base) && n >= base
    ensures n / base > 0
  {
    assert n == base * (n / base) + n % base;
  }

  lemma Shorter(whole: string, done: string, left: nat, base: nat)
    requires Written(whole, done, left, base) && left > 0
    ensures |done| < |whole|
  {
  }

  lemma FieldIs(was: string, now: string, p: Spec, prefix: string, prefix2: string, stuff: string, fill: string)
    requires fill == Copies(FillChar(p), Padding(p, |prefix| + |prefix2| + |stuff|))
    requires now ==
      was + (if !p.rightspc && !p.zero then fill else "") + prefix + prefix2
          + (if !p.rightspc && p.zero then fill else "") + stuff + (if p.rightspc then fill else "")
    ensures now == was + Field(p, prefix, prefix2, stuff)
  {
    var a := if !p.rightspc && !p.zero then fill else "";
    var b := if !p.rightspc && p.zero then fill else "";
    var c := if p.rightspc then fill else "";
    assert was + a + prefix + prefix2 + b + stuff + c == was + (a + prefix + prefix2 + b + stuff + c);
  }
}
