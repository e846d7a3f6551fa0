/** The routines of printfmt.c, printing into the bounded buffer of `vsnprintf`. */
module PrintRun {
  import opened Machine
  import opened PrintFmt

  const E_INVAL := 3

  /** A buffer with the first n - 1 characters, or all of them if they are fewer, and a NUL behind them,
      and otherwise as it was. */
  predicate Bounded(now: seq<byte>, was: seq<byte>, out: seq<byte>, n: nat)
    requires 1 <= n <= |now| == |was|
  {
    var m := if |out| < n - 1 then |out| else n - 1;
    now[..m] == out[..m] && now[m] == 0 && now[m + 1..] == was[m + 1..]
  }

  /** `struct sprintbuf`: where the next character goes, where the last one must go, and the count. The
      ghost field is all that was printed. */
  class SprintBuf {
    const mem: array<byte>
    const ebuf: nat
    var buf: nat
    var cnt: nat
    ghost var out: seq<byte>
    ghost const before: seq<byte>

    /** The buffer holds the first characters printed, as many as go before ebuf; the rest is untouched. */
    ghost predicate Valid()
      reads this, mem
    {
      && ebuf < mem.Length && |before| == mem.Length
      && cnt == |out| && buf == (if |out| < ebuf then |out| else ebuf)
      && mem[..] == out[..buf] + before[buf..]
    }

    constructor (mem: array<byte>, n: nat)
      requires 1 <= n <= mem.Length
      ensures Valid() && this.mem == mem && ebuf == n - 1 && cnt == 0 && out == [] && before == mem[..]
    {
      this.mem, ebuf, buf, cnt := mem, n - 1, 0, 0;
      out, before := [], mem[..];
    }

    /** `sprintputch`. */
    method SprintPutch(ch: byte)
      requires Valid()
      modifies this, mem
      ensures Valid() && out == old(out) + [ch]
    {
      cnt := cnt + 1;
      if buf < ebuf {
        mem[buf] := ch;
        buf := buf + 1;
      }
      out := out + [ch];
    }

    /** The NUL at the end. */
    method Terminate()
      requires Valid()
      modifies mem
      ensures Bounded(mem[..], before, out, ebuf + 1)
    {
      Terminated(mem[..], out, before, buf);
      mem[buf] := 0;
    }

    /** The same character several times: a padding loop. */
    method Repeat(ch: byte, n: int)
      requires Valid()
      modifies this, mem
      ensures Valid() && out == old(out) + Padding(ch, n)
    {
      var width := n;
      while width > 0
        invariant Valid() && width <= n && (n >= 0 ==> width >= 0)
        invariant out == old(out) + Padding(ch, if n < 0 then 0 else n - width)
        decreases width
      {
        SprintPutch(ch);
        width := width - 1;
      }
    }

    /** `printnum`. */
    method PrintNum(num: nat, base: nat, width: int, padc: byte)
      requires Valid() && 2 <= base <= 16
      modifies this, mem
      ensures Valid() && out == old(out) + Number(num, base, width, padc)
      decreases num
    {
      hide Number, Digits, DigitChar, Padding, Valid;
      if num >= base {
        NumberStep(num, base, width, padc);
        PrintNum(num / base, base, width - 1, padc);
      } else {
        NumberLast(num, base, width, padc);
        Repeat(padc, width - 1);
      }
      SprintPutch(DigitChar(num % base));
    }

    /** The characters of a string, as many as the precision lets through, each counted off the width. */
    method PrintShown(t: seq<byte>, s: Spec, width: int) returns (rest: int)
      requires Valid()
      modifies this, mem
      ensures Valid() && out == old(out) + ShownAll(t[..Limit(t, s.precision)], s.altflag)
      ensures rest == width - Limit(t, s.precision)
    {
      hide Shown, ShownAll, Valid;
      var precision, i := s.precision, 0;
      rest := width;
      assert ShownAll([], s.altflag) == [];
      while i < |t| && (precision < 0 || precision - 1 >= 0)
        invariant Valid() && i <= Limit(t, s.precision) && rest == width - i
        invariant precision == if s.precision < 0 then s.precision else s.precision - i
        invariant out == old(out) + ShownAll(t[..i], s.altflag)
      {
        ShownNext(t, i, s.altflag);
        SprintPutch(Shown(t[i], s.altflag));
        precision, rest, i := if precision < 0 then precision else precision - 1, rest - 1, i + 1;
      }
    }

    /** The case of `%s`. */
    method PrintText(t: seq<byte>, s: Spec)
      requires Valid()
      modifies this, mem
      ensures Valid() && out == old(out) + TextOf(t, s)
    {
      hide ShownAll, Valid, Padding;
      var width := s.width;
      if width > 0 && s.padc != '-' as int {
        width := width - Limit(t, s.precision);
        Repeat(s.padc, width);
        width := if width < 0 then width else 0;
      }
      width := PrintShown(t, s, width);
      Repeat(' ' as int, width);
      TextParts(t, s, width);
    }

    /** `%e`: the text of an error code. */
    method PrintError(err: nat)
      requires Valid() && err < TWO_31
      modifies this, mem
      ensures Valid() && out == old(out) + ErrorText(err)
      decreases 1, 0
    {
      hide Stream, CString, MayNest, Valid;
      NestedFormats();
      if err >= MAXERROR || ErrorString(err) == "" {
        ErrorFormat(err);
        VPrintFmt(ERROR_FORMAT, [Word(err)]);
      } else {
        TextFormat(Chars(ErrorString(err)));
        VPrintFmt(TEXT_FORMAT, [Text(Chars(ErrorString(err)))]);
      }
    }

    /** `number:` with the sign or prefix before it. */
    method PrintPrefixed(prefix: seq<byte>, num: nat, base: nat, s: Spec)
      requires Valid() && 2 <= base <= 16 && |prefix| <= 2
      modifies this, mem
      ensures Valid() && out == old(out) + (prefix + Number(num, base, s.width, s.padc))
    {
      hide Number, Valid;
      if |prefix| > 0 {
        SprintPutch(prefix[0]);
      }
      if |prefix| > 1 {
        SprintPutch(prefix[1]);
      }
      assert out == old(out) + prefix;
      PrintNum(num, base, s.width, s.padc);
    }

    /** The conversions. */
    method PrintConversion(ch: byte, s: Spec, args: seq<Arg>, arg: nat, ghost nest: nat) returns (next: nat)
      requires Valid() && IsConversion(ch) && Convert(ch, s, args, arg).Printed?
      requires ch == 'e' as int ==> nest == 1
      modifies this, mem
      ensures Valid() && out == old(out) + Convert(ch, s, args, arg).out && next == Convert(ch, s, args, arg).arg
      decreases nest, 1
    {
      hide Number, TextOf, ErrorText, Valid, Digits;
      next := arg + 1;
      if ch == '%' as int {
        SprintPutch(ch);
        next := arg;
      } else if ch == 's' as int {
        PrintText(if args[arg].Text? then args[arg].s else Chars("(null)"), s);
      } else {
        var w := args[arg].w;
        if ch == 'c' as int {
          SprintPutch(w % 256);
        } else if ch == 'e' as int {
          var err := Signed32(w % TWO_32);
          PrintError(if err < 0 then -err else err);
        } else if ch == 'd' as int {
          var v: int := Signed64(w);
          PrintPrefixed(if v < 0 then ['-' as int] else [], if v < 0 then -v else v, 10, s);
        } else if ch == 'p' as int {
          PrintPrefixed(['0' as int, 'x' as int], w, 16, s);
        } else {
          PrintPrefixed([], w, if ch == 'u' as int then 10 else if ch == 'o' as int then 8 else 16, s);
        }
      }
    }

    /** One directive, from its percent sign on; an unrecognised one prints the percent sign and goes
        back to the character behind it. */
    method Directive(data: seq<byte>, i: nat, args: seq<Arg>, arg: nat)
      returns (fmt: nat, next: nat, ghost printed: seq<byte>)
      requires Valid() && CString(data) && i < |data| && data[i] == '%' as int && Stream(data, i, args, arg).Output?
      modifies this, mem
      ensures Valid() && out == old(out) + printed && i < fmt < |data|
      ensures Stream(data, i, args, arg) == Then(printed, Stream(data, fmt, args, next))
      decreases if MayNest(data) then 1 else 0, 2
    {
      hide Flags, Convert, Valid;
      var ch, end, s;
      ch, end, s, next := ReadFlags(data, i + 1, args, arg);
      if IsConversion(ch) {
        printed := Convert(ch, s, args, next).out;
        next := PrintConversion(ch, s, args, next, if MayNest(data) then 1 else 0);
        fmt := end;
      } else {
        FlagsOnly(data, i + 1, START, args, arg);
        SprintPutch('%' as int);
        printed := ['%' as int];
        fmt := end - 1;
        while data[fmt - 1] != '%' as int
          invariant i < fmt < end
          decreases fmt
        {
          fmt := fmt - 1;
        }
        assert fmt == i + 1;
      }
    }

    /** `vprintfmt`: everything the format and the arguments call for. */
    method VPrintFmt(data: seq<byte>, args: seq<Arg>)
      requires Valid() && CString(data) && Stream(data, 0, args, 0).Output?
      modifies this, mem
      ensures Valid() && out == old(out) + Stream(data, 0, args, 0).out
      decreases if MayNest(data) then 1 else 0, 3
    {
      hide Flags, Convert, Valid, IsConversion, MayNest;
      ghost var goal := Stream(data, 0, args, 0);
      ghost var printed: seq<byte> := [];
      ThenThen([], [], goal);
      var fmt, arg := 0, 0;
      while true
        invariant fmt < |data| && Valid() && out == old(out) + printed
        invariant Then(printed, Stream(data, fmt, args, arg)) == goal
        decreases |data| - fmt
      {
        if data[fmt] == 0 {
          assert printed + [] == printed;
          return;
        }
        ghost var more: seq<byte>;
        if data[fmt] != '%' as int {
          more := [data[fmt]];
          SprintPutch(data[fmt]);
          fmt := fmt + 1;
        } else {
          fmt, arg, more := Directive(data, fmt, args, arg);
        }
        ThenThen(printed, more, Stream(data, fmt, args, arg));
        printed := printed + more;
      }
    }
  }

  /** The loop over the digits of a width or precision. */
  method ReadDigits(data: seq<byte>, i: nat) returns (precision: nat, fmt: nat)
    requires i < |data| && DigitRun(data, i, 0).Got?
    ensures DigitRun(data, i, 0) == Got(precision, fmt)
  {
    ghost var goal := DigitRun(data, i, 0);
    precision, fmt := 0, i;
    while true
      invariant fmt < |data| && DigitRun(data, fmt, precision) == goal
      decreases |data| - fmt
    {
      precision := precision * 10 + data[fmt] - '0' as int;
      fmt := fmt + 1;
      if data[fmt] < '0' as int || data[fmt] > '9' as int {
        return;
      }
    }
  }

  /** The switch on flags and fields, up to the conversion character. */
  method ReadFlags(data: seq<byte>, i: nat, args: seq<Arg>, k: nat) returns (ch: byte, fmt: nat, s: Spec, arg: nat)
    requires CString(data) && i < |data| && Flags(data, i, START, args, k).Flagged?
    ensures Flags(data, i, START, args, k) == Flagged(ch, fmt, s, arg)
  {
    hide DigitRun;
    ghost var goal := Flags(data, i, START, args, k);
    s, fmt, arg := START, i, k;
    while true
      invariant fmt < |data| && Sane(s) && Flags(data, fmt, s, args, arg) == goal
      decreases |data| - fmt
    {
      ch := data[fmt];
      if '1' as int <= ch <= '9' as int {
        var precision;
        precision, fmt := ReadDigits(data, fmt);
        s := Precise(s, precision);
      } else {
        fmt := fmt + 1;
        if ch == '-' as int {
          s := s.(padc := '-' as int);
        } else if ch == '0' as int {
          s := s.(padc := '0' as int);
        } else if ch == '*' as int {
          s, arg := Precise(s, Signed32(args[arg].w % TWO_32)), arg + 1;
        } else if ch == '.' as int {
          s := if s.width < 0 then s.(width := 0) else s;
        } else if ch == '#' as int {
          s := s.(altflag := true);
        } else if ch != 'l' as int {
          return;
        }
      }
    }
  }

  /** `vsnprintf`: the buffer holds the first n - 1 characters of all that is printed, or all of them if
      they are fewer, and a NUL behind them; nothing else of it changes. The result is the length of all
      that is printed, as long as it fits an int. */
  method Vsnprintf(mem: array?<byte>, n: int, data: seq<byte>, args: seq<Arg>) returns (ret: int)
    requires mem != null ==> n <= mem.Length
    requires CString(data) && Stream(data, 0, args, 0).Output? && |Stream(data, 0, args, 0).out| < TWO_31
    modifies mem
    ensures mem == null || n < 1 ==> ret == -E_INVAL
    ensures mem != null && n < 1 ==> mem[..] == old(mem[..])
    ensures mem != null && n >= 1 ==>
      var out := Stream(data, 0, args, 0).out;
      ret == |out| && Bounded(mem[..], old(mem[..]), out, n)
  {
    hide Stream, CString, Bounded;
    if mem == null || n < 1 {
      return -E_INVAL;
    }
    ret := PrintBounded(mem, n, data, args);
  }

  /** Behind the check of the buffer and its size. */
  method PrintBounded(mem: array<byte>, n: nat, data: seq<byte>, args: seq<Arg>) returns (cnt: nat)
    requires 1 <= n <= mem.Length && CString(data) && Stream(data, 0, args, 0).Output?
    modifies mem
    ensures cnt == |Stream(data, 0, args, 0).out|
    ensures Bounded(mem[..], old(mem[..]), Stream(data, 0, args, 0).out, n)
  {
    hide Stream, Bounded;
    var b := new SprintBuf(mem, n);
    b.VPrintFmt(data, args);
    assert b.out == Stream(data, 0, args, 0).out;
    cnt := b.cnt;
    b.Terminate();
  }

  lemma Terminated(now: seq<byte>, out: seq<byte>, before: seq<byte>, m: nat)
    requires m < |before| == |now| && m <= |out| && now == out[..m] + before[m..]
    ensures now[m := 0][..m] == out[..m] && now[m := 0][m + 1..] == before[m + 1..]
  {
  }

  lemma TextParts(t: seq<byte>, s: Spec, rest: int)
    requires var n := Limit(t, s.precision);
      rest == if s.width > 0 && s.padc != '-' as int then (if s.width < n then s.width - n else 0) - n else s.width - n
    ensures var n := Limit(t, s.precision);
      var left := if s.width > 0 && s.padc != '-' as int then Padding(s.padc, s.width - n) else [];
      TextOf(t, s) == left + ShownAll(t[..n], s.altflag) + Padding(' ' as int, rest)
  {
    hide ShownAll;
  }
}
