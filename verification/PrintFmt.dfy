/** The formatted-output engine: what a format string and its arguments print, and a bounded buffer that stores it. */
module PrintFmt {
  import opened Machine
  import opened Division

  const DIGITS: string := "0123456789abcdef"
  const ERRORS: seq<string> := ["unspecified error", "bad environment", "invalid parameter", "out of memory",
    "out of environments", "segmentation fault", "env is not recving", "unexpected end of file"]
  const INVALID: int := -2

  function Max(a: int, b: int): int { if a > b then a else b }

  // ---------- Numbers ----------

  function Pads(padc: char, n: int): (r: string)
    ensures |r| == Max(0, n) && forall i | 0 <= i < |r| :: r[i] == padc
    decreases Max(0, n)
  {
    if n <= 0 then "" else [padc] + Pads(padc, n - 1)
  }

  /** The digits of a number, most significant first and none superfluous. */
  function Digits(num: nat, base: nat): (r: string)
    requires 2 <= base <= 16
    ensures |r| > 0
    decreases num
  {
    if num < base then [DIGITS[num]] else Quotients(num, base); Digits(num / base, base) + [DIGITS[num % base]]
  }

  lemma Quotients(num: nat, base: nat)
    requires 2 <= base <= num
    ensures 0 < num / base < num && num % base < base
  {
    QuotientIsBetween(num, base, num / base, num % base);
  }

  lemma QuotientIsBetween(num: nat, base: nat, q: int, r: nat)
    requires 2 <= base <= num && num == base * q + r && r < base
    ensures 0 < q < num
  {
    MultipleIsFar(base, q);
    if q > 0 { assert base * q == 2 * q + (base - 2) * q; }
  }

  /** The number that a string of digits denotes. */
  ghost function Reading(s: string, base: nat): nat {
    if s == "" then 0 else Reading(s[..|s| - 1], base) * base + DigitOf(s[|s| - 1])
  }

  function DigitOf(c: char): nat {
    if '0' <= c <= '9' then c as int - '0' as int else if 'a' <= c <= 'f' then c as int - 'a' as int + 10 else 16
  }

  predicate Numeral(s: string, base: nat) {
    |s| > 0 && (|s| > 1 ==> s[0] != '0') && forall i | 0 <= i < |s| :: DigitOf(s[i]) < base
  }

  lemma DigitTable(d: nat)
    requires d < 16
    ensures DigitOf(DIGITS[d]) == d
  {
  }

  /** The digits evaluate back to the number, and no shorter numeral does: a numeral is the digits of what it reads
      as. */
  lemma {:induction false} DigitsEvaluate(num: nat, base: nat)
    requires 2 <= base <= 16
    ensures Reading(Digits(num, base), base) == num && Numeral(Digits(num, base), base)
    ensures num > 0 ==> Digits(num, base)[0] != '0'
    decreases num
  {
    if num < base {
      OneDigit(num, base);
    } else {
      Quotients(num, base);
      DigitsSplit(num, base);
      DigitsEvaluate(num / base, base);
      hide Digits, Reading, Numeral;
      OneMoreDigit(Digits(num / base, base), base, num % base);
    }
  }

  lemma OneDigit(d: nat, base: nat)
    requires 2 <= base <= 16 && d < base
    ensures Digits(d, base) == [DIGITS[d]] && Reading([DIGITS[d]], base) == d && Numeral([DIGITS[d]], base)
    ensures d > 0 ==> DIGITS[d] != '0'
  {
    DigitTable(d);
    assert [DIGITS[d]][..0] == "";
  }

  lemma DigitsSplit(num: nat, base: nat)
    requires 2 <= base <= 16 && base <= num
    ensures Digits(num, base) == Digits(num / base, base) + [DIGITS[num % base]]
    ensures num == num / base * base + num % base && 0 < num / base && num % base < base
  {
    Quotients(num, base);
  }

  lemma OneMoreDigit(t: string, base: nat, d: nat)
    requires 2 <= base <= 16 && d < base && Numeral(t, base) && t[0] != '0'
    ensures Reading(t + [DIGITS[d]], base) == Reading(t, base) * base + d && Numeral(t + [DIGITS[d]], base)
    ensures (t + [DIGITS[d]])[0] == t[0]
  {
    DigitTable(d);
    var s := t + [DIGITS[d]];
    assert s[..|s| - 1] == t;
    forall i | 0 <= i < |s| ensures DigitOf(s[i]) < base {
      if i < |t| { assert s[i] == t[i]; }
    }
  }

  /** Only one numeral reads as a given number, so the digits are the numeral. */
  lemma {:induction false} NumeralsAgree(s: string, base: nat)
    requires 2 <= base <= 16 && Numeral(s, base)
    ensures Digits(Reading(s, base), base) == s
    decreases |s|
  {
    NumeralParts(s, base);
    DigitNamed(s[|s| - 1]);
    hide Reading, Digits, DigitOf;
    if |s| == 1 {
      OneDigit(DigitOf(s[0]), base);
    } else {
      NumeralsAgree(s[..|s| - 1], base);
      LastDigit(s, base);
      assert s == s[..|s| - 1] + [s[|s| - 1]];
    }
  }

  lemma LastDigit(s: string, base: nat)
    requires 2 <= base <= 16 && Numeral(s, base) && |s| > 1
    ensures Digits(Reading(s, base), base) == Digits(Reading(s[..|s| - 1], base), base) + [s[|s| - 1]]
  {
    hide Reading, Digits, DigitOf;
    NumeralParts(s, base);
    DigitNamed(s[|s| - 1]);
    LeadingDigit(s[..|s| - 1], base);
    AppendedDigit(Reading(s[..|s| - 1], base), base, DigitOf(s[|s| - 1]));
  }

  lemma NumeralParts(s: string, base: nat)
    requires 2 <= base <= 16 && Numeral(s, base)
    ensures var t := s[..|s| - 1];
            && DigitOf(s[|s| - 1]) < base
            && if |s| == 1 then Reading(s, base) == DigitOf(s[0])
               else Numeral(t, base) && t[0] != '0' && Reading(s, base) == Reading(t, base) * base + DigitOf(s[|s| - 1])
  {
    if |s| == 1 { assert s[..0] == ""; }
    assert forall i | 0 <= i < |s| - 1 :: s[..|s| - 1][i] == s[i];
  }

  lemma DigitNamed(c: char)
    requires DigitOf(c) < 16
    ensures DIGITS[DigitOf(c)] == c
  {
  }

  lemma {:induction false} LeadingDigit(s: string, base: nat)
    requires 2 <= base <= 16 && Numeral(s, base) && s[0] != '0'
    ensures Reading(s, base) > 0
  {
    var t := s[..|s| - 1];
    if |s| == 1 {
      DigitNamed(s[0]);
    } else {
      assert Numeral(t, base) by { assert forall i | 0 <= i < |t| :: t[i] == s[i]; }
      LeadingDigit(t, base);
      MultipleIsFar(base, Reading(t, base));
    }
  }

  lemma AppendedDigit(n: nat, base: nat, d: nat)
    requires 2 <= base <= 16 && n > 0 && d < base
    ensures Digits(n * base + d, base) == Digits(n, base) + [DIGITS[d]]
  {
    MultipleIsFar(base, n);
    RemainderIs(n * base + d, base, n, d);
  }

  /** `printnum`: the padding goes before the most significant digit. */
  function Number(num: nat, base: nat, width: int, padc: char): string
    requires 2 <= base <= 16
  {
    Pads(padc, width - |Digits(num, base)|) + Digits(num, base)
  }

  lemma NumberStep(num: nat, base: nat, width: int, padc: char)
    requires 2 <= base <= 16
    ensures num % base < base && 0 <= num / base && (num >= base ==> num / base < num)
    ensures Number(num, base, width, padc)
         == (if num >= base then Number(num / base, base, width - 1, padc) else Pads(padc, width - 1))
            + [DIGITS[num % base]]
  {
    if num >= base { DigitsSplit(num, base); Quotients(num, base); } else { RemainderIs(num, base, 0, num); }
    hide Digits, Pads;
  }

  lemma NoPads(n: nat, base: nat)
    requires 2 <= base <= 16
    ensures Number(n, base, -1, ' ') == Digits(n, base)
  {
  }

  // ---------- Directives ----------

  datatype Spec = Spec(padc: char, width: int, precision: int, lflag: nat, alt: bool)

  const PLAIN: Spec := Spec(' ', -1, -1, 0, false)

  /** The arguments: 64-bit slots, and what lies at the addresses among them. A slot that the caller did not pass reads
      as zero. */
  datatype Args = Args(slots: seq<nat>, strings: map<nat, string>)

  function Slot(a: Args, k: nat): (v: nat)
    ensures v < W64
  {
    if k < |a.slots| then a.slots[k] % W64 else 0
  }

  function StringAt(a: Args, p: nat): string {
    if p == 0 then "(null)" else if p in a.strings then a.strings[p] else ""
  }

  /** The character at a position of a format; the terminating NUL is at its end. */
  function At(f: string, i: nat): char { if i < |f| then f[i] else '\0' }

  predicate Digit(c: char) { '0' <= c <= '9' }

  /** A run of digits read from position i, after the value v: where it ends, and its value. */
  function DigitRun(f: string, i: nat, v: nat): (r: (nat, nat))
    requires i <= |f|
    ensures i <= r.0 <= |f| && (forall j | i <= j < r.0 :: Digit(f[j]))
    decreases |f| - i
  {
    if Digit(At(f, i)) then DigitRun(f, i + 1, v * 10 + (At(f, i) as int - '0' as int)) else (i, v)
  }

  /** A number in a directive is the width, or the precision when the width is known. */
  function Process(s: Spec, precision: int): Spec {
    if s.width < 0 then s.(width := precision, precision := -1) else s.(precision := precision)
  }

  /** Where a directive's conversion character stands, its flags, and the next argument. */
  datatype Directive = Directive(at: nat, spec: Spec, k: nat)

  predicate IsFlag(c: char) { c == '-' || Digit(c) || c == '*' || c == '.' || c == '#' || c == 'l' }

  function Flags(f: string, i: nat, s: Spec, a: Args, k: nat): (r: Directive)
    requires i <= |f|
    ensures i <= r.at <= |f| && forall j | i <= j < r.at :: f[j] != '%'
    decreases |f| - i
  {
    var c := At(f, i);
    if c == '-' then Flags(f, i + 1, s.(padc := '-'), a, k)
    else if c == '0' then Flags(f, i + 1, s.(padc := '0'), a, k)
    else if Digit(c) then
      var run := DigitRun(f, i, 0);
      Flags(f, run.0, Process(s, run.1), a, k)
    else if c == '*' then Flags(f, i + 1, Process(s, AsInt(Slot(a, k))), a, k + 1)
    else if c == '.' then Flags(f, i + 1, if s.width < 0 then s.(width := 0) else s, a, k)
    else if c == '#' then Flags(f, i + 1, s.(alt := true), a, k)
    else if c == 'l' then Flags(f, i + 1, if s.lflag < 2 then s.(lflag := s.lflag + 1) else s, a, k)
    else Directive(i, s, k)
  }

  predicate TakesNumber(c: char) { c == 'd' || c == 'u' || c == 'o' || c == 'p' || c == 'x' }

  predicate Known(c: char) { c == 'c' || c == 'e' || c == 's' || c == '%' || TakesNumber(c) }

  /** A string is cut at the precision, padded on the left by `padc` or, under the flag `-`, on the right by spaces. */
  function Shown(p: string, precision: int): string {
    if 0 <= precision < |p| then p[..precision] else p
  }

  function Mask(p: string, alt: bool): (r: string)
    ensures |r| == |p|
  {
    if p == "" then "" else [if alt && !(' ' <= p[0] <= '~') then '?' else p[0]] + Mask(p[1..], alt)
  }

  function Text(s: Spec, p: string): string {
    var shown := Shown(p, s.precision);
    if s.width > 0 && s.padc != '-' then Pads(s.padc, s.width - |shown|) + Mask(shown, s.alt)
    else Mask(shown, s.alt) + Pads(' ', s.width - |shown|)
  }

  function Base(c: char): nat { if c == 'd' || c == 'u' then 10 else if c == 'o' then 8 else 16 }

  /** A number: `d` shows a sign for the values that a 64-bit word holds as negative. */
  function Numeric(c: char, s: Spec, slot: nat): string
    requires slot < W64
  {
    var num := if s.lflag == 0 && c != 'p' then slot % W32 else slot;
    if c == 'd' && num >= W63 then "-" + Number(W64 - num, 10, s.width, s.padc)
    else (if c == 'p' then "0x" else "") + Number(num, Base(c), s.width, s.padc)
  }

  function ErrorText(err: int): string {
    var n := if err < 0 then -err else err;
    if n < |ERRORS| then ERRORS[n] else "error " + Digits(n, 10)
  }

  function Converted(c: char, s: Spec, a: Args, k: nat): string
    requires Known(c)
  {
    if c == 'c' then [(Slot(a, k) % 256) as char]
    else if c == 'e' then ErrorText(AsInt(Slot(a, k)))
    else if c == 's' then Text(s, StringAt(a, Slot(a, k)))
    else if c == '%' then "%"
    else Numeric(c, s, Slot(a, k))
  }

  /** What the format prints from position i on, with argument k next. */
  function Render(f: string, i: nat, a: Args, k: nat): string
    requires i <= |f|
    decreases |f| - i
  {
    if i == |f| || f[i] == '\0' then ""
    else if f[i] != '%' then [f[i]] + Render(f, i + 1, a, k)
    else
      var d := Flags(f, i + 1, PLAIN, a, k);
      var c := At(f, d.at);
      if Known(c) then Converted(c, d.spec, a, d.k) + Render(f, d.at + 1, a, if c == '%' then d.k else d.k + 1)
      else "%" + Render(f, i + 1, a, d.k)
  }

  // ---------- The bounded buffer ----------

  /** `struct sprintbuf`: `next` is the write position, `room` the last position, which the final NUL needs. */
  class SprintBuf {
    const buf: array<char>
    const room: nat
    var next: nat
    var cnt: nat
    ghost const before: seq<char>
    ghost var stream: string

    /** The buffer holds the stream as far as there is room; behind that it is untouched. */
    ghost predicate Valid()
      reads this, buf
    {
      && room < buf.Length && |before| == buf.Length
      && cnt == |stream| && next == (if cnt < room then cnt else room)
      && buf[..next] == stream[..next] && buf[next..] == before[next..]
    }

    constructor (buffer: array<char>, n: nat)
      requires 0 < n <= buffer.Length
      ensures Valid() && stream == "" && buf == buffer && room == n - 1 && before == buffer[..]
    {
      buf, room, next, cnt := buffer, n - 1, 0, 0;
      before, stream := buffer[..], "";
    }

    /** `sprintputch`: every character counts, and is stored while there is room. */
    method Put(ch: char)
      requires Valid()
      modifies this, buf
      ensures Valid() && stream == old(stream) + [ch]
    {
      cnt := cnt + 1;
      if next < room {
        buf[next] := ch;
        next := next + 1;
      }
      stream := stream + [ch];
    }

    method PutPads(padc: char, n: int)
      requires Valid()
      modifies this, buf
      ensures Valid() && stream == old(stream) + Pads(padc, n)
    {
      var width := n;
      ghost var start := stream;
      while width > 0
        invariant Valid() && start + Pads(padc, n) == stream + Pads(padc, width)
      {
        Put(padc);
        width := width - 1;
      }
    }

    /** `printnum`. */
    method PrintNum(num: nat, base: nat, width: int, padc: char)
      requires Valid() && 2 <= base <= 16
      modifies this, buf
      ensures Valid() && stream == old(stream) + Number(num, base, width, padc)
      decreases num
    {
      hide Number, Valid;
      NumberStep(num, base, width, padc);
      if num >= base {
        PrintNum(num / base, base, width - 1, padc);
      } else {
        PutPads(padc, width - 1);
      }
      Put(DIGITS[num % base]);
    }

    method PutText(text: string)
      requires Valid()
      modifies this, buf
      ensures Valid() && stream == old(stream) + text
    {
      var i := 0;
      while i < |text|
        invariant i <= |text| && Valid() && stream == old(stream) + text[..i]
      {
        Put(text[i]);
        i := i + 1;
      }
    }

    /** The characters of a string, as far as the precision allows; `width` is what they leave of the field. */
    method PutShown(p: string, s: Spec, field: int) returns (width: int)
      requires Valid()
      modifies this, buf
      ensures Valid() && stream == old(stream) + Mask(Shown(p, s.precision), s.alt)
      ensures width == field - |Shown(p, s.precision)|
    {
      var i, precision := 0, s.precision;
      width := field;
      ghost var shown := Shown(p, s.precision);
      while i < |p| && (precision < 0 || precision > 0)
        invariant i <= |shown| && precision == (if s.precision < 0 then s.precision else s.precision - i)
                  && width == field - i
        invariant Valid() && stream == old(stream) + Mask(shown, s.alt)[..i]
      {
        precision := if precision > 0 then precision - 1 else precision;
        MaskAt(shown, s.alt, i);
        assert Mask(shown, s.alt)[..i + 1] == Mask(shown, s.alt)[..i] + [Mask(shown, s.alt)[i]] && shown[i] == p[i];
        Put(if s.alt && !(' ' <= p[i] <= '~') then '?' else p[i]);
        i, width := i + 1, width - 1;
      }
    }

    /** The `%s` conversion. */
    method PutString(s: Spec, p: string)
      requires Valid()
      modifies this, buf
      ensures Valid() && stream == old(stream) + Text(s, p)
    {
      hide Valid, Mask, Shown;
      var width := s.width;
      if width > 0 && s.padc != '-' {
        width := width - |Shown(p, s.precision)|;
        PutPads(s.padc, width);
        width := if width > 0 then 0 else width;
        assert width <= 0;
      }
      width := PutShown(p, s, width);
      PutPads(' ', width);
    }

    /** The label `number`. */
    method PutNumeric(c: char, s: Spec, slot: nat)
      requires Valid() && TakesNumber(c) && slot < W64
      modifies this, buf
      ensures Valid() && stream == old(stream) + Numeric(c, s, slot)
    {
      hide Valid, Number;
      if c == 'p' {
        PutText("0x");
      }
      var num := if s.lflag == 0 && c != 'p' then slot % W32 else slot;
      if c == 'd' && num >= W63 {
        Put('-');
        num := W64 - num;
      }
      PrintNum(num, Base(c), s.width, s.padc);
    }

    /** The `%e` conversion, which prints through `printfmt`. */
    method PutError(err: int)
      requires Valid()
      modifies this, buf
      ensures Valid() && stream == old(stream) + ErrorText(err)
    {
      hide Valid, Number, Digits;
      var n := if err < 0 then -err else err;
      if n < |ERRORS| {
        PutText(ERRORS[n]);
      } else {
        PutText("error ");
        NoPads(n, 10);
        PrintNum(n, 10, -1, ' ');
      }
    }

    method PutConverted(c: char, s: Spec, a: Args, k: nat)
      requires Valid() && Known(c)
      modifies this, buf
      ensures Valid() && stream == old(stream) + Converted(c, s, a, k)
    {
      hide Valid;
      if c == 'c' {
        Put((Slot(a, k) % 256) as char);
      } else if c == 'e' {
        PutError(AsInt(Slot(a, k)));
      } else if c == 's' {
        PutString(s, StringAt(a, Slot(a, k)));
      } else if c == '%' {
        Put('%');
      } else {
        PutNumeric(c, s, Slot(a, k));
      }
    }

    /** `vprintfmt`. */
    method VPrintFmt(f: string, a: Args)
      requires Valid()
      modifies this, buf
      ensures Valid() && stream == old(stream) + Render(f, 0, a, 0)
    {
      hide Valid, Render, Flags, Converted;
      var i, k := 0, 0;
      while true
        invariant i <= |f| && Valid() && stream + Render(f, i, a, k) == old(stream) + Render(f, 0, a, 0)
        decreases |f| - i
      {
        while At(f, i) != '%'
          invariant i <= |f| && Valid() && stream + Render(f, i, a, k) == old(stream) + Render(f, 0, a, 0)
          decreases |f| - i
        {
          if At(f, i) == '\0' {
            RenderPlain(f, i, a, k);
            return;
          }
          RenderPlain(f, i, a, k);
          Joins(stream, [f[i]], Render(f, i + 1, a, k));
          Put(f[i]);
          i := i + 1;
        }
        RenderDirective(f, i, a, k);
        var start := i;
        var d := ScanFlags(f, i + 1, a, k);
        ghost var printed := stream;
        k := d.k;
        i := d.at + 1;
        if Known(At(f, d.at)) {
          PutConverted(At(f, d.at), d.spec, a, d.k);
          k := if At(f, d.at) == '%' then k else k + 1;
          Joins(printed, Converted(At(f, d.at), d.spec, a, d.k), Render(f, i, a, k));
        } else {
          Put('%');
          i := BackUp(f, start, i - 1);
          Joins(printed, "%", Render(f, i, a, k));
        }
      }
    }
  }

  lemma Joins(a: string, b: string, c: string)
    ensures (a + b) + c == a + (b + c)
  {
  }

  lemma RenderPlain(f: string, i: nat, a: Args, k: nat)
    requires i <= |f|
    ensures At(f, i) == '\0' ==> Render(f, i, a, k) == ""
    ensures At(f, i) != '\0' && At(f, i) != '%' ==> Render(f, i, a, k) == [f[i]] + Render(f, i + 1, a, k)
  {
  }

  lemma RenderDirective(f: string, i: nat, a: Args, k: nat)
    requires i < |f| && f[i] == '%'
    ensures var d := Flags(f, i + 1, PLAIN, a, k);
            var c := At(f, d.at);
            Render(f, i, a, k) ==
              if Known(c) then Converted(c, d.spec, a, d.k) + Render(f, d.at + 1, a, if c == '%' then d.k else d.k + 1)
              else "%" + Render(f, i + 1, a, d.k)
  {
    hide Flags, Converted, Known;
  }

  /** The backward scan after an unknown conversion ends behind the `%` that started the directive. */
  method BackUp(f: string, start: nat, at: nat) returns (i: nat)
    requires start < at <= |f| && f[start] == '%' && forall j | start < j < at :: f[j] != '%'
    ensures i == start + 1
  {
    i := at;
    while f[i - 1] != '%'
      invariant start < i <= at
      decreases i
    {
      i := i - 1;
    }
  }

  /** The digits of a width or precision, from position i. */
  method ReadDigits(f: string, i: nat) returns (end: nat, value: nat)
    requires Digit(At(f, i)) && i <= |f|
    ensures (end, value) == DigitRun(f, i, 0) && i < end <= |f|
  {
    value, end := 0, i;
    while Digit(At(f, end))
      invariant i <= end <= |f| && DigitRun(f, end, value) == DigitRun(f, i, 0)
      decreases |f| - end
    {
      value := value * 10 + (f[end] as int - '0' as int);
      end := end + 1;
    }
  }

  /** The switch of `vprintfmt` up to the conversion character. */
  method ScanFlags(f: string, i: nat, a: Args, k: nat) returns (d: Directive)
    requires i <= |f|
    ensures d == Flags(f, i, PLAIN, a, k)
  {
    hide DigitRun, Process;
    var at, s, arg := i, PLAIN, k;
    while IsFlag(At(f, at))
      invariant at <= |f| && Flags(f, at, s, a, arg) == Flags(f, i, PLAIN, a, k)
      decreases |f| - at
    {
      var c := f[at];
      if c == '-' || c == '0' {
        s, at := s.(padc := c), at + 1;
      } else if Digit(c) {
        var end, precision := ReadDigits(f, at);
        s, at := Process(s, precision), end;
      } else if c == '*' {
        s, at, arg := Process(s, AsInt(Slot(a, arg))), at + 1, arg + 1;
      } else if c == '.' {
        s, at := if s.width < 0 then s.(width := 0) else s, at + 1;
      } else if c == '#' {
        s, at := s.(alt := true), at + 1;
      } else {
        s, at := if s.lflag < 2 then s.(lflag := s.lflag + 1) else s, at + 1;
      }
    }
    d := Directive(at, s, arg);
  }

  lemma {:induction false} MaskAt(p: string, alt: bool, i: nat)
    requires i < |p|
    ensures Mask(p, alt)[i] == if alt && !(' ' <= p[i] <= '~') then '?' else p[i]
    decreases i
  {
    if i > 0 { MaskAt(p[1..], alt, i - 1); }
  }

  lemma Terminated(held: seq<char>, was: seq<char>, at: nat)
    requires |held| == |was| && at < |held| && held[at..] == was[at..]
    ensures held[at := '\0'][..at] == held[..at] && held[at := '\0'][at + 1..] == was[at + 1..]
  {
    assert held[at..][1..] == held[at + 1..] && was[at..][1..] == was[at + 1..];
  }

  /** `vsnprintf`: the first n - 1 characters of what the format prints, a NUL, and the count of all of them. */
  method VSnprintf(buf: array?<char>, n: int, f: string, a: Args) returns (r: int)
    requires buf != null ==> n <= buf.Length
    modifies buf
    ensures buf == null || n < 1 ==> r == INVALID && (buf != null ==> buf[..] == old(buf[..]))
    ensures buf != null && n >= 1 ==>
      var out := Render(f, 0, a, 0);
      var stored := if |out| < n then |out| else n - 1;
      && r == |out| && buf[..stored] == out[..stored] && buf[stored] == '\0'
      && buf[stored + 1..] == old(buf[stored + 1..])
  {
    hide Render;
    if buf == null || n < 1 {
      return INVALID;
    }
    ghost var was := buf[..];
    var b := new SprintBuf(buf, n);
    b.VPrintFmt(f, a);
    ghost var held := buf[..];
    buf[b.next] := '\0';
    assert buf[..] == held[b.next := '\0'];
    Terminated(held, was, b.next);
    assert buf[..b.next] == buf[..][..b.next] && buf[b.next + 1..] == buf[..][b.next + 1..];
    r := b.cnt;
  }

  // ---------- What a format prints ----------

  predicate CString(f: string) { forall j | 0 <= j < |f| :: f[j] != '\0' }

  /** Text without directives prints itself. */
  lemma {:induction false} LiteralText(f: string, i: nat, j: nat, a: Args, k: nat)
    requires CString(f) && i <= j <= |f| && forall t | i <= t < j :: f[t] != '%'
    ensures Render(f, i, a, k) == f[i..j] + Render(f, j, a, k)
    decreases j - i
  {
    if i < j {
      RenderPlain(f, i, a, k);
      LiteralText(f, i + 1, j, a, k);
      hide Render;
      Joined(f, i, j, Render(f, j, a, k));
    }
  }

  lemma Joined(f: string, i: nat, j: nat, rest: string)
    requires i < j <= |f|
    ensures [f[i]] + (f[i + 1..j] + rest) == f[i..j] + rest
  {
    assert f[i..j] == [f[i]] + f[i + 1..j];
  }

  /** A directive with an unknown conversion prints itself, flags and all; only an argument that a `*` took is gone. */
  lemma UnknownIsLiteral(f: string, i: nat, a: Args, k: nat)
    requires CString(f) && i < |f| && f[i] == '%' && !Known(At(f, Flags(f, i + 1, PLAIN, a, k).at))
    ensures var d := Flags(f, i + 1, PLAIN, a, k); Render(f, i, a, k) == f[i..d.at] + Render(f, d.at, a, d.k)
  {
    hide Render, Flags;
    RenderDirective(f, i, a, k);
    var d := Flags(f, i + 1, PLAIN, a, k);
    LiteralText(f, i + 1, d.at, a, d.k);
    Joined(f, i, d.at, Render(f, d.at, a, d.k));
  }

  /** The decimal numeral of a signed number. */
  function Decimal(v: int): string {
    if v < 0 then "-" + Digits(-v, 10) else Digits(v, 10)
  }

  /** A plain `%d` shows an `int` exactly when it is not negative: it reads the argument as unsigned. */
  lemma PlainDecimalIff(slot: nat)
    requires slot < W64
    ensures Numeric('d', PLAIN, slot) == Decimal(AsInt(slot)) <==> AsInt(slot) >= 0
  {
    hide Number, Digits;
    NoPads(slot % W32, 10);
    DigitsEvaluate(slot % W32, 10);
    assert Digits(slot % W32, 10)[0] != '-';
  }

  /** With `l` or `ll` it shows every 64-bit number, the least one included. */
  lemma LongDecimal(slot: nat, lflag: nat)
    requires slot < W64 && lflag > 0
    ensures Numeric('d', PLAIN.(lflag := lflag), slot) == Decimal(if slot < W63 then slot else slot - W64)
  {
    hide Number, Digits;
    NoPads(slot, 10);
    if slot >= W63 { NoPads(W64 - slot, 10); }
  }

  /** The flag `-`, meant to pad on the right, does so for a number exactly when there is nothing to pad. */
  lemma NumberOnTheLeftIff(num: nat, base: nat, width: int)
    requires 2 <= base <= 16
    ensures Number(num, base, width, '-') == Digits(num, base) + Pads(' ', width - |Digits(num, base)|)
       <==> width <= |Digits(num, base)|
  {
    DigitsEvaluate(num, base);
    hide Digits;
    var d := Digits(num, base);
    assert DigitOf(d[0]) < base;
    if width <= |d| {
      assert "" + d == d + "";
    } else {
      assert (Pads('-', width - |d|) + d)[0] == '-' != (d + Pads(' ', width - |d|))[0];
    }
  }

  /** Every number fills its field. */
  lemma NumberFillsField(num: nat, base: nat, width: int, padc: char)
    requires 2 <= base <= 16
    ensures |Number(num, base, width, padc)| == Max(width, |Digits(num, base)|)
  {
  }
}
