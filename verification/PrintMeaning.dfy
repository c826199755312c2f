/** What each directive means for its reader, in terms of fields, characters and numerals rather than of the engine's
    steps; and how directives are spelled. */
module PrintMeaning {
  import opened Machine
  import opened PrintFmt

  // ---------- Conversions ----------

  /** `%s` fills a field with the string, or with its first `precision` characters: at the right end after the padding
      character, or at the left end before spaces under the flag `-`; under `#` unprintable characters show as `?`. */
  lemma StringMeans(s: Spec, a: Args, k: nat)
    ensures var v := Slot(a, k);
            var p := if v == 0 then "(null)" else if v in a.strings then a.strings[v] else "";
            var n := if 0 <= s.precision < |p| then s.precision else |p|;
            var pad := if s.width > n then s.width - n else 0;
            var at := if s.padc == '-' then 0 else pad;
            var out := Converted('s', s, a, k);
            && |out| == n + pad
            && (forall j :: 0 <= j < n ==> out[at + j] == if s.alt && !(' ' <= p[j] <= '~') then '?' else p[j])
            && (forall j :: 0 <= j < |out| && !(at <= j < at + n) ==> out[j] == if s.padc == '-' then ' ' else s.padc)
  {
    var p := StringAt(a, Slot(a, k));
    var shown := Shown(p, s.precision);
    forall j | 0 <= j < |shown| ensures Mask(shown, s.alt)[j] == if s.alt && !(' ' <= p[j] <= '~') then '?' else p[j] {
      MaskAt(shown, s.alt, j);
    }
    hide Mask, Pads;
  }

  /** `%d`, `%u`, `%o`, `%x` and `%p` show the numeral `t` of the argument, of 32 bits without `l`, in base 10, 10, 8,
      16 and 16, behind what pads it to the width, and that behind a sign or prefix. */
  lemma NumberMeans(c: char, s: Spec, a: Args, k: nat) returns (t: string)
    requires TakesNumber(c)
    ensures var v := if c == 'p' || s.lflag > 0 then Slot(a, k) else Slot(a, k) % W32;
            var base := if c == 'o' then 8 else if c == 'x' || c == 'p' then 16 else 10;
            var negative := c == 'd' && v >= W63;
            && Numeral(t, base) && Reading(t, base) == (if negative then W64 - v else v)
            && Converted(c, s, a, k)
               == (if negative then "-" else if c == 'p' then "0x" else "") + Pads(s.padc, s.width - |t|) + t
  {
    hide Digits, Reading, Numeral, Converted, Pads, Numeric, Slot;
    var v := if c == 'p' || s.lflag > 0 then Slot(a, k) else Slot(a, k) % W32;
    var base := if c == 'o' then 8 else if c == 'x' || c == 'p' then 16 else 10;
    var num := if c == 'd' && v >= W63 then W64 - v else v;
    t := Digits(num, base);
    DigitsEvaluate(num, base);
    NumberParts(c, s, a, k, v, base, num);
  }

  lemma NumberParts(c: char, s: Spec, a: Args, k: nat, v: nat, base: nat, num: nat)
    requires TakesNumber(c) && v == if c == 'p' || s.lflag > 0 then Slot(a, k) else Slot(a, k) % W32
    requires base == if c == 'o' then 8 else if c == 'x' || c == 'p' then 16 else 10
    requires num == if c == 'd' && v >= W63 then W64 - v else v
    ensures Converted(c, s, a, k)
            == (if c == 'd' && v >= W63 then "-" else if c == 'p' then "0x" else "")
               + Pads(s.padc, s.width - |Digits(num, base)|) + Digits(num, base)
  {
    hide Digits, Pads;
    var pads, t := Pads(s.padc, s.width - |Digits(num, base)|), Digits(num, base);
    Joins("-", pads, t);
    Joins("0x", pads, t);
    Joins("", pads, t);
    assert "" + pads == pads && "" + (pads + t) == pads + t;
  }

  /** `%c` shows the low byte of its argument, and `%%` a percent sign. */
  lemma CharMeans(s: Spec, a: Args, k: nat)
    ensures Converted('c', s, a, k) == [(Slot(a, k) % 256) as char] && Converted('%', s, a, k) == "%"
  {
  }

  /** `%e` shows the name of an error number or its negative, and the number itself behind the last name. */
  lemma ErrorMeans(s: Spec, a: Args, k: nat) returns (t: string)
    ensures var err := AsInt(Slot(a, k));
            var n := if err < 0 then -err else err;
            && Numeral(t, 10) && Reading(t, 10) == n
            && Converted('e', s, a, k)
               == if n == 0 then "unspecified error" else if n == 1 then "bad environment"
                  else if n == 2 then "invalid parameter" else if n == 3 then "out of memory"
                  else if n == 4 then "out of environments" else if n == 5 then "segmentation fault"
                  else if n == 6 then "env is not recving" else if n == 7 then "unexpected end of file"
                  else "error " + t
  {
    var err := AsInt(Slot(a, k));
    var n := if err < 0 then -err else err;
    t := Digits(n, 10);
    DigitsEvaluate(n, 10);
    hide Digits, Reading, Numeral;
  }

  // ---------- How a directive is spelled ----------

  /** A directive as a programmer writes it: one padding flag or none, `#`, a width, a precision, and `l` or `ll`. */
  datatype Form = Form(flag: string, alt: bool, width: Option<nat>, precision: Option<nat>, longs: nat)

  predicate GoodForm(m: Form) {
    && (m.flag == "" || m.flag == "-" || m.flag == "0") && m.longs <= 2
    && (m.width.Some? ==> m.width.value > 0)
  }

  function Spelled(m: Form): string {
    m.flag + (if m.alt then "#" else "") + (if m.width.Some? then Digits(m.width.value, 10) else "")
    + (if m.precision.Some? then "." + Digits(m.precision.value, 10) else "")
    + (if m.longs == 0 then "" else if m.longs == 1 then "l" else "ll")
  }

  /** What it asks for; a precision without a width gives the width 0. */
  function Asked(m: Form): Spec {
    Spec(if m.flag == "" then ' ' else m.flag[0],
         match m.width { case Some(w) => w case None => if m.precision.Some? then 0 else -1 },
         match m.precision { case Some(p) => p case None => -1 }, m.longs, m.alt)
  }

  /** Digits read on from a value. */
  ghost function ReadOn(v: nat, t: string): nat {
    if t == "" then v else ReadOn(v, t[..|t| - 1]) * 10 + DigitOf(t[|t| - 1])
  }

  lemma {:induction false} ReadOnIsReading(t: string)
    ensures ReadOn(0, t) == Reading(t, 10)
    decreases |t|
  {
    if t != "" { ReadOnIsReading(t[..|t| - 1]); }
  }

  lemma {:induction false} ReadOnFirst(v: nat, t: string)
    requires |t| > 0
    ensures ReadOn(v, t) == ReadOn(v * 10 + DigitOf(t[0]), t[1..])
    decreases |t|
  {
    if |t| == 1 {
      assert t[..0] == "" && t[1..] == "";
    } else {
      ReadOnFirst(v, t[..|t| - 1]);
      assert t[..|t| - 1][1..] == t[1..][..|t[1..]| - 1];
    }
  }

  lemma {:induction false} RunIsNumber(f: string, i: nat, t: string, v: nat)
    requires i + |t| <= |f| && f[i..i + |t|] == t && !Digit(At(f, i + |t|))
    requires forall j :: 0 <= j < |t| ==> DigitOf(t[j]) < 10
    ensures DigitRun(f, i, v) == (i + |t|, ReadOn(v, t))
    decreases |t|
  {
    if t != "" {
      assert f[i] == t[0];
      ReadOnFirst(v, t);
      assert f[i + 1..i + 1 + |t[1..]|] == t[1..];
      RunIsNumber(f, i + 1, t[1..], v * 10 + DigitOf(t[0]));
    }
  }

  /** The digits of a positive number are read as that number. */
  lemma ReadsNumber(f: string, i: nat, s: Spec, a: Args, k: nat, w: nat)
    requires w > 0 && i + |Digits(w, 10)| <= |f| && f[i..i + |Digits(w, 10)|] == Digits(w, 10)
    requires !Digit(At(f, i + |Digits(w, 10)|))
    ensures Flags(f, i, s, a, k) == Flags(f, i + |Digits(w, 10)|, Process(s, w), a, k)
  {
    hide Digits, Reading, ReadOn, DigitRun, Process, Flags;
    var t := Digits(w, 10);
    DigitsEvaluate(w, 10);
    DigitNumeral(t);
    RunIsNumber(f, i, t, 0);
    ReadOnIsReading(t);
    assert f[i] == t[0];
    ReadsRun(f, i, s, a, k);
  }

  lemma DigitNumeral(t: string)
    requires Numeral(t, 10)
    ensures forall j :: 0 <= j < |t| ==> DigitOf(t[j]) < 10 && Digit(t[j])
  {
  }

  lemma ReadsRun(f: string, i: nat, s: Spec, a: Args, k: nat)
    requires i < |f| && Digit(f[i]) && f[i] != '0'
    ensures Flags(f, i, s, a, k) == Flags(f, DigitRun(f, i, 0).0, Process(s, DigitRun(f, i, 0).1), a, k)
  {
    hide Process;
  }

  /** A zero behind the point is read as the flag. */
  lemma ReadsZero(f: string, i: nat, s: Spec, a: Args, k: nat)
    requires i < |f| && f[i] == '0'
    ensures Flags(f, i, s, a, k) == Flags(f, i + 1, s.(padc := '0'), a, k)
  {
  }

  lemma ReadsLongs(f: string, i: nat, s: Spec, a: Args, k: nat, longs: nat)
    requires longs <= 2 && s.lflag == 0 && i + longs <= |f| && forall j :: i <= j < i + longs ==> f[j] == 'l'
    requires !IsFlag(At(f, i + longs))
    ensures Flags(f, i, s, a, k) == Directive(i + longs, s.(lflag := longs), k)
  {
    var t := s.(lflag := 1);
    FlagsEnd(f, i + longs, s.(lflag := longs), a, k);
    if longs >= 1 { ReadsLong(f, i, s, a, k); }
    if longs == 2 { ReadsLong(f, i + 1, t, a, k); }
    hide Flags;
  }

  lemma ReadsLong(f: string, i: nat, s: Spec, a: Args, k: nat)
    requires i < |f| && f[i] == 'l' && s.lflag < 2
    ensures Flags(f, i, s, a, k) == Flags(f, i + 1, s.(lflag := s.lflag + 1), a, k)
  {
  }

  lemma FlagsEnd(f: string, i: nat, s: Spec, a: Args, k: nat)
    requires i <= |f| && !IsFlag(At(f, i))
    ensures Flags(f, i, s, a, k) == Directive(i, s, k)
  {
  }

  lemma ReadsMark(f: string, i: nat, s: Spec, a: Args, k: nat)
    requires i < |f|
    ensures f[i] == '-' || f[i] == '0' ==> Flags(f, i, s, a, k) == Flags(f, i + 1, s.(padc := f[i]), a, k)
    ensures f[i] == '#' ==> Flags(f, i, s, a, k) == Flags(f, i + 1, s.(alt := true), a, k)
    ensures f[i] == '.' && s.width >= 0 ==> Flags(f, i, s, a, k) == Flags(f, i + 1, s, a, k)
    ensures f[i] == '.' && s.width < 0 ==> Flags(f, i, s, a, k) == Flags(f, i + 1, s.(width := 0), a, k)
  {
  }

  predicate Spells(f: string, i: nat, t: string) { i + |t| <= |f| && f[i..i + |t|] == t }

  lemma SpellsBoth(f: string, i: nat, t: string, u: string)
    requires Spells(f, i, t + u)
    ensures Spells(f, i, t) && Spells(f, i + |t|, u)
  {
    assert f[i..i + |t|] == f[i..i + |t + u|][..|t|] && f[i + |t|..i + |t + u|] == f[i..i + |t + u|][|t|..];
  }

  lemma SpellsAt(f: string, i: nat, t: string)
    requires Spells(f, i, t)
    ensures forall j :: 0 <= j < |t| ==> f[i + j] == t[j]
  {
    forall j | 0 <= j < |t| ensures f[i + j] == t[j] { assert f[i..i + |t|][j] == f[i + j]; }
  }

  function MarksOf(m: Form): string { m.flag + (if m.alt then "#" else "") }

  function WidthOf(m: Form): string { if m.width.Some? then Digits(m.width.value, 10) else "" }

  function PointOf(m: Form): string { if m.precision.Some? then "." + Digits(m.precision.value, 10) else "" }

  function LongsOf(m: Form): string { if m.longs == 0 then "" else if m.longs == 1 then "l" else "ll" }

  lemma ReadsMarks(f: string, i: nat, m: Form, a: Args, k: nat)
    requires GoodForm(m) && Spells(f, i, MarksOf(m))
    ensures Flags(f, i, PLAIN, a, k)
         == Flags(f, i + |MarksOf(m)|, PLAIN.(padc := if m.flag == "" then ' ' else m.flag[0], alt := m.alt), a, k)
  {
    SpellsAt(f, i, MarksOf(m));
    if m.flag != "" { ReadsMark(f, i, PLAIN, a, k); }
    var s := PLAIN.(padc := if m.flag == "" then ' ' else m.flag[0]);
    if m.alt {
      assert MarksOf(m)[|m.flag|] == '#';
      ReadsMark(f, i + |m.flag|, s, a, k);
    }
    hide Flags;
  }

  lemma ReadsWidth(f: string, i: nat, m: Form, s: Spec, a: Args, k: nat)
    requires GoodForm(m) && Spells(f, i, WidthOf(m)) && !Digit(At(f, i + |WidthOf(m)|))
    requires s.width == s.precision == -1
    ensures Flags(f, i, s, a, k)
         == Flags(f, i + |WidthOf(m)|, if m.width.Some? then s.(width := m.width.value) else s, a, k)
  {
    hide Flags, Digits;
    if m.width.Some? { ReadsNumber(f, i, s, a, k, m.width.value); }
  }

  lemma ReadsPoint(f: string, i: nat, m: Form, s: Spec, a: Args, k: nat)
    requires Spells(f, i, PointOf(m)) && !Digit(At(f, i + |PointOf(m)|)) && s.precision == -1 && s.width >= -1
    ensures var t := if m.precision.Some? && s.width < 0 then s.(width := 0) else s;
            Flags(f, i, s, a, k)
            == Flags(f, i + |PointOf(m)|, match m.precision { case None => t
                 case Some(p) => if p == 0 then t.(padc := '0') else t.(precision := p) }, a, k)
  {
    hide Flags, Digits, IsFlag;
    if m.precision.Some? { ReadsPrecision(f, i, m.precision.value, s, a, k); }
  }

  lemma ReadsPrecision(f: string, i: nat, p: nat, s: Spec, a: Args, k: nat)
    requires Spells(f, i, "." + Digits(p, 10)) && !Digit(At(f, i + 1 + |Digits(p, 10)|))
    requires s.precision == -1 && s.width >= -1
    ensures var t := if s.width < 0 then s.(width := 0) else s;
            Flags(f, i, s, a, k)
            == Flags(f, i + 1 + |Digits(p, 10)|, if p == 0 then t.(padc := '0') else t.(precision := p), a, k)
  {
    hide Flags, Digits, Spells, Digit;
    var t := if s.width < 0 then s.(width := 0) else s;
    SpellsBoth(f, i, ".", Digits(p, 10));
    SpellsAt(f, i, ".");
    InFormat(f, i, ".");
    assert f[i + 0] == '.';
    ReadsMark(f, i, s, a, k);
    if p > 0 { ReadsDigits(f, i + 1, t, a, k, p); } else { ReadsNothing(f, i + 1, t, a, k); }
  }

  lemma ReadsDigits(f: string, i: nat, s: Spec, a: Args, k: nat, w: nat)
    requires w > 0 && Spells(f, i, Digits(w, 10)) && !Digit(At(f, i + |Digits(w, 10)|))
    ensures Flags(f, i, s, a, k) == Flags(f, i + |Digits(w, 10)|, Process(s, w), a, k)
  {
    hide Flags, Digits, Process;
    ReadsNumber(f, i, s, a, k, w);
  }

  lemma ReadsNothing(f: string, i: nat, s: Spec, a: Args, k: nat)
    requires Spells(f, i, Digits(0, 10))
    ensures |Digits(0, 10)| == 1 && Flags(f, i, s, a, k) == Flags(f, i + 1, s.(padc := '0'), a, k)
  {
    hide Flags;
    OneDigit(0, 10);
    SpellsAt(f, i, Digits(0, 10));
    assert f[i + 0] == '0';
    ReadsZero(f, i, s, a, k);
  }

  lemma FormParts(m: Form)
    ensures Spelled(m) == MarksOf(m) + (WidthOf(m) + (PointOf(m) + LongsOf(m)))
  {
    hide Digits;
    assert MarksOf(m) + (WidthOf(m) + (PointOf(m) + LongsOf(m))) == MarksOf(m) + WidthOf(m) + PointOf(m) + LongsOf(m);
  }

  /** Where the parts of a directive stand, and that none of them runs into the next. */
  lemma FormStands(f: string, i: nat, m: Form)
    requires GoodForm(m) && Spells(f, i, Spelled(m)) && !IsFlag(At(f, i + |Spelled(m)|))
    ensures var j := i + |MarksOf(m)|;
            var l := j + |WidthOf(m)|;
            var n := l + |PointOf(m)|;
            && Spells(f, i, MarksOf(m)) && Spells(f, j, WidthOf(m)) && Spells(f, l, PointOf(m))
            && Spells(f, n, LongsOf(m)) && n + |LongsOf(m)| == i + |Spelled(m)|
            && !Digit(At(f, l)) && !Digit(At(f, n))
  {
    hide Digits, Spells, MarksOf, WidthOf, PointOf, LongsOf, Spelled, GoodForm, IsFlag, Digit;
    var j := i + |MarksOf(m)|;
    var l := j + |WidthOf(m)|;
    var n := l + |PointOf(m)|;
    FormParts(m);
    SpellsBoth(f, i, MarksOf(m), WidthOf(m) + (PointOf(m) + LongsOf(m)));
    SpellsBoth(f, j, WidthOf(m), PointOf(m) + LongsOf(m));
    SpellsBoth(f, l, PointOf(m), LongsOf(m));
    LongsStop(f, n, m);
    PointStops(f, l, m);
  }

  lemma LongsStop(f: string, n: nat, m: Form)
    requires GoodForm(m) && Spells(f, n, LongsOf(m)) && !IsFlag(At(f, n + |LongsOf(m)|))
    ensures !Digit(At(f, n))
  {
    SpellsAt(f, n, LongsOf(m));
    if m.longs > 0 { assert f[n + 0] == 'l'; }
  }

  lemma PointStops(f: string, l: nat, m: Form)
    requires Spells(f, l, PointOf(m)) && !Digit(At(f, l + |PointOf(m)|))
    ensures !Digit(At(f, l))
  {
    hide Digits;
    SpellsAt(f, l, PointOf(m));
    if m.precision.Some? { assert f[l + 0] == '.'; }
  }

  lemma InFormat(f: string, i: nat, t: string)
    requires Spells(f, i, t)
    ensures i + |t| <= |f|
  {
  }

  /** A directive is read as it asks, unless it spells a precision of 0, which is read as the flag `0`. */
  lemma SpellingReadIff(f: string, i: nat, m: Form, a: Args, k: nat)
    requires GoodForm(m) && Spells(f, i, Spelled(m)) && !IsFlag(At(f, i + |Spelled(m)|))
    ensures Flags(f, i, PLAIN, a, k) == Directive(i + |Spelled(m)|, Asked(m), k) <==> m.precision != Some(0)
    ensures m.precision == Some(0) ==>
              Flags(f, i, PLAIN, a, k)
              == Directive(i + |Spelled(m)|, Asked(m).(padc := '0', precision := -1), k)
  {
    hide Flags, Digits, Spells, WidthOf, PointOf, MarksOf, LongsOf, Spelled, IsFlag, Asked, GoodForm;
    FormStands(f, i, m);
    FormBounds(m);
    var j := i + |MarksOf(m)|;
    var l := j + |WidthOf(m)|;
    var n := l + |PointOf(m)|;
    ReadsMarks(f, i, m, a, k);
    ReadsWidth(f, j, m, Marked(m), a, k);
    ReadsPoint(f, l, m, Widened(m), a, k);
    SpellsAt(f, n, LongsOf(m));
    InFormat(f, n, LongsOf(m));
    forall x | n <= x < n + m.longs ensures f[x] == 'l' { assert f[n + (x - n)] == LongsOf(m)[x - n]; }
    ReadsLongs(f, n, Pointed(m), a, k, m.longs);
    AskedIs(m);
  }

  function Marked(m: Form): Spec { PLAIN.(padc := if m.flag == "" then ' ' else m.flag[0], alt := m.alt) }

  function Widened(m: Form): Spec { if m.width.Some? then Marked(m).(width := m.width.value) else Marked(m) }

  function Pointed(m: Form): Spec {
    var s := Widened(m);
    var t := if m.precision.Some? && s.width < 0 then s.(width := 0) else s;
    match m.precision { case None => t case Some(p) => if p == 0 then t.(padc := '0') else t.(precision := p) }
  }

  lemma FormBounds(m: Form)
    requires GoodForm(m)
    ensures m.longs <= 2 && |LongsOf(m)| == m.longs && forall j :: 0 <= j < m.longs ==> LongsOf(m)[j] == 'l'
    ensures Marked(m).width == Marked(m).precision == -1 && Widened(m).precision == -1 && Widened(m).width >= -1
    ensures Pointed(m).lflag == 0
  {
  }

  lemma AskedIs(m: Form)
    ensures Pointed(m).(lflag := m.longs)
         == if m.precision == Some(0) then Asked(m).(padc := '0', precision := -1) else Asked(m)
    ensures m.precision == Some(0) ==> Asked(m).precision == 0
  {
  }

  // ---------- Whole formats ----------

  /** A directive prints its conversion, and the rest of the format follows with the next argument. */
  lemma DirectivePrints(f: string, i: nat, m: Form, c: char, a: Args, k: nat)
    requires GoodForm(m) && m.precision != Some(0) && Known(c)
    requires Spells(f, i, "%" + Spelled(m) + [c])
    ensures Render(f, i, a, k)
         == Converted(c, Asked(m), a, k) + Render(f, i + |Spelled(m)| + 2, a, if c == '%' then k else k + 1)
  {
    hide Render, Flags, Spelled, Converted, Asked;
    var t := Spelled(m);
    assert "%" + t + [c] == "%" + (t + [c]);
    SpellsBoth(f, i, "%", t + [c]);
    SpellsBoth(f, i + 1, t, [c]);
    SpellsAt(f, i, "%");
    SpellsAt(f, i + 1 + |t|, [c]);
    assert f[i + 0] == '%' && f[i + 1 + |t| + 0] == c;
    SpellingReadIff(f, i + 1, m, a, k);
    RenderDirective(f, i, a, k);
  }

  const BARE: Form := Form("", false, None, None, 0)

  lemma BarePrints(f: string, i: nat, c: char, a: Args, k: nat)
    requires Known(c) && i + 2 <= |f| && f[i] == '%' && f[i + 1] == c
    ensures Render(f, i, a, k) == Converted(c, PLAIN, a, k) + Render(f, i + 2, a, if c == '%' then k else k + 1)
  {
    hide Render, Converted;
    assert Spelled(BARE) == "" && Asked(BARE) == PLAIN;
    assert "%" + "" + [c] == ['%', c] && f[i..i + 2] == ['%', c];
    DirectivePrints(f, i, BARE, c, a, k);
  }

  /** File and line, as the panic message prints them. */
  lemma FileAndLine(p: nat, file: string, line: nat)
    requires 0 < p < W64 && line < W31
    ensures Render("%s:%d:", 0, Args([p, line], map[p := file]), 0) == file + ":" + Digits(line, 10) + ":"
  {
    FileLineFormat("%s:%d:", Args([p, line], map[p := file]));
    PlainArguments(p, file, line);
    hide Render, Digits, Converted;
    FileLineJoined(file, Digits(line, 10));
  }

  lemma FileLineFormat(f: string, a: Args)
    requires |f| == 6 && f[0] == '%' && f[1] == 's' && f[2] == ':' && f[3] == '%' && f[4] == 'd' && f[5] == ':'
    ensures Render(f, 0, a, 0) == Converted('s', PLAIN, a, 0) + ([':'] + (Converted('d', PLAIN, a, 1) + ([':'] + "")))
  {
    hide Render, Digits, Converted;
    BarePrints(f, 0, 's', a, 0);
    RenderPlain(f, 2, a, 1);
    BarePrints(f, 3, 'd', a, 1);
    RenderPlain(f, 5, a, 2);
    RenderPlain(f, 6, a, 2);
  }

  lemma FileLineJoined(s: string, t: string)
    ensures s + ([':'] + (t + ([':'] + ""))) == s + ":" + t + ":"
  {
  }

  lemma PlainArguments(p: nat, file: string, line: nat)
    requires 0 < p < W64 && line < W31
    ensures var a := Args([p, line], map[p := file]);
            Converted('s', PLAIN, a, 0) == file && Converted('d', PLAIN, a, 1) == Digits(line, 10)
  {
    var a := Args([p, line], map[p := file]);
    assert Slot(a, 0) == p && Slot(a, 1) == line && StringAt(a, p) == file;
    hide Slot, StringAt;
    PlainString(a, 0);
    PlainNumber(a, 1, line);
  }

  lemma PlainString(a: Args, k: nat)
    ensures Converted('s', PLAIN, a, k) == StringAt(a, Slot(a, k))
  {
    WholeString(StringAt(a, Slot(a, k)));
    hide Text;
  }

  lemma PlainNumber(a: Args, k: nat, v: nat)
    requires Slot(a, k) == v < W31
    ensures Converted('d', PLAIN, a, k) == Digits(v, 10)
  {
    hide Slot, Number, Digits;
    NoPads(v, 10);
  }

  lemma WholeString(p: string)
    ensures Text(PLAIN, p) == p
  {
    forall j | 0 <= j < |p| ensures Mask(p, false)[j] == p[j] { MaskAt(p, false, j); }
    assert Mask(p, false) == p && p + "" == p;
  }

  /** A number of at least 64 bits in hexadecimal, as the register dumps print it. */
  lemma LongHex(v: nat)
    requires v < W64
    ensures Render("%lx", 0, Args([v], map[]), 0) == Digits(v, 16)
  {
    var f, a := "%lx", Args([v], map[]);
    hide Render, Digits;
    var m := BARE.(longs := 1);
    assert Spelled(m) == "l" && Asked(m) == PLAIN.(lflag := 1);
    DirectivePrints(f, 0, m, 'x', a, 0);
    RenderPlain(f, 3, a, 1);
    NoPads(v, 16);
  }

  /** Two digits for every field of a date below 100, as `strftime` prints them. */
  lemma TwoDigits(v: nat)
    requires v < 100
    ensures Render("%0*d", 0, Args([2, v], map[]), 0) == [DIGITS[v / 10], DIGITS[v % 10]]
  {
    StarFormat("%0*d", Args([2, v], map[]));
    SmallDecimal(v);
    TwoDigitNumber(v);
    hide Render, Converted, Number;
  }

  lemma StarFormat(f: string, a: Args)
    requires |f| == 4 && f[0] == '%' && f[1] == '0' && f[2] == '*' && f[3] == 'd' && AsInt(Slot(a, 0)) == 2
    ensures Render(f, 0, a, 0) == Converted('d', Spec('0', 2, -1, 0, false), a, 1) + ""
  {
    var s := PLAIN.(padc := '0');
    hide Render, Flags, Converted;
    ReadsMark(f, 1, PLAIN, a, 0);
    ReadsStar(f, 2, s, a, 0);
    FlagsEnd(f, 3, Spec('0', 2, -1, 0, false), a, 1);
    RenderDirective(f, 0, a, 0);
    RenderPlain(f, 4, a, 2);
  }

  lemma SmallDecimal(v: nat)
    requires v < 100
    ensures Converted('d', Spec('0', 2, -1, 0, false), Args([2, v], map[]), 1) == Number(v, 10, 2, '0')
  {
    hide Number;
  }

  lemma ReadsStar(f: string, i: nat, s: Spec, a: Args, k: nat)
    requires i < |f| && f[i] == '*'
    ensures Flags(f, i, s, a, k) == Flags(f, i + 1, Process(s, AsInt(Slot(a, k))), a, k + 1)
  {
  }

  lemma TwoDigitNumber(v: nat)
    requires v < 100
    ensures Number(v, 10, 2, '0') == [DIGITS[v / 10], DIGITS[v % 10]]
  {
    OneDigit(v % 10, 10);
    if v >= 10 {
      OneDigit(v / 10, 10);
      DigitsSplit(v, 10);
    } else {
      OneDigit(v, 10);
      assert Pads('0', 1) == "0";
    }
  }

  /** A precision given as an argument counts like one that is spelled out, 0 included. */
  lemma StarPrecision(f: string, i: nat, a: Args, k: nat)
    requires i + 2 < |f| && f[i] == '.' && f[i + 1] == '*' && !IsFlag(f[i + 2])
    ensures Flags(f, i, PLAIN, a, k) == Directive(i + 2, Spec(' ', 0, AsInt(Slot(a, k)), 0, false), k + 1)
  {
    hide Flags;
    ReadsMark(f, i, PLAIN, a, k);
    ReadsStar(f, i + 1, PLAIN.(width := 0), a, k);
    FlagsEnd(f, i + 2, Spec(' ', 0, AsInt(Slot(a, k)), 0, false), a, k + 1);
  }
}
