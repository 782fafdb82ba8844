/** The render stage of the elapsed-time formatter (`MyDuration` and its
    `Display` implementation): a compiled template and a duration, given as
    whole seconds and a sub-second nanosecond count, become the stamp text. */
module Render {
  import opened Decimal
  import opened Template

  datatype Option<T> = None | Some(value: T)

  /** What a placeholder stands for. The precision of `Fraction` is the number
      of fractional digits; `%.f` means precision 1. */
  datatype Placeholder =
    | TotalHours | HourOfDay
    | TotalMinutes | MinuteOfHour
    | TotalSeconds | SecondOfMinute
    | Fraction(precision: nat)
  {
    predicate Valid() {
      Fraction? ==> 1 <= precision <= 9
    }
  }

  /** The arms of the render `match`: which placeholder a delimiter text names,
      or None for the fallback arm. The sixteen arms are read character by
      character; ClassifyArms lists them as texts. */
  function Classify(y: string): (p: Option<Placeholder>)
    ensures p.Some? ==> p.value.Valid()
  {
    if |y| == 2 && y[0] == '%' then
      if y[1] == 'h' then Some(TotalHours)
      else if y[1] == 'H' then Some(HourOfDay)
      else if y[1] == 'm' then Some(TotalMinutes)
      else if y[1] == 'M' then Some(MinuteOfHour)
      else if y[1] == 's' then Some(TotalSeconds)
      else if y[1] == 'S' then Some(SecondOfMinute)
      else None
    else if |y| == 3 && y[0] == '%' && y[1] == '.' && y[2] == 'f' then Some(Fraction(1))
    else if |y| == 4 && y[0] == '%' && y[1] == '.' && '1' <= y[2] <= '9' && y[3] == 'f' then
      Some(Fraction(y[2] as int - '0' as int))
    else None
  }

  /** The canonical text of a placeholder (`%.Nf` for fractions). */
  function Spelling(p: Placeholder): (y: string)
    requires p.Valid()
  {
    match p
    case TotalHours => "%h"
    case HourOfDay => "%H"
    case TotalMinutes => "%m"
    case MinuteOfHour => "%M"
    case TotalSeconds => "%s"
    case SecondOfMinute => "%S"
    case Fraction(n) => ['%', '.', DigitChar(n), 'f']
  }

  /** The divisor each fractional arm applies to the nanoseconds. */
  function FractionDivisor(n: nat): (r: nat)
    requires 1 <= n <= 9
    ensures r == Pow10(9 - n)
  {
    assert Pow10(8) == 100_000_000;
    if n == 1 then 100_000_000
    else if n == 2 then 10_000_000
    else if n == 3 then 1_000_000
    else if n == 4 then 100_000
    else if n == 5 then 10_000
    else if n == 6 then 1_000
    else if n == 7 then 100
    else if n == 8 then 10
    else 1
  }

  const Fallback := "Error, need check regex"

  /** `MyDuration::new` stores `duration.as_secs()` and `duration.subsec_nanos()`
      (below 10^9 for every duration) beside the shared template. */
  datatype MyDuration = MyDuration(secs: nat, nanos: nat, display: DelayedFormat)
  {
    /** `s_sub`: seconds within the current minute. */
    function SSub(): (r: nat)
      ensures r < 60 && r <= secs && (secs - r) % 60 == 0
    {
      secs % 60
    }

    /** `m`: whole minutes elapsed. */
    function M(): (r: nat)
      ensures r * 60 <= secs < r * 60 + 60
    {
      secs / 60
    }

    /** `m_sub`: minutes within the current hour, what is left of the whole
        minutes once the whole hours are taken out. */
    function MSub(): (r: nat)
      ensures r < 60 && secs / 60 == secs / 3600 * 60 + r
    {
      secs % 3600 / 60
    }

    /** `h`: whole hours elapsed. */
    function H(): (r: nat)
      ensures r * 3600 <= secs < r * 3600 + 3600
    {
      secs / 3600
    }

    /** `h_sub`: hours within the current day. */
    function HSub(): (r: nat)
      ensures r < 24 && r <= secs / 3600 && (secs / 3600 - r) % 24 == 0
    {
      secs / 3600 % 24
    }

    /** The text one placeholder renders to. */
    function RenderPlaceholder(p: Placeholder): (r: string)
      requires p.Valid()
      ensures !p.Fraction? ==> 1 <= |r| && AllDigits(r)
      ensures p.Fraction? ==> p.precision + 1 <= |r| && r[0] == '.' && AllDigits(r[1..])
    {
      match p
      case TotalHours => NatToString(H())
      case HourOfDay => PadZero(NatToString(HSub()), 2)
      case TotalMinutes => NatToString(M())
      case MinuteOfHour => PadZero(NatToString(MSub()), 2)
      case TotalSeconds => NatToString(secs)
      case SecondOfMinute => PadZero(NatToString(SSub()), 2)
      case Fraction(n) => FractionText(n)
    }

    /** The fractional arms: the nanoseconds divided down to n digits, after a
        point; `{:0>n}` pads them except in the one-digit arms, which use `{}`. */
    function FractionText(n: nat): (r: string)
      requires 1 <= n <= 9
      ensures n + 1 <= |r| && r[0] == '.' && AllDigits(r[1..])
    {
      var v := nanos / FractionDivisor(n);
      if n == 1 then "." + NatToString(v) else "." + PadZero(NatToString(v), n)
    }

    /** The text the `match` in the render loop produces for one delimiter. */
    function RenderToken(y: string): (r: string)
      ensures r == Fallback <==> Classify(y).None?
    {
      match Classify(y)
      case Some(p) => PlaceholderIsNotFallback(this, p); RenderPlaceholder(p)
      case None => Fallback
    }

    /** The rendered text of every delimiter, in order. */
    function Rendered(): seq<string> {
      seq(|display.delimiter|, i requires 0 <= i < |display.delimiter| => RenderToken(display.delimiter[i]))
    }

    /** The stamp: each literal segment followed by the rendering of the
        placeholder after it, then the trailing segment. */
    function Render(): string
      requires display.WellFormed()
    {
      Interleave(display.spstr, Rendered())
    }

    /** `Display::fmt`: the render loop, appending to the output step by step. */
    method Fmt() returns (out: string)
      requires display.WellFormed()
      ensures out == Render()
    {
      var len := display.len;
      var spstr := display.spstr;
      var delimiter := display.delimiter;
      ghost var rendered := Rendered();
      assert |rendered| == len;
      out := "";
      for i := 0 to len
        invariant out == Pieces(spstr, rendered, i)
      {
        var t := RenderToken(delimiter[i]);
        assert t == rendered[i];
        assert Pieces(spstr, rendered, i + 1) == out + spstr[i] + t;
        out := out + spstr[i] + t;
      }
      InterleaveIsPiecesThenLast(spstr, rendered);
      out := out + spstr[len];
    }
  }

  // ------------------------------------------------------------------ lemmas

  /** The match arms cover the grammar exactly: a text reaches a placeholder
      arm if and only if it is one of the sixteen placeholder texts. */
  lemma ClassifyRecognisesTokens(y: string)
    ensures Classify(y).Some? <==> y in Tokens
  {
    MatchLenExact(y, |y|);
    assert y[..|y|] == y;
  }

  /** The arm table of the render `match`, text by text. */
  lemma ClassifyArms()
    ensures Classify("%h") == Some(TotalHours) && Classify("%H") == Some(HourOfDay)
    ensures Classify("%m") == Some(TotalMinutes) && Classify("%M") == Some(MinuteOfHour)
    ensures Classify("%s") == Some(TotalSeconds) && Classify("%S") == Some(SecondOfMinute)
    ensures Classify("%.f") == Some(Fraction(1)) && Classify("%.1f") == Some(Fraction(1))
    ensures Classify("%.2f") == Some(Fraction(2)) && Classify("%.3f") == Some(Fraction(3))
    ensures Classify("%.4f") == Some(Fraction(4)) && Classify("%.5f") == Some(Fraction(5))
    ensures Classify("%.6f") == Some(Fraction(6)) && Classify("%.7f") == Some(Fraction(7))
    ensures Classify("%.8f") == Some(Fraction(8)) && Classify("%.9f") == Some(Fraction(9))
  {
  }

  /** Classify and Spelling are inverse: every placeholder is recognised from its
      text, and a recognised text is the placeholder's spelling or the `%.f` alias. */
  lemma ClassifySpelling(p: Placeholder, y: string)
    requires p.Valid()
    ensures Classify(Spelling(p)) == Some(p)
    ensures Classify(y) == Some(p) ==> y == Spelling(p) || (y == "%.f" && p == Fraction(1))
  {
  }

  /** The fields are the clock reading of the elapsed time: whole hours, then
      minutes and seconds within them; minutes and hours-of-day are the
      totals reduced by the larger unit. */
  lemma ClockDecomposition(d: MyDuration)
    ensures d.secs == d.H() * 3600 + d.MSub() * 60 + d.SSub()
    ensures d.M() == d.H() * 60 + d.MSub()
    ensures d.H() == d.H() / 24 * 24 + d.HSub()
  {
  }

  /** `%H`, `%M` and `%S` render exactly two digits of the of-unit field, `00` included. */
  lemma OfUnitFieldsTwoDigits(d: MyDuration)
    ensures d.RenderToken("%H") == FixedDigits(d.HSub(), 2)
    ensures d.RenderToken("%M") == FixedDigits(d.MSub(), 2)
    ensures d.RenderToken("%S") == FixedDigits(d.SSub(), 2)
  {
    assert Pow10(2) == 100;
    PadZeroIsFixedDigits(d.HSub(), 2);
    PadZeroIsFixedDigits(d.MSub(), 2);
    PadZeroIsFixedDigits(d.SSub(), 2);
  }

  /** Two-digit rendering gives back the field's value. */
  lemma OfUnitFieldsValue(v: nat)
    requires v < 100
    ensures Value(FixedDigits(v, 2)) == v
  {
    FixedDigitsValue(v, 2);
    assert Pow10(2) == 100;
  }

  /** `%h`, `%m` and `%s` render the total unpadded: the digits of the total,
      with no leading zero, however many digits it has. */
  lemma TotalFieldsUnpadded(d: MyDuration)
    ensures var r := d.RenderToken("%h"); AllDigits(r) && Value(r) == d.H() && (r[0] == '0' ==> r == "0")
    ensures var r := d.RenderToken("%m"); AllDigits(r) && Value(r) == d.M() && (r[0] == '0' ==> r == "0")
    ensures var r := d.RenderToken("%s"); AllDigits(r) && Value(r) == d.secs && (r[0] == '0' ==> r == "0")
  {
    ClassifyArms();
    NatToStringValue(d.H());
    NatToStringValue(d.M());
    NatToStringValue(d.secs);
  }

  /** `%.Nf` renders a dot and the first N of the nine digits of the
      nanoseconds: truncation, never rounding. */
  lemma FractionTruncates(d: MyDuration, n: nat)
    requires 1 <= n <= 9 && d.nanos < 1_000_000_000
    ensures var r := d.RenderToken(Spelling(Fraction(n)));
      && |r| == n + 1 && r[0] == '.'
      && r[1..] == PadZero(NatToString(d.nanos), 9)[..n]
      && AllDigits(r[1..]) && Value(r[1..]) == DropDigits(d.nanos, 9 - n)
  {
    NatToStringWidth(d.nanos / FractionDivisor(n));
    ClassifySpelling(Fraction(n), Spelling(Fraction(n)));
    var v := d.nanos / FractionDivisor(n);
    assert v == DropDigits(d.nanos, 9 - n);
    assert Pow10(9) == 1_000_000_000;
    assert n + (9 - n) == 9;
    DropDigitsBound(d.nanos, n, 9 - n);
    PadZeroIsFixedDigits(v, n);
    PadZeroIsFixedDigits(d.nanos, 9);
    FixedDigitsPrefix(d.nanos, n, 9 - n);
    FixedDigitsValue(v, n);
    DivModUnique(v, Pow10(n), 0, v);
    var r := d.RenderToken(Spelling(Fraction(n)));
    assert r == "." + FixedDigits(v, n);
  }

  /** `%.f` is `%.1f`. */
  lemma DefaultPrecision(d: MyDuration)
    ensures d.RenderToken("%.f") == d.RenderToken("%.1f")
  {
  }

  /** The fallback arm is reached exactly by texts outside the grammar, so
      never by a delimiter of a compiled template. */
  lemma CompiledNeverFallsBack(s: string, secs: nat, nanos: nat)
    ensures var d := MyDuration(secs, nanos, Compile(s));
      forall i :: 0 <= i < d.display.len ==>
        Classify(d.display.delimiter[i]).Some? && d.Rendered()[i] != Fallback
  {
    var d := MyDuration(secs, nanos, Compile(s));
    forall i | 0 <= i < d.display.len
      ensures Classify(d.display.delimiter[i]).Some? && d.Rendered()[i] != Fallback
    {
      ClassifyRecognisesTokens(d.display.delimiter[i]);
      PlaceholderIsNotFallback(d, Classify(d.display.delimiter[i]).value);
    }
  }

  /** No placeholder renders as the fallback text: fields are digits, fractions start with a dot. */
  lemma PlaceholderIsNotFallback(d: MyDuration, p: Placeholder)
    requires p.Valid()
    ensures d.RenderPlaceholder(p) != Fallback
  {
    var r := d.RenderPlaceholder(p);
    if p.Fraction? {
      assert r[0] == '.';
    } else {
      assert AllDigits(r);
      assert !IsDigit(Fallback[0]);
    }
  }

  /** A format string without any placeholder match renders as itself. */
  lemma LiteralFormatRendersVerbatim(s: string, secs: nat, nanos: nat)
    requires NoMatchIn(s)
    ensures MyDuration(secs, nanos, Compile(s)).Render() == s
  {
    assert LeftmostCut(s, [s], []);
    LeftmostCutUnique(s, [s], []);
  }
}
