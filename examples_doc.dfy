/** The examples the formatter's help text and tests document, at the elapsed
    times 94028.602718334 s and 4028.000183340 s, and the literal pass-through
    of texts outside the grammar.

    Each step is a lemma of its own, so every proof obligation stays about one
    small concrete fact. That includes the lemmas named `...Padded` and
    `...Pieces`, each a single equation between string literals. Proving such
    an equation next to other concrete facts (a compiled template, the
    rendered fields) makes the solver's work grow far beyond the sum of the
    parts. Alone, the equation is cheap. */
module DocumentedExamples {
  import opened Decimal
  import opened Template
  import opened Render

  // The placeholders at 94028 s and 602718334 ns, whatever the template.

  /** The quotient each fraction arm takes of 602718334 ns. */
  lemma QuotientsAt94028(f: DelayedFormat)
    ensures var n := MyDuration(94028, 602718334, f).nanos;
      && n / FractionDivisor(1) == 6 && n / FractionDivisor(2) == 60 && n / FractionDivisor(3) == 602
      && n / FractionDivisor(4) == 6027 && n / FractionDivisor(5) == 60271 && n / FractionDivisor(6) == 602718
      && n / FractionDivisor(7) == 6027183 && n / FractionDivisor(8) == 60271833 && n / FractionDivisor(9) == 602718334
  {
  }

  lemma TotalHoursAt94028(f: DelayedFormat)
    ensures MyDuration(94028, 602718334, f).RenderToken("%h") == "26"
  {
    assert Classify("%h") == Some(TotalHours);
    assert MyDuration(94028, 602718334, f).H() == 26;
    assert NatToString(26) == "26";
  }

  lemma HourOfDayAt94028(f: DelayedFormat)
    ensures MyDuration(94028, 602718334, f).RenderToken("%H") == "02"
  {
    assert Classify("%H") == Some(HourOfDay);
    assert MyDuration(94028, 602718334, f).HSub() == 2;
    assert PadZero(NatToString(2), 2) == "02";
  }

  lemma TotalMinutesAt94028(f: DelayedFormat)
    ensures MyDuration(94028, 602718334, f).RenderToken("%m") == "1567"
  {
    assert Classify("%m") == Some(TotalMinutes);
    assert MyDuration(94028, 602718334, f).M() == 1567;
    assert NatToString(1567) == "1567";
  }

  lemma MinuteOfHourAt94028(f: DelayedFormat)
    ensures MyDuration(94028, 602718334, f).RenderToken("%M") == "07"
  {
    assert Classify("%M") == Some(MinuteOfHour);
    assert MyDuration(94028, 602718334, f).MSub() == 7;
    assert PadZero(NatToString(7), 2) == "07";
  }

  lemma TotalSecondsAt94028(f: DelayedFormat)
    ensures MyDuration(94028, 602718334, f).RenderToken("%s") == "94028"
  {
    assert Classify("%s") == Some(TotalSeconds);
    assert NatToString(94028) == "94028";
  }

  lemma SecondOfMinuteAt94028(f: DelayedFormat)
    ensures MyDuration(94028, 602718334, f).RenderToken("%S") == "08"
  {
    assert Classify("%S") == Some(SecondOfMinute);
    assert MyDuration(94028, 602718334, f).SSub() == 8;
    assert PadZero(NatToString(8), 2) == "08";
  }

  lemma MillisAt94028(f: DelayedFormat)
    ensures MyDuration(94028, 602718334, f).RenderToken("%.3f") == ".602"
  {
    var d := MyDuration(94028, 602718334, f);
    ClassifyArms();
    QuotientsAt94028(f);
    MillisPadded();
    PaddedArm(d, "%.3f", 3, 602, ".602");
  }

  lemma MillisPadded()
    ensures "." + PadZero(NatToString(602), 3) == ".602"
  {
  }

  lemma NanosAt94028(f: DelayedFormat)
    ensures MyDuration(94028, 602718334, f).RenderToken("%.9f") == ".602718334"
  {
    var d := MyDuration(94028, 602718334, f);
    ClassifyArms();
    QuotientsAt94028(f);
    NanosPadded();
    PaddedArm(d, "%.9f", 9, 602718334, ".602718334");
  }

  lemma NanosPadded()
    ensures "." + PadZero(NatToString(602718334), 9) == ".602718334"
  {
    NanosText();
  }

  lemma NanosText()
    ensures NatToString(602718334) == "602718334"
  {
    NanosTextPrefix();
    assert NatToString(602718334) == NatToString(60271833) + [DigitChar(4)];
  }

  lemma NanosTextPrefix()
    ensures NatToString(60271833) == "60271833"
  {
    assert NatToString(6027) == "6027";
    assert NatToString(602718) == "602718";
  }

  /** The help text's one-digit fraction rows: `%.f` and `%.1f` both give `.6`. */
  lemma TenthsAt94028(f: DelayedFormat)
    ensures MyDuration(94028, 602718334, f).RenderToken("%.f") == ".6"
    ensures MyDuration(94028, 602718334, f).RenderToken("%.1f") == ".6"
  {
    var d := MyDuration(94028, 602718334, f);
    ClassifyArms();
    QuotientsAt94028(f);
    assert NatToString(6) == "6";
    TenthsArm(d, "%.f", 6, ".6");
    TenthsArm(d, "%.1f", 6, ".6");
  }

  /** `%.2f` gives `.60`. */
  lemma HundredthsAt94028(f: DelayedFormat)
    ensures MyDuration(94028, 602718334, f).RenderToken("%.2f") == ".60"
  {
    var d := MyDuration(94028, 602718334, f);
    ClassifyArms();
    QuotientsAt94028(f);
    CentisPadded();
    PaddedArm(d, "%.2f", 2, 60, ".60");
  }

  lemma CentisPadded()
    ensures "." + PadZero(NatToString(60), 2) == ".60"
  {
  }

  /** `%.6f` gives `.602718`. */
  lemma MicrosAt94028(f: DelayedFormat)
    ensures MyDuration(94028, 602718334, f).RenderToken("%.6f") == ".602718"
  {
    var d := MyDuration(94028, 602718334, f);
    ClassifyArms();
    QuotientsAt94028(f);
    MicrosPadded();
    PaddedArm(d, "%.6f", 6, 602718, ".602718");
  }

  lemma MicrosPadded()
    ensures "." + PadZero(NatToString(602718), 6) == ".602718"
  {
    assert NatToString(6027) == "6027";
  }

  // The fraction rows of fmt_duration.rs's tests at 94028.602718334 s.

  lemma FourDigitsAt94028(f: DelayedFormat)
    ensures MyDuration(94028, 602718334, f).RenderToken("%.4f") == ".6027"
  {
    var d := MyDuration(94028, 602718334, f);
    ClassifyArms();
    QuotientsAt94028(f);
    FourDigitsPadded();
    PaddedArm(d, "%.4f", 4, 6027, ".6027");
  }

  lemma FourDigitsPadded()
    ensures "." + PadZero(NatToString(6027), 4) == ".6027"
  {
  }

  lemma FiveDigitsAt94028(f: DelayedFormat)
    ensures MyDuration(94028, 602718334, f).RenderToken("%.5f") == ".60271"
  {
    var d := MyDuration(94028, 602718334, f);
    ClassifyArms();
    QuotientsAt94028(f);
    FiveDigitsPadded();
    PaddedArm(d, "%.5f", 5, 60271, ".60271");
  }

  lemma FiveDigitsPadded()
    ensures "." + PadZero(NatToString(60271), 5) == ".60271"
  {
    assert NatToString(6027) == "6027";
  }

  lemma SevenDigitsAt94028(f: DelayedFormat)
    ensures MyDuration(94028, 602718334, f).RenderToken("%.7f") == ".6027183"
  {
    var d := MyDuration(94028, 602718334, f);
    ClassifyArms();
    QuotientsAt94028(f);
    SevenDigitsPadded();
    PaddedArm(d, "%.7f", 7, 6027183, ".6027183");
  }

  lemma SevenDigitsPadded()
    ensures "." + PadZero(NatToString(6027183), 7) == ".6027183"
  {
    SevenDigitsText();
  }

  lemma SevenDigitsText()
    ensures NatToString(6027183) == "6027183"
  {
    assert NatToString(6027) == "6027";
    assert NatToString(602718) == "602718";
  }

  lemma EightDigitsAt94028(f: DelayedFormat)
    ensures MyDuration(94028, 602718334, f).RenderToken("%.8f") == ".60271833"
  {
    var d := MyDuration(94028, 602718334, f);
    ClassifyArms();
    QuotientsAt94028(f);
    EightDigitsPadded();
    PaddedArm(d, "%.8f", 8, 60271833, ".60271833");
  }

  lemma EightDigitsPadded()
    ensures "." + PadZero(NatToString(60271833), 8) == ".60271833"
  {
    NanosTextPrefix();
  }

  // The placeholders at 4028 s and 183340 ns.

  /** The quotient each fraction arm takes of 183340 ns. */
  lemma QuotientsAt4028(f: DelayedFormat)
    ensures var n := MyDuration(4028, 183340, f).nanos;
      && n / FractionDivisor(1) == 0 && n / FractionDivisor(2) == 0 && n / FractionDivisor(3) == 0
      && n / FractionDivisor(4) == 1 && n / FractionDivisor(5) == 18 && n / FractionDivisor(6) == 183
      && n / FractionDivisor(7) == 1833 && n / FractionDivisor(8) == 18334 && n / FractionDivisor(9) == 183340
  {
  }

  lemma ClockFieldsAt4028(f: DelayedFormat)
    ensures MyDuration(4028, 183340, f).RenderToken("%H") == "01"
    ensures MyDuration(4028, 183340, f).RenderToken("%M") == "07"
    ensures MyDuration(4028, 183340, f).RenderToken("%S") == "08"
  {
    HourOfDayAt4028(f);
    MinuteOfHourAt4028(f);
    SecondOfMinuteAt4028(f);
  }

  lemma HourOfDayAt4028(f: DelayedFormat)
    ensures MyDuration(4028, 183340, f).RenderToken("%H") == "01"
  {
    PlaceholderArm(MyDuration(4028, 183340, f), "%H", HourOfDay);
    assert MyDuration(4028, 183340, f).HSub() == 1;
    assert PadZero(NatToString(1), 2) == "01";
  }

  lemma MinuteOfHourAt4028(f: DelayedFormat)
    ensures MyDuration(4028, 183340, f).RenderToken("%M") == "07"
  {
    PlaceholderArm(MyDuration(4028, 183340, f), "%M", MinuteOfHour);
    assert MyDuration(4028, 183340, f).MSub() == 7;
    assert PadZero(NatToString(7), 2) == "07";
  }

  lemma SecondOfMinuteAt4028(f: DelayedFormat)
    ensures MyDuration(4028, 183340, f).RenderToken("%S") == "08"
  {
    PlaceholderArm(MyDuration(4028, 183340, f), "%S", SecondOfMinute);
    assert MyDuration(4028, 183340, f).SSub() == 8;
    assert PadZero(NatToString(8), 2) == "08";
  }

  lemma TotalHoursAt4028(f: DelayedFormat)
    ensures MyDuration(4028, 183340, f).RenderToken("%h") == "1"
  {
    PlaceholderArm(MyDuration(4028, 183340, f), "%h", TotalHours);
    assert MyDuration(4028, 183340, f).H() == 1;
  }

  lemma TotalMinutesAt4028(f: DelayedFormat)
    ensures MyDuration(4028, 183340, f).RenderToken("%m") == "67"
  {
    PlaceholderArm(MyDuration(4028, 183340, f), "%m", TotalMinutes);
    assert MyDuration(4028, 183340, f).M() == 67;
    assert NatToString(67) == "67";
  }

  lemma TotalSecondsAt4028(f: DelayedFormat)
    ensures MyDuration(4028, 183340, f).RenderToken("%s") == "4028"
  {
    PlaceholderArm(MyDuration(4028, 183340, f), "%s", TotalSeconds);
    assert NatToString(4028) == "4028";
  }

  /** Past four digits the nanoseconds 183340 show through the leading zeros. */
  lemma FourDigitsAt4028(f: DelayedFormat)
    ensures MyDuration(4028, 183340, f).RenderToken("%.4f") == ".0001"
  {
    var d := MyDuration(4028, 183340, f);
    ClassifyArms();
    QuotientsAt4028(f);
    FourDigitsPaddedAt4028();
    PaddedArm(d, "%.4f", 4, 1, ".0001");
  }

  lemma FourDigitsPaddedAt4028()
    ensures "." + PadZero(NatToString(1), 4) == ".0001"
  {
  }

  lemma FiveDigitsAt4028(f: DelayedFormat)
    ensures MyDuration(4028, 183340, f).RenderToken("%.5f") == ".00018"
  {
    var d := MyDuration(4028, 183340, f);
    ClassifyArms();
    QuotientsAt4028(f);
    FiveDigitsPaddedAt4028();
    PaddedArm(d, "%.5f", 5, 18, ".00018");
  }

  lemma FiveDigitsPaddedAt4028()
    ensures "." + PadZero(NatToString(18), 5) == ".00018"
  {
  }

  lemma SixDigitsAt4028(f: DelayedFormat)
    ensures MyDuration(4028, 183340, f).RenderToken("%.6f") == ".000183"
  {
    var d := MyDuration(4028, 183340, f);
    ClassifyArms();
    QuotientsAt4028(f);
    SixDigitsPaddedAt4028();
    PaddedArm(d, "%.6f", 6, 183, ".000183");
  }

  lemma SixDigitsPaddedAt4028()
    ensures "." + PadZero(NatToString(183), 6) == ".000183"
  {
  }

  lemma SevenDigitsAt4028(f: DelayedFormat)
    ensures MyDuration(4028, 183340, f).RenderToken("%.7f") == ".0001833"
  {
    var d := MyDuration(4028, 183340, f);
    ClassifyArms();
    QuotientsAt4028(f);
    SevenDigitsPaddedAt4028();
    PaddedArm(d, "%.7f", 7, 1833, ".0001833");
  }

  lemma SevenDigitsPaddedAt4028()
    ensures "." + PadZero(NatToString(1833), 7) == ".0001833"
  {
  }

  lemma EightDigitsAt4028(f: DelayedFormat)
    ensures MyDuration(4028, 183340, f).RenderToken("%.8f") == ".00018334"
  {
    var d := MyDuration(4028, 183340, f);
    ClassifyArms();
    QuotientsAt4028(f);
    EightDigitsPaddedAt4028();
    PaddedArm(d, "%.8f", 8, 18334, ".00018334");
  }

  lemma EightDigitsPaddedAt4028()
    ensures "." + PadZero(NatToString(18334), 8) == ".00018334"
  {
    assert NatToString(1833) == "1833";
  }

  lemma NineDigitsAt4028(f: DelayedFormat)
    ensures MyDuration(4028, 183340, f).RenderToken("%.9f") == ".000183340"
  {
    var d := MyDuration(4028, 183340, f);
    ClassifyArms();
    QuotientsAt4028(f);
    NineDigitsPaddedAt4028();
    PaddedArm(d, "%.9f", 9, 183340, ".000183340");
  }

  lemma NineDigitsPaddedAt4028()
    ensures "." + PadZero(NatToString(183340), 9) == ".000183340"
  {
    NanosTextAt4028();
  }

  lemma NanosTextAt4028()
    ensures NatToString(183340) == "183340"
  {
    assert NatToString(1833) == "1833";
    assert NatToString(18334) == "18334";
  }

  /** Less than a millisecond past the second, every fraction is zeros. */
  lemma FractionsAt4028(f: DelayedFormat)
    ensures MyDuration(4028, 183340, f).RenderToken("%.f") == ".0"
    ensures MyDuration(4028, 183340, f).RenderToken("%.1f") == ".0"
    ensures MyDuration(4028, 183340, f).RenderToken("%.2f") == ".00"
    ensures MyDuration(4028, 183340, f).RenderToken("%.3f") == ".000"
  {
    var d := MyDuration(4028, 183340, f);
    ClassifyArms();
    QuotientsAt4028(f);
    ZeroFractionsPadded();
    TenthsArm(d, "%.f", 0, ".0");
    TenthsArm(d, "%.1f", 0, ".0");
    PaddedArm(d, "%.2f", 2, 0, ".00");
    PaddedArm(d, "%.3f", 3, 0, ".000");
  }

  lemma ZeroFractionsPadded()
    ensures "." + NatToString(0) == ".0"
    ensures "." + PadZero(NatToString(0), 2) == ".00" && "." + PadZero(NatToString(0), 3) == ".000"
  {
  }

  // ---------------------------------------------------------------- %H:%M:%S%.3f

  lemma CompileClock()
    ensures Compile("%H:%M:%S%.3f") == DelayedFormat(["", ":", ":", "", ""], ["%H", "%M", "%S", "%.3f"], 4)
  {
    ClockCut();
    CompileIsLeftmostCut("%H:%M:%S%.3f", ["", ":", ":", "", ""], ["%H", "%M", "%S", "%.3f"]);
  }

  lemma ClockCut()
    ensures LeftmostCut("%H:%M:%S%.3f", ["", ":", ":", "", ""], ["%H", "%M", "%S", "%.3f"])
  {
    NoPercentNoMatch(":");
    NoPercentNoMatch("");
    Interleave4("", ":", ":", "", "", "%H", "%M", "%S", "%.3f");
    assert "" + "%H" + ":" + "%M" + ":" + "%S" + "" + "%.3f" + "" == "%H:%M:%S%.3f";
  }

  /** `%H:%M:%S%.3f` at 94028.602718334 s renders `02:07:08.602`. */
  lemma ClockFormat()
    ensures MyDuration(94028, 602718334, Compile("%H:%M:%S%.3f")).Render() == "02:07:08.602"
  {
    CompileClock();
    ClockRender(Compile("%H:%M:%S%.3f"));
  }

  lemma ClockRender(f: DelayedFormat)
    requires f == DelayedFormat(["", ":", ":", "", ""], ["%H", "%M", "%S", "%.3f"], 4)
    ensures MyDuration(94028, 602718334, f).Render() == "02:07:08.602"
  {
    ClockRendered(f);
    Interleave4("", ":", ":", "", "", "02", "07", "08", ".602");
    assert "" + "02" + ":" + "07" + ":" + "08" + "" + ".602" + "" == "02:07:08.602";
  }

  lemma ClockRendered(f: DelayedFormat)
    requires f.delimiter == ["%H", "%M", "%S", "%.3f"]
    ensures MyDuration(94028, 602718334, f).Rendered() == ["02", "07", "08", ".602"]
  {
    HourOfDayAt94028(f);
    MinuteOfHourAt94028(f);
    SecondOfMinuteAt94028(f);
    MillisAt94028(f);
    Rendered4(MyDuration(94028, 602718334, f), "%H", "%M", "%S", "%.3f");
  }

  /** `%H:%M:%S%.3f` at 4028.000183340 s renders `01:07:08.000`. */
  lemma ClockFormatAt4028()
    ensures MyDuration(4028, 183340, Compile("%H:%M:%S%.3f")).Render() == "01:07:08.000"
  {
    CompileClock();
    ClockRenderAt4028(Compile("%H:%M:%S%.3f"));
  }

  lemma ClockRenderAt4028(f: DelayedFormat)
    requires f == DelayedFormat(["", ":", ":", "", ""], ["%H", "%M", "%S", "%.3f"], 4)
    ensures MyDuration(4028, 183340, f).Render() == "01:07:08.000"
  {
    ClockRenderedAt4028(f);
    Interleave4("", ":", ":", "", "", "01", "07", "08", ".000");
    assert "" + "01" + ":" + "07" + ":" + "08" + "" + ".000" + "" == "01:07:08.000";
  }

  lemma ClockRenderedAt4028(f: DelayedFormat)
    requires f.delimiter == ["%H", "%M", "%S", "%.3f"]
    ensures MyDuration(4028, 183340, f).Rendered() == ["01", "07", "08", ".000"]
  {
    ClockFieldsAt4028(f);
    FractionsAt4028(f);
    Rendered4(MyDuration(4028, 183340, f), "%H", "%M", "%S", "%.3f");
  }

  // ---------------------------------------------------------------- %Hh:%Mm:%S%.3fs

  lemma CompileUnits()
    ensures Compile("%Hh:%Mm:%S%.3fs") == DelayedFormat(["", "h:", "m:", "", "s"], ["%H", "%M", "%S", "%.3f"], 4)
  {
    UnitsCut();
    CompileIsLeftmostCut("%Hh:%Mm:%S%.3fs", ["", "h:", "m:", "", "s"], ["%H", "%M", "%S", "%.3f"]);
  }

  lemma UnitsCut()
    ensures LeftmostCut("%Hh:%Mm:%S%.3fs", ["", "h:", "m:", "", "s"], ["%H", "%M", "%S", "%.3f"])
  {
    NoPercentNoMatch("");
    NoPercentNoMatch("h:");
    NoPercentNoMatch("m:");
    NoPercentNoMatch("s");
    Interleave4("", "h:", "m:", "", "s", "%H", "%M", "%S", "%.3f");
    assert "" + "%H" + "h:" + "%M" + "m:" + "%S" + "" + "%.3f" + "s" == "%Hh:%Mm:%S%.3fs";
  }

  /** `%Hh:%Mm:%S%.3fs` at 94028.602718334 s renders `02h:07m:08.602s`. */
  lemma UnitsFormat()
    ensures MyDuration(94028, 602718334, Compile("%Hh:%Mm:%S%.3fs")).Render() == "02h:07m:08.602s"
  {
    CompileUnits();
    UnitsRender(Compile("%Hh:%Mm:%S%.3fs"));
  }

  lemma UnitsRender(f: DelayedFormat)
    requires f == DelayedFormat(["", "h:", "m:", "", "s"], ["%H", "%M", "%S", "%.3f"], 4)
    ensures MyDuration(94028, 602718334, f).Render() == "02h:07m:08.602s"
  {
    ClockRendered(f);
    Interleave4("", "h:", "m:", "", "s", "02", "07", "08", ".602");
    UnitsPieces();
  }

  lemma UnitsPieces()
    ensures "" + "02" + "h:" + "07" + "m:" + "08" + "" + ".602" + "s" == "02h:07m:08.602s"
  {
  }

  // ------------------------------------------------ total %h hours ,or %m minutes, or %s seconds

  lemma CompileTotals()
    ensures Compile("total %h hours ,or %m minutes, or %s seconds")
         == DelayedFormat(["total ", " hours ,or ", " minutes, or ", " seconds"], ["%h", "%m", "%s"], 3)
  {
    TotalsCut();
    CompileIsLeftmostCut("total %h hours ,or %m minutes, or %s seconds",
      ["total ", " hours ,or ", " minutes, or ", " seconds"], ["%h", "%m", "%s"]);
  }

  lemma TotalsCut()
    ensures LeftmostCut("total %h hours ,or %m minutes, or %s seconds",
                        ["total ", " hours ,or ", " minutes, or ", " seconds"], ["%h", "%m", "%s"])
  {
    NoPercentNoMatch("total ");
    NoPercentNoMatch(" hours ,or ");
    NoPercentNoMatch(" minutes, or ");
    NoPercentNoMatch(" seconds");
    Interleave3("total ", " hours ,or ", " minutes, or ", " seconds", "%h", "%m", "%s");
    TotalsTemplatePieces();
  }

  lemma TotalsTemplatePieces()
    ensures "total " + "%h" + " hours ,or " + "%m" + " minutes, or " + "%s" + " seconds"
         == "total %h hours ,or %m minutes, or %s seconds"
  {
  }

  /** The help text's sentence of totals at 94028.602718334 s. */
  lemma TotalsFormat()
    ensures MyDuration(94028, 602718334, Compile("total %h hours ,or %m minutes, or %s seconds")).Render()
         == "total 26 hours ,or 1567 minutes, or 94028 seconds"
  {
    CompileTotals();
    TotalsRender(Compile("total %h hours ,or %m minutes, or %s seconds"));
  }

  lemma TotalsRender(f: DelayedFormat)
    requires f == DelayedFormat(["total ", " hours ,or ", " minutes, or ", " seconds"], ["%h", "%m", "%s"], 3)
    ensures MyDuration(94028, 602718334, f).Render() == "total 26 hours ,or 1567 minutes, or 94028 seconds"
  {
    TotalsRendered(f);
    Interleave3("total ", " hours ,or ", " minutes, or ", " seconds", "26", "1567", "94028");
    TotalsPieces();
  }

  lemma TotalsRendered(f: DelayedFormat)
    requires f.delimiter == ["%h", "%m", "%s"]
    ensures MyDuration(94028, 602718334, f).Rendered() == ["26", "1567", "94028"]
  {
    TotalHoursAt94028(f);
    TotalMinutesAt94028(f);
    TotalSecondsAt94028(f);
    Rendered3(MyDuration(94028, 602718334, f), "%h", "%m", "%s");
  }

  lemma TotalsPieces()
    ensures "total " + "26" + " hours ,or " + "1567" + " minutes, or " + "94028" + " seconds"
         == "total 26 hours ,or 1567 minutes, or 94028 seconds"
  {
    assert "total " + "26" + " hours ,or " == "total 26 hours ,or ";
    assert "total 26 hours ,or " + "1567" + " minutes, or " == "total 26 hours ,or 1567 minutes, or ";
  }

  // ---------------------------------------------------------------- %s%.9f

  lemma CompileSecondsNanos()
    ensures Compile("%s%.9f") == DelayedFormat(["", "", ""], ["%s", "%.9f"], 2)
  {
    SecondsNanosCut();
    CompileIsLeftmostCut("%s%.9f", ["", "", ""], ["%s", "%.9f"]);
  }

  lemma SecondsNanosCut()
    ensures LeftmostCut("%s%.9f", ["", "", ""], ["%s", "%.9f"])
  {
    NoPercentNoMatch("");
    Interleave2("", "", "", "%s", "%.9f");
    assert "" + "%s" + "" + "%.9f" + "" == "%s%.9f";
  }

  /** `%s%.9f` at 94028.602718334 s renders the elapsed time in full: `94028.602718334`. */
  lemma SecondsNanosFormat()
    ensures MyDuration(94028, 602718334, Compile("%s%.9f")).Render() == "94028.602718334"
  {
    CompileSecondsNanos();
    SecondsNanosRender(Compile("%s%.9f"));
  }

  lemma SecondsNanosRender(f: DelayedFormat)
    requires f == DelayedFormat(["", "", ""], ["%s", "%.9f"], 2)
    ensures MyDuration(94028, 602718334, f).Render() == "94028.602718334"
  {
    SecondsNanosRendered(f);
    Interleave2("", "", "", "94028", ".602718334");
    SecondsNanosPieces();
  }

  lemma SecondsNanosPieces()
    ensures "" + "94028" + "" + ".602718334" + "" == "94028.602718334"
  {
  }

  lemma SecondsNanosRendered(f: DelayedFormat)
    requires f.delimiter == ["%s", "%.9f"]
    ensures MyDuration(94028, 602718334, f).Rendered() == ["94028", ".602718334"]
  {
    TotalSecondsAt94028(f);
    NanosAt94028(f);
    Rendered2(MyDuration(94028, 602718334, f), "%s", "%.9f");
  }

  // ---------------------------------------------------------------- the test rows at 4028.000183340 s

  /** `%s%.9f` at 4028.000183340 s renders `4028.000183340`. */
  lemma SecondsNanosFormatAt4028()
    ensures MyDuration(4028, 183340, Compile("%s%.9f")).Render() == "4028.000183340"
  {
    CompileSecondsNanos();
    SecondsNanosRenderAt4028(Compile("%s%.9f"));
  }

  lemma SecondsNanosRenderAt4028(f: DelayedFormat)
    requires f == DelayedFormat(["", "", ""], ["%s", "%.9f"], 2)
    ensures MyDuration(4028, 183340, f).Render() == "4028.000183340"
  {
    TotalSecondsAt4028(f);
    NineDigitsAt4028(f);
    RenderOf2(MyDuration(4028, 183340, f), "", "", "", "%s", "%.9f");
    SecondsNanosPiecesAt4028();
  }

  lemma SecondsNanosPiecesAt4028()
    ensures "" + "4028" + "" + ".000183340" + "" == "4028.000183340"
  {
  }

  /** `%Hh:%Mm:%S%.3fs` at 4028.000183340 s renders `01h:07m:08.000s`. */
  lemma UnitsFormatAt4028()
    ensures MyDuration(4028, 183340, Compile("%Hh:%Mm:%S%.3fs")).Render() == "01h:07m:08.000s"
  {
    CompileUnits();
    UnitsRenderAt4028(Compile("%Hh:%Mm:%S%.3fs"));
  }

  lemma UnitsRenderAt4028(f: DelayedFormat)
    requires f == DelayedFormat(["", "h:", "m:", "", "s"], ["%H", "%M", "%S", "%.3f"], 4)
    ensures MyDuration(4028, 183340, f).Render() == "01h:07m:08.000s"
  {
    ClockRenderedAt4028(f);
    Interleave4("", "h:", "m:", "", "s", "01", "07", "08", ".000");
    UnitsPiecesAt4028();
  }

  lemma UnitsPiecesAt4028()
    ensures "" + "01" + "h:" + "07" + "m:" + "08" + "" + ".000" + "s" == "01h:07m:08.000s"
  {
  }

  // ------------------------------------------------ total %h hour ,or %m minutes, or %s seconds

  lemma CompileTotalsHour()
    ensures Compile("total %h hour ,or %m minutes, or %s seconds")
         == DelayedFormat(["total ", " hour ,or ", " minutes, or ", " seconds"], ["%h", "%m", "%s"], 3)
  {
    TotalsHourCut();
    CompileIsLeftmostCut("total %h hour ,or %m minutes, or %s seconds",
      ["total ", " hour ,or ", " minutes, or ", " seconds"], ["%h", "%m", "%s"]);
  }

  lemma TotalsHourCut()
    ensures LeftmostCut("total %h hour ,or %m minutes, or %s seconds",
                        ["total ", " hour ,or ", " minutes, or ", " seconds"], ["%h", "%m", "%s"])
  {
    NoPercentNoMatch("total ");
    NoPercentNoMatch(" hour ,or ");
    NoPercentNoMatch(" minutes, or ");
    NoPercentNoMatch(" seconds");
    Interleave3("total ", " hour ,or ", " minutes, or ", " seconds", "%h", "%m", "%s");
    TotalsHourTemplatePieces();
  }

  lemma TotalsHourTemplatePieces()
    ensures "total " + "%h" + " hour ,or " + "%m" + " minutes, or " + "%s" + " seconds"
         == "total %h hour ,or %m minutes, or %s seconds"
  {
    assert "total " + "%h" + " hour ,or " == "total %h hour ,or ";
    assert "total %h hour ,or " + "%m" + " minutes, or " == "total %h hour ,or %m minutes, or ";
  }

  /** The tests' sentence of totals at 94028.602718334 s. */
  lemma TotalsHourFormat()
    ensures MyDuration(94028, 602718334, Compile("total %h hour ,or %m minutes, or %s seconds")).Render()
         == "total 26 hour ,or 1567 minutes, or 94028 seconds"
  {
    CompileTotalsHour();
    TotalsHourRender(Compile("total %h hour ,or %m minutes, or %s seconds"));
  }

  lemma TotalsHourRender(f: DelayedFormat)
    requires f == DelayedFormat(["total ", " hour ,or ", " minutes, or ", " seconds"], ["%h", "%m", "%s"], 3)
    ensures MyDuration(94028, 602718334, f).Render() == "total 26 hour ,or 1567 minutes, or 94028 seconds"
  {
    TotalsRendered(f);
    Interleave3("total ", " hour ,or ", " minutes, or ", " seconds", "26", "1567", "94028");
    TotalsHourPieces();
  }

  lemma TotalsHourPieces()
    ensures "total " + "26" + " hour ,or " + "1567" + " minutes, or " + "94028" + " seconds"
         == "total 26 hour ,or 1567 minutes, or 94028 seconds"
  {
    assert "total " + "26" + " hour ,or " == "total 26 hour ,or ";
    assert "total 26 hour ,or " + "1567" + " minutes, or " == "total 26 hour ,or 1567 minutes, or ";
  }

  /** The tests' sentence of totals at 4028.000183340 s. */
  lemma TotalsHourFormatAt4028()
    ensures MyDuration(4028, 183340, Compile("total %h hour ,or %m minutes, or %s seconds")).Render()
         == "total 1 hour ,or 67 minutes, or 4028 seconds"
  {
    CompileTotalsHour();
    TotalsHourRenderAt4028(Compile("total %h hour ,or %m minutes, or %s seconds"));
  }

  lemma TotalsHourRenderAt4028(f: DelayedFormat)
    requires f == DelayedFormat(["total ", " hour ,or ", " minutes, or ", " seconds"], ["%h", "%m", "%s"], 3)
    ensures MyDuration(4028, 183340, f).Render() == "total 1 hour ,or 67 minutes, or 4028 seconds"
  {
    TotalHoursAt4028(f);
    TotalMinutesAt4028(f);
    TotalSecondsAt4028(f);
    RenderOf3(MyDuration(4028, 183340, f), "total ", " hour ,or ", " minutes, or ", " seconds", "%h", "%m", "%s");
    TotalsHourPiecesAt4028();
  }

  lemma TotalsHourPiecesAt4028()
    ensures "total " + "1" + " hour ,or " + "67" + " minutes, or " + "4028" + " seconds"
         == "total 1 hour ,or 67 minutes, or 4028 seconds"
  {
    assert "total " + "1" + " hour ,or " == "total 1 hour ,or ";
    assert "total 1 hour ,or " + "67" + " minutes, or " == "total 1 hour ,or 67 minutes, or ";
  }

  // ---------------------------------------------------------------- %.f %.1f %.2f %.3f

  lemma CompileShortFractions()
    ensures Compile("%.f %.1f %.2f %.3f") == DelayedFormat(["", " ", " ", " ", ""], ["%.f", "%.1f", "%.2f", "%.3f"], 4)
  {
    ShortFractionsCut();
    CompileIsLeftmostCut("%.f %.1f %.2f %.3f", ["", " ", " ", " ", ""], ["%.f", "%.1f", "%.2f", "%.3f"]);
  }

  lemma ShortFractionsCut()
    ensures LeftmostCut("%.f %.1f %.2f %.3f", ["", " ", " ", " ", ""], ["%.f", "%.1f", "%.2f", "%.3f"])
  {
    NoPercentNoMatch("");
    NoPercentNoMatch(" ");
    Interleave4("", " ", " ", " ", "", "%.f", "%.1f", "%.2f", "%.3f");
    assert "" + "%.f" + " " + "%.1f" + " " + "%.2f" + " " + "%.3f" + "" == "%.f %.1f %.2f %.3f";
  }

  /** `%.f %.1f %.2f %.3f` at 94028.602718334 s renders `.6 .6 .60 .602`. */
  lemma ShortFractionsFormat()
    ensures MyDuration(94028, 602718334, Compile("%.f %.1f %.2f %.3f")).Render() == ".6 .6 .60 .602"
  {
    CompileShortFractions();
    ShortFractionsRender(Compile("%.f %.1f %.2f %.3f"));
  }

  lemma ShortFractionsRender(f: DelayedFormat)
    requires f == DelayedFormat(["", " ", " ", " ", ""], ["%.f", "%.1f", "%.2f", "%.3f"], 4)
    ensures MyDuration(94028, 602718334, f).Render() == ".6 .6 .60 .602"
  {
    TenthsAt94028(f);
    HundredthsAt94028(f);
    MillisAt94028(f);
    RenderOf4(MyDuration(94028, 602718334, f), "", " ", " ", " ", "", "%.f", "%.1f", "%.2f", "%.3f");
    ShortFractionsPieces();
  }

  lemma ShortFractionsPieces()
    ensures "" + ".6" + " " + ".6" + " " + ".60" + " " + ".602" + "" == ".6 .6 .60 .602"
  {
  }

  /** `%.f %.1f %.2f %.3f` at 4028.000183340 s renders `.0 .0 .00 .000`. */
  lemma ShortFractionsFormatAt4028()
    ensures MyDuration(4028, 183340, Compile("%.f %.1f %.2f %.3f")).Render() == ".0 .0 .00 .000"
  {
    CompileShortFractions();
    ShortFractionsRenderAt4028(Compile("%.f %.1f %.2f %.3f"));
  }

  lemma ShortFractionsRenderAt4028(f: DelayedFormat)
    requires f == DelayedFormat(["", " ", " ", " ", ""], ["%.f", "%.1f", "%.2f", "%.3f"], 4)
    ensures MyDuration(4028, 183340, f).Render() == ".0 .0 .00 .000"
  {
    FractionsAt4028(f);
    RenderOf4(MyDuration(4028, 183340, f), "", " ", " ", " ", "", "%.f", "%.1f", "%.2f", "%.3f");
    ShortFractionsPiecesAt4028();
  }

  lemma ShortFractionsPiecesAt4028()
    ensures "" + ".0" + " " + ".0" + " " + ".00" + " " + ".000" + "" == ".0 .0 .00 .000"
  {
  }

  // ---------------------------------------------------------------- %.4f %.5f %.6f

  lemma CompileMiddleFractions()
    ensures Compile("%.4f %.5f %.6f") == DelayedFormat(["", " ", " ", ""], ["%.4f", "%.5f", "%.6f"], 3)
  {
    MiddleFractionsCut();
    CompileIsLeftmostCut("%.4f %.5f %.6f", ["", " ", " ", ""], ["%.4f", "%.5f", "%.6f"]);
  }

  lemma MiddleFractionsCut()
    ensures LeftmostCut("%.4f %.5f %.6f", ["", " ", " ", ""], ["%.4f", "%.5f", "%.6f"])
  {
    NoPercentNoMatch("");
    NoPercentNoMatch(" ");
    Interleave3("", " ", " ", "", "%.4f", "%.5f", "%.6f");
    assert "" + "%.4f" + " " + "%.5f" + " " + "%.6f" + "" == "%.4f %.5f %.6f";
  }

  /** `%.4f %.5f %.6f` at 94028.602718334 s renders `.6027 .60271 .602718`. */
  lemma MiddleFractionsFormat()
    ensures MyDuration(94028, 602718334, Compile("%.4f %.5f %.6f")).Render() == ".6027 .60271 .602718"
  {
    CompileMiddleFractions();
    MiddleFractionsRender(Compile("%.4f %.5f %.6f"));
  }

  lemma MiddleFractionsRender(f: DelayedFormat)
    requires f == DelayedFormat(["", " ", " ", ""], ["%.4f", "%.5f", "%.6f"], 3)
    ensures MyDuration(94028, 602718334, f).Render() == ".6027 .60271 .602718"
  {
    FourDigitsAt94028(f);
    FiveDigitsAt94028(f);
    MicrosAt94028(f);
    RenderOf3(MyDuration(94028, 602718334, f), "", " ", " ", "", "%.4f", "%.5f", "%.6f");
    MiddleFractionsPieces();
  }

  lemma MiddleFractionsPieces()
    ensures "" + ".6027" + " " + ".60271" + " " + ".602718" + "" == ".6027 .60271 .602718"
  {
  }

  /** `%.4f %.5f %.6f` at 4028.000183340 s renders `.0001 .00018 .000183`. */
  lemma MiddleFractionsFormatAt4028()
    ensures MyDuration(4028, 183340, Compile("%.4f %.5f %.6f")).Render() == ".0001 .00018 .000183"
  {
    CompileMiddleFractions();
    MiddleFractionsRenderAt4028(Compile("%.4f %.5f %.6f"));
  }

  lemma MiddleFractionsRenderAt4028(f: DelayedFormat)
    requires f == DelayedFormat(["", " ", " ", ""], ["%.4f", "%.5f", "%.6f"], 3)
    ensures MyDuration(4028, 183340, f).Render() == ".0001 .00018 .000183"
  {
    FourDigitsAt4028(f);
    FiveDigitsAt4028(f);
    SixDigitsAt4028(f);
    RenderOf3(MyDuration(4028, 183340, f), "", " ", " ", "", "%.4f", "%.5f", "%.6f");
    MiddleFractionsPiecesAt4028();
  }

  lemma MiddleFractionsPiecesAt4028()
    ensures "" + ".0001" + " " + ".00018" + " " + ".000183" + "" == ".0001 .00018 .000183"
  {
  }

  // ---------------------------------------------------------------- %.7f %.8f %.9f

  lemma CompileLongFractions()
    ensures Compile("%.7f %.8f %.9f") == DelayedFormat(["", " ", " ", ""], ["%.7f", "%.8f", "%.9f"], 3)
  {
    LongFractionsCut();
    CompileIsLeftmostCut("%.7f %.8f %.9f", ["", " ", " ", ""], ["%.7f", "%.8f", "%.9f"]);
  }

  lemma LongFractionsCut()
    ensures LeftmostCut("%.7f %.8f %.9f", ["", " ", " ", ""], ["%.7f", "%.8f", "%.9f"])
  {
    NoPercentNoMatch("");
    NoPercentNoMatch(" ");
    Interleave3("", " ", " ", "", "%.7f", "%.8f", "%.9f");
    assert "" + "%.7f" + " " + "%.8f" + " " + "%.9f" + "" == "%.7f %.8f %.9f";
  }

  /** `%.7f %.8f %.9f` at 94028.602718334 s renders `.6027183 .60271833 .602718334`. */
  lemma LongFractionsFormat()
    ensures MyDuration(94028, 602718334, Compile("%.7f %.8f %.9f")).Render() == ".6027183 .60271833 .602718334"
  {
    CompileLongFractions();
    LongFractionsRender(Compile("%.7f %.8f %.9f"));
  }

  lemma LongFractionsRender(f: DelayedFormat)
    requires f == DelayedFormat(["", " ", " ", ""], ["%.7f", "%.8f", "%.9f"], 3)
    ensures MyDuration(94028, 602718334, f).Render() == ".6027183 .60271833 .602718334"
  {
    SevenDigitsAt94028(f);
    EightDigitsAt94028(f);
    NanosAt94028(f);
    RenderOf3(MyDuration(94028, 602718334, f), "", " ", " ", "", "%.7f", "%.8f", "%.9f");
    LongFractionsPieces();
  }

  lemma LongFractionsPieces()
    ensures "" + ".6027183" + " " + ".60271833" + " " + ".602718334" + "" == ".6027183 .60271833 .602718334"
  {
  }

  /** `%.7f %.8f %.9f` at 4028.000183340 s renders `.0001833 .00018334 .000183340`. */
  lemma LongFractionsFormatAt4028()
    ensures MyDuration(4028, 183340, Compile("%.7f %.8f %.9f")).Render() == ".0001833 .00018334 .000183340"
  {
    CompileLongFractions();
    LongFractionsRenderAt4028(Compile("%.7f %.8f %.9f"));
  }

  lemma LongFractionsRenderAt4028(f: DelayedFormat)
    requires f == DelayedFormat(["", " ", " ", ""], ["%.7f", "%.8f", "%.9f"], 3)
    ensures MyDuration(4028, 183340, f).Render() == ".0001833 .00018334 .000183340"
  {
    SevenDigitsAt4028(f);
    EightDigitsAt4028(f);
    NineDigitsAt4028(f);
    RenderOf3(MyDuration(4028, 183340, f), "", " ", " ", "", "%.7f", "%.8f", "%.9f");
    LongFractionsPiecesAt4028();
  }

  lemma LongFractionsPiecesAt4028()
    ensures "" + ".0001833" + " " + ".00018334" + " " + ".000183340" + "" == ".0001833 .00018334 .000183340"
  {
  }

  // ---------------------------------------------------------------- literal text

  /** Text that only looks like placeholders (`%x`, `%.0f`, `%.10f`, `%%`) is copied verbatim. */
  lemma NearMissesVerbatim(secs: nat, nanos: nat)
    ensures MyDuration(secs, nanos, Compile("%x %.0f %.10f %%")).Render() == "%x %.0f %.10f %%"
  {
    var s := "%x %.0f %.10f %%";
    forall j | 0 <= j < |s|
      ensures MatchLen(s[j..]) == 0
    {
      var t := s[j..];
      assert t[0] == s[j];
      if j + 1 < |s| { assert t[1] == s[j + 1]; }
      if j + 2 < |s| { assert t[2] == s[j + 2]; }
      if j + 3 < |s| { assert t[3] == s[j + 3]; }
    }
    LiteralFormatRendersVerbatim(s, secs, nanos);
  }

  /** Matching is case-sensitive: `%.F` and `%.3F` are not placeholders. */
  lemma UpperCaseFractionVerbatim(secs: nat, nanos: nat)
    ensures MyDuration(secs, nanos, Compile("%.F%.3F")).Render() == "%.F%.3F"
  {
    var s := "%.F%.3F";
    forall j | 0 <= j < |s|
      ensures MatchLen(s[j..]) == 0
    {
      var t := s[j..];
      assert t[0] == s[j];
      if j + 1 < |s| { assert t[1] == s[j + 1]; }
      if j + 2 < |s| { assert t[2] == s[j + 2]; }
      if j + 3 < |s| { assert t[3] == s[j + 3]; }
    }
    LiteralFormatRendersVerbatim(s, secs, nanos);
  }

  // ---------------------------------------------------------------- truncation

  /** A fraction is cut, never rounded: 999999999 ns at one digit is `.9`. */
  lemma TruncationNotRounding(secs: nat, f: DelayedFormat)
    ensures MyDuration(secs, 999_999_999, f).RenderToken("%.1f") == ".9"
  {
    var d := MyDuration(secs, 999_999_999, f);
    ClassifyArms();
    assert NatToString(9) == "9";
    TenthsArm(d, "%.1f", 9, ".9");
  }

  // ---------------------------------------------------------------- steps

  /** Text without a percent sign holds no match. */
  lemma NoPercentNoMatch(lit: string)
    requires forall i :: 0 <= i < |lit| ==> lit[i] != '%'
    ensures NoMatchIn(lit)
  {
    forall j | 0 <= j < |lit|
      ensures MatchLen(lit[j..]) == 0
    {
      assert lit[j..][0] == lit[j];
    }
  }

  lemma PlaceholderArm(d: MyDuration, y: string, p: Placeholder)
    requires p.Valid() && Classify(y) == Some(p)
    ensures d.RenderToken(y) == d.RenderPlaceholder(p)
  {
  }

  /** A one-digit fraction arm renders a point and the tenths, as `{}` prints them. */
  lemma TenthsArm(d: MyDuration, y: string, v: nat, text: string)
    requires Classify(y) == Some(Fraction(1)) && d.nanos / FractionDivisor(1) == v
    requires "." + NatToString(v) == text
    ensures d.RenderToken(y) == text
  {
  }

  /** A fraction arm of n >= 2 digits renders a point and the quotient, zero-padded to n digits. */
  lemma PaddedArm(d: MyDuration, y: string, n: nat, v: nat, text: string)
    requires 2 <= n <= 9 && Classify(y) == Some(Fraction(n)) && d.nanos / FractionDivisor(n) == v
    requires "." + PadZero(NatToString(v), n) == text
    ensures d.RenderToken(y) == text
  {
  }

  /** The rendered placeholders of a template with two, three or four of them. */
  lemma Rendered2(d: MyDuration, x: string, y: string)
    requires d.display.delimiter == [x, y]
    ensures d.Rendered() == [d.RenderToken(x), d.RenderToken(y)]
  {
  }

  lemma Rendered3(d: MyDuration, x: string, y: string, z: string)
    requires d.display.delimiter == [x, y, z]
    ensures d.Rendered() == [d.RenderToken(x), d.RenderToken(y), d.RenderToken(z)]
  {
  }

  lemma Rendered4(d: MyDuration, x: string, y: string, z: string, w: string)
    requires d.display.delimiter == [x, y, z, w]
    ensures d.Rendered() == [d.RenderToken(x), d.RenderToken(y), d.RenderToken(z), d.RenderToken(w)]
  {
  }

  lemma Interleave2(a: string, b: string, c: string, x: string, y: string)
    ensures Interleave([a, b, c], [x, y]) == a + x + b + y + c
  {
    assert [a, b, c][1..] == [b, c] && [x, y][1..] == [y];
    assert [b, c][1..] == [c] && [y][1..] == [];
    assert Interleave([c], []) == c;
    assert Interleave([b, c], [y]) == b + y + c;
  }

  lemma Interleave3(a: string, b: string, c: string, e: string, x: string, y: string, z: string)
    ensures Interleave([a, b, c, e], [x, y, z]) == a + x + b + y + c + z + e
  {
    assert [a, b, c, e][1..] == [b, c, e] && [x, y, z][1..] == [y, z];
    Interleave2(b, c, e, y, z);
  }

  lemma Interleave4(a: string, b: string, c: string, e: string, g: string, x: string, y: string, z: string, w: string)
    ensures Interleave([a, b, c, e, g], [x, y, z, w]) == a + x + b + y + c + z + e + w + g
  {
    assert [a, b, c, e, g][1..] == [b, c, e, g] && [x, y, z, w][1..] == [y, z, w];
    Interleave3(b, c, e, g, y, z, w);
  }

  /** The stamp of a template with two, three or four placeholders, piece by piece. */
  lemma RenderOf2(d: MyDuration, a: string, b: string, c: string, x: string, y: string)
    requires d.display == DelayedFormat([a, b, c], [x, y], 2)
    ensures d.Render() == a + d.RenderToken(x) + b + d.RenderToken(y) + c
  {
    Rendered2(d, x, y);
    Interleave2(a, b, c, d.RenderToken(x), d.RenderToken(y));
  }

  lemma RenderOf3(d: MyDuration, a: string, b: string, c: string, e: string, x: string, y: string, z: string)
    requires d.display == DelayedFormat([a, b, c, e], [x, y, z], 3)
    ensures d.Render() == a + d.RenderToken(x) + b + d.RenderToken(y) + c + d.RenderToken(z) + e
  {
    Rendered3(d, x, y, z);
    Interleave3(a, b, c, e, d.RenderToken(x), d.RenderToken(y), d.RenderToken(z));
  }

  lemma RenderOf4(d: MyDuration, a: string, b: string, c: string, e: string, g: string,
                  x: string, y: string, z: string, w: string)
    requires d.display == DelayedFormat([a, b, c, e, g], [x, y, z, w], 4)
    ensures d.Render() == a + d.RenderToken(x) + b + d.RenderToken(y) + c + d.RenderToken(z) + e + d.RenderToken(w) + g
  {
    Rendered4(d, x, y, z, w);
    Interleave4(a, b, c, e, g, d.RenderToken(x), d.RenderToken(y), d.RenderToken(z), d.RenderToken(w));
  }
}
