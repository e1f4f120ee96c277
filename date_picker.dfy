/** The date-picker input: the text formats it displays and parses, the ISO
    strings it exchanges with forms, and the component state that clicks,
    typing and form writes update. */
module DatePicker {
  import opened Wrappers
  import opened CivilDate
  import Text

  datatype DateFormat = MMDDYYYY | DDMMYYYY | YYYYMMDD

  datatype PickerType = Simple | Single | Range

  /** The `pattern` input compiled as a regular expression: either it does
      not compile, or it is a test on strings. */
  datatype Pattern = InvalidPattern | Compiled(test: string -> bool)

  /** A value sent on `valueChange`, and to the forms callback except for
      the extra ISO pair a range keystroke sends first. `RawText` is typed
      text that does not read as a day, passed on as it stands; it is a
      plain string, as `IsoValue` is. */
  datatype Emitted =
    | DateValue(date: Date)
    | IsoValue(iso: string)
    | RawText(text: string)
    | DateTuple(start: Option<Date>, end: Option<Date>)
    | IsoTuple(startIso: string, endIso: string)

  // ---------------------------------------------------------------------
  // Formatting and parsing
  // ---------------------------------------------------------------------

  /** The display text of a day in the configured format; two-digit month
      and day, the year as `String(year)`. */
  function FormatDisplay(fmt: DateFormat, d: Date): (s: string)
    requires ValidDate(d)
    ensures fmt == YYYYMMDD ==> s == DateToIso(d)
  {
    var mm := Text.Pad(d.month0 + 1);
    var dd := Text.Pad(d.day);
    var yyyy := Text.IntToString(d.year);
    match fmt
    case DDMMYYYY => dd + "/" + mm + "/" + yyyy
    case MMDDYYYY => mm + "/" + dd + "/" + yyyy
    case YYYYMMDD => yyyy + "-" + mm + "-" + dd
  }

  /** `!Number(x)` is false: the text is a number other than 0. */
  predicate Truthy(n: Option<int>) {
    n.Some? && n.value != 0
  }

  /** Reads display text back as a day: three '/'-separated numbers, day
      first for DD/MM/YYYY and month first otherwise, each non-zero; the
      Date constructor then normalises them. */
  function DisplayToDate(fmt: DateFormat, v: string): (r: Option<Date>)
    ensures r.Some? ==> ValidDate(r.value)
    ensures v == "" ==> r == None
    ensures |Text.Split(v, '/')| != 3 ==> r == None
    ensures (exists k :: 0 <= k < 3 && k < |Text.Split(v, '/')| && !Truthy(Text.ParseNumber(Text.Split(v, '/')[k])))
            ==> r == None
  {
    if v == "" then None
    else
      var parts := Text.Split(v, '/');
      if |parts| != 3 then None
      else
        var first := Text.ParseNumber(parts[0]);
        var second := Text.ParseNumber(parts[1]);
        var mm := if fmt == DDMMYYYY then second else first;
        var dd := if fmt == DDMMYYYY then first else second;
        var yyyy := Text.ParseNumber(parts[2]);
        if !Truthy(mm) || !Truthy(dd) || !Truthy(yyyy) then None
        else Some(MakeDate(yyyy.value, mm.value - 1, dd.value))
  }

  /** `YYYY-MM-DD` of a day. */
  function DateToIso(d: Date): string
    requires ValidDate(d)
  {
    Text.IntToString(d.year) + "-" + Text.Pad(d.month0 + 1) + "-" + Text.Pad(d.day)
  }

  /** Reads an ISO string: three '-'-separated non-zero numbers, year first. */
  function IsoToDate(iso: string): (r: Option<Date>)
    ensures r.Some? ==> ValidDate(r.value)
    ensures iso == "" ==> r == None
    ensures |Text.Split(iso, '-')| != 3 ==> r == None
    ensures (exists k :: 0 <= k < 3 && k < |Text.Split(iso, '-')| && !Truthy(Text.ParseNumber(Text.Split(iso, '-')[k])))
            ==> r == None
  {
    if iso == "" then None
    else
      var parts := Text.Split(iso, '-');
      if |parts| != 3 then None
      else
        var y := Text.ParseNumber(parts[0]);
        var m := Text.ParseNumber(parts[1]);
        var d := Text.ParseNumber(parts[2]);
        if !Truthy(y) || !Truthy(m) || !Truthy(d) then None
        else Some(MakeDate(y.value, m.value - 1, d.value))
  }

  /** An ISO string shown in the display format; unreadable text shows as
      the empty string. */
  function IsoToDisplay(fmt: DateFormat, iso: string): (s: string)
    ensures IsoToDate(iso).None? <==> s == ""
  {
    match IsoToDate(iso)
    case Some(d) => FormatDisplay(fmt, d)
    case None => ""
  }

  /** Display text as an ISO string, or None when it does not read as a day. */
  function DisplayToIso(fmt: DateFormat, v: string): (r: Option<string>)
    ensures r.None? <==> DisplayToDate(fmt, v).None?
  {
    match DisplayToDate(fmt, v)
    case Some(d) => Some(DateToIso(d))
    case None => None
  }

  /** The format check: empty text and an uncompilable pattern pass,
      anything else must match the pattern. */
  predicate ValidateFormat(pattern: Pattern, v: string) {
    v == "" || pattern.InvalidPattern? || pattern.test(v)
  }

  /** The range emission: both ends as days (null when unreadable) when
      emitting Date objects, otherwise both ends as ISO strings ('' when
      unreadable). */
  function EmitRange(fmt: DateFormat, emitDates: bool, v: string, ev: string): (e: Emitted)
    ensures emitDates ==> e.DateTuple? && e.start == DisplayToDate(fmt, v) && e.end == DisplayToDate(fmt, ev)
    ensures !emitDates ==> e.IsoTuple? && (e.startIso == "" <==> DisplayToDate(fmt, v).None?)
                                      && (e.endIso == "" <==> DisplayToDate(fmt, ev).None?)
    ensures !emitDates && DisplayToDate(fmt, v).Some? ==> e.startIso == DateToIso(DisplayToDate(fmt, v).value)
    ensures !emitDates && DisplayToDate(fmt, ev).Some? ==> e.endIso == DateToIso(DisplayToDate(fmt, ev).value)
  {
    if emitDates then DateTuple(DisplayToDate(fmt, v), DisplayToDate(fmt, ev))
    else IsoTuple(DisplayToIso(fmt, v).GetOr(""), DisplayToIso(fmt, ev).GetOr(""))
  }

  /** What one keystroke in a range field emits once the typed text has
      been re-checked: the ISO pair when either end reads as a day, then
      the pair `emitRange(false)` sends in the configured form. */
  function TypedRangeEmissions(fmt: DateFormat, emitDates: bool, v: string, ev: string): (r: seq<Emitted>)
    ensures 1 <= |r| <= 2 && r[|r| - 1] == EmitRange(fmt, emitDates, v, ev)
    ensures |r| == 2 <==> DisplayToDate(fmt, v).Some? || DisplayToDate(fmt, ev).Some?
    ensures |r| == 2 ==> r[0] == EmitRange(fmt, false, v, ev)
  {
    var startIso := DisplayToIso(fmt, v);
    var endIso := DisplayToIso(fmt, ev);
    var last := EmitRange(fmt, emitDates, v, ev);
    if startIso.Some? || endIso.Some? then [IsoTuple(startIso.GetOr(""), endIso.GetOr("")), last]
    else [last]
  }

  /** What one keystroke in a single field emits: the ISO text of the day
      the text reads as, or the text itself when it does not read. */
  function TypedSingleEmission(fmt: DateFormat, v: string): (e: Emitted)
    ensures DisplayToDate(fmt, v).Some? ==> e == IsoValue(DateToIso(DisplayToDate(fmt, v).value))
    ensures DisplayToDate(fmt, v).None? ==> e == RawText(v)
  {
    match DisplayToIso(fmt, v)
    case Some(iso) => IsoValue(iso)
    case None => RawText(v)
  }

  // ---------------------------------------------------------------------
  // Round trips
  // ---------------------------------------------------------------------

  /** Years that survive being printed and read back through the Date
      constructor, which reads 0..99 as 1900..1999. */
  predicate RoundTripYear(y: int) {
    y < 0 || y >= 100
  }

  lemma DigitsHaveNoSeparator(s: string, sep: char)
    requires Text.AllDigits(s) && !Text.IsDigit(sep)
    ensures sep !in s
  {
  }

  lemma YearHasNoSlash(y: int)
    ensures '/' !in Text.IntToString(y)
  {
    var s := Text.IntToString(y);
    if y >= 0 {
      DigitsHaveNoSeparator(s, '/');
    } else {
      DigitsHaveNoSeparator(s[1..], '/');
      assert s == [s[0]] + s[1..];
    }
  }

  lemma PadParses(n: nat)
    ensures Text.ParseNumber(Text.Pad(n)) == Some(n)
    ensures '/' !in Text.Pad(n) && '-' !in Text.Pad(n)
  {
    DigitsHaveNoSeparator(Text.Pad(n), '/');
    DigitsHaveNoSeparator(Text.Pad(n), '-');
  }

  /** The display text of a day, split at '/', gives back its three
      numbers in the order of the format. */
  lemma DisplayParts(fmt: DateFormat, d: Date)
    requires ValidDate(d) && fmt != YYYYMMDD
    ensures var parts := Text.Split(FormatDisplay(fmt, d), '/');
            |parts| == 3
            && Text.ParseNumber(parts[if fmt == DDMMYYYY then 1 else 0]) == Some(d.month0 + 1)
            && Text.ParseNumber(parts[if fmt == DDMMYYYY then 0 else 1]) == Some(d.day)
            && Text.ParseNumber(parts[2]) == Some(d.year)
  {
    DisplayFields(d);
    var mm := Text.Pad(d.month0 + 1);
    var dd := Text.Pad(d.day);
    var yyyy := Text.IntToString(d.year);
    if fmt == DDMMYYYY {
      assert FormatDisplay(fmt, d) == dd + "/" + mm + "/" + yyyy;
      SlashedNumbers(dd, mm, yyyy, d.day, d.month0 + 1, d.year);
    } else {
      assert FormatDisplay(fmt, d) == mm + "/" + dd + "/" + yyyy;
      SlashedNumbers(mm, dd, yyyy, d.month0 + 1, d.day, d.year);
    }
  }

  /** Each field of the display text reads back as its number and holds no '/'. */
  lemma DisplayFields(d: Date)
    requires ValidDate(d)
    ensures '/' !in Text.Pad(d.month0 + 1) && Text.ParseNumber(Text.Pad(d.month0 + 1)) == Some(d.month0 + 1)
    ensures '/' !in Text.Pad(d.day) && Text.ParseNumber(Text.Pad(d.day)) == Some(d.day)
    ensures '/' !in Text.IntToString(d.year) && Text.ParseNumber(Text.IntToString(d.year)) == Some(d.year)
  {
    PadParses(d.month0 + 1);
    PadParses(d.day);
    YearHasNoSlash(d.year);
    Text.IntToStringRoundTrip(d.year);
  }

  /** Three numbers joined by '/' split back into those numbers. */
  lemma SlashedNumbers(a: string, b: string, c: string, x: int, y: int, z: int)
    requires '/' !in a && '/' !in b && '/' !in c
    requires Text.ParseNumber(a) == Some(x) && Text.ParseNumber(b) == Some(y)
    requires Text.ParseNumber(c) == Some(z)
    ensures var parts := Text.Split(a + "/" + b + "/" + c, '/');
            |parts| == 3 && Text.ParseNumber(parts[0]) == Some(x)
            && Text.ParseNumber(parts[1]) == Some(y) && Text.ParseNumber(parts[2]) == Some(z)
  {
    Text.SplitThree(a, b, c, '/');
  }

  /** Text shown in MM/DD/YYYY or DD/MM/YYYY reads back as the same day,
      for every year outside 0..99. */
  lemma DisplayRoundTrip(fmt: DateFormat, d: Date)
    requires ValidDate(d) && fmt != YYYYMMDD && RoundTripYear(d.year)
    ensures DisplayToDate(fmt, FormatDisplay(fmt, d)) == Some(d)
  {
    DisplayParts(fmt, d);
    MakeDateIdentity(d);
    assert d.month0 + 1 - 1 == d.month0;
  }

  /** A YYYY-MM-DD picker never reads its own text back: the text has no
      '/', so it never splits into three parts. */
  lemma IsoFormatNeverParses(d: Date)
    requires ValidDate(d)
    ensures DisplayToDate(YYYYMMDD, FormatDisplay(YYYYMMDD, d)) == None
  {
    var s := FormatDisplay(YYYYMMDD, d);
    PadParses(d.month0 + 1);
    PadParses(d.day);
    YearHasNoSlash(d.year);
    assert s == Text.IntToString(d.year) + "-" + Text.Pad(d.month0 + 1) + "-" + Text.Pad(d.day);
    Text.SplitNoSeparator(s, '/');
  }

  /** An ISO string split at '-' gives back year, month and day, for
      years without a sign. */
  lemma IsoParts(d: Date)
    requires ValidDate(d) && d.year >= 0
    ensures var parts := Text.Split(DateToIso(d), '-');
            |parts| == 3
            && Text.ParseNumber(parts[0]) == Some(d.year)
            && Text.ParseNumber(parts[1]) == Some(d.month0 + 1)
            && Text.ParseNumber(parts[2]) == Some(d.day)
  {
    var y := Text.IntToString(d.year);
    var mm := Text.Pad(d.month0 + 1);
    var dd := Text.Pad(d.day);
    PadParses(d.month0 + 1);
    PadParses(d.day);
    DigitsHaveNoSeparator(y, '-');
    Text.IntToStringRoundTrip(d.year);
    assert DateToIso(d) == y + ['-'] + mm + ['-'] + dd;
    Text.SplitThree(y, mm, dd, '-');
  }

  /** An ISO string written for a day reads back as that day, for years of
      three or more digits. */
  lemma IsoRoundTrip(d: Date)
    requires ValidDate(d) && d.year >= 100
    ensures IsoToDate(DateToIso(d)) == Some(d)
  {
    IsoParts(d);
    MakeDateIdentity(d);
    assert d.month0 + 1 - 1 == d.month0;
  }

  /** A value written by a form as the ISO string of a day is shown as
      that day, in every display format. */
  lemma IsoShownAsDay(fmt: DateFormat, d: Date)
    requires ValidDate(d) && d.year >= 100
    ensures IsoToDisplay(fmt, DateToIso(d)) == FormatDisplay(fmt, d)
  {
    IsoRoundTrip(d);
  }

  /** In the two slash formats, the shown text of a form's ISO value is
      emitted back as the same ISO string. */
  lemma IsoWriteReadBack(fmt: DateFormat, d: Date)
    requires ValidDate(d) && d.year >= 100 && fmt != YYYYMMDD
    ensures IsoToDisplay(fmt, DateToIso(d)) == FormatDisplay(fmt, d)
    ensures DisplayToIso(fmt, IsoToDisplay(fmt, DateToIso(d))) == Some(DateToIso(d))
  {
    IsoShownAsDay(fmt, d);
    DisplayRoundTrip(fmt, d);
  }

  /** One keystroke in a range field that leaves an end readable emits
      twice: first the ISO pair, then the configured pair, which is the
      very same ISO pair unless Date objects are emitted. */
  lemma TypedRangeEmitsTwice(fmt: DateFormat, emitDates: bool, v: string, ev: string)
    requires DisplayToDate(fmt, v).Some? || DisplayToDate(fmt, ev).Some?
    ensures var r := TypedRangeEmissions(fmt, emitDates, v, ev);
      && |r| == 2 && r[0].IsoTuple?
      && (!emitDates ==> r[0] == r[1])
      && (emitDates ==> r[1].DateTuple?)
  {
  }

  /** A typed single value that reads as a day of a year of 100 or more is
      emitted as ISO text that reads back as that same day. */
  lemma TypedSingleReadsBack(fmt: DateFormat, v: string)
    requires DisplayToDate(fmt, v).Some? && DisplayToDate(fmt, v).value.year >= 100
    ensures TypedSingleEmission(fmt, v).IsoValue?
    ensures IsoToDate(TypedSingleEmission(fmt, v).iso) == DisplayToDate(fmt, v)
  {
    IsoRoundTrip(DisplayToDate(fmt, v).value);
  }

  /** The two-digit-year rule: "01/02/5" is 2 January 1905. */
  lemma TwoDigitYearExample()
    ensures DisplayToDate(MMDDYYYY, "01/02/5") == Some(Date(1905, 0, 2))
  {
    assert "01/02/5" == "01" + "/" + "02" + "/" + "5";
    SmallNumbers();
    SlashedNumbers("01", "02", "5", 1, 2, 5);
    MonthFirstText("01/02/5", 1, 2, 5);
    MakeDateInMonth(5, 0, 2);
  }

  lemma SmallNumbers()
    ensures Text.ParseNumber("01") == Some(1)
    ensures Text.ParseNumber("02") == Some(2)
    ensures Text.ParseNumber("5") == Some(5)
  {
    assert Text.DigitsValue("01") == 1 by {
      assert "01"[..1] == "0";
    }
    assert Text.DigitsValue("02") == 2 by {
      assert "02"[..1] == "0";
    }
    assert Text.DigitsValue("5") == 5 by {
      assert "5"[..0] == "";
    }
    Text.ParseDigits("01");
    Text.ParseDigits("02");
    Text.ParseDigits("5");
  }

  /** MM/DD/YYYY text whose three parts are non-zero numbers is the day
      `new Date(year, month - 1, day)`. */
  lemma MonthFirstText(v: string, m: int, d: int, y: int)
    requires m != 0 && d != 0 && y != 0
    requires var parts := Text.Split(v, '/');
             |parts| == 3 && Text.ParseNumber(parts[0]) == Some(m)
             && Text.ParseNumber(parts[1]) == Some(d) && Text.ParseNumber(parts[2]) == Some(y)
    ensures DisplayToDate(MMDDYYYY, v) == Some(MakeDate(y, m - 1, d))
  {
  }

  // ---------------------------------------------------------------------
  // Range ordering
  // ---------------------------------------------------------------------

  /** The texts after the end of a range is clicked while a start is shown:
      the clicked day becomes the end, or the two swap when it is earlier. */
  function EndClick(fmt: DateFormat, start: string, date: Date): (string, string)
    requires ValidDate(date) && DisplayToDate(fmt, start).Some?
  {
    var s := DisplayToDate(fmt, start).value;
    if Before(date, s) then (FormatDisplay(fmt, date), FormatDisplay(fmt, s))
    else (start, FormatDisplay(fmt, date))
  }

  /** After an end click the two texts read back as the earlier and the
      later of the two days. */
  lemma EndClickOrdered(fmt: DateFormat, start: string, date: Date)
    requires ValidDate(date) && DisplayToDate(fmt, start).Some? && fmt != YYYYMMDD
    requires RoundTripYear(date.year) && RoundTripYear(DisplayToDate(fmt, start).value.year)
    ensures var s := DisplayToDate(fmt, start).value;
            var r := EndClick(fmt, start, date);
            DisplayToDate(fmt, r.0) == Some(if Before(date, s) then date else s)
            && DisplayToDate(fmt, r.1) == Some(if Before(date, s) then s else date)
            && !Before(DisplayToDate(fmt, r.1).value, DisplayToDate(fmt, r.0).value)
  {
    var s := DisplayToDate(fmt, start).value;
    DisplayRoundTrip(fmt, date);
    DisplayRoundTrip(fmt, s);
  }

  /** The texts after typing: both read as days and the end is earlier, so
      they are rewritten in swapped order; otherwise unchanged. */
  function TypingSwap(fmt: DateFormat, v: string, ev: string): (string, string) {
    var s := DisplayToDate(fmt, v);
    var e := DisplayToDate(fmt, ev);
    if s.Some? && e.Some? && Before(e.value, s.value) then
      (FormatDisplay(fmt, e.value), FormatDisplay(fmt, s.value))
    else (v, ev)
  }

  /** After typing, two readable ends hold the same two days, earlier first. */
  lemma TypingSwapOrdered(fmt: DateFormat, v: string, ev: string)
    requires fmt != YYYYMMDD
    requires DisplayToDate(fmt, v).Some? && DisplayToDate(fmt, ev).Some?
    requires RoundTripYear(DisplayToDate(fmt, v).value.year)
    requires RoundTripYear(DisplayToDate(fmt, ev).value.year)
    ensures var s := DisplayToDate(fmt, v).value;
            var e := DisplayToDate(fmt, ev).value;
            var r := TypingSwap(fmt, v, ev);
            DisplayToDate(fmt, r.0) == Some(if Before(e, s) then e else s)
            && DisplayToDate(fmt, r.1) == Some(if Before(e, s) then s else e)
            && !Before(DisplayToDate(fmt, r.1).value, DisplayToDate(fmt, r.0).value)
  {
    DisplayRoundTrip(fmt, DisplayToDate(fmt, v).value);
    DisplayRoundTrip(fmt, DisplayToDate(fmt, ev).value);
  }

  /** A readable end that falls before the minimum or after the maximum. */
  predicate OutOfBounds(d: Option<Date>, minDate: Option<Date>, maxDate: Option<Date>) {
    d.Some? &&
    ((minDate.Some? && Before(Strip(d.value), Strip(minDate.value)))
     || (maxDate.Some? && Before(Strip(maxDate.value), Strip(d.value))))
  }

  /** Whether typed range text is flagged invalid: an end fails the format
      check, or a readable end is out of bounds. Ordering never is. */
  predicate TypingInvalid(fmt: DateFormat, pattern: Pattern, minDate: Option<Date>, maxDate: Option<Date>,
                          v: string, ev: string) {
    (v != "" && !ValidateFormat(pattern, v))
    || (ev != "" && !ValidateFormat(pattern, ev))
    || OutOfBounds(DisplayToDate(fmt, v), minDate, maxDate)
    || OutOfBounds(DisplayToDate(fmt, ev), minDate, maxDate)
  }

  /** Order plays no part in the invalid flag: swapping the two texts
      gives the same verdict for every pattern and every pair of bounds, so
      reversed ends are never themselves the reason typed text is invalid. */
  lemma TypingInvalidSymmetric(fmt: DateFormat, pattern: Pattern, minDate: Option<Date>, maxDate: Option<Date>,
                               v: string, ev: string)
    ensures TypingInvalid(fmt, pattern, minDate, maxDate, v, ev)
         == TypingInvalid(fmt, pattern, minDate, maxDate, ev, v)
  {
  }

  // ---------------------------------------------------------------------
  // Form writes
  // ---------------------------------------------------------------------

  /** One element of an array written by a form. */
  datatype Item = ItemDate(date: Date) | ItemString(s: string) | ItemOther

  /** What a form may write: an array, a Date, a string or anything else. */
  datatype WriteInput =
    | ArrayInput(items: seq<Item>)
    | DateInput(date: Date)
    | StringInput(s: string)
    | OtherInput

  predicate ValidItem(i: Item) {
    i.ItemDate? ==> ValidDate(i.date)
  }

  /** Date objects hold existing days. */
  predicate ValidInput(input: WriteInput) {
    match input
    case ArrayInput(items) => forall k :: 0 <= k < |items| ==> ValidItem(items[k])
    case DateInput(d) => ValidDate(d)
    case _ => true
  }

  /** `value[k]`, undefined past the end. */
  function ItemAt(items: seq<Item>, k: nat): (i: Item)
    ensures k >= |items| ==> i == ItemOther
  {
    if k < |items| then items[k] else ItemOther
  }

  /** The text shown for a written Date, ISO string or other value. */
  function ItemDisplay(fmt: DateFormat, i: Item): (s: string)
    requires ValidItem(i)
    ensures i.ItemOther? ==> s == ""
    ensures i.ItemString? ==> s == IsoToDisplay(fmt, i.s)
  {
    match i
    case ItemDate(d) => FormatDisplay(fmt, d)
    case ItemString(iso) => IsoToDisplay(fmt, iso)
    case ItemOther => ""
  }

  /** The single value a non-array write shows; an array outside range
      mode is neither a Date nor a string and shows as empty. */
  function InputDisplay(fmt: DateFormat, input: WriteInput): (s: string)
    requires ValidInput(input)
    ensures input.ArrayInput? || input.OtherInput? ==> s == ""
  {
    match input
    case DateInput(d) => ItemDisplay(fmt, ItemDate(d))
    case StringInput(iso) => ItemDisplay(fmt, ItemString(iso))
    case _ => ""
  }

  // ---------------------------------------------------------------------
  // The component
  // ---------------------------------------------------------------------

  class DatePickerInput {
    const pickerType: PickerType
    const format: DateFormat
    const pattern: Pattern
    const readonly: bool
    const emitDateObjects: bool
    const minDate: Option<Date>
    const maxDate: Option<Date>
    var disabled: bool
    /** The start (or only) text field. */
    var value: string
    /** The end text field of a range. */
    var endValue: string
    var calendarOpen: bool
    var selectingRangeEnd: bool
    var invalid: bool
    var warn: bool

    /** Only a range picker ever waits for the end of a range. */
    ghost predicate Valid()
      reads this`selectingRangeEnd
    {
      pickerType != Range ==> !selectingRangeEnd
    }

    constructor (pickerType: PickerType, format: DateFormat, pattern: Pattern, disabled: bool,
                 readonly: bool, emitDateObjects: bool, minDate: Option<Date>, maxDate: Option<Date>)
      ensures Valid()
      ensures this.pickerType == pickerType && this.format == format && this.pattern == pattern
      ensures this.disabled == disabled && this.readonly == readonly
      ensures this.emitDateObjects == emitDateObjects && this.minDate == minDate && this.maxDate == maxDate
      ensures value == "" && endValue == ""
      ensures !calendarOpen && !selectingRangeEnd && !invalid && !warn
    {
      this.pickerType := pickerType;
      this.format := format;
      this.pattern := pattern;
      this.disabled := disabled;
      this.readonly := readonly;
      this.emitDateObjects := emitDateObjects;
      this.minDate := minDate;
      this.maxDate := maxDate;
      value := "";
      endValue := "";
      calendarOpen := false;
      selectingRangeEnd := false;
      invalid := false;
      warn := false;
    }

    method SetDisabledState(isDisabled: bool)
      modifies this`disabled
      ensures disabled == isDisabled
    {
      disabled := isDisabled;
    }

    /** Opens the calendar unless disabled or read-only; only a range picker
        can open it on the end field. */
    method OpenCalendar(isEnd: bool)
      requires Valid()
      modifies this`calendarOpen, this`selectingRangeEnd
      ensures Valid()
      ensures disabled || readonly ==> calendarOpen == old(calendarOpen) && selectingRangeEnd == old(selectingRangeEnd)
      ensures !disabled && !readonly ==> calendarOpen && selectingRangeEnd == (isEnd && pickerType == Range)
      ensures pickerType != Range ==> selectingRangeEnd == old(selectingRangeEnd)
    {
      if disabled || readonly {
        return;
      }
      if pickerType == Range {
        selectingRangeEnd := isEnd;
      } else {
        selectingRangeEnd := false;
      }
      calendarOpen := true;
    }

    method CloseCalendar()
      requires Valid()
      modifies this`calendarOpen, this`selectingRangeEnd
      ensures Valid()
      ensures !calendarOpen && !selectingRangeEnd
    {
      calendarOpen := false;
      selectingRangeEnd := false;
    }

    method ToggleCalendar(isEnd: bool)
      requires Valid()
      modifies this`calendarOpen, this`selectingRangeEnd
      ensures Valid()
      ensures old(calendarOpen) ==> !calendarOpen && !selectingRangeEnd
      ensures !old(calendarOpen) && !disabled && !readonly ==>
                calendarOpen && selectingRangeEnd == (isEnd && pickerType == Range)
      ensures !old(calendarOpen) && (disabled || readonly) ==>
                !calendarOpen && selectingRangeEnd == old(selectingRangeEnd)
    {
      if calendarOpen {
        CloseCalendar();
      } else {
        OpenCalendar(isEnd);
      }
    }

    /** A day clicked in the calendar. Returns what is emitted and whether
        the control is marked touched. */
    method OnDateSelected(date: Date) returns (emitted: Emitted, touched: bool)
      requires Valid() && ValidDate(date)
      modifies this`value, this`endValue, this`selectingRangeEnd, this`invalid, this`calendarOpen
      ensures Valid()
      // single and simple pickers: show the day, emit it, close
      ensures pickerType != Range ==>
                value == FormatDisplay(format, date) && endValue == old(endValue) && invalid == old(invalid)
                && emitted == (if emitDateObjects then DateValue(date) else IsoValue(DateToIso(date)))
                && touched && !calendarOpen && !selectingRangeEnd
      // range, picking the start (or the end with no readable start)
      ensures pickerType == Range && (!old(selectingRangeEnd) || DisplayToDate(format, old(value)).None?) ==>
                value == FormatDisplay(format, date) && endValue == old(endValue) && invalid == old(invalid)
                && selectingRangeEnd && calendarOpen == old(calendarOpen)
                && emitted == EmitRange(format, emitDateObjects, value, endValue) && !touched
      // range, picking the end: ordered ends, emitted, closed
      ensures pickerType == Range && old(selectingRangeEnd) && DisplayToDate(format, old(value)).Some? ==>
                (value, endValue) == EndClick(format, old(value), date)
                && !invalid && !calendarOpen && !selectingRangeEnd
                && emitted == EmitRange(format, emitDateObjects, value, endValue) && touched
    {
      if pickerType == Range {
        emitted, touched := SelectInRange(date);
        return;
      }
      value := FormatDisplay(format, date);
      if emitDateObjects {
        emitted := DateValue(date);
      } else {
        emitted := IsoValue(DateToIso(date));
      }
      touched := true;
      CloseCalendar();
    }

    /** The range branch of a calendar click: the first click (or a click
        with no readable start) sets the start, the next one the end. */
    method SelectInRange(date: Date) returns (emitted: Emitted, touched: bool)
      requires Valid() && ValidDate(date) && pickerType == Range
      modifies this`value, this`endValue, this`selectingRangeEnd, this`invalid, this`calendarOpen
      ensures Valid()
      ensures !old(selectingRangeEnd) || DisplayToDate(format, old(value)).None? ==>
                value == FormatDisplay(format, date) && endValue == old(endValue) && invalid == old(invalid)
                && selectingRangeEnd && calendarOpen == old(calendarOpen)
                && emitted == EmitRange(format, emitDateObjects, value, endValue) && !touched
      ensures old(selectingRangeEnd) && DisplayToDate(format, old(value)).Some? ==>
                (value, endValue) == EndClick(format, old(value), date)
                && !invalid && !calendarOpen && !selectingRangeEnd
                && emitted == EmitRange(format, emitDateObjects, value, endValue) && touched
    {
      var startDate := if selectingRangeEnd then DisplayToDate(format, value) else None;
      if startDate.None? {
        value := FormatDisplay(format, date);
        selectingRangeEnd := true;
        emitted := EmitRange(format, emitDateObjects, value, endValue);
        touched := false;
      } else {
        emitted := FinishRange(date, startDate.value);
        touched := true;
      }
    }

    /** The click that ends a range whose start text reads as `start`: the
        ends are ordered, emitted, and the calendar closes. */
    method FinishRange(date: Date, start: Date) returns (emitted: Emitted)
      requires Valid() && ValidDate(date) && pickerType == Range
      requires DisplayToDate(format, value) == Some(start)
      modifies this`value, this`endValue, this`selectingRangeEnd, this`invalid, this`calendarOpen
      ensures Valid()
      ensures (value, endValue) == EndClick(format, old(value), date)
      ensures !invalid && !calendarOpen && !selectingRangeEnd
      ensures emitted == EmitRange(format, emitDateObjects, value, endValue)
    {
      var formatted := FormatDisplay(format, date);
      if Before(date, start) {
        value, endValue := formatted, FormatDisplay(format, start);
      } else {
        endValue := formatted;
      }
      invalid := false;
      emitted := EmitRange(format, emitDateObjects, value, endValue);
      CloseCalendar();
    }

    /** Text typed into the start (or only) field, or into the end field
        when `isEnd`; `text` is the input element's value. Returns what
        `valueChange` receives, in order, the one value the forms callback
        receives, and whether the control is marked touched. */
    method OnInputChange(text: string, isEnd: bool) returns (emissions: seq<Emitted>, formValue: Emitted, touched: bool)
      requires Valid()
      modifies this`value, this`endValue, this`invalid, this`warn
      ensures Valid()
      // range: store the text, re-check both ends, emit once or twice
      ensures pickerType == Range ==>
                var v0 := if isEnd then old(value) else Text.Trim(text);
                var e0 := if isEnd then Text.Trim(text) else old(endValue);
                && (value, endValue) == TypingSwap(format, v0, e0)
                && invalid == TypingInvalid(format, pattern, minDate, maxDate, v0, e0)
      ensures pickerType == Range ==>
                !warn && !touched && emissions == TypedRangeEmissions(format, emitDateObjects, value, endValue)
      // single and simple: store the text, check its format, emit and touch
      ensures pickerType != Range ==>
                value == Text.Trim(text) && endValue == old(endValue)
                && invalid == !ValidateFormat(pattern, Text.Trim(text)) && warn == old(warn)
                && emissions == [TypedSingleEmission(format, Text.Trim(text))] && touched
      // the form sees only the last value: the configured pair in range mode
      ensures pickerType == Range ==> formValue == EmitRange(format, emitDateObjects, value, endValue)
      ensures pickerType != Range ==> formValue == TypedSingleEmission(format, Text.Trim(text))
    {
      if pickerType == Range {
        var t := Text.Trim(text);
        var v0, e0 := if isEnd then value else t, if isEnd then t else endValue;
        emissions, formValue := TypedIntoRange(v0, e0);
        touched := false;
      } else {
        emissions, formValue := TypedIntoSingle(Text.Trim(text));
        touched := true;
      }
    }

    /** The single branch of `onInputChange`: the field holds the text,
        which is checked against the pattern and emitted. */
    method TypedIntoSingle(v: string) returns (emissions: seq<Emitted>, formValue: Emitted)
      requires Valid()
      modifies this`value, this`invalid
      ensures Valid()
      ensures value == v && invalid == !ValidateFormat(pattern, v)
      ensures endValue == old(endValue) && warn == old(warn)
      ensures formValue == TypedSingleEmission(format, v) && emissions == [formValue]
    {
      formValue := TypedSingleEmission(format, v);
      emissions := [formValue];
      value, invalid := v, !ValidateFormat(pattern, v);
    }

    /** The range branch of `onInputChange`, once the typed text has gone
        into its field: `v` and `ev` are the start and end texts. */
    method TypedIntoRange(v: string, ev: string) returns (emissions: seq<Emitted>, formValue: Emitted)
      requires Valid()
      modifies this`value, this`endValue, this`invalid, this`warn
      ensures Valid()
      ensures (value, endValue) == TypingSwap(format, v, ev)
      ensures invalid == TypingInvalid(format, pattern, minDate, maxDate, v, ev) && !warn
      ensures emissions == TypedRangeEmissions(format, emitDateObjects, value, endValue)
      ensures formValue == emissions[|emissions| - 1] == EmitRange(format, emitDateObjects, value, endValue)
    {
      value, endValue := v, ev;
      ValidateRangeTyping();
      emissions, formValue := RangeEmissions();
    }

    /** The emissions after typed range text has been re-checked: the ISO
        pair when either end reads, then `emitRange(false)`. */
    method RangeEmissions() returns (emissions: seq<Emitted>, formValue: Emitted)
      ensures emissions == TypedRangeEmissions(format, emitDateObjects, value, endValue)
      ensures formValue == emissions[|emissions| - 1] == EmitRange(format, emitDateObjects, value, endValue)
    {
      var startIso := DisplayToIso(format, value);
      var endIso := DisplayToIso(format, endValue);
      emissions := [];
      if startIso.Some? || endIso.Some? {
        emissions := [IsoTuple(startIso.GetOr(""), endIso.GetOr(""))];
      }
      formValue := EmitRange(format, emitDateObjects, value, endValue);
      emissions := emissions + [formValue];
    }

    /** Re-checks typed range text: flags format and bound violations,
        swaps reversed ends, clears the warning. */
    method ValidateRangeTyping()
      modifies this`value, this`endValue, this`invalid, this`warn
      ensures (value, endValue) == TypingSwap(format, old(value), old(endValue))
      ensures invalid == TypingInvalid(format, pattern, minDate, maxDate, old(value), old(endValue))
      ensures !warn
    {
      var start := DisplayToDate(format, value);
      var end := DisplayToDate(format, endValue);
      var bad := false;
      if (value != "" && !ValidateFormat(pattern, value)) || (endValue != "" && !ValidateFormat(pattern, endValue)) {
        bad := true;
      }
      if start.Some? && end.Some? && Before(end.value, start.value) {
        value, endValue := FormatDisplay(format, end.value), FormatDisplay(format, start.value);
      }
      var startOut := CheckBounds(start);
      var endOut := CheckBounds(end);
      invalid := bad || startOut || endOut;
      warn := false;
    }

    /** The min/max check of `validateRangeTyping` on one readable end. */
    method CheckBounds(d: Option<Date>) returns (out: bool)
      ensures out == OutOfBounds(d, minDate, maxDate)
    {
      out := false;
      if d.Some? {
        if minDate.Some? && Before(Strip(d.value), Strip(minDate.value)) { out := true; }
        if maxDate.Some? && Before(Strip(maxDate.value), Strip(d.value)) { out := true; }
      }
    }

    /** A value written by a form: a range takes an array's first two
        elements; otherwise a Date or an ISO string is shown, anything else
        clears the field, and a range's end is cleared. */
    method WriteValue(input: WriteInput)
      requires ValidInput(input)
      modifies this`value, this`endValue
      ensures pickerType == Range && input.ArrayInput? ==>
                value == ItemDisplay(format, ItemAt(input.items, 0))
                && endValue == ItemDisplay(format, ItemAt(input.items, 1))
      ensures !(pickerType == Range && input.ArrayInput?) ==>
                value == InputDisplay(format, input)
                && endValue == (if pickerType == Range then "" else old(endValue))
    {
      if pickerType == Range && input.ArrayInput? {
        value := ItemDisplay(format, ItemAt(input.items, 0));
        endValue := ItemDisplay(format, ItemAt(input.items, 1));
      } else {
        match input {
          case DateInput(d) => value := FormatDisplay(format, d);
          case StringInput(iso) => value := IsoToDisplay(format, iso);
          case _ => value := "";
        }
        if pickerType == Range {
          endValue := "";
        }
      }
    }
  }
}
