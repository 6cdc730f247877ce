/**
 * The search window's year, month and day drop-downs: an "any" option
 * first, then the years from the current one down to 2023, the months 1 to
 * 12 and the days 1 to 31, each with its number as value and the number and
 * unit as label. The current year is a parameter (the page reads the clock).
 */
module DateSelectors {
  import opened Wrappers
  import opened Decimal
  import opened SearchQuery

  datatype SelectOption = SelectOption(value: string, text: string)

  const AnyValue: string := "any"
  const FirstYear: nat := 2023

  /** `<option value="${n}">${n}${unit}</option>`. */
  function Numbered(n: nat, unit: string): (o: SelectOption)
    ensures o.value == NatToString(n) && o.text == NatToString(n) + unit
  {
    SelectOption(NatToString(n), NatToString(n) + unit)
  }

  /** The year list for `currentYear`: "any", then `currentYear` down to 2023. */
  ghost predicate YearList(opts: seq<SelectOption>, currentYear: int) {
    && |opts| == 1 + (if currentYear >= FirstYear then currentYear - FirstYear + 1 else 0)
    && opts[0] == SelectOption(AnyValue, "所有年份")
    && forall k :: 1 <= k < |opts| ==> currentYear - k + 1 >= FirstYear && opts[k] == Numbered(currentYear - k + 1, "年")
  }

  /** A list of "any", then `first` up to `last`. */
  ghost predicate RangeList(opts: seq<SelectOption>, anyLabel: string, first: nat, last: nat, unit: string) {
    && |opts| == 1 + (if last >= first then last - first + 1 else 0)
    && opts[0] == SelectOption(AnyValue, anyLabel)
    && forall k :: 1 <= k < |opts| ==> opts[k] == Numbered(first + k - 1, unit)
  }

  /** The year drop-down. */
  method YearOptions(currentYear: int) returns (opts: seq<SelectOption>)
    ensures YearList(opts, currentYear)
  {
    opts := [SelectOption(AnyValue, "所有年份")];
    var y := currentYear;
    while y >= FirstYear
      invariant y <= currentYear
      invariant currentYear >= FirstYear ==> y >= FirstYear - 1
      invariant currentYear < FirstYear ==> y == currentYear
      invariant |opts| == 1 + (currentYear - y)
      invariant opts[0] == SelectOption(AnyValue, "所有年份")
      invariant forall k :: 1 <= k < |opts| ==> currentYear - k + 1 >= FirstYear && opts[k] == Numbered(currentYear - k + 1, "年")
      decreases y
    {
      opts := opts + [Numbered(y, "年")];
      y := y - 1;
    }
  }

  /** A drop-down counting from `first` up to `last`. */
  method RangeOptions(anyLabel: string, first: nat, last: nat, unit: string) returns (opts: seq<SelectOption>)
    ensures RangeList(opts, anyLabel, first, last, unit)
  {
    opts := [SelectOption(AnyValue, anyLabel)];
    var n := first;
    while n <= last
      invariant first <= n
      invariant last >= first ==> n <= last + 1
      invariant last < first ==> n == first
      invariant |opts| == 1 + (n - first)
      invariant opts[0] == SelectOption(AnyValue, anyLabel)
      invariant forall k :: 1 <= k < |opts| ==> opts[k] == Numbered(first + k - 1, unit)
      decreases last + 1 - n
    {
      opts := opts + [Numbered(n, unit)];
      n := n + 1;
    }
  }

  /** `populateDateSelectors`: the three drop-downs. */
  method PopulateDateSelectors(currentYear: int) returns (years: seq<SelectOption>, months: seq<SelectOption>, days: seq<SelectOption>)
    ensures YearList(years, currentYear)
    ensures RangeList(months, "所有月份", 1, 12, "月") && |months| == 13
    ensures RangeList(days, "所有日期", 1, 31, "日") && |days| == 32
  {
    years := YearOptions(currentYear);
    months := RangeOptions("所有月份", 1, 12, "月");
    days := RangeOptions("所有日期", 1, 31, "日");
  }

  /** A number's text is never the text `any`. */
  lemma NumberIsNotAny(n: nat)
    ensures NatToString(n) != AnyValue && NatToString(n) != ""
  {
  }

  /**
   * Choosing year option `k` and searching: the "any" option adds no
   * condition on the year; any other option adds one whose value reads back
   * as the year it shows.
   */
  lemma ChosenYearFilters(opts: seq<SelectOption>, currentYear: int, k: nat, f: Filter)
    requires YearList(opts, currentYear) && k < |opts|
    requires f.year == Some(opts[k].value)
    ensures Active(f, Year) <==> k > 0
    ensures k > 0 ==> ParseDigits(Parameter(f, Year)) == currentYear - k + 1
  {
    if k > 0 {
      NumberIsNotAny(currentYear - k + 1);
      ParsePrinted(currentYear - k + 1);
    }
  }

  /** The same for a month or day option. */
  lemma ChosenRangeFilters(opts: seq<SelectOption>, anyLabel: string, first: nat, last: nat, unit: string,
                           k: nat, f: Filter, field: Field)
    requires RangeList(opts, anyLabel, first, last, unit) && k < |opts|
    requires field == Month || field == Day
    requires field == Month ==> f.month == Some(opts[k].value)
    requires field == Day ==> f.day == Some(opts[k].value)
    ensures Active(f, field) <==> k > 0
    ensures k > 0 ==> ParseDigits(Parameter(f, field)) == first + k - 1
  {
    if k > 0 {
      NumberIsNotAny(first + k - 1);
      ParsePrinted(first + k - 1);
    }
  }
}
