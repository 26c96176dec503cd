/** `TransactionsReport`: monthly sums of the records kept in the default
    currency, per (direction, category) label and per direction, with the
    index-based queries the report page uses. */
module Report {
  import opened Wrappers
  import opened Text
  import opened Dates
  import opened Transactions
  import opened SortedSets

  const DefaultCurrency: string := "ILS"

  /** `MonthInYear`. */
  datatype MonthInYear = MonthInYear(year: int, month: int)

  /** `DirectionAndCategory`: `(Some(d), Some(c))` labels one category of a
      direction, `(Some(d), None)` the whole direction. */
  datatype Label = Label(direction: Option<string>, category: Option<string>)

  datatype Report = Report(
    months: seq<MonthInYear>,
    categories: seq<Label>,
    summary: map<(Label, MonthInYear), real>)

  // ---------------------------------------------------------------------------
  // Orders
  // ---------------------------------------------------------------------------

  /** The order in which months are listed: later months first. */
  predicate LaterMonth(a: MonthInYear, b: MonthInYear) {
    a.year > b.year || (a.year == b.year && a.month > b.month)
  }

  /** `Ord for Option<String>`: `None` first, then by string. */
  predicate OptionLt(a: Option<string>, b: Option<string>) {
    match a
    case None => b.Some?
    case Some(x) => b.Some? && StrLt(x, b.value)
  }

  /** `Ord` on the `(direction, category)` tuple. */
  predicate LabelLt(a: Label, b: Label) {
    OptionLt(a.direction, b.direction) || (a.direction == b.direction && OptionLt(a.category, b.category))
  }

  lemma LaterMonthIsStrictTotalOrder()
    ensures IsStrictTotalOrder(LaterMonth)
  {
  }

  lemma OptionLtFacts(a: Option<string>, b: Option<string>, c: Option<string>)
    ensures !OptionLt(a, a)
    ensures OptionLt(a, b) && OptionLt(b, c) ==> OptionLt(a, c)
    ensures a == b || OptionLt(a, b) || OptionLt(b, a)
  {
    if a.Some? {
      StrLtIrreflexive(a.value);
      if b.Some? {
        StrLtTotal(a.value, b.value);
        if c.Some? && StrLt(a.value, b.value) && StrLt(b.value, c.value) {
          StrLtTransitive(a.value, b.value, c.value);
        }
      }
    }
  }

  lemma LabelLtIsStrictTotalOrder()
    ensures IsStrictTotalOrder(LabelLt)
  {
    forall a: Label, b: Label, c: Label
      ensures !LabelLt(a, a)
      ensures LabelLt(a, b) && LabelLt(b, c) ==> LabelLt(a, c)
      ensures a == b || LabelLt(a, b) || LabelLt(b, a)
    {
      OptionLtFacts(a.direction, b.direction, c.direction);
      OptionLtFacts(a.category, b.category, c.category);
    }
  }

  /** The months listed newest first and the labels in ascending order. */
  predicate WellOrdered(r: Report) {
    StrictlyAscending(r.months, LaterMonth) && StrictlyAscending(r.categories, LabelLt)
  }

  // ---------------------------------------------------------------------------
  // What a record contributes
  // ---------------------------------------------------------------------------

  predicate Contributes(t: Transaction) {
    t.currency == DefaultCurrency
  }

  function MonthOf(t: Transaction): MonthInYear {
    MonthInYear(t.date.year, t.date.month)
  }

  function CategoryLabel(t: Transaction): Label {
    Label(Some(t.direction), Some(t.category))
  }

  function DirectionLabel(t: Transaction): Label {
    Label(Some(t.direction), None)
  }

  /** Record `t` counts towards label `l` in month `m`. */
  predicate Counts(t: Transaction, l: Label, m: MonthInYear) {
    Contributes(t) && MonthOf(t) == m && (l == CategoryLabel(t) || l == DirectionLabel(t))
  }

  /** The sum of the amounts of the records that count towards `l` in `m`. */
  function Total(ts: seq<Transaction>, l: Label, m: MonthInYear): real {
    if |ts| == 0 then 0.0
    else Total(ts[..|ts| - 1], l, m) + (if Counts(ts[|ts| - 1], l, m) then ts[|ts| - 1].amount else 0.0)
  }

  /** The distinct months of the contributing records. */
  function MonthsOf(ts: seq<Transaction>): set<MonthInYear> {
    set k | 0 <= k < |ts| && Contributes(ts[k]) :: MonthOf(ts[k])
  }

  /** The labels of the contributing records: each one's category label
      and its direction label. */
  function LabelsOf(ts: seq<Transaction>): set<Label> {
    (set k | 0 <= k < |ts| && Contributes(ts[k]) :: CategoryLabel(ts[k]))
    + (set k | 0 <= k < |ts| && Contributes(ts[k]) :: DirectionLabel(ts[k]))
  }

  /** The (label, month) pairs some contributing record counts towards. */
  function KeysOf(ts: seq<Transaction>): set<(Label, MonthInYear)> {
    (set k | 0 <= k < |ts| && Contributes(ts[k]) :: (CategoryLabel(ts[k]), MonthOf(ts[k])))
    + (set k | 0 <= k < |ts| && Contributes(ts[k]) :: (DirectionLabel(ts[k]), MonthOf(ts[k])))
  }

  // ---------------------------------------------------------------------------
  // Building the report
  // ---------------------------------------------------------------------------

  /** `*summary.entry(key).or_insert(0.0) += amount`. */
  function AddTo(summary: map<(Label, MonthInYear), real>, key: (Label, MonthInYear), amount: real)
    : (r: map<(Label, MonthInYear), real>)
    ensures r.Keys == summary.Keys + {key}
    ensures r[key] == (if key in summary then summary[key] else 0.0) + amount
    ensures forall other :: other in summary && other != key ==> r[other] == summary[other]
  {
    summary[key := (if key in summary then summary[key] else 0.0) + amount]
  }

  /** The step of `TransactionsReport::new` for one record: a record in the
      default currency adds its month, its two labels and its amount to
      both labels' sums for the month; any other record is skipped. */
  function AddRecord(r: Report, t: Transaction): (r': Report)
    requires WellOrdered(r)
    ensures WellOrdered(r')
  {
    if !Contributes(t) then r
    else
      LaterMonthIsStrictTotalOrder();
      LabelLtIsStrictTotalOrder();
      var m := MonthOf(t);
      Report(
        InsertUnique(m, r.months, LaterMonth),
        InsertUnique(DirectionLabel(t), InsertUnique(CategoryLabel(t), r.categories, LabelLt), LabelLt),
        AddTo(AddTo(r.summary, (CategoryLabel(t), m), t.amount), (DirectionLabel(t), m), t.amount))
  }

  /** `TransactionsReport::new`. */
  function NewReport(ts: seq<Transaction>): (r: Report)
    ensures WellOrdered(r)
  {
    if |ts| == 0 then Report([], [], map[])
    else AddRecord(NewReport(ts[..|ts| - 1]), ts[|ts| - 1])
  }

  lemma MonthsOfStep(ts: seq<Transaction>)
    requires |ts| > 0
    ensures var init, t := ts[..|ts| - 1], ts[|ts| - 1];
            MonthsOf(ts) == MonthsOf(init) + (if Contributes(t) then {MonthOf(t)} else {})
  {
    var init := ts[..|ts| - 1];
    assert forall k :: 0 <= k < |init| ==> init[k] == ts[k];
  }

  lemma LabelsOfStep(ts: seq<Transaction>)
    requires |ts| > 0
    ensures var init, t := ts[..|ts| - 1], ts[|ts| - 1];
            LabelsOf(ts) == LabelsOf(init) + (if Contributes(t) then {CategoryLabel(t), DirectionLabel(t)} else {})
  {
    var init := ts[..|ts| - 1];
    assert forall k :: 0 <= k < |init| ==> init[k] == ts[k];
  }

  lemma KeysOfStep(ts: seq<Transaction>)
    requires |ts| > 0
    ensures var init, t := ts[..|ts| - 1], ts[|ts| - 1];
            KeysOf(ts) == KeysOf(init)
                        + (if Contributes(t) then {(CategoryLabel(t), MonthOf(t)), (DirectionLabel(t), MonthOf(t))} else {})
  {
    var init := ts[..|ts| - 1];
    assert forall k :: 0 <= k < |init| ==> init[k] == ts[k];
  }

  /** The report lists exactly the distinct months of the records in the
      default currency, newest first. */
  lemma {:induction false} ReportMonths(ts: seq<Transaction>)
    ensures StrictlyAscending(NewReport(ts).months, LaterMonth)
    ensures forall m :: m in NewReport(ts).months <==> m in MonthsOf(ts)
    decreases |ts|
  {
    if |ts| > 0 {
      ReportMonths(ts[..|ts| - 1]);
      MonthsOfStep(ts);
    }
  }

  /** The report lists exactly the labels of the records in the default
      currency, in ascending order. */
  lemma {:induction false} ReportCategories(ts: seq<Transaction>)
    ensures StrictlyAscending(NewReport(ts).categories, LabelLt)
    ensures forall l :: l in NewReport(ts).categories <==> l in LabelsOf(ts)
    decreases |ts|
  {
    if |ts| > 0 {
      ReportCategories(ts[..|ts| - 1]);
      LabelsOfStep(ts);
    }
  }

  /** The summary has an entry for exactly the (label, month) pairs some
      record in the default currency counts towards, holding the sum of the
      amounts of those records. */
  lemma {:induction false} ReportSummary(ts: seq<Transaction>)
    ensures NewReport(ts).summary.Keys == KeysOf(ts)
    ensures forall key :: key in NewReport(ts).summary ==> NewReport(ts).summary[key] == Total(ts, key.0, key.1)
    decreases |ts|
  {
    if |ts| > 0 {
      var init, t := ts[..|ts| - 1], ts[|ts| - 1];
      ReportSummary(init);
      KeysOfStep(ts);
      assert init + [t] == ts;
      var before := NewReport(init).summary;
      if Contributes(t) {
        forall key | key in NewReport(ts).summary
          ensures NewReport(ts).summary[key] == Total(ts, key.0, key.1)
        {
          SummaryStepAt(init, t, before, key);
        }
      } else {
        forall key | key in before ensures Total(ts, key.0, key.1) == Total(init, key.0, key.1) {
          TotalAppend(init, t, key.0, key.1);
        }
      }
    }
  }

  /** The summary of the records with one more in the default currency: its
      entry for `key` holds the new total. */
  lemma SummaryStepAt(init: seq<Transaction>, t: Transaction, before: map<(Label, MonthInYear), real>,
                      key: (Label, MonthInYear))
    requires Contributes(t)
    requires before.Keys == KeysOf(init)
    requires forall k :: k in before ==> before[k] == Total(init, k.0, k.1)
    requires key in AddTo(AddTo(before, (CategoryLabel(t), MonthOf(t)), t.amount), (DirectionLabel(t), MonthOf(t)), t.amount)
    ensures AddTo(AddTo(before, (CategoryLabel(t), MonthOf(t)), t.amount), (DirectionLabel(t), MonthOf(t)), t.amount)[key]
         == Total(init + [t], key.0, key.1)
  {
    TotalAppend(init, t, key.0, key.1);
    if key !in before {
      AbsentKeyTotalZero(init, key.0, key.1);
    }
  }

  /** A pair no record counts towards sums to zero. */
  lemma {:induction false} AbsentKeyTotalZero(ts: seq<Transaction>, l: Label, m: MonthInYear)
    requires (l, m) !in KeysOf(ts)
    ensures Total(ts, l, m) == 0.0
    decreases |ts|
  {
    if |ts| > 0 {
      KeysOfStep(ts);
      AbsentKeyTotalZero(ts[..|ts| - 1], l, m);
    }
  }

  lemma AbsentKeyTotalZeroAll(ts: seq<Transaction>)
    ensures forall l, m :: (l, m) !in KeysOf(ts) ==> Total(ts, l, m) == 0.0
  {
    forall l, m | (l, m) !in KeysOf(ts) ensures Total(ts, l, m) == 0.0 {
      AbsentKeyTotalZero(ts, l, m);
    }
  }

  /** Records in another currency leave the report as it was. */
  lemma OtherCurrencyIgnored(ts: seq<Transaction>, t: Transaction)
    requires !Contributes(t)
    ensures NewReport(ts + [t]) == NewReport(ts)
  {
    assert (ts + [t])[..|ts|] == ts;
  }

  /** Every label in the report is a direction label or a category label of
      some direction, and a category's direction label comes before it. */
  lemma DirectionBeforeItsCategories(ts: seq<Transaction>, i: nat, j: nat)
    requires i < |NewReport(ts).categories| && j < |NewReport(ts).categories|
    requires NewReport(ts).categories[i].category.None?
    requires NewReport(ts).categories[j].category.Some?
    requires NewReport(ts).categories[i].direction == NewReport(ts).categories[j].direction
    ensures i < j
  {
    var cs := NewReport(ts).categories;
    LabelLtIsStrictTotalOrder();
    assert !LabelLt(cs[j], cs[i]);
  }

  /** Every category label in the report has its direction label there too,
      and no label lacks a direction. */
  lemma CategoryHasDirection(ts: seq<Transaction>, l: Label)
    requires l in NewReport(ts).categories
    ensures l.direction.Some?
    ensures Label(l.direction, None) in NewReport(ts).categories
  {
    ReportCategories(ts);
  }

  // ---------------------------------------------------------------------------
  // Per-direction roll-up
  // ---------------------------------------------------------------------------

  /** The sums of the categories `cats` of direction `d` in month `m`. */
  function CategorySums(ts: seq<Transaction>, d: string, cats: seq<string>, m: MonthInYear): real {
    if |cats| == 0 then 0.0
    else CategorySums(ts, d, cats[..|cats| - 1], m) + Total(ts, Label(Some(d), Some(cats[|cats| - 1])), m)
  }

  /** Adding a record to the ledger adds its amount to the sums of a
      duplicate-free list of categories when it counts towards one of them. */
  lemma {:induction false} CategorySumsStep(ts: seq<Transaction>, t: Transaction, d: string, cats: seq<string>, m: MonthInYear)
    requires forall i, j :: 0 <= i < j < |cats| ==> cats[i] != cats[j]
    ensures CategorySums(ts + [t], d, cats, m)
         == CategorySums(ts, d, cats, m)
            + (if Contributes(t) && t.direction == d && MonthOf(t) == m && t.category in cats
               then t.amount else 0.0)
    decreases |cats|
  {
    if |cats| > 0 {
      var init, c := cats[..|cats| - 1], cats[|cats| - 1];
      CategorySumsStep(ts, t, d, init, m);
      TotalAppend(ts, t, Label(Some(d), Some(c)), m);
      assert t.category in cats <==> t.category in init || t.category == c;
      assert c !in init;
    }
  }

  /** Appending a record adds its amount to the totals it counts towards. */
  lemma TotalAppend(ts: seq<Transaction>, t: Transaction, l: Label, m: MonthInYear)
    ensures Total(ts + [t], l, m) == Total(ts, l, m) + (if Counts(t, l, m) then t.amount else 0.0)
  {
    assert (ts + [t])[..|ts|] == ts;
  }

  /** The roll-up of a direction in a month is the sum of its categories'
      sums, for any duplicate-free list naming every category it has. */
  lemma {:induction false} RollupIsSumOfCategories(ts: seq<Transaction>, d: string, cats: seq<string>, m: MonthInYear)
    requires forall i, j :: 0 <= i < j < |cats| ==> cats[i] != cats[j]
    requires forall k :: 0 <= k < |ts| && Contributes(ts[k]) && ts[k].direction == d && MonthOf(ts[k]) == m
               ==> ts[k].category in cats
    ensures Total(ts, Label(Some(d), None), m) == CategorySums(ts, d, cats, m)
    decreases |ts|
  {
    if |ts| > 0 {
      var init, t := ts[..|ts| - 1], ts[|ts| - 1];
      assert forall k :: 0 <= k < |init| ==> init[k] == ts[k];
      RollupIsSumOfCategories(init, d, cats, m);
      assert init + [t] == ts;
      RollupStep(init, t, d, cats, m);
    } else {
      CategorySumsEmpty(d, cats, m);
    }
  }

  /** One record more keeps the roll-up equal to the sum of the categories,
      provided a record of the direction and month has a listed category. */
  lemma RollupStep(init: seq<Transaction>, t: Transaction, d: string, cats: seq<string>, m: MonthInYear)
    requires forall i, j :: 0 <= i < j < |cats| ==> cats[i] != cats[j]
    requires Contributes(t) && t.direction == d && MonthOf(t) == m ==> t.category in cats
    requires Total(init, Label(Some(d), None), m) == CategorySums(init, d, cats, m)
    ensures Total(init + [t], Label(Some(d), None), m) == CategorySums(init + [t], d, cats, m)
  {
    CategorySumsStep(init, t, d, cats, m);
    TotalAppend(init, t, Label(Some(d), None), m);
    assert Counts(t, Label(Some(d), None), m) <==> Contributes(t) && t.direction == d && MonthOf(t) == m;
  }

  lemma {:induction false} CategorySumsEmpty(d: string, cats: seq<string>, m: MonthInYear)
    ensures CategorySums([], d, cats, m) == 0.0
    decreases |cats|
  {
    if |cats| > 0 {
      CategorySumsEmpty(d, cats[..|cats| - 1], m);
    }
  }

  // ---------------------------------------------------------------------------
  // Queries
  // ---------------------------------------------------------------------------

  /** `rows_len`. */
  function RowsLen(r: Report): (n: nat)
    ensures n == |r.months|
  {
    |r.months|
  }

  /** `format!("\n{:04}.{:02}", year, month)`. */
  function MonthText(m: MonthInYear): string {
    "\n" + PadInt(m.year, 4) + "." + PadInt(m.month, 2)
  }

  /** The month text is the year-and-month part of the date text of any day
      in the month. */
  lemma MonthTextIsDatePrefix(d: SimpleDate)
    requires Valid(d) && d.year >= 0
    ensures MonthText(MonthInYear(d.year, d.month)) == "\n" + FormatDate(d)[..7]
  {
    ZeroPadLength(d.year, 4);
    ZeroPadLength(d.month, 2);
    var ym := PadInt(d.year, 4) + "." + PadInt(d.month, 2);
    assert FormatDate(d) == ym + ("." + PadInt(d.day, 2));
    assert FormatDate(d)[..7] == ym;
  }

  /** The sum recorded for `l` in `m`, zero when there is no entry. */
  function SummaryAt(r: Report, l: Label, m: MonthInYear): real {
    if (l, m) in r.summary then r.summary[(l, m)] else 0.0
  }

  /** `get_month_rows`: one row per month, in report order, with the
      month's text and the label's sum for it. */
  function GetMonthRows(r: Report, l: Label): (rows: seq<(string, real)>)
    ensures |rows| == |r.months|
    ensures forall i :: 0 <= i < |rows| ==> rows[i].0 == MonthText(r.months[i])
    ensures forall i :: 0 <= i < |rows| ==> rows[i].1 == SummaryAt(r, l, r.months[i])
  {
    seq(|r.months|, i requires 0 <= i < |r.months| => (MonthText(r.months[i]), SummaryAt(r, l, r.months[i])))
  }

  /** Every month row of a report holds the label's total for that month,
      including the zero of a month where nothing counted. */
  lemma MonthRowsAreTotals(ts: seq<Transaction>, l: Label)
    ensures var r := NewReport(ts);
            forall i :: 0 <= i < |r.months| ==> GetMonthRows(r, l)[i].1 == Total(ts, l, r.months[i])
  {
    ReportSummary(ts);
    AbsentKeyTotalZeroAll(ts);
  }

  /** `get_month_at_index`. */
  function GetMonthAtIndex(r: Report, index: nat): (m: Option<MonthInYear>)
    ensures m.Some? <==> index < |r.months|
    ensures m.Some? ==> m.value == r.months[index]
  {
    if index < |r.months| then Some(r.months[index]) else None
  }

  /** The labels of `cats` with a recorded, non-zero sum in `m`, in order. */
  function NonZeroLabels(r: Report, cats: seq<Label>, m: MonthInYear): (ls: seq<Label>)
    ensures forall l :: l in ls <==> l in cats && (l, m) in r.summary && r.summary[(l, m)] != 0.0
    ensures StrictlyAscending(cats, LabelLt) ==> StrictlyAscending(ls, LabelLt)
  {
    if |cats| == 0 then []
    else
      var l := cats[|cats| - 1];
      var init := NonZeroLabels(r, cats[..|cats| - 1], m);
      assert forall x :: x in cats <==> x in cats[..|cats| - 1] || x == l;
      if (l, m) in r.summary && r.summary[(l, m)] != 0.0 then
        assert forall k :: 0 <= k < |init| ==> init[k] in init;
        init + [l]
      else init
  }

  /** `get_categories_for_month_by_index`: the labels with a recorded,
      non-zero sum in the month at `index`, in report order; none for an
      index past the last month. */
  function GetCategoriesForMonth(r: Report, index: nat): (ls: seq<Label>)
    ensures index >= |r.months| ==> ls == []
    ensures index < |r.months| ==>
      forall l :: l in ls <==> l in r.categories && (l, r.months[index]) in r.summary
                               && r.summary[(l, r.months[index])] != 0.0
    ensures WellOrdered(r) ==> StrictlyAscending(ls, LabelLt)
  {
    if index < |r.months| then NonZeroLabels(r, r.categories, r.months[index]) else []
  }

  /** For a built report, the labels listed for a month are exactly those
      whose total in the month is non-zero. */
  lemma CategoriesForMonthAreNonZeroTotals(ts: seq<Transaction>, index: nat, l: Label)
    requires index < |NewReport(ts).months|
    ensures var r := NewReport(ts);
            l in GetCategoriesForMonth(r, index) <==> Total(ts, l, r.months[index]) != 0.0
  {
    var r := NewReport(ts);
    var m := r.months[index];
    ReportSummary(ts);
    ReportCategories(ts);
    AbsentKeyTotalZeroAll(ts);
    if (l, m) in KeysOf(ts) {
      KeyLabelListed(ts, l, m);
    }
  }

  lemma KeyLabelListed(ts: seq<Transaction>, l: Label, m: MonthInYear)
    requires (l, m) in KeysOf(ts)
    ensures l in LabelsOf(ts)
  {
  }

  /** `get_category_by_index_for_month_at_index`: the label at
      `categoryIndex` in the month's list, or `(None, None)` past its end. */
  function GetCategoryAt(r: Report, monthIndex: nat, categoryIndex: nat): (l: Label)
    ensures categoryIndex < |GetCategoriesForMonth(r, monthIndex)| ==>
              l == GetCategoriesForMonth(r, monthIndex)[categoryIndex]
    ensures categoryIndex >= |GetCategoriesForMonth(r, monthIndex)| ==> l == Label(None, None)
  {
    var cats := GetCategoriesForMonth(r, monthIndex);
    if categoryIndex < |cats| then cats[categoryIndex] else Label(None, None)
  }

  /** `(None, None)` is never a label of a built report, so it marks "no
      category" without ambiguity. */
  lemma NoCategoryIsUnambiguous(ts: seq<Transaction>, monthIndex: nat, categoryIndex: nat)
    ensures var r := NewReport(ts);
            GetCategoryAt(r, monthIndex, categoryIndex) == Label(None, None)
            <==> categoryIndex >= |GetCategoriesForMonth(r, monthIndex)|
  {
    var r := NewReport(ts);
    var cats := GetCategoriesForMonth(r, monthIndex);
    if categoryIndex < |cats| {
      assert cats[categoryIndex] in cats;
      CategoryHasDirection(ts, cats[categoryIndex]);
    }
  }
}
