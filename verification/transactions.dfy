/** One ledger record (`Transaction`), the seven columns it exposes
    (`TransactionField`), the text shown for each column, the field-by-field
    update with typed validation, record equality and record ordering. */
module Transactions {
  import opened Wrappers
  import opened Text
  import opened Dates
  import opened Amounts

  /** The columns, in display order. */
  datatype Field = DateField | AmountField | Details | Category | Method | Direction | Currency

  const FieldCount: nat := 7

  /** `TransactionField::get`: the column at a display index. */
  function FieldAt(index: nat): (f: Option<Field>)
    ensures f.Some? <==> index < FieldCount
  {
    match index
    case 0 => Some(DateField)
    case 1 => Some(AmountField)
    case 2 => Some(Details)
    case 3 => Some(Category)
    case 4 => Some(Method)
    case 5 => Some(Direction)
    case 6 => Some(Currency)
    case _ => None
  }

  /** The display index of a column (its position in `all_fields`). */
  function IndexOf(f: Field): (i: nat)
    ensures i < FieldCount
  {
    match f
    case DateField => 0
    case AmountField => 1
    case Details => 2
    case Category => 3
    case Method => 4
    case Direction => 5
    case Currency => 6
  }

  /** Index and column are inverse to each other. */
  lemma FieldIndexRoundTrip(f: Field, i: nat)
    ensures FieldAt(IndexOf(f)) == Some(f)
    ensures FieldAt(i) == Some(f) ==> IndexOf(f) == i
  {
  }

  predicate IsTextField(f: Field) {
    f != DateField && f != AmountField
  }

  datatype Transaction = Transaction(
    date: SimpleDate,
    amount: real,
    details: string,
    category: string,
    paymentMethod: string,
    direction: string,
    currency: string)

  /** A record as hectec can hold one: its date came from the parser. */
  predicate ValidTransaction(t: Transaction) {
    Valid(t.date) && 100 <= t.date.year
  }

  /** `Transaction::new`: the given date, no amount, empty text fields. */
  function NewTransaction(date: SimpleDate): (t: Transaction)
    ensures t.date == date && t.amount == 0.0
    ensures forall f :: IsTextField(f) ==> FieldText(t, f) == ""
  {
    Transaction(date, 0.0, "", "", "", "", "")
  }

  /** `get_field_text`: the text a cell shows. An amount of zero shows as
      nothing; any other amount as `{:.2}` text. */
  function FieldText(t: Transaction, f: Field): (s: string)
    ensures f == AmountField ==> (s == "" <==> t.amount == 0.0)
    ensures f == AmountField && t.amount != 0.0 ==> ParseAmount(s) == Some(RoundedAmount(t.amount))
    ensures f == DateField && Valid(t.date) && 100 <= t.date.year ==> ParseDate(s) == Ok(t.date)
  {
    match f
    case DateField =>
      if Valid(t.date) && 100 <= t.date.year then
        ParseFormatRoundTrip(t.date);
        FormatDate(t.date)
      else FormatDate(t.date)
    case AmountField =>
      if t.amount == 0.0 then ""
      else
        FormatAmountRoundTrip(t.amount);
        FormatAmount(t.amount)
    case Details => t.details
    case Category => t.category
    case Method => t.paymentMethod
    case Direction => t.direction
    case Currency => t.currency
  }

  /** The amount cell is empty exactly when the amount is zero. */
  lemma AmountTextEmptyIffZero(t: Transaction)
    ensures FieldText(t, AmountField) == "" <==> t.amount == 0.0
  {
  }

  /** `get_column_text`: the text at a display index, if there is such a column. */
  function ColumnText(t: Transaction, index: nat): (r: Option<string>)
    ensures r.Some? <==> index < FieldCount
    ensures r.Some? ==> r.value == FieldText(t, FieldAt(index).value)
  {
    match FieldAt(index)
    case Some(f) => Some(FieldText(t, f))
    case None => None
  }

  /** `a` and `b` agree on every field except possibly `f`. */
  predicate SameExcept(a: Transaction, b: Transaction, f: Field) {
    && (f != DateField ==> a.date == b.date)
    && (f != AmountField ==> a.amount == b.amount)
    && (f != Details ==> a.details == b.details)
    && (f != Category ==> a.category == b.category)
    && (f != Method ==> a.paymentMethod == b.paymentMethod)
    && (f != Direction ==> a.direction == b.direction)
    && (f != Currency ==> a.currency == b.currency)
  }

  const DateErrorPrefix: string := " failed to parse as date: "
  const NumberErrorPrefix: string := " failed to parse as number: "

  /** `mutate_field`: parses and stores `input` into the column at `index`.
      A date or amount that does not parse is an error and changes nothing;
      a text column takes the input verbatim; an index past the last column
      succeeds and changes nothing. */
  function MutateField(t: Transaction, index: nat, input: string): (r: Result<Transaction, string>)
    ensures r.Err? <==> ((FieldAt(index) == Some(DateField) && ParseDate(input).Err?)
                         || (FieldAt(index) == Some(AmountField) && ParseAmount(input).None?))
    ensures r.Err? ==> StartsWith(r.error, " failed to parse as ")
    ensures r.Ok? && FieldAt(index).None? ==> r.value == t
    ensures r.Ok? && FieldAt(index).Some? ==> SameExcept(t, r.value, FieldAt(index).value)
    ensures r.Ok? && FieldAt(index).Some? && IsTextField(FieldAt(index).value)
            ==> FieldText(r.value, FieldAt(index).value) == input
    ensures r.Ok? && FieldAt(index) == Some(DateField) ==> ParseDate(input) == Ok(r.value.date)
    ensures r.Ok? && FieldAt(index) == Some(AmountField) ==> ParseAmount(input) == Some(r.value.amount)
    ensures r.Ok? && ValidTransaction(t) ==> ValidTransaction(r.value)
  {
    match FieldAt(index)
    case None => Ok(t)
    case Some(DateField) =>
      (match ParseDate(input)
       case Ok(d) => Ok(t.(date := d))
       case Err(e) => Err(DateErrorPrefix + e.Message()))
    case Some(AmountField) =>
      (match ParseAmount(input)
       case Some(x) => Ok(t.(amount := x))
       case None => Err(NumberErrorPrefix + ParseFloatErrorText(input)))
    case Some(Details) => Ok(t.(details := input))
    case Some(Category) => Ok(t.(category := input))
    case Some(Method) => Ok(t.(paymentMethod := input))
    case Some(Direction) => Ok(t.(direction := input))
    case Some(Currency) => Ok(t.(currency := input))
  }

  /** Every failure message says that parsing failed. */
  lemma MutateFieldErrorMentionsParse(t: Transaction, index: nat, input: string)
    requires MutateField(t, index, input).Err?
    ensures Contains(MutateField(t, index, input).error, "failed to parse")
  {
    FailureHeadMentionsParse(MutateField(t, index, input).error);
  }

  lemma FailureHeadMentionsParse(e: string)
    requires StartsWith(e, " failed to parse as ")
    ensures Contains(e, "failed to parse")
  {
    assert " failed to parse as " == " " + ("failed to parse" + " as ");
    StartsWithTail(e, " ", "failed to parse" + " as ");
    StartsWithShorter(e[1..], "failed to parse", " as ");
  }

  /** Writing back a cell's own text changes nothing, for every column but
      the amount. */
  lemma RewriteOwnText(t: Transaction, index: nat)
    requires ValidTransaction(t) && index < FieldCount && index != 1
    ensures MutateField(t, index, ColumnText(t, index).value) == Ok(t)
  {
    if index == 0 {
      RewriteOwnDate(t);
    } else {
      var f := FieldAt(index).value;
      assert IsTextField(f);
      RewriteOwnTextField(t, f);
      FieldIndexRoundTrip(f, index);
    }
  }

  lemma RewriteOwnTextField(t: Transaction, f: Field)
    requires IsTextField(f)
    ensures MutateField(t, IndexOf(f), FieldText(t, f)) == Ok(t)
  {
    match f
    case Details => assert t.(details := t.details) == t;
    case Category => assert t.(category := t.category) == t;
    case Method => assert t.(paymentMethod := t.paymentMethod) == t;
    case Direction => assert t.(direction := t.direction) == t;
    case Currency => assert t.(currency := t.currency) == t;
  }

  lemma RewriteOwnDate(t: Transaction)
    requires ValidTransaction(t)
    ensures MutateField(t, 0, FormatDate(t.date)) == Ok(t)
  {
    ParseFormatRoundTrip(t.date);
    assert t.(date := t.date) == t;
  }

  /** Writing back the amount cell's own text rounds the amount to hundredths;
      an empty amount cell (amount zero) does not parse at all. */
  lemma RewriteOwnAmountText(t: Transaction)
    ensures t.amount != 0.0 ==>
      MutateField(t, 1, FieldText(t, AmountField)) == Ok(t.(amount := RoundedAmount(t.amount)))
    ensures t.amount == 0.0 ==>
      MutateField(t, 1, FieldText(t, AmountField))
        == Err(NumberErrorPrefix + "cannot parse float from empty string")
  {
    if t.amount != 0.0 {
      FormatAmountRoundTrip(t.amount);
    }
  }

  /** `PartialEq for Transaction`: all fields but `direction`, amounts equal
      up to 1e-6. */
  predicate TransactionEq(a: Transaction, b: Transaction)
    ensures TransactionEq(a, b) ==> TransactionCmp(a, b) == Equal
    ensures a == b ==> TransactionEq(a, b)
  {
    && a.date == b.date
    && Abs(a.amount - b.amount) < 0.000001
    && a.currency == b.currency
    && a.details == b.details
    && a.category == b.category
    && a.paymentMethod == b.paymentMethod
  }

  /** `Ord for Transaction`: by date only. */
  function TransactionCmp(a: Transaction, b: Transaction): (r: Ordering)
    ensures Valid(a.date) && Valid(b.date) ==> r == CalendarCmp(a.date, b.date)
    ensures Valid(a.date) && Valid(b.date) ==> (r == Equal <==> a.date == b.date)
  {
    DateCmp(a.date, b.date)
  }

  /** Equal records compare equal, and the direction never matters. */
  lemma TransactionEqProperties(a: Transaction, b: Transaction, direction: string)
    ensures TransactionEq(a, b) ==> TransactionCmp(a, b) == Equal
    ensures TransactionEq(a, b) <==> TransactionEq(a, b.(direction := direction))
    ensures TransactionEq(a, b) <==> TransactionEq(b, a)
    ensures TransactionEq(a, a)
  {
  }

  /** The order ignores every field but the date: records that compare equal
      need not be equal, and the 1e-6 tolerance makes equality intransitive. */
  lemma TransactionEqIsCoarserThanOrder()
    ensures var a := NewTransaction(SimpleDate(2024, 1, 1));
            var b := a.(details := "rent");
            TransactionCmp(a, b) == Equal && !TransactionEq(a, b)
    ensures var a := NewTransaction(SimpleDate(2024, 1, 1));
            var b := a.(amount := 0.0000006);
            var c := a.(amount := 0.0000012);
            TransactionEq(a, b) && TransactionEq(b, c) && !TransactionEq(a, c)
  {
  }
}
