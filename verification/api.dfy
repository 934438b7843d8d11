/**
 * The input checks of the exchange-rates client (`ExchangeRatesAPI` in
 * api.py): each takes the Python values a caller passed and returns the
 * validated form, or `None` when the input is rejected. `History` is the
 * gate at the top of `history`, which turns any rejection into the error
 * record before a query is built.
 */
module Api {
  import opened Wrappers
  import opened Text
  import opened Calendar
  import opened Currency

  /** The Python values a caller can hand to the validators. */
  datatype Value =
    | NoneValue
    | Str(s: string)
    | Int(i: int)
    | DateTime(date: CalendarDate)  // a `datetime.datetime`; its time of day plays no part here
    | List(items: seq<Value>)
    | Other                         // any other object: a tuple, a float, a `date`, ...

  /** How a call ends: it returns a value or raises `TypeError`. */
  datatype Completion<T> = Normal(value: T) | TypeError

  /** The configuration of a client object: `self.base` and `self.currencies`. */
  datatype Client = Client(base: string, currencies: seq<string>)

  /** `ExchangeRatesAPI.CURRENCY_SYMBOLS_MAP`, in declaration order. */
  const CurrencySymbolsMap: SymbolTable := [
    ("GBP", "£"),
    ("CNY", "¥"),
    ("EUR", "€"),
    ("JPY", "¥"),
    ("PLN", "zł"),
    ("RUB", "₽"),
    ("USD", "$")
  ]

  /** The record `history` returns instead of querying. */
  const InvalidParameters: string := "Invalid parameters"

  /**
   * `_datetime_to_valid_str`, i.e. `strftime('%Y-%m-%d')`: the complete
   * extended calendar date, four-digit year and two-digit month and day,
   * which reads back as the same date.
   */
  function DatetimeToValidStr(dt: CalendarDate): (r: string)
    ensures |r| == 10 && r[4] == '-' && r[7] == '-'
    ensures AllDigits(r[..4]) && AllDigits(r[5..7]) && AllDigits(r[8..])
    ensures ParseIsoDate(r) == Some(dt)
  {
    var y, m, d := PadDigits(dt.year, 4), PadDigits(dt.month, 2), PadDigits(dt.day, 2);
    var r := y + "-" + m + "-" + d;
    assert Pow10(4) == 10000 && Pow10(2) == 100;
    PadDigitsValue(dt.year, 4);
    PadDigitsValue(dt.month, 2);
    PadDigitsValue(dt.day, 2);
    assert r[..4] == y && r[5..7] == m && r[8..] == d;
    r
  }

  /** The date 30 January 2020 is sent as "2020-01-30". */
  lemma DatetimeToValidStrExample()
    ensures DatetimeToValidStr(Date(2020, 1, 30)) == "2020-01-30"
  {
  }

  /** Distinct dates are sent as distinct strings. */
  lemma DatetimeToValidStrInjective(d1: CalendarDate, d2: CalendarDate)
    requires DatetimeToValidStr(d1) == DatetimeToValidStr(d2)
    ensures d1 == d2
  {
    assert Some(d1) == ParseIsoDate(DatetimeToValidStr(d1));
  }

  /** `_validate_base(base)`: the default base for `None`, a listed code as itself, otherwise `None`. */
  function ValidateBase(c: Client, base: Value): (r: Option<string>)
    ensures base.NoneValue? ==> r == Some(c.base)
    ensures !base.NoneValue? ==> (r.Some? <==> base.Str? && base.s in c.currencies)
    ensures !base.NoneValue? && r.Some? ==> r.value == base.s
  {
    if base.NoneValue? then Some(c.base)
    else if !base.Str? then None
    else if base.s !in c.currencies then None
    else Some(base.s)
  }

  /**
   * `_validate_timestamps(start, end)`: two datetimes become their date
   * strings, two strings pass unchanged, any other pair is rejected.
   */
  function ValidateTimestamps(start: Value, end: Value): (r: Option<(string, string)>)
    ensures start.DateTime? && end.DateTime? ==>
      r == Some((DatetimeToValidStr(start.date), DatetimeToValidStr(end.date)))
    ensures start.Str? && end.Str? ==> r == Some((start.s, end.s))
    ensures r.Some? <==> (start.DateTime? && end.DateTime?) || (start.Str? && end.Str?)
  {
    var (s, e) :=
      if start.DateTime? && end.DateTime? then
        (Str(DatetimeToValidStr(start.date)), Str(DatetimeToValidStr(end.date)))
      else
        (start, end);
    if !(s.Str? && e.Str?) then None else Some((s.s, e.s))
  }

  /** The strings of a list whose elements are all strings. */
  function Texts(items: seq<Value>): (r: seq<string>)
    requires forall k :: 0 <= k < |items| ==> items[k].Str?
    ensures |r| == |items|
    ensures forall k :: 0 <= k < |items| ==> r[k] == items[k].s
  {
    seq(|items|, k requires 0 <= k < |items| => items[k].s)
  }

  /**
   * `_validate_targets(target=None, targets=[])`: a string target wins;
   * with no target, a non-empty list of strings is joined with commas.
   * `','.join` raises `TypeError` on a list element that is not a string.
   */
  function ValidateTargets(target: Value, targets: Value): (r: Completion<Option<string>>)
    ensures target.Str? ==> r == Normal(Some(target.s))
    ensures !target.NoneValue? && !target.Str? ==> r == Normal(None)
    ensures target.NoneValue? && (!targets.List? || targets.items == []) ==> r == Normal(None)
    ensures r.TypeError? <==>
      target.NoneValue? && targets.List? && exists k :: 0 <= k < |targets.items| && !targets.items[k].Str?
    ensures (target.NoneValue? && targets.List? && targets.items != [] &&
             forall k :: 0 <= k < |targets.items| ==> targets.items[k].Str?) ==>
      r == Normal(Some(Join(Texts(targets.items), ",")))
    ensures r.Normal? && r.value.Some? && !target.Str? ==>
      target.NoneValue? && targets.List? && targets.items != [] &&
      (forall k :: 0 <= k < |targets.items| ==> targets.items[k].Str?) &&
      r.value.value == Join(Texts(targets.items), ",")
  {
    if target.NoneValue? && targets.List? then
      if |targets.items| == 0 then Normal(None)
      else if forall k :: 0 <= k < |targets.items| ==> targets.items[k].Str? then
        Normal(Some(Join(Texts(targets.items), ",")))
      else TypeError
    else if !target.Str? then Normal(None)
    else Normal(Some(target.s))
  }

  /**
   * The joined symbol list names exactly the requested currencies: split
   * at the commas it gives back the list, when no code holds a comma.
   */
  lemma TargetsSplitBack(targets: seq<string>)
    requires targets != []
    requires forall k :: 0 <= k < |targets| ==> ',' !in targets[k]
    ensures ValidateTargets(NoneValue, List(seq(|targets|, k requires 0 <= k < |targets| => Str(targets[k]))))
         .value.Some?
    ensures Split(ValidateTargets(NoneValue, List(seq(|targets|, k requires 0 <= k < |targets| => Str(targets[k]))))
         .value.value, ',') == targets
  {
    var items := seq(|targets|, k requires 0 <= k < |targets| => Str(targets[k]));
    assert Texts(items) == targets;
    SplitJoin(targets, ',');
  }

  /**
   * `_validate_exchange(amount, cur_from, cur_to)`: both codes must be
   * strings whose upper-case forms are listed, and the amount must parse
   * (`parse` stands for `decimal.Decimal`); the codes come back upper-cased.
   */
  function ValidateExchange<D>(c: Client, parse: Value -> Option<D>, amount: Value, curFrom: Value, curTo: Value)
    : (r: Option<(D, string, string)>)
    ensures r.Some? <==>
      && curFrom.Str? && curTo.Str?
      && Upper(curFrom.s) in c.currencies && Upper(curTo.s) in c.currencies
      && parse(amount).Some?
    ensures r.Some? ==> r.value == (parse(amount).value, Upper(curFrom.s), Upper(curTo.s))
  {
    if !curFrom.Str? || !curTo.Str? then None
    else if Upper(curFrom.s) !in c.currencies then None
    else if Upper(curTo.s) !in c.currencies then None
    else
      match parse(amount)
      case Some(a) => Some((a, Upper(curFrom.s), Upper(curTo.s)))
      case None => None
  }

  /**
   * The codes `ValidateExchange` returns are listed, upper-case, and
   * validate again to themselves: the letter case of the input never
   * matters and validation is idempotent on its output.
   */
  lemma {:induction false} ExchangeCodesCanonical<D>(c: Client, parse: Value -> Option<D>, amount: Value, curFrom: Value, curTo: Value)
    requires ValidateExchange(c, parse, amount, curFrom, curTo).Some?
    ensures var (_, f, t) := ValidateExchange(c, parse, amount, curFrom, curTo).value;
      && f in c.currencies && t in c.currencies
      && IsUpperCase(f) && IsUpperCase(t)
      && ValidateExchange(c, parse, amount, Str(f), Str(t)) == ValidateExchange(c, parse, amount, curFrom, curTo)
  {
    var (_, f, t) := ValidateExchange(c, parse, amount, curFrom, curTo).value;
    UpperIsUpperCase(curFrom.s);
    UpperIsUpperCase(curTo.s);
    UpperOfUpperCase(f);
    UpperOfUpperCase(t);
  }

  /**
   * `parse_money(s)`: the text without the first table symbol found in it,
   * and that symbol's code; `None` when no symbol occurs.
   */
  function ParseMoney(s: string): (r: Option<(string, string)>)
    ensures r.None? <==> forall i :: 0 <= i < |CurrencySymbolsMap| ==> !Contains(s, CurrencySymbolsMap[i].1)
    ensures r.Some? ==> exists i ::
      FirstMatch(CurrencySymbolsMap, s, i) && r.value == (RemoveAll(s, CurrencySymbolsMap[i].1), CurrencySymbolsMap[i].0)
  {
    StripSymbol(CurrencySymbolsMap, s)
  }

  /** What `history` does once its arguments are checked. */
  datatype HistoryRequest =
    | Rejected(error: string)             // the record `{'error': error}`, no request made
    | Request(path: string, query: string) // the request `history` goes on to send

  /**
   * `history(start, end, base=None, target=None, targets=[])` up to the
   * request: if any checked argument is `None` the error record comes back
   * and no query is built.
   */
  function History(c: Client, start: Value, end: Value, base: Value, target: Value, targets: Value)
    : (r: Completion<HistoryRequest>)
    ensures r.TypeError? <==> ValidateTargets(target, targets).TypeError?
    ensures r.Normal? ==>
      (r.value.Rejected? <==>
        ValidateBase(c, base).None? || ValidateTimestamps(start, end).None?
        || ValidateTargets(target, targets).value.None?)
    ensures r.Normal? && r.value.Rejected? ==> r.value.error == InvalidParameters
    ensures r.Normal? && r.value.Request? ==>
      var (s, e) := ValidateTimestamps(start, end).value;
      r.value == Request("history",
        "start_at=" + s + "&end_at=" + e + "&base=" + ValidateBase(c, base).value
        + "&symbols=" + ValidateTargets(target, targets).value.value)
  {
    var b := ValidateBase(c, base);
    var ts := ValidateTimestamps(start, end);
    match ValidateTargets(target, targets)
    case TypeError => TypeError
    case Normal(t) =>
      if b.None? || ts.None? || t.None? then Normal(Rejected(InvalidParameters))
      else
        var query := "start_at=" + ts.value.0 + "&end_at=" + ts.value.1
          + "&base=" + b.value + "&symbols=" + t.value;
        Normal(Request("history", query))
  }

  /** Without a target or targets, `history` answers with the error record. */
  lemma HistoryWithoutTargetsRejected(c: Client, start: Value, end: Value, base: Value)
    ensures History(c, start, end, base, NoneValue, List([])) == Normal(Rejected(InvalidParameters))
  {
  }
}
