/**
 * The argument parsers of the bot (`App` in app.py). Each takes the words
 * that followed a command and either accepts them, returning the pieces
 * the command needs, or rejects them (`None`, Python's `None` or tuple of
 * `None`s).
 */
module App {
  import opened Wrappers
  import opened Text
  import opened Currency
  import Api

  /** `App.CURRENCY_MAP`, in declaration order. CNY and JPY share the yen sign. */
  const CurrencyMap: SymbolTable := [
    ("GBP", "£"),
    ("CNY", "¥"),
    ("EUR", "€"),
    ("JPY", "¥"),
    ("PLN", "zł"),
    ("RUB", "₽"),
    ("USD", "$")
  ]

  /** `/list [base]`: the one argument if there is exactly one. */
  function ParseLatest(args: seq<string>): (r: Option<string>)
    ensures r.Some? <==> |args| == 1
    ensures r.Some? ==> r.value == args[0]
  {
    if |args| == 1 then Some(args[0]) else None
  }

  /**
   * `_parse_money(s)`: the text without the first table symbol found in it
   * (table order, not position in the text), and that symbol's code.
   */
  function ParseMoney(s: string): (r: Option<(string, string)>)
    ensures r.None? <==> forall i :: 0 <= i < |CurrencyMap| ==> !Contains(s, CurrencyMap[i].1)
    ensures r.Some? ==> exists i ::
      FirstMatch(CurrencyMap, s, i) && r.value == (RemoveAll(s, CurrencyMap[i].1), CurrencyMap[i].0)
  {
    StripSymbol(CurrencyMap, s)
  }

  /** The bot and the API client search the same table, so they parse money alike. */
  lemma SameSymbolTables(s: string)
    ensures CurrencyMap == Api.CurrencySymbolsMap
    ensures ParseMoney(s) == Api.ParseMoney(s)
  {
  }

  /**
   * The yen sign always means CNY: JPY, listed after CNY with the same
   * symbol, can never be the answer.
   */
  lemma YenMeansYuan(s: string)
    ensures ParseMoney(s).Some? ==> ParseMoney(s).value.1 != "JPY"
    ensures Contains(s, "¥") && !Contains(s, "£") ==> ParseMoney(s) == Some((RemoveAll(s, "¥"), "CNY"))
  {
    if ParseMoney(s).Some? {
      var i :| FirstMatch(CurrencyMap, s, i) && ParseMoney(s).value == (RemoveAll(s, CurrencyMap[i].1), CurrencyMap[i].0);
    }
    if Contains(s, "¥") && !Contains(s, "£") {
      assert FindSymbol(CurrencyMap, s) == Some(1);
    }
  }

  /**
   * For the one-character symbols (all but PLN's) the parsed amount keeps
   * no copy of the symbol that was found.
   */
  lemma ParsedAmountHasNoSymbol(s: string, i: int)
    requires FirstMatch(CurrencyMap, s, i) && |CurrencyMap[i].1| == 1
    ensures ParseMoney(s).Some?
    ensures CurrencyMap[i].1[0] !in ParseMoney(s).value.0
  {
    var j :| FirstMatch(CurrencyMap, s, j) && ParseMoney(s).value == (RemoveAll(s, CurrencyMap[j].1), CurrencyMap[j].0);
    FirstMatchUnique(CurrencyMap, s, i, j);
    assert CurrencyMap[i].1 == [CurrencyMap[i].1[0]];
    RemoveAllChar(s, CurrencyMap[i].1[0]);
  }

  /**
   * `_parse_exchange(args)`: `<amount><symbol> to <code>` gives the amount
   * stripped of its symbol, the symbol's code and the target;
   * `<amount> <code> to <code>` gives the three words unchanged.
   */
  function ParseExchange(args: seq<string>): (r: Option<(string, string, string)>)
    ensures |args| == 3 && Lower(args[1]) == "to" ==>
      (r.Some? <==> ParseMoney(args[0]).Some?) &&
      (r.Some? ==> (r.value.0, r.value.1) == ParseMoney(args[0]).value && r.value.2 == args[2])
    ensures |args| == 4 && Lower(args[2]) == "to" ==> r == Some((args[0], args[1], args[3]))
    ensures r.Some? ==> (|args| == 3 && Lower(args[1]) == "to") || (|args| == 4 && Lower(args[2]) == "to")
  {
    if |args| == 3 && Lower(args[1]) == "to" then
      match StripSymbol(CurrencyMap, args[0])
      case Some((parsed, cur)) => Some((parsed, cur, args[2]))
      case None => None
    else if |args| == 4 && Lower(args[2]) == "to" then
      Some((args[0], args[1], args[3]))
    else
      None
  }

  /** A text whose only currency symbol is "$" is an amount in USD. */
  lemma OnlyDollarSign(s: string)
    requires '$' in s && '£' !in s && '¥' !in s && '€' !in s && !Contains(s, "zł") && '₽' !in s
    ensures ParseMoney(s) == Some((RemoveAll(s, "$"), "USD"))
  {
    ContainsChar(s, '£');
    ContainsChar(s, '¥');
    ContainsChar(s, '€');
    ContainsChar(s, '₽');
    ContainsChar(s, '$');
    assert FindSymbol(CurrencyMap[6..], s) == Some(0);
    assert FindSymbol(CurrencyMap[3..], s) == Some(3);
    assert FindSymbol(CurrencyMap, s) == Some(6);
  }

  /** The usage example `/exchange 10 EUR to USD`. */
  lemma ExchangeCodeExample()
    ensures ParseExchange(["10", "EUR", "to", "USD"]) == Some(("10", "EUR", "USD"))
  {
    KeywordsAreLowerCase();
  }

  /**
   * The usage form `/exchange <amount>$ to <code>`, the keyword in any
   * letter case: the amount loses its dollar signs and the source is USD.
   */
  lemma ExchangeDollarForm(amount: string, toWord: string, target: string)
    requires '$' in amount && '£' !in amount && '¥' !in amount && '€' !in amount
    requires !Contains(amount, "zł") && '₽' !in amount
    requires Lower(toWord) == "to"
    ensures ParseExchange([amount, toWord, target]) == Some((RemoveAll(amount, "$"), "USD", target))
  {
    OnlyDollarSign(amount);
  }

  /**
   * `_parse_history(args)`: `<from>/<to> for <n> days` gives the two codes
   * and the number of days.
   */
  function ParseHistory(args: seq<string>): (r: Option<(string, string, nat)>)
    ensures r.Some? <==>
      && |args| == 4
      && Lower(args[1]) == "for"
      && multiset(args[0])['/'] == 1
      && IsDigits(args[2])
      && Lower(args[3]) == "days"
    ensures r.Some? ==>
      && args[0] == r.value.0 + "/" + r.value.1
      && '/' !in r.value.0 && '/' !in r.value.1
      && r.value.2 == DecimalValue(args[2])
  {
    if |args| == 4 && Lower(args[1]) == "for" then
      var currencies := Split(args[0], '/');
      if |currencies| == 2 && IsDigits(args[2]) && Lower(args[3]) == "days" then
        SplitInTwo(args[0], '/');
        Some((currencies[0], currencies[1], DecimalValue(args[2])))
      else
        None
    else
      None
  }

  /** The keywords the parsers compare against are their own lower-case forms. */
  lemma KeywordsAreLowerCase()
    ensures Lower("to") == "to" && Lower("for") == "for" && Lower("days") == "days"
  {
    LowerOfLowerCase("to");
    LowerOfLowerCase("for");
    LowerOfLowerCase("days");
  }

  /**
   * Every command of the documented form `<from>/<to> for <n> days` (the
   * keywords in any letter case) is accepted and read back into its parts.
   */
  lemma HistoryAcceptsUsageForm(from: string, to: string, n: string, forWord: string, daysWord: string)
    requires '/' !in from && '/' !in to && IsDigits(n)
    requires Lower(forWord) == "for" && Lower(daysWord) == "days"
    ensures ParseHistory([from + "/" + to, forWord, n, daysWord]) == Some((from, to, DecimalValue(n)))
  {
    var args := [from + "/" + to, forWord, n, daysWord];
    assert Split(args[0], '/') == [from, to] by {
      SplitAfterPiece(from, '/', to);
      SplitWithoutSeparator(to, '/');
    }
  }

  /** The usage example `/history USD/EUR for 7 days`. */
  lemma HistoryUsageExample()
    ensures ParseHistory(["USD/EUR", "for", "7", "days"]) == Some(("USD", "EUR", 7))
  {
    KeywordsAreLowerCase();
    assert "USD/EUR" == "USD" + "/" + "EUR";
    assert DecimalValue("7") == 7 by {
      assert "7"[..0] == [];
    }
    HistoryAcceptsUsageForm("USD", "EUR", "7", "for", "days");
  }
}
