/**
 * The first-match search over an ordered currency-symbol table that both
 * the bot (`App._parse_money`, `App._parse_exchange`) and the API client
 * (`ExchangeRatesAPI.parse_money`) run: walk the table in declaration
 * order, stop at the first entry whose symbol occurs in the text, and
 * return the text with that symbol deleted together with the entry's code.
 */
module Currency {
  import opened Wrappers
  import opened Text

  /** (currency code, symbol) pairs in the order the dict literal declares them. */
  type SymbolTable = seq<(string, string)>

  /** Entry `i` is the first entry of `table` whose symbol occurs in `s`. */
  predicate FirstMatch(table: SymbolTable, s: string, i: int)
  {
    && 0 <= i < |table|
    && Contains(s, table[i].1)
    && forall j :: 0 <= j < i ==> !Contains(s, table[j].1)
  }

  /** At most one entry is the first match. */
  lemma FirstMatchUnique(table: SymbolTable, s: string, i: int, j: int)
    requires FirstMatch(table, s, i) && FirstMatch(table, s, j)
    ensures i == j
  {
  }

  /** The position at which the `for cur in table` loop returns, if it returns early. */
  function FindSymbol(table: SymbolTable, s: string): (r: Option<nat>)
    ensures r.Some? ==> FirstMatch(table, s, r.value)
    ensures r.None? ==> forall i :: 0 <= i < |table| ==> !Contains(s, table[i].1)
  {
    if table == [] then None
    else if Contains(s, table[0].1) then Some(0)
    else
      match FindSymbol(table[1..], s)
      case None => None
      case Some(k) => Some(k + 1)
  }

  /**
   * `(s.replace(symbol, ''), code)` for the first entry whose symbol occurs
   * in `s`, or `None` (Python's `(None, None)`) when no symbol occurs.
   */
  function StripSymbol(table: SymbolTable, s: string): (r: Option<(string, string)>)
    ensures r.None? <==> forall i :: 0 <= i < |table| ==> !Contains(s, table[i].1)
    ensures r.Some? ==>
      exists i :: FirstMatch(table, s, i) && r.value == (RemoveAll(s, table[i].1), table[i].0)
  {
    match FindSymbol(table, s)
    case None => None
    case Some(i) => Some((RemoveAll(s, table[i].1), table[i].0))
  }
}
