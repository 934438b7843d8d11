# Exchange-rate bot core, modelled in Dafny

This project models the sequential core of a Telegram bot that answers
currency questions from a public exchange-rate web API:

- **The rate cache** (`cache.py`, class `Cache`). It maps a base-currency
  code to the rates last saved for it and the second they were saved. It
  has one maximum age, `max_time` (default 10). `save_rates` overwrites the
  entry for a base. `rates` returns the stored rates while their age is at
  most `max_time`. An older entry is deleted by the read itself, which then
  returns `None`.
- **The bot's argument parsers** (`app.py`, `App._parse_latest`,
  `_parse_money`, `_parse_exchange`, `_parse_history`). Each takes the
  words after a command and accepts or rejects them. Money parsing searches
  `CURRENCY_MAP` in declaration order for the first symbol that occurs.
- **The API client's input checks** (`api.py`). These are
  `_datetime_to_valid_str`, `_validate_base`, `_validate_timestamps`,
  `_validate_targets`, `_validate_exchange`, `parse_money`, and the gate at
  the top of `history`. That gate returns `{'error': 'Invalid parameters'}`
  before any query is built.

Files and modules:

- `wrappers.dfy`: `Option`, which stands for Python's `None` in results.
- `text.dfy` (`Text`): the Python string operations the core uses. These are
  `lower`/`upper`, `in`, `replace(p, '')`, `split`, `join`, `isdigit`,
  `int`, and zero-padded digits. Lemmas tie `in` to occurrence indices,
  `replace` of one character to deleting that character in place, `split`
  and `join` to each other (round trips both ways), `lower` to the case
  variants of a keyword, and `int` of a digit string to the zero-padded
  digits that spell it. For `replace` of a longer pattern the model states
  only the length bound, the absent-pattern case and an example.
- `calendar.dfy` (`Calendar`): dates as a `datetime` holds them. It also
  reads the ISO 8601 complete extended form `YYYY-MM-DD` (ISO 8601:2004
  section 4.1.2.2) back into a date.
- `currency.dfy` (`Currency`): the first-match symbol search. The bot and
  the API client share it.
- `cache.dfy` (`Caching`): the cache as a class with a `map` field. The pure
  functions `Saved` and `Lookup` specify one call. `Replay` runs a sequence
  of calls, and the lemmas state what holds across calls. The clock is an
  explicit `now: int` argument to each method.
- `app.dfy` (`App`): the bot's parsers.
- `api.dfy` (`Api`): the validators. A Python argument is a `Value` (`None`,
  `str`, `int`, `datetime`, `list`, other), because the validators work by
  `isinstance` tests. `self.base` and `self.currencies` form an immutable
  `Client` record. `decimal.Decimal(amount)` is a function parameter
  `parse`.

Two facts about the code shape the model:

- Nothing in the code imports `Cache`, so it is modelled standalone.
- The cache stores whatever rates object it is given and returns that same
  object, so the rates are a type parameter `R`.

## Model

| member | source | states |
|---|---|---|
| Caching.Saved | cache.py:10-15 | after a save the base maps to exactly (rates, now); every other key keeps its entry; no key is added besides the base |
| Caching.Lookup | cache.py:17-29 | a read hits exactly when the base is present and its age `now - last_updated` is at most `max_time`, and then returns the stored rates; the key survives exactly when the read hits; nothing else is removed or changed |
| Caching.SaveThenRead | cache.py:24-29 | a read right after a save returns the saved rates when the age is at most `max_time`; an age of exactly `max_time` is still fresh; at `max_time + 1` the entry is deleted |
| Caching.SaveReplaces | cache.py:10-15 | a second save of the same base replaces the first completely: no earlier rates and no earlier timestamp survive |
| Caching.AbsentUntilSaved | cache.py:17-22 | an absent base stays absent and every read of it returns `None`, at any time, through any calls that do not save it |
| Caching.ExpiredStaysEvicted | cache.py:24-28 | an expired read returns `None` and deletes the key; every later read of that base returns `None` until the next save of it |
| Caching.ServedWhileFresh | cache.py:10-29 | once saved as (r, t), every read of that base at most `max_time` after t returns r, whatever calls on other bases come between |
| Caching.OtherBasesIndependent | cache.py:15-27 | calls naming only other bases leave a base's entry, present or absent, exactly as it was |
| Caching.TenSecondScenario | cache.py:5-29 | with `max_time` 10: saved at 0, served at 5, missed at 15, still missed at 16, and the dictionary ends empty |
| Caching.Cache.constructor | cache.py:5-8 | a new cache is empty and keeps the given `max_time` (default 10), a constant afterwards |
| Caching.Cache.SaveRates | cache.py:10-15 | the method's new dictionary is `Saved` of the old one: the entry for the base becomes (rates, now) |
| Caching.Cache.Rates | cache.py:17-29 | the method's answer and new dictionary are those of `Lookup`; a hit or a missing key leaves the dictionary unchanged; after a miss the key is absent |
| Text.ContainsIffOccurs | app.py:45-46 | the substring test `p in s` holds exactly when `p` occurs at some index of `s` |
| Text.RemoveAll | app.py:47 | `s.replace(p, '')` never makes the string longer |
| Text.RemoveAllAbsent | app.py:47 | replacing a pattern that does not occur returns the string unchanged |
| Text.RemoveAllChar | app.py:47 | deleting a one-character symbol removes every copy of it and keeps every other character with its multiplicity |
| Text.RemoveAllCharAppend | app.py:47 | deleting a one-character symbol works piece by piece: the result for `a + b` is the result for `a` followed by the result for `b`, the symbol alone vanishes and any other character stays, so the kept characters keep their order |
| Text.TwoCharacterPatternCanSurvive | app.py:21 | deleting the two-character symbol "zł" from "zzłł" leaves "zł": one left-to-right pass can leave a copy of a two-character symbol |
| Text.Split | app.py:67 | `s.split('/')` yields one more piece than there are separators, and no piece contains the separator |
| Text.JoinSplit | app.py:67-69 | joining the pieces of a split with the separator gives back the string |
| Text.SplitJoin | api.py:110 | splitting a join of separator-free pieces gives back the pieces |
| Text.SplitInTwo | app.py:67-69 | a split into exactly two pieces means the string is first piece, separator, second piece |
| Text.PadDigitsValue | api.py:45 | a zero-padded number that fits its width reads back as the number |
| Text.DigitsRoundTrip | app.py:68-70 | `int(s)` of a digit string is below 10 to the string's length, and zero-padding it to that length spells the string again, so no digit is lost |
| Text.LowerMatchesKeyword | app.py:52 | `s.lower() == w` for a lower-case keyword holds exactly when `s` spells `w` with each letter in either case |
| Currency.FindSymbol | app.py:45-48 | the loop stops at the first table entry, in declaration order, whose symbol occurs in the text; it finds none exactly when no symbol occurs |
| Currency.StripSymbol | api.py:240-244 | the result is (text with every occurrence of the first-matching symbol deleted, that entry's code), or `None` exactly when no symbol occurs |
| App.ParseLatest | app.py:29-33 | returns the single argument exactly when there is exactly one, and `None` otherwise |
| App.ParseMoney | app.py:35-49 | returns the text stripped of the first `CURRENCY_MAP` symbol, in table order, that occurs, with its code; `None` exactly when no symbol occurs |
| App.SameSymbolTables | app.py:16-24 | the bot's `CURRENCY_MAP` equals the client's `CURRENCY_SYMBOLS_MAP`, so both money parsers agree on every string |
| App.YenMeansYuan | app.py:16-24 | the money parser never returns JPY; a text with "¥" and without "£" always yields CNY |
| App.ParsedAmountHasNoSymbol | app.py:45-48 | for a one-character symbol the parsed amount keeps no copy of the symbol that was found |
| App.ParseExchange | app.py:51-63 | with 3 words and "to" second, the result is the money parse of the first word plus the third word, or `None` when no symbol occurs; with 4 words and "to" third, the first, second and fourth words unchanged; any other shape gives `None` |
| App.OnlyDollarSign | app.py:45-48 | a text whose only currency symbol is "$" (no "£", "¥", "€", "zł" or "₽") parses as that text without its dollar signs, in USD |
| App.ExchangeCodeExample | app.py:116-118 | "10 EUR to USD" gives ("10", "EUR", "USD") |
| App.ExchangeDollarForm | app.py:51-57 | `<amount>$ to <code>`, with "to" in any letter case, gives (amount without "$", "USD", code) |
| App.ParseHistory | app.py:65-74 | accepted exactly when there are 4 words, the second is "for" in any case, the first has exactly one "/", the third is all digits and the fourth is "days" in any case; then the first word is from + "/" + to and the days are the third word's decimal value, never negative |
| App.HistoryAcceptsUsageForm | app.py:65-72 | every `<from>/<to> for <n> days` with slash-free codes and a digit string n is accepted and read back as (from, to, n) |
| App.HistoryUsageExample | app.py:138-140 | "USD/EUR for 7 days" gives ("USD", "EUR", 7) |
| Api.DatetimeToValidStr | api.py:37-45 | the date string has the shape YYYY-MM-DD (ten characters, hyphens at 4 and 7, digits elsewhere) and reads back as the same date |
| Api.DatetimeToValidStrExample | test_api.py:49-51 | 30 January 2020 becomes "2020-01-30" |
| Api.DatetimeToValidStrInjective | api.py:37-45 | distinct dates give distinct strings |
| Api.ValidateBase | api.py:61-77 | `None` gives the configured base; otherwise the result is the base unchanged exactly when it is a string in `currencies`, and `None` for a non-string or unlisted base |
| Api.ValidateTimestamps | api.py:79-95 | two datetimes become their YYYY-MM-DD strings, two strings pass unchanged, and every other pair gives `None` |
| Api.ValidateTargets | api.py:97-115 | a string target is returned as is and takes precedence; a non-`None`, non-string target gives `None`; with no target, a missing or empty list gives `None`, a non-empty list of strings always gives them joined with "," and a non-`None` result is never anything else, and any non-string element raises `TypeError` |
| Api.TargetsSplitBack | api.py:107-110 | the comma-joined targets split back into the requested list when no code contains a comma |
| Api.ValidateExchange | api.py:117-129 | accepted exactly when both codes are strings whose upper-case forms are listed and the amount parses; then returns (parsed amount, upper-cased codes) |
| Api.ExchangeCodesCanonical | api.py:118-127 | returned codes are listed and upper-case, and validating them again gives the same result: letter case of the input does not matter |
| Api.ParseMoney | api.py:230-244 | returns the text stripped of the first `CURRENCY_SYMBOLS_MAP` symbol, in table order, that occurs, with its code; `None` exactly when no symbol occurs |
| Api.History | api.py:156-179 | raises `TypeError` exactly when target validation does; otherwise returns the "Invalid parameters" record exactly when the checked base, start, end or targets is `None`, and builds the query only from the checked values |
| Api.HistoryWithoutTargetsRejected | test_api.py:83-86 | a history call with neither target nor targets gets the "Invalid parameters" record |

## Left out

- Concurrency: the `threading.Lock` of `cache.py` (lines 6, 14 and 20). The cache is modelled sequentially. Each call is one atomic step, as the lock makes it.
- The clock: `int(time.time())` (cache.py lines 11 and 18) becomes the argument `now`. Nothing is assumed about successive values of `now`, not even that time moves forward.
- Aliasing of the rates object: `rates` returns the stored object itself. A caller that mutates it changes the cached entry. Rates are modelled as values of a type parameter.
- Network and JSON code: `_request`, the constructor's call to `latest()` that fills `currencies`, and the request and response handling of `latest`, `history`, `exchange` and `plot_history`. `Api.History` stops at the request it would send.
- The base check at the top of `latest` (api.py lines 142-144). It is `ValidateBase` followed by a request, so only `ValidateBase` is modelled.
- Decimal arithmetic: the rounding at api.py lines 152-153 and 228 depends on Python's decimal context. `decimal.Decimal(amount)` is the parameter `parse` of `Api.ValidateExchange`.
- `plot_history` (date list building, `strptime`, `isinstance(days, int)`) and all of `plotter.py`: chart rendering.
- The Telegram handlers `start`, `latest`, `exchange`, `history` and `main` in `app.py`: message I/O and dispatch.
- App.ParseHistory: treats only ASCII `0`-`9` as digits. Python's `isdigit` also accepts other Unicode digits, and `int` then reads some of them and raises `ValueError` on others (superscripts). Python's limit on the length of digit strings that `int` converts is not modelled either; a Telegram message is shorter than that limit.
- App.ParseExchange: `lower()` is modelled on ASCII letters only. No other character lowers to a letter of "to", "for" or "days", so the keyword comparisons are exact.
- Api.ValidateExchange: `upper()` is modelled on ASCII letters only. Python also upper-cases other letters, some into two characters ("ß" to "SS"), before the lookup in `currencies`.
- Api.DatetimeToValidStr: always pads the year to four digits, as ISO 8601 and the format string intend. Some platform `strftime` implementations print years below 1000 without padding. The time of day of a `datetime` is not modelled, because `%Y-%m-%d` does not use it.
- Api.ValidateBase: the configured `self.base` is modelled as a string. The constructor documents it as a currency code and never checks it.
