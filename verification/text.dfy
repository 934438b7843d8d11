/**
 * The few Python `str` operations the parsers and validators rely on:
 * case mapping, substring test, `replace(p, '')`, `split`, `join`,
 * `isdigit` and `int` on digit strings, and zero-padded decimal output.
 */
module Text {

  // ---------------------------------------------------------------------
  // Case mapping (`str.lower`, `str.upper`) on the ASCII letters.
  // ---------------------------------------------------------------------

  function LowerChar(c: char): (r: char)
  {
    if 'A' <= c <= 'Z' then (c as int - 'A' as int + 'a' as int) as char else c
  }

  function UpperChar(c: char): (r: char)
  {
    if 'a' <= c <= 'z' then (c as int - 'a' as int + 'A' as int) as char else c
  }

  function Lower(s: string): (r: string)
  {
    seq(|s|, i requires 0 <= i < |s| => LowerChar(s[i]))
  }

  function Upper(s: string): (r: string)
  {
    seq(|s|, i requires 0 <= i < |s| => UpperChar(s[i]))
  }

  /** No character of an upper-cased string is a lower-case ASCII letter. */
  predicate IsUpperCase(s: string)
  {
    forall i :: 0 <= i < |s| ==> !('a' <= s[i] <= 'z')
  }

  lemma UpperIsUpperCase(s: string)
    ensures IsUpperCase(Upper(s))
    ensures |Upper(s)| == |s|
  {
  }

  /** Lower-casing a string without upper-case ASCII letters changes nothing. */
  lemma LowerOfLowerCase(s: string)
    requires forall i :: 0 <= i < |s| ==> !('A' <= s[i] <= 'Z')
    ensures Lower(s) == s
  {
  }

  /** Upper-casing an upper-case string changes nothing. */
  lemma UpperOfUpperCase(s: string)
    requires IsUpperCase(s)
    ensures Upper(s) == s
  {
  }

  /**
   * `s.lower() == w`, for a lower-case keyword `w`, holds exactly when `s`
   * spells `w` with each letter in either case.
   */
  lemma LowerMatchesKeyword(s: string, w: string)
    requires forall i :: 0 <= i < |w| ==> 'a' <= w[i] <= 'z'
    ensures Lower(s) == w <==>
      |s| == |w| && forall i :: 0 <= i < |s| ==> s[i] == w[i] || s[i] == UpperChar(w[i])
  {
  }

  // ---------------------------------------------------------------------
  // Substrings: Python's `p in s`.
  // ---------------------------------------------------------------------

  /** `p` occurs in `s` starting at index `i`. */
  predicate OccursAt(s: string, p: string, i: int)
  {
    0 <= i && i + |p| <= |s| && s[i..i + |p|] == p
  }

  /** Python's `p in s`: `p` is a prefix of `s` or of one of its suffixes. */
  predicate Contains(s: string, p: string)
    decreases |s|
  {
    p <= s || (s != [] && Contains(s[1..], p))
  }

  /** The substring test agrees with "there is an index where `p` occurs". */
  lemma {:induction false} ContainsIffOccurs(s: string, p: string)
    ensures Contains(s, p) <==> exists i :: OccursAt(s, p, i)
    decreases |s|
  {
    if p <= s {
      assert OccursAt(s, p, 0);
    } else if s == [] {
      assert forall i :: !OccursAt(s, p, i);
    } else {
      ContainsIffOccurs(s[1..], p);
      if exists i :: OccursAt(s[1..], p, i) {
        var i :| OccursAt(s[1..], p, i);
        assert s[1..][i..i + |p|] == s[i + 1..i + 1 + |p|];
        assert OccursAt(s, p, i + 1);
      }
      if exists i :: OccursAt(s, p, i) {
        var i :| OccursAt(s, p, i);
        assert i != 0;
        assert s[1..][i - 1..i - 1 + |p|] == s[i..i + |p|];
        assert OccursAt(s[1..], p, i - 1);
      }
    }
  }

  /** A single character is a substring exactly when it is an element. */
  lemma {:induction false} ContainsChar(s: string, c: char)
    ensures Contains(s, [c]) <==> c in s
    decreases |s|
  {
    if s != [] {
      ContainsChar(s[1..], c);
      assert s == [s[0]] + s[1..];
    }
  }

  // ---------------------------------------------------------------------
  // `s.replace(p, '')`: delete every non-overlapping occurrence of `p`,
  // scanning from the left.
  // ---------------------------------------------------------------------

  function RemoveAll(s: string, p: string): (r: string)
    ensures |r| <= |s|
    decreases |s|
  {
    if p == [] || |s| < |p| then s
    else if p <= s then RemoveAll(s[|p|..], p)
    else [s[0]] + RemoveAll(s[1..], p)
  }

  /** Where `p` does not occur, nothing is removed. */
  lemma {:induction false} RemoveAllAbsent(s: string, p: string)
    requires !Contains(s, p)
    ensures RemoveAll(s, p) == s
    decreases |s|
  {
    if p == [] || |s| < |p| {
    } else {
      RemoveAllAbsent(s[1..], p);
    }
  }

  /**
   * Removing a one-character pattern deletes every copy of that character
   * and keeps every other character with its multiplicity.
   */
  lemma {:induction false} RemoveAllChar(s: string, c: char)
    ensures multiset(RemoveAll(s, [c])) == multiset(s)[c := 0]
    ensures c !in RemoveAll(s, [c])
    decreases |s|
  {
    if s != [] {
      RemoveAllChar(s[1..], c);
      assert s == [s[0]] + s[1..];
      if s[0] == c {
        assert [c] <= s;
      } else {
        assert !([c] <= s);
      }
    }
    assert multiset(RemoveAll(s, [c]))[c] == 0;
  }

  /** Removing a one-character pattern looks at the first character alone. */
  lemma RemoveAllCharStep(x: char, rest: string, c: char)
    ensures RemoveAll([x] + rest, [c]) == (if x == c then [] else [x]) + RemoveAll(rest, [c])
  {
    assert ([x] + rest)[1..] == rest;
    if x != c {
      assert ([x] + rest)[0] != [c][0];
    }
  }

  /**
   * Removing a one-character pattern works piece by piece: the kept
   * characters of `a` come before those of `b`, each in its place, so the
   * order of what remains is the order in `a + b`.
   */
  lemma {:induction false} RemoveAllCharAppend(a: string, b: string, c: char)
    ensures RemoveAll(a + b, [c]) == RemoveAll(a, [c]) + RemoveAll(b, [c])
    ensures RemoveAll([c], [c]) == []
    ensures forall x :: x != c ==> RemoveAll([x], [c]) == [x]
    decreases |a|
  {
    if a != [] {
      RemoveAllCharAppend(a[1..], b, c);
      assert a + b == [a[0]] + (a[1..] + b);
      assert a == [a[0]] + a[1..];
      RemoveAllCharStep(a[0], a[1..] + b, c);
      RemoveAllCharStep(a[0], a[1..], c);
    } else {
      assert a + b == b;
    }
    RemoveAllCharStep(c, [], c);
    forall x | x != c
      ensures RemoveAll([x], [c]) == [x]
    {
      RemoveAllCharStep(x, [], c);
      assert [x] + [] == [x];
    }
  }

  /**
   * With a two-character pattern a copy can survive: deleting "zł" from
   * "zzłł" leaves "zł", because the occurrence is formed only after the
   * inner one is removed.
   */
  lemma TwoCharacterPatternCanSurvive()
    ensures RemoveAll("zzłł", "zł") == "zł"
    ensures Contains(RemoveAll("zzłł", "zł"), "zł")
  {
    assert "zzłł"[..2][1] != "zł"[1];
    assert !("zł" <= "zzłł");
    assert "zzłł"[1..] == "złł";
    assert "zł" <= "złł";
    assert "złł"[2..] == "ł";
  }

  // ---------------------------------------------------------------------
  // `s.split(sep)` for a one-character separator and `sep.join(parts)`.
  // ---------------------------------------------------------------------

  /** Python's `s.split(sep)`: the pieces between separators, always at least one. */
  function Split(s: string, sep: char): (parts: seq<string>)
    ensures |parts| == multiset(s)[sep] + 1
    ensures forall k :: 0 <= k < |parts| ==> sep !in parts[k]
    decreases |s|
  {
    if s == [] then [[]]
    else
      assert s == [s[0]] + s[1..];
      var rest := Split(s[1..], sep);
      if s[0] == sep then [[]] + rest
      else [[s[0]] + rest[0]] + rest[1..]
  }

  /** Python's `sep.join(parts)`. */
  function Join(parts: seq<string>, sep: string): (s: string)
  {
    if |parts| == 0 then []
    else if |parts| == 1 then parts[0]
    else parts[0] + sep + Join(parts[1..], sep)
  }

  /** Joining a list with at least two pieces puts the separator after the first. */
  lemma JoinCons(x: string, rest: seq<string>, sep: string)
    requires |rest| >= 1
    ensures Join([x] + rest, sep) == x + sep + Join(rest, sep)
  {
    assert ([x] + rest)[1..] == rest;
  }

  /** Prefixing a character to the first piece prefixes it to the join. */
  lemma ExtendFirstPiece(c: char, rest: seq<string>, sep: string)
    requires |rest| >= 1
    ensures Join([[c] + rest[0]] + rest[1..], sep) == [c] + Join(rest, sep)
  {
    if |rest| > 1 {
      JoinCons([c] + rest[0], rest[1..], sep);
      JoinCons(rest[0], rest[1..], sep);
      assert [rest[0]] + rest[1..] == rest;
    }
  }

  /** Joining the pieces of a split with the separator restores the string. */
  lemma {:induction false} JoinSplit(s: string, sep: char)
    ensures Join(Split(s, sep), [sep]) == s
    decreases |s|
  {
    if s != [] {
      JoinSplit(s[1..], sep);
      var rest := Split(s[1..], sep);
      assert s == [s[0]] + s[1..];
      if s[0] == sep {
        assert Split(s, sep) == [[]] + rest;
        JoinCons([], rest, [sep]);
      } else {
        assert Split(s, sep) == [[s[0]] + rest[0]] + rest[1..];
        ExtendFirstPiece(s[0], rest, [sep]);
      }
    }
  }

  /** A string without the separator splits into itself alone. */
  lemma {:induction false} SplitWithoutSeparator(s: string, sep: char)
    requires sep !in s
    ensures Split(s, sep) == [s]
  {
    var parts := Split(s, sep);
    assert multiset(s)[sep] == 0;
    JoinSplit(s, sep);
  }

  /** Splitting `a + sep + b`, where `a` has no separator, yields `a` first. */
  lemma {:induction false} SplitAfterPiece(a: string, sep: char, b: string)
    requires sep !in a
    ensures Split(a + [sep] + b, sep) == [a] + Split(b, sep)
    decreases |a|
  {
    var s := a + [sep] + b;
    if a == [] {
      assert s == [sep] + b;
      assert s[1..] == b;
    } else {
      assert s[1..] == a[1..] + [sep] + b;
      SplitAfterPiece(a[1..], sep, b);
      assert a == [a[0]] + a[1..];
    }
  }

  /** Splitting a join of separator-free pieces gives back the pieces. */
  lemma {:induction false} SplitJoin(parts: seq<string>, sep: char)
    requires |parts| >= 1
    requires forall k :: 0 <= k < |parts| ==> sep !in parts[k]
    ensures Split(Join(parts, [sep]), sep) == parts
    decreases |parts|
  {
    if |parts| == 1 {
      SplitWithoutSeparator(parts[0], sep);
    } else {
      SplitJoin(parts[1..], sep);
      SplitAfterPiece(parts[0], sep, Join(parts[1..], [sep]));
      assert [parts[0]] + parts[1..] == parts;
    }
  }

  /** A string with exactly one separator splits into the text before and after it. */
  lemma SplitInTwo(s: string, sep: char)
    requires |Split(s, sep)| == 2
    ensures s == Split(s, sep)[0] + [sep] + Split(s, sep)[1]
  {
    JoinSplit(s, sep);
    var parts := Split(s, sep);
    assert parts[1..] == [parts[1]];
  }

  // ---------------------------------------------------------------------
  // Decimal digits: `str.isdigit`, `int(s)` and zero-padded output.
  // ---------------------------------------------------------------------

  predicate IsDigit(c: char)
  {
    '0' <= c <= '9'
  }

  predicate AllDigits(s: string)
  {
    forall i :: 0 <= i < |s| ==> IsDigit(s[i])
  }

  /** Python's `s.isdigit()`: non-empty and made of digits only. */
  predicate IsDigits(s: string)
  {
    |s| > 0 && AllDigits(s)
  }

  function DigitChar(d: nat): (c: char)
    requires d < 10
  {
    ('0' as int + d) as char
  }

  /** Python's `int(s)` on a string of decimal digits, most significant first. */
  function DecimalValue(s: string): (n: nat)
    requires AllDigits(s)
    decreases |s|
  {
    if s == [] then 0
    else DecimalValue(s[..|s| - 1]) * 10 + (s[|s| - 1] as int - '0' as int)
  }

  function Pow10(n: nat): (p: nat)
  {
    if n == 0 then 1 else 10 * Pow10(n - 1)
  }

  /** The last `width` decimal digits of `n`, zero-padded on the left. */
  function PadDigits(n: nat, width: nat): (s: string)
    ensures |s| == width
    ensures AllDigits(s)
  {
    if width == 0 then []
    else PadDigits(n / 10, width - 1) + [DigitChar(n % 10)]
  }

  /** Reading back a zero-padded number that fits its width gives the number. */
  lemma {:induction false} PadDigitsValue(n: nat, width: nat)
    requires n < Pow10(width)
    ensures DecimalValue(PadDigits(n, width)) == n
  {
    if width > 0 {
      var s := PadDigits(n, width);
      assert n / 10 < Pow10(width - 1);
      PadDigitsValue(n / 10, width - 1);
      assert s[..|s| - 1] == PadDigits(n / 10, width - 1);
      assert s[|s| - 1] as int - '0' as int == n % 10;
    }
  }

  /**
   * `int(s)` on a digit string loses nothing: the value fits the string's
   * width, and zero-padding it to that width spells `s` again.
   */
  lemma {:induction false} DigitsRoundTrip(s: string)
    requires AllDigits(s)
    ensures DecimalValue(s) < Pow10(|s|)
    ensures PadDigits(DecimalValue(s), |s|) == s
    decreases |s|
  {
    if s != [] {
      var init := s[..|s| - 1];
      var d := s[|s| - 1] as int - '0' as int;
      DigitsRoundTrip(init);
      var n := DecimalValue(s);
      assert n == DecimalValue(init) * 10 + d;
      assert n / 10 == DecimalValue(init);
      assert n % 10 == d;
      assert DigitChar(d) == s[|s| - 1];
      assert s == init + [s[|s| - 1]];
    }
  }
}
