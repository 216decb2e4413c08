/** The input conversions of the test runner: coordinate-string keys such as
    `"3,2"` become integer tuples, and purchased squares given as two-element
    lists become cell pairs. A Python tuple of any length is a `seq<int>`. */
module RunFields {
  import Roses

  /** The `ValueError` that Python's `int()` raises, naming the rejected text. */
  datatype ParseError = InvalidLiteral(literal: string)

  datatype Result<T> = Success(value: T) | Failure(error: ParseError)

  // ---------------------------------------------------------------------------
  // str.split with a one-character separator

  /** The parts of `s` between occurrences of `sep`, as Python's
      `s.split(sep)` gives them: there is always at least one part, and
      adjacent or outer separators give empty parts. */
  function Split(s: string, sep: char): (parts: seq<string>)
    ensures |parts| >= 1
    decreases |s|
  {
    if s == [] then [[]]
    else
      var rest := Split(s[1..], sep);
      if s[0] == sep then [[]] + rest
      else [[s[0]] + rest[0]] + rest[1..]
  }

  /** The number of occurrences of `c` in `s`. */
  function Count(s: string, c: char): nat
    decreases |s|
  {
    if s == [] then 0 else (if s[0] == c then 1 else 0) + Count(s[1..], c)
  }

  /** Python's `sep.join(parts)`. */
  function Join(parts: seq<string>, sep: char): string
    decreases |parts|
  {
    if |parts| <= 1 then (if parts == [] then [] else parts[0])
    else parts[0] + [sep] + Join(parts[1..], sep)
  }

  /** `s` does not contain `c`. */
  predicate Free(s: string, c: char)
  {
    forall i :: 0 <= i < |s| ==> s[i] != c
  }

  /** Splitting yields one part more than there are separators, and no
      part holds a separator. */
  lemma {:induction false} SplitParts(s: string, sep: char)
    ensures |Split(s, sep)| == Count(s, sep) + 1
    ensures forall k :: 0 <= k < |Split(s, sep)| ==> Free(Split(s, sep)[k], sep)
  {
    if s != [] {
      SplitParts(s[1..], sep);
      var rest := Split(s[1..], sep);
      if s[0] != sep {
        var parts := Split(s, sep);
        forall k | 0 <= k < |parts|
          ensures Free(parts[k], sep)
        {
          if k == 0 {
            assert parts[0] == [s[0]] + rest[0];
            assert Free(rest[0], sep);
          } else {
            assert parts[k] == rest[k];
          }
        }
      }
    }
  }

  /** Joining the parts with the separator gives back the string. */
  lemma {:induction false} JoinSplit(s: string, sep: char)
    ensures Join(Split(s, sep), sep) == s
  {
    if s != [] {
      JoinSplit(s[1..], sep);
      var rest := Split(s[1..], sep);
      if s[0] == sep {
        assert Split(s, sep) == [[]] + rest;
        assert Split(s, sep)[1..] == rest;
      } else {
        var parts := Split(s, sep);
        assert parts[1..] == rest[1..];
        if |rest| > 1 {
          assert Join(rest, sep) == rest[0] + [sep] + Join(rest[1..], sep);
        }
      }
    }
  }

  /** Splitting two separator-free strings joined by the separator gives
      back the two strings. */
  lemma {:induction false} SplitPair(a: string, b: string, sep: char)
    requires Free(a, sep) && Free(b, sep)
    ensures Split(a + [sep] + b, sep) == [a, b]
  {
    if a == [] {
      assert [sep] + b == a + [sep] + b;
      SplitFree(b, sep);
    } else {
      assert (a + [sep] + b)[1..] == a[1..] + [sep] + b;
      assert Free(a[1..], sep) by {
        forall i | 0 <= i < |a[1..]| ensures a[1..][i] != sep { assert a[1..][i] == a[i + 1]; }
      }
      SplitPair(a[1..], b, sep);
      assert [a[0]] + a[1..] == a;
    }
  }

  /** A separator-free string is a single part. */
  lemma {:induction false} SplitFree(s: string, sep: char)
    requires Free(s, sep)
    ensures Split(s, sep) == [s]
  {
    if s != [] {
      assert Free(s[1..], sep) by {
        forall i | 0 <= i < |s[1..]| ensures s[1..][i] != sep { assert s[1..][i] == s[i + 1]; }
      }
      SplitFree(s[1..], sep);
      assert [s[0]] + s[1..] == s;
    }
  }

  // ---------------------------------------------------------------------------
  // int() and str() on decimal integers

  predicate IsDigit(c: char)
  {
    '0' <= c <= '9'
  }

  predicate AllDigits(s: string)
  {
    forall i :: 0 <= i < |s| ==> IsDigit(s[i])
  }

  /** An optional `-` followed by one or more decimal digits. */
  predicate IsIntLiteral(s: string)
  {
    if |s| > 0 && s[0] == '-' then |s| > 1 && AllDigits(s[1..]) else |s| > 0 && AllDigits(s)
  }

  /** Characters for which `int()` accepts exactly the literals of
      `IsIntLiteral`: printable ASCII other than `+` and `_`. Whitespace,
      signs `+`, digit separators `_` and non-ASCII digits, which `int()`
      also accepts, are outside the model. */
  predicate KeyChar(c: char)
  {
    '!' <= c <= '~' && c != '+' && c != '_'
  }

  predicate KeyChars(s: string)
  {
    forall i :: 0 <= i < |s| ==> KeyChar(s[i])
  }

  /** The value of a decimal numeral, leading zeros allowed. */
  function DigitsValue(s: string): nat
    requires AllDigits(s)
    decreases |s|
  {
    if s == [] then 0 else DigitsValue(s[..|s| - 1]) * 10 + (s[|s| - 1] as int - '0' as int)
  }

  /** Python's `int(s)` in base 10 on the modelled characters, for numerals of
      any length (CPython's limit on the number of digits is not modelled). */
  function ParseInt(s: string): (r: Result<int>)
    ensures r.Success? <==> IsIntLiteral(s)
    ensures r.Failure? ==> r.error == InvalidLiteral(s)
    ensures r.Success? ==> (r.value < 0 ==> s[0] == '-')
  {
    if !IsIntLiteral(s) then Failure(InvalidLiteral(s))
    else if s[0] == '-' then Success(-(DigitsValue(s[1..]) as int))
    else Success(DigitsValue(s))
  }

  /** The decimal numeral of `n` without leading zeros. */
  function NatToString(n: nat): (r: string)
    ensures |r| > 0 && AllDigits(r)
    ensures n > 0 ==> r[0] != '0'
    decreases n
  {
    (if n < 10 then [] else NatToString(n / 10)) + [('0' as int + n % 10) as char]
  }

  /** Python's `str(i)` for an integer. */
  function IntToString(i: int): (r: string)
    ensures |r| > 0
    ensures r[0] == '-' <==> i < 0
  {
    if i < 0 then "-" + NatToString(-i) else NatToString(i)
  }

  lemma {:induction false} NatToStringDigits(n: nat)
    ensures |NatToString(n)| > 0 && AllDigits(NatToString(n))
    ensures DigitsValue(NatToString(n)) == n
    decreases n
  {
    var s := NatToString(n);
    if n >= 10 {
      NatToStringDigits(n / 10);
      assert s[..|s| - 1] == NatToString(n / 10);
    } else {
      assert s[..|s| - 1] == [];
    }
  }

  /** A numeral is an integer literal of the modelled syntax, free of
      commas, and parses to its value. */
  lemma Numeral(digits: string)
    requires |digits| > 0 && AllDigits(digits)
    ensures ParseInt(digits) == Success(DigitsValue(digits))
    ensures KeyChars(digits) && Free(digits, ',')
  {
    assert IsDigit(digits[0]);
  }

  /** A numeral behind a minus sign is an integer literal of the modelled
      syntax, free of commas, and parses to the negated value. */
  lemma NegativeNumeral(digits: string)
    requires |digits| > 0 && AllDigits(digits)
    ensures ParseInt("-" + digits) == Success(-(DigitsValue(digits) as int))
    ensures KeyChars("-" + digits) && Free("-" + digits, ',')
  {
    var s := "-" + digits;
    assert s[0] == '-' && s[1..] == digits;
    forall k | 0 <= k < |s|
      ensures KeyChar(s[k]) && s[k] != ','
    {
      if k > 0 {
        assert s[k] == digits[k - 1];
      }
    }
  }

  /** `int(str(i)) == i`, and `str(i)` is made of digits and a leading minus
      sign only. */
  lemma {:induction false} IntRoundTrip(i: int)
    ensures ParseInt(IntToString(i)) == Success(i)
    ensures KeyChars(IntToString(i)) && Free(IntToString(i), ',')
  {
    var n: nat := if i < 0 then -i else i;
    NatToStringDigits(n);
    if i < 0 {
      NegativeNumeral(NatToString(n));
    } else {
      Numeral(NatToString(n));
    }
  }

  // ---------------------------------------------------------------------------
  // parse_location_dict

  /** `map(int, parts)` collected into a tuple: the first part that is not an
      integer literal raises, otherwise each part gives one component. */
  function ParseInts(parts: seq<string>): Result<seq<int>>
    decreases |parts|
  {
    if parts == [] then Success([])
    else
      match ParseInt(parts[0])
      case Failure(e) => Failure(e)
      case Success(n) =>
        match ParseInts(parts[1..])
        case Failure(e) => Failure(e)
        case Success(ns) => Success([n] + ns)
  }

  /** The tuple has one component per part, each the part's value; failing
      that, the error names the first part that is not an integer literal.
      This is Python's behaviour for parts in the modelled characters
      (`KeyChars`), where `int()` accepts exactly the `IsIntLiteral` strings. */
  lemma {:induction false} ParseIntsSpec(parts: seq<string>)
    ensures ParseInts(parts).Success? <==> forall k :: 0 <= k < |parts| ==> IsIntLiteral(parts[k])
    ensures ParseInts(parts).Success? ==> |ParseInts(parts).value| == |parts|
    ensures ParseInts(parts).Success? ==>
      forall k :: 0 <= k < |parts| ==> ParseInt(parts[k]) == Success(ParseInts(parts).value[k])
    ensures ParseInts(parts).Failure? ==>
      exists k :: (0 <= k < |parts| && ParseInts(parts).error == InvalidLiteral(parts[k]) &&
                   !IsIntLiteral(parts[k]) && forall j :: 0 <= j < k ==> IsIntLiteral(parts[j]))
    decreases |parts|
  {
    if parts != [] {
      ParseIntsSpec(parts[1..]);
      var r := ParseInts(parts);
      if r.Success? {
        forall k | 0 <= k < |parts|
          ensures ParseInt(parts[k]) == Success(r.value[k])
        {
          if k > 0 {
            assert parts[k] == parts[1..][k - 1];
          }
        }
      } else if ParseInt(parts[0]).Success? {
        var k :| 0 <= k < |parts[1..]| && ParseInts(parts[1..]).error == InvalidLiteral(parts[1..][k]) &&
                 !IsIntLiteral(parts[1..][k]) && forall j :: 0 <= j < k ==> IsIntLiteral(parts[1..][j]);
        assert parts[k + 1] == parts[1..][k];
        forall j | 0 <= j < k + 1
          ensures IsIntLiteral(parts[j])
        {
          if j > 0 {
            assert parts[j] == parts[1..][j - 1];
          }
        }
      }
    }
  }

  /** `tuple(map(int, key.split(',')))`. */
  function ParseKey(key: string): Result<seq<int>>
  {
    ParseInts(Split(key, ','))
  }

  /** The key that the runner's JSON uses for a cell: `str(r) + "," + str(c)`. */
  function KeyOf(cell: Roses.Cell): string
  {
    IntToString(cell.0) + "," + IntToString(cell.1)
  }

  /** A key holds one component per comma-separated part: a key without a
      comma gives a one-component tuple, and a part that is not an integer
      literal makes the whole key fail with that part. */
  lemma ParseKeyParts(key: string)
    requires KeyChars(key)
    ensures ParseKey(key).Success? ==> |ParseKey(key).value| == Count(key, ',') + 1
    ensures Count(key, ',') == 0 && IsIntLiteral(key) ==> ParseKey(key) == Success([ParseInt(key).value])
    ensures ParseKey(key).Failure? <==>
      exists k :: 0 <= k < |Split(key, ',')| && !IsIntLiteral(Split(key, ',')[k])
  {
    SplitParts(key, ',');
    ParseIntsSpec(Split(key, ','));
    if Count(key, ',') == 0 {
      var parts := Split(key, ',');
      assert |parts| == 1;
      JoinSplit(key, ',');
      assert parts == [key];
      if IsIntLiteral(key) {
        assert parts[1..] == [];
        assert ParseInts(parts[1..]) == Success([]);
        assert [ParseInt(key).value] + [] == [ParseInt(key).value];
      }
    }
  }

  /** Two comma-free integer literals joined by a comma parse to a 2-tuple. */
  lemma ParseKeyPair(a: string, b: string, x: int, y: int)
    requires Free(a, ',') && Free(b, ',')
    requires ParseInt(a) == Success(x) && ParseInt(b) == Success(y)
    ensures ParseKey(a + [','] + b) == Success([x, y])
  {
    SplitPair(a, b, ',');
    assert [a, b][1..] == [b] && [b][1..] == [];
    assert ParseInts([b]) == Success([y] + []);
    assert [x] + ([y] + []) == [x, y];
  }

  /** The canonical key of a cell parses back to that cell, as a 2-tuple. */
  lemma {:induction false} KeyRoundTrip(cell: Roses.Cell)
    ensures KeyChars(KeyOf(cell))
    ensures ParseKey(KeyOf(cell)) == Success([cell.0, cell.1])
  {
    var a, b := IntToString(cell.0), IntToString(cell.1);
    IntRoundTrip(cell.0);
    IntRoundTrip(cell.1);
    assert KeyOf(cell) == a + [','] + b;
    ParseKeyPair(a, b, cell.0, cell.1);
  }

  /** Distinct cells have distinct canonical keys. */
  lemma KeyOfInjective(c1: Roses.Cell, c2: Roses.Cell)
    ensures KeyOf(c1) == KeyOf(c2) ==> c1 == c2
  {
    KeyRoundTrip(c1);
    KeyRoundTrip(c2);
  }

  /** `{key(k): v for k, v in items}` over a dictionary's items in insertion
      order, with a key function that may raise: the first key that fails
      raises its error, and a later key whose tuple equals an earlier one's
      overwrites it. */
  function Comprehension<V>(items: seq<(string, V)>, key: string -> Result<seq<int>>): Result<map<seq<int>, V>>
    decreases |items|
  {
    if items == [] then Success(map[])
    else
      var n := |items| - 1;
      match Comprehension(items[..n], key)
      case Failure(e) => Failure(e)
      case Success(m) =>
        match key(items[n].0)
        case Failure(e) => Failure(e)
        case Success(t) => Success(m[t := items[n].1])
  }

  /** Every key of the dictionary lies in the modelled syntax. */
  predicate KeysModelled<V>(entries: seq<(string, V)>)
  {
    forall k :: 0 <= k < |entries| ==> KeyChars(entries[k].0)
  }

  /** `parse_location_dict`. */
  function ParseLocationDict<V>(entries: seq<(string, V)>): (r: Result<map<seq<int>, V>>)
    requires KeysModelled(entries)
    ensures r.Failure? <==> exists i :: 0 <= i < |entries| && ParseKey(entries[i].0).Failure?
    ensures r.Failure? ==>
      exists i :: (0 <= i < |entries| && ParseKey(entries[i].0) == Failure(r.error) &&
                   forall j :: 0 <= j < i ==> ParseKey(entries[j].0).Success?)
    ensures r.Success? ==> forall i :: 0 <= i < |entries| ==>
      ParseKey(entries[i].0).Success? && ParseKey(entries[i].0).value in r.value
    ensures r.Success? ==> forall t :: t in r.value ==>
      exists i :: 0 <= i < |entries| && ParseKey(entries[i].0) == Success(t)
    ensures r.Success? ==> forall i :: 0 <= i < |entries| && LastOfItsTuple(entries, ParseKey, i) ==>
      r.value[ParseKey(entries[i].0).value] == entries[i].1
  {
    ComprehensionFailure(entries, ParseKey);
    var r := Comprehension(entries, ParseKey);
    if r.Success? then
      ComprehensionKeys(entries, ParseKey);
      ComprehensionValues(entries, ParseKey);
      r
    else
      r
  }

  /** No item after position `i` has a key with the same tuple as item `i`'s. */
  predicate LastOfItsTuple<V>(items: seq<(string, V)>, key: string -> Result<seq<int>>, i: int)
    requires 0 <= i < |items|
  {
    forall j :: i < j < |items| ==> key(items[j].0) != key(items[i].0)
  }

  /** The comprehension fails exactly when some key fails, and then with the
      error of the first key that fails. */
  lemma {:induction false} ComprehensionFailure<V>(items: seq<(string, V)>, key: string -> Result<seq<int>>)
    ensures Comprehension(items, key).Failure? <==>
      exists i :: 0 <= i < |items| && key(items[i].0).Failure?
    ensures Comprehension(items, key).Failure? ==>
      exists i :: (0 <= i < |items| && key(items[i].0) == Failure(Comprehension(items, key).error) &&
                   forall j :: 0 <= j < i ==> key(items[j].0).Success?)
    decreases |items|
  {
    if items != [] {
      var n := |items| - 1;
      var front := items[..n];
      assert forall k :: 0 <= k < n ==> front[k] == items[k];
      ComprehensionFailure(front, key);
    }
  }

  /** One step of the comprehension: a successful result is the result for
      all but the last item, updated with the last item. */
  lemma ComprehensionLast<V>(items: seq<(string, V)>, key: string -> Result<seq<int>>)
    requires items != [] && Comprehension(items, key).Success?
    ensures Comprehension(items[..|items| - 1], key).Success?
    ensures key(items[|items| - 1].0).Success?
    ensures Comprehension(items, key).value ==
      Comprehension(items[..|items| - 1], key).value[key(items[|items| - 1].0).value := items[|items| - 1].1]
  {
  }

  /** On success, the keys of the result are exactly the tuples of the keys. */
  lemma {:induction false} ComprehensionKeys<V>(items: seq<(string, V)>, key: string -> Result<seq<int>>)
    requires Comprehension(items, key).Success?
    ensures forall i :: 0 <= i < |items| ==>
      key(items[i].0).Success? && key(items[i].0).value in Comprehension(items, key).value
    ensures forall t :: t in Comprehension(items, key).value ==>
      exists i :: 0 <= i < |items| && key(items[i].0) == Success(t)
    decreases |items|
  {
    if items != [] {
      var n := |items| - 1;
      var front := items[..n];
      ComprehensionLast(items, key);
      ComprehensionKeys(front, key);
      var m := Comprehension(front, key).value;
      var t := key(items[n].0).value;
      var result := Comprehension(items, key).value;
      forall i | 0 <= i < |items|
        ensures key(items[i].0).Success? && key(items[i].0).value in result
      {
        if i < n {
          assert front[i] == items[i];
        }
      }
      forall u | u in result
        ensures exists i :: 0 <= i < |items| && key(items[i].0) == Success(u)
      {
        if u != t {
          assert u in m;
          var i :| 0 <= i < |front| && key(front[i].0) == Success(u);
          assert front[i] == items[i];
        }
      }
    }
  }

  /** On success, the tuple of an item that no later item shares maps to
      that item's value. */
  lemma {:induction false} ComprehensionValueAt<V>(items: seq<(string, V)>, key: string -> Result<seq<int>>, i: int)
    requires Comprehension(items, key).Success?
    requires 0 <= i < |items| && LastOfItsTuple(items, key, i)
    ensures key(items[i].0).Success?
    ensures key(items[i].0).value in Comprehension(items, key).value
    ensures Comprehension(items, key).value[key(items[i].0).value] == items[i].1
    decreases |items|
  {
    var n := |items| - 1;
    ComprehensionLast(items, key);
    if i < n {
      var front := items[..n];
      assert front[i] == items[i];
      assert LastOfItsTuple(front, key, i) by {
        forall j | i < j < |front|
          ensures key(front[j].0) != key(front[i].0)
        {
          assert front[j] == items[j];
        }
      }
      ComprehensionValueAt(front, key, i);
      assert key(items[n].0) != key(items[i].0);
    }
  }

  /** On success, each tuple maps to the value of the last item whose key
      has that tuple: values are carried across unchanged. */
  lemma ComprehensionValues<V>(items: seq<(string, V)>, key: string -> Result<seq<int>>)
    requires Comprehension(items, key).Success?
    ensures forall i :: 0 <= i < |items| ==> key(items[i].0).Success?
    ensures forall i :: 0 <= i < |items| && LastOfItsTuple(items, key, i) ==>
      key(items[i].0).value in Comprehension(items, key).value &&
      Comprehension(items, key).value[key(items[i].0).value] == items[i].1
  {
    ComprehensionKeys(items, key);
    forall i | 0 <= i < |items| && LastOfItsTuple(items, key, i)
      ensures key(items[i].0).value in Comprehension(items, key).value
      ensures Comprehension(items, key).value[key(items[i].0).value] == items[i].1
    {
      ComprehensionValueAt(items, key, i);
    }
  }

  /** When no two keys have the same tuple, the result has one entry per item. */
  lemma {:induction false} ComprehensionSize<V>(items: seq<(string, V)>, key: string -> Result<seq<int>>)
    requires Comprehension(items, key).Success?
    requires forall i, j :: 0 <= i < j < |items| ==> key(items[i].0) != key(items[j].0)
    ensures |Comprehension(items, key).value| == |items|
    decreases |items|
  {
    if items != [] {
      var n := |items| - 1;
      var front := items[..n];
      assert forall k :: 0 <= k < n ==> front[k] == items[k];
      ComprehensionLast(items, key);
      ComprehensionSize(front, key);
      ComprehensionKeys(front, key);
      var m := Comprehension(front, key).value;
      var t := key(items[n].0).value;
      assert t !in m;
    }
  }

  /** `entries` are the items of a dictionary whose keys are the canonical
      keys of `cells`, in order, each with its cell's value. */
  ghost predicate CanonicalEntries<V>(cells: seq<(Roses.Cell, V)>, entries: seq<(string, V)>)
  {
    |entries| == |cells| &&
    forall k :: 0 <= k < |cells| ==> entries[k] == (KeyOf(cells[k].0), cells[k].1)
  }

  /** Each canonical key is in the modelled syntax and parses to its cell's
      2-tuple. */
  lemma CanonicalKeysParse<V>(cells: seq<(Roses.Cell, V)>, entries: seq<(string, V)>)
    requires CanonicalEntries(cells, entries)
    ensures KeysModelled(entries)
    ensures forall k :: 0 <= k < |entries| ==> ParseKey(entries[k].0) == Success(CellTuples(cells)[k])
  {
    forall k | 0 <= k < |entries|
      ensures KeyChars(entries[k].0)
      ensures ParseKey(entries[k].0) == Success(CellTuples(cells)[k])
    {
      KeyRoundTrip(cells[k].0);
    }
  }

  /** Distinct cells have distinct 2-tuples. */
  lemma CellTuplesDistinct<V>(cells: seq<(Roses.Cell, V)>)
    requires forall i, j :: 0 <= i < j < |cells| ==> cells[i].0 != cells[j].0
    ensures forall i, j :: 0 <= i < j < |cells| ==> CellTuples(cells)[i] != CellTuples(cells)[j]
  {
    forall i, j | 0 <= i < j < |cells|
      ensures CellTuples(cells)[i] != CellTuples(cells)[j]
    {
      PairInjective(cells[i].0, cells[j].0);
    }
  }

  /** When every key parses, to pairwise distinct tuples, the comprehension
      succeeds with exactly those tuples, each mapped to its item's value. */
  lemma ComprehensionDistinct<V>(items: seq<(string, V)>, key: string -> Result<seq<int>>, tuples: seq<seq<int>>)
    requires |tuples| == |items|
    requires forall k :: 0 <= k < |items| ==> key(items[k].0) == Success(tuples[k])
    requires forall i, j :: 0 <= i < j < |tuples| ==> tuples[i] != tuples[j]
    ensures Comprehension(items, key).Success?
    ensures |Comprehension(items, key).value| == |items|
    ensures forall k :: 0 <= k < |items| ==>
      tuples[k] in Comprehension(items, key).value && Comprehension(items, key).value[tuples[k]] == items[k].1
    ensures forall t :: t in Comprehension(items, key).value ==> exists k :: 0 <= k < |items| && t == tuples[k]
  {
    ComprehensionFailure(items, key);
    ComprehensionSize(items, key);
    ComprehensionKeys(items, key);
    ComprehensionValues(items, key);
    forall k | 0 <= k < |items|
      ensures Comprehension(items, key).value[tuples[k]] == items[k].1
    {
      assert LastOfItsTuple(items, key, k);
    }
  }

  /** The 2-tuples of a sequence of cells. */
  function CellTuples<V>(cells: seq<(Roses.Cell, V)>): (r: seq<seq<int>>)
    ensures |r| == |cells|
    ensures forall k :: 0 <= k < |r| ==> r[k] == [cells[k].0.0, cells[k].0.1]
    decreases |cells|
  {
    if cells == [] then [] else [[cells[0].0.0, cells[0].0.1]] + CellTuples(cells[1..])
  }

  /** Round trip through the runner's JSON form: a dictionary of distinct
      cells written with canonical keys parses back without error, has one
      entry per cell, maps each cell's tuple to that cell's value, and holds
      no other key. */
  lemma CanonicalKeysRoundTrip<V>(cells: seq<(Roses.Cell, V)>, entries: seq<(string, V)>)
    requires forall i, j :: 0 <= i < j < |cells| ==> cells[i].0 != cells[j].0
    requires CanonicalEntries(cells, entries)
    ensures KeysModelled(entries)
    ensures ParseLocationDict(entries).Success?
    ensures |ParseLocationDict(entries).value| == |cells|
    ensures forall i :: 0 <= i < |cells| ==>
      CellTuples(cells)[i] in ParseLocationDict(entries).value &&
      ParseLocationDict(entries).value[CellTuples(cells)[i]] == cells[i].1
    ensures forall t :: t in ParseLocationDict(entries).value ==>
      exists i :: 0 <= i < |cells| && t == CellTuples(cells)[i]
  {
    var tuples := CellTuples(cells);
    CanonicalKeysParse(cells, entries);
    CellTuplesDistinct(cells);
    ComprehensionDistinct(entries, ParseKey, tuples);
    assert ParseLocationDict(entries) == Comprehension(entries, ParseKey);
  }
  /** The 2-tuple of a cell determines the cell. */
  lemma PairInjective(c1: Roses.Cell, c2: Roses.Cell)
    ensures [c1.0, c1.1] == [c2.0, c2.1] ==> c1 == c2
  {
    if [c1.0, c1.1] == [c2.0, c2.1] {
      assert [c1.0, c1.1][0] == [c2.0, c2.1][0] && [c1.0, c1.1][1] == [c2.0, c2.1][1];
    }
  }

  // ---------------------------------------------------------------------------
  // purchased squares

  /** `[tuple(sq) for sq in purchased_squares]` for squares given as
      `[row, col]` lists: same length, same order, each list its pair. */
  function PurchasedSquareTuples(squares: seq<seq<int>>): (r: seq<Roses.Cell>)
    requires forall k :: 0 <= k < |squares| ==> |squares[k]| == 2
    ensures |r| == |squares|
    ensures forall k :: 0 <= k < |r| ==> r[k] == (squares[k][0], squares[k][1])
    decreases |squares|
  {
    if squares == [] then [] else [(squares[0][0], squares[0][1])] + PurchasedSquareTuples(squares[1..])
  }
}
