/** sortem: a stable sort of (key, value) pairs by the integer value of the key. */
module Sorting {
  import opened Wrappers

  /** The keys int() is modelled as accepting: non-empty strings of ASCII digits. */
  predicate IsDecimal(s: string)
  {
    |s| > 0 && forall i :: 0 <= i < |s| ==> '0' <= s[i] <= '9'
  }

  /** The number a string of digits denotes. */
  function Value(s: string): nat
    requires forall i :: 0 <= i < |s| ==> '0' <= s[i] <= '9'
  {
    if s == [] then 0 else Value(s[..|s| - 1]) * 10 + (s[|s| - 1] as int - '0' as int)
  }

  /** int(s): the value of a digit string; anything else raises ValueError. */
  function ParseInt(s: string): (r: Result<nat>)
    ensures r.Ok? <==> IsDecimal(s)
    ensures r.Ok? ==> r.value == Value(s)
    ensures r.Err? ==> r.error == NotAnInteger(s)
  {
    if IsDecimal(s) then Ok(Value(s)) else Err(NotAnInteger(s))
  }

  /** Leading zeros do not change the value: "01" and "1" are the same chapter number. */
  lemma {:induction false} ValueLeadingZero(s: string)
    requires forall i :: 0 <= i < |s| ==> '0' <= s[i] <= '9'
    ensures Value("0" + s) == Value(s)
  {
    if s != [] {
      assert ("0" + s)[..|"0" + s| - 1] == "0" + s[..|s| - 1];
      ValueLeadingZero(s[..|s| - 1]);
    } else {
      assert "0" + s == "0";
    }
  }

  /** A digit string of length n denotes a number below 10^n, so a string without
      leading zeros is larger than any shorter one: "10" comes after "9". */
  lemma {:induction false} ValueBound(s: string)
    requires forall i :: 0 <= i < |s| ==> '0' <= s[i] <= '9'
    ensures Value(s) < Pow10(|s|)
    ensures |s| > 0 && s[0] != '0' ==> Pow10(|s| - 1) <= Value(s)
  {
    if s != [] {
      ValueBound(s[..|s| - 1]);
    }
  }

  function Pow10(n: nat): (r: nat)
    ensures r >= 1
  {
    if n == 0 then 1 else 10 * Pow10(n - 1)
  }

  predicate AllDecimal<V>(xs: seq<(string, V)>)
  {
    forall i :: 0 <= i < |xs| ==> IsDecimal(xs[i].0)
  }

  /** Ascending by integer key. */
  predicate SortedByKey<V>(xs: seq<(string, V)>)
    requires AllDecimal(xs)
  {
    forall i, j :: 0 <= i < j < |xs| ==> Value(xs[i].0) <= Value(xs[j].0)
  }

  /** The elements of xs whose key is n, in their order in xs. */
  function WithKey<V>(xs: seq<(string, V)>, n: nat): seq<(string, V)>
    requires AllDecimal(xs)
  {
    if xs == [] then []
    else (if Value(xs[0].0) == n then [xs[0]] else []) + WithKey(xs[1..], n)
  }

  /** Insert x into sorted s after every element whose key is not larger. */
  function InsertByKey<V>(x: (string, V), s: seq<(string, V)>): (r: seq<(string, V)>)
    requires IsDecimal(x.0) && AllDecimal(s)
    ensures |r| == |s| + 1 && AllDecimal(r)
  {
    if s == [] then [x]
    else if Value(x.0) < Value(s[0].0) then [x] + s
    else [s[0]] + InsertByKey(x, s[1..])
  }

  /** Insertion sort taking the elements in input order; with InsertByKey placing a later
      element after earlier ones of equal key, this is a stable sort. */
  function InsertionSort<V>(xs: seq<(string, V)>): (r: seq<(string, V)>)
    requires AllDecimal(xs)
    ensures |r| == |xs| && AllDecimal(r)
  {
    if xs == [] then []
    else InsertByKey(xs[|xs| - 1], InsertionSort(xs[..|xs| - 1]))
  }

  /** The first key int() (ParseInt) rejects, in list order: sorted() computes every key before
      comparing any, so an empty or all-numeric list is the only one that sorts. */
  function FirstNonInteger<V>(xs: seq<(string, V)>): (r: Option<string>)
    ensures r.None? <==> AllDecimal(xs)
    ensures r.Some? ==> exists i :: 0 <= i < |xs| && xs[i].0 == r.value && !IsDecimal(r.value)
                                    && AllDecimal(xs[..i])
  {
    if xs == [] then None
    else if ParseInt(xs[0].0).Err? then
      assert AllDecimal(xs[..0]);
      Some(xs[0].0)
    else
      match FirstNonInteger(xs[1..])
      case None => None
      case Some(k) =>
        assert exists i :: 0 <= i < |xs| - 1 && xs[1..][i].0 == k && AllDecimal(xs[1..][..i]);
        var i :| 0 <= i < |xs| - 1 && xs[1..][i].0 == k && AllDecimal(xs[1..][..i]);
        assert xs[..i + 1] == [xs[0]] + xs[1..][..i];
        Some(k)
  }

  /** sortem: sorted(xs, key=lambda x: int(x[0])). */
  function Sortem<V>(xs: seq<(string, V)>): (r: Result<seq<(string, V)>>)
    ensures r.Ok? <==> AllDecimal(xs)
    ensures r.Err? ==> FirstNonInteger(xs).Some? && r.error == NotAnInteger(FirstNonInteger(xs).value)
  {
    match FirstNonInteger(xs)
    case Some(k) => Err(NotAnInteger(k))
    case None => Ok(InsertionSort(xs))
  }

  lemma {:induction false} InsertSorted<V>(x: (string, V), s: seq<(string, V)>)
    requires IsDecimal(x.0) && AllDecimal(s) && SortedByKey(s)
    ensures SortedByKey(InsertByKey(x, s))
  {
    if s != [] && Value(x.0) >= Value(s[0].0) {
      InsertSorted(x, s[1..]);
      var r := InsertByKey(x, s[1..]);
      InsertMembers(x, s[1..]);
      assert forall j :: 0 <= j < |r| ==> Value(s[0].0) <= Value(r[j].0);
    }
  }

  /** Every element of InsertByKey(x, s) is x or an element of s. */
  lemma {:induction false} InsertMembers<V>(x: (string, V), s: seq<(string, V)>)
    requires IsDecimal(x.0) && AllDecimal(s)
    ensures forall j :: 0 <= j < |InsertByKey(x, s)| ==>
      InsertByKey(x, s)[j] == x || exists k :: 0 <= k < |s| && InsertByKey(x, s)[j] == s[k]
  {
    if s != [] && Value(x.0) >= Value(s[0].0) {
      InsertMembers(x, s[1..]);
      var r := InsertByKey(x, s);
      forall j | 0 <= j < |r| ensures r[j] == x || exists k :: 0 <= k < |s| && r[j] == s[k] {
        if j > 0 {
          var t := InsertByKey(x, s[1..]);
          assert r[j] == t[j - 1];
          if t[j - 1] != x {
            var k :| 0 <= k < |s[1..]| && t[j - 1] == s[1..][k];
            assert r[j] == s[k + 1];
          }
        } else {
          assert r[0] == s[0];
        }
      }
    }
  }

  lemma {:induction false} WithKeyNone<V>(s: seq<(string, V)>, n: nat)
    requires AllDecimal(s) && forall j :: 0 <= j < |s| ==> Value(s[j].0) > n
    ensures WithKey(s, n) == []
  {
    if s != [] {
      WithKeyNone(s[1..], n);
    }
  }

  lemma {:induction false} InsertWithKey<V>(x: (string, V), s: seq<(string, V)>, n: nat)
    requires IsDecimal(x.0) && AllDecimal(s) && SortedByKey(s)
    ensures WithKey(InsertByKey(x, s), n) == WithKey(s, n) + (if Value(x.0) == n then [x] else [])
  {
    if s == [] {
    } else if Value(x.0) < Value(s[0].0) {
      var r := [x] + s;
      assert r[1..] == s;
      if Value(x.0) == n {
        WithKeyNone(s, n);
      }
    } else {
      var r := [s[0]] + InsertByKey(x, s[1..]);
      assert r[1..] == InsertByKey(x, s[1..]);
      InsertWithKey(x, s[1..], n);
    }
  }

  lemma {:induction false} WithKeyAppend<V>(a: seq<(string, V)>, b: seq<(string, V)>, n: nat)
    requires AllDecimal(a) && AllDecimal(b)
    ensures AllDecimal(a + b) && WithKey(a + b, n) == WithKey(a, n) + WithKey(b, n)
  {
    if a == [] {
      assert a + b == b;
    } else {
      assert (a + b)[1..] == a[1..] + b;
      WithKeyAppend(a[1..], b, n);
    }
  }

  lemma {:induction false} InsertionSortCorrect<V>(xs: seq<(string, V)>, n: nat)
    requires AllDecimal(xs)
    ensures SortedByKey(InsertionSort(xs))
    ensures WithKey(InsertionSort(xs), n) == WithKey(xs, n)
  {
    if xs != [] {
      var init := xs[..|xs| - 1];
      var last := xs[|xs| - 1];
      InsertionSortCorrect(init, n);
      InsertSorted(last, InsertionSort(init));
      InsertWithKey(last, InsertionSort(init), n);
      WithKeyAppend(init, [last], n);
      assert init + [last] == xs;
    }
  }

  /** sortem returns its input ascending by integer key, and stably: for every key value,
      the elements with that value come out in the order they went in. Together these
      determine the result, and make it a permutation of the input. */
  lemma SortemSortsStably<V>(xs: seq<(string, V)>, n: nat)
    requires AllDecimal(xs)
    ensures Sortem(xs).Ok? && AllDecimal(Sortem(xs).value) && |Sortem(xs).value| == |xs|
    ensures SortedByKey(Sortem(xs).value)
    ensures WithKey(Sortem(xs).value, n) == WithKey(xs, n)
  {
    InsertionSortCorrect(xs, n);
  }

  lemma {:induction false} InsertPermutes<V>(x: (string, V), s: seq<(string, V)>)
    requires IsDecimal(x.0) && AllDecimal(s)
    ensures multiset(InsertByKey(x, s)) == multiset(s) + multiset{x}
  {
    if s != [] && Value(x.0) >= Value(s[0].0) {
      InsertPermutes(x, s[1..]);
      assert s == [s[0]] + s[1..];
    }
  }

  /** sortem returns a permutation of its input. */
  lemma {:induction false} SortemPermutes<V>(xs: seq<(string, V)>)
    requires AllDecimal(xs)
    ensures Sortem(xs).Ok? && multiset(Sortem(xs).value) == multiset(xs)
  {
    if xs != [] {
      var init := xs[..|xs| - 1];
      SortemPermutes(init);
      InsertPermutes(xs[|xs| - 1], InsertionSort(init));
      assert init + [xs[|xs| - 1]] == xs;
    }
  }

  /** All that sortem promises on integer keys at once: ascending, a permutation, and
      stable for every key value. */
  lemma SortemStable<V>(xs: seq<(string, V)>)
    requires AllDecimal(xs)
    ensures Sortem(xs).Ok? && AllDecimal(Sortem(xs).value)
    ensures SortedByKey(Sortem(xs).value) && multiset(Sortem(xs).value) == multiset(xs)
    ensures forall n: nat :: WithKey(Sortem(xs).value, n) == WithKey(xs, n)
  {
    SortemPermutes(xs);
    SortemSortsStably(xs, 0);
    forall n: nat ensures WithKey(Sortem(xs).value, n) == WithKey(xs, n) {
      SortemSortsStably(xs, n);
    }
  }

  /** Keys "2", "10", "1" come out as 1, 2, 10, not in string order. */
  lemma SortemNumericOrder<V>(xs: seq<(string, V)>, a: V, b: V, c: V)
    requires xs == [("2", a), ("10", b), ("1", c)]
    ensures Sortem(xs) == Ok([("1", c), ("2", a), ("10", b)])
  {
    assert Value("2") == 2 && Value("10") == 10 && Value("1") == 1;
    assert xs[..1] == [("2", a)] && xs[..2] == [("2", a), ("10", b)];
    assert [("2", a), ("10", b)][..1] == [("2", a)];
    assert InsertionSort([("2", a)]) == [("2", a)];
    assert InsertByKey(("10", b), [("2", a)]) == [("2", a)] + InsertByKey(("10", b), []);
    assert InsertionSort([("2", a), ("10", b)]) == InsertByKey(("10", b), [("2", a)]);
    assert InsertionSort([("2", a), ("10", b)]) == [("2", a), ("10", b)];
    assert InsertionSort(xs) == [("1", c), ("2", a), ("10", b)];
  }
}
