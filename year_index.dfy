/**
 * The year index of `FetchDataService.writeYearsIndex`: the grouping's keys sorted with
 * `Comparator.reverseOrder()`, that is, by `String.compareTo` from the largest down.
 */
module YearIndex {

  /**
   * `a.compareTo(b) < 0`: at the first position where the strings differ the character
   * of `a` is smaller, or `a` is a proper prefix of `b`.
   */
  predicate LexLess(a: string, b: string)
    decreases |a|
  {
    if a == [] then b != []
    else if b == [] then false
    else a[0] < b[0] || (a[0] == b[0] && LexLess(a[1..], b[1..]))
  }

  lemma {:induction false} LexLessIrreflexive(a: string)
    ensures !LexLess(a, a)
    decreases |a|
  {
    if a != [] { LexLessIrreflexive(a[1..]); }
  }

  lemma {:induction false} LexLessTransitive(a: string, b: string, c: string)
    requires LexLess(a, b) && LexLess(b, c)
    ensures LexLess(a, c)
    decreases |a|
  {
    if a != [] && b != [] && c != [] && a[0] == b[0] == c[0] {
      LexLessTransitive(a[1..], b[1..], c[1..]);
    }
  }

  /** Two different strings are always ordered one way or the other. */
  lemma {:induction false} LexLessTotal(a: string, b: string)
    requires a != b
    ensures LexLess(a, b) || LexLess(b, a)
    decreases |a|
  {
    if a != [] && b != [] && a[0] == b[0] {
      assert a == [a[0]] + a[1..] && b == [b[0]] + b[1..];
      LexLessTotal(a[1..], b[1..]);
    }
  }

  lemma LexLessAsymmetric(a: string, b: string)
    requires LexLess(a, b)
    ensures !LexLess(b, a)
  {
    if LexLess(b, a) {
      LexLessTransitive(a, b, a);
      LexLessIrreflexive(a);
    }
  }

  /** Each later element is strictly smaller than every earlier one. */
  predicate StrictlyDescending(s: seq<string>) {
    forall i, j :: 0 <= i < j < |s| ==> LexLess(s[j], s[i])
  }

  /** No element occurs twice. */
  predicate NoDuplicates(s: seq<string>) {
    forall i, j :: 0 <= i < j < |s| ==> s[i] != s[j]
  }

  /** Putting in front an element larger than all others keeps the list descending. */
  lemma ConsDescending(x: string, s: seq<string>)
    requires StrictlyDescending(s)
    requires forall j :: 0 <= j < |s| ==> LexLess(s[j], x)
    ensures StrictlyDescending([x] + s)
  {
    var r := [x] + s;
    forall i, j | 0 <= i < j < |r| ensures LexLess(r[j], r[i]) {
      assert r[j] == s[j - 1];
      if i > 0 { assert r[i] == s[i - 1]; }
    }
  }

  /** Below the head of a descending list lies everything after it. */
  lemma BelowHead(s: seq<string>, x: string)
    requires StrictlyDescending(s) && s != [] && LexLess(s[0], x)
    ensures forall j :: 0 <= j < |s| ==> LexLess(s[j], x)
  {
    forall j | 0 < j < |s| ensures LexLess(s[j], x) { LexLessTransitive(s[j], s[0], x); }
  }

  /** The tail with `x` inserted stays below the head when `x` does. */
  lemma InsertedBelowHead(s: seq<string>, x: string, rest: seq<string>)
    requires StrictlyDescending(s) && s != [] && LexLess(x, s[0])
    requires multiset(rest) == multiset(s[1..]) + multiset{x}
    ensures forall j :: 0 <= j < |rest| ==> LexLess(rest[j], s[0])
  {
    forall j | 0 <= j < |rest| ensures LexLess(rest[j], s[0]) {
      assert rest[j] in multiset(rest);
      if rest[j] != x {
        assert rest[j] in multiset(s[1..]);
        var k :| 0 <= k < |s[1..]| && s[1..][k] == rest[j];
        assert s[k + 1] == rest[j];
      }
    }
  }

  /** Inserts `x` in front of the first element that is smaller than it. */
  function InsertDescending(x: string, s: seq<string>): (r: seq<string>)
    requires StrictlyDescending(s) && x !in s
    ensures multiset(r) == multiset(s) + multiset{x}
    ensures StrictlyDescending(r)
    decreases |s|
  {
    if s == [] then [x]
    else if LexLess(s[0], x) then
      BelowHead(s, x);
      ConsDescending(x, s);
      [x] + s
    else
      LexLessTotal(s[0], x);
      assert s == [s[0]] + s[1..];
      var rest := InsertDescending(x, s[1..]);
      InsertedBelowHead(s, x, rest);
      ConsDescending(s[0], rest);
      [s[0]] + rest
  }

  /**
   * `sorted(Comparator.reverseOrder())` on a list of distinct keys: a permutation of the
   * keys in strictly descending order.
   */
  function SortDescending(keys: seq<string>): (r: seq<string>)
    requires NoDuplicates(keys)
    ensures multiset(r) == multiset(keys)
    ensures StrictlyDescending(r)
    decreases |keys|
  {
    if keys == [] then []
    else
      TailHasNoDuplicates(keys);
      var rest := SortDescending(keys[1..]);
      HeadNotInSortedTail(keys, rest);
      InsertDescending(keys[0], rest)
  }

  /** The tail of a list without repeats has none, and does not hold the head. */
  lemma TailHasNoDuplicates(keys: seq<string>)
    requires NoDuplicates(keys) && keys != []
    ensures NoDuplicates(keys[1..])
    ensures keys[0] !in keys[1..]
    ensures multiset(keys) == multiset(keys[1..]) + multiset{keys[0]}
  {
    forall j | 0 <= j < |keys[1..]| ensures keys[1..][j] != keys[0] { assert keys[1..][j] == keys[j + 1]; }
    assert keys == [keys[0]] + keys[1..];
  }

  /** A permutation of the tail does not hold the head either. */
  lemma HeadNotInSortedTail(keys: seq<string>, rest: seq<string>)
    requires keys != [] && keys[0] !in keys[1..]
    requires multiset(rest) == multiset(keys[1..])
    ensures keys[0] !in rest
  {
    assert keys[0] !in multiset(keys[1..]);
  }

  /** A strictly descending list repeats nothing. */
  lemma DescendingHasNoDuplicates(s: seq<string>)
    requires StrictlyDescending(s)
    ensures NoDuplicates(s)
  {
    forall i, j | 0 <= i < j < |s| ensures s[i] != s[j] {
      LexLessIrreflexive(s[i]);
    }
  }

  /**
   * The order of the input does not matter: two strictly descending lists with the same
   * elements are the same list, so the index does not depend on the hash map's order.
   */
  lemma {:induction false} DescendingIsUnique(s: seq<string>, t: seq<string>)
    requires StrictlyDescending(s) && StrictlyDescending(t)
    requires forall x :: x in s <==> x in t
    ensures s == t
    decreases |s|
  {
    if s == [] {
      assert t == [] by {
        assert forall j :: 0 <= j < |t| ==> t[j] in t;
      }
    } else {
      assert s[0] in t;
      assert t[0] in s;
      if s[0] != t[0] {
        var i :| 0 <= i < |s| && s[i] == t[0];
        var j :| 0 <= j < |t| && t[j] == s[0];
        assert LexLess(t[0], s[0]);
        assert LexLess(s[0], t[0]);
        LexLessAsymmetric(t[0], s[0]);
      }
      DescendingHasNoDuplicates(s);
      DescendingHasNoDuplicates(t);
      assert forall x :: x in s[1..] <==> x in s && x != s[0] by {
        assert s == [s[0]] + s[1..];
        forall j | 0 <= j < |s[1..]| ensures s[1..][j] != s[0] { assert s[1..][j] == s[j + 1]; }
      }
      assert forall x :: x in t[1..] <==> x in t && x != t[0] by {
        assert t == [t[0]] + t[1..];
        forall j | 0 <= j < |t[1..]| ensures t[1..][j] != t[0] { assert t[1..][j] == t[j + 1]; }
      }
      DescendingIsUnique(s[1..], t[1..]);
      assert s == [s[0]] + s[1..] && t == [t[0]] + t[1..];
    }
  }

  /**
   * The index lists the keys exactly once each: its element set is the key set and its
   * length is the number of keys.
   */
  lemma SortedIndexListsKeysOnce(keys: seq<string>)
    requires NoDuplicates(keys)
    ensures var r := SortDescending(keys);
      && (forall x :: x in r <==> x in keys)
      && |r| == |keys|
      && NoDuplicates(r)
  {
    var r := SortDescending(keys);
    assert forall x :: x in r <==> x in multiset(r);
    assert forall x :: x in keys <==> x in multiset(keys);
    assert |r| == |multiset(r)| == |multiset(keys)| == |keys|;
    DescendingHasNoDuplicates(r);
  }

  /** `s` lists the elements of `keys`, each once. */
  predicate Lists(s: seq<string>, keys: set<string>) {
    (forall x :: x in s ==> x in keys) && (forall x :: x in keys ==> x in s) && NoDuplicates(s)
  }

  /** The keys of a hash map can be listed, each once, in some order. */
  lemma {:induction false} KeysCanBeListed(keys: set<string>)
    ensures exists s :: Lists(s, keys)
    decreases |keys|
  {
    if keys == {} {
      var s: seq<string> := [];
      assert Lists(s, keys);
    } else {
      var k :| k in keys;
      KeysCanBeListed(keys - {k});
      var s :| Lists(s, keys - {k});
      var t := s + [k];
      assert Lists(t, keys);
    }
  }

  /** Such a listing is as long as the set has elements. */
  lemma {:induction false} ListingHasSetSize(s: seq<string>, keys: set<string>)
    requires Lists(s, keys)
    ensures |s| == |keys|
    decreases |s|
  {
    if s != [] {
      var rest := s[1..];
      assert forall x :: x in rest <==> x in keys - {s[0]} by {
        forall x ensures x in rest <==> x in keys - {s[0]} {
          if x in rest {
            var j :| 0 <= j < |rest| && rest[j] == x;
            assert s[j + 1] == x;
          }
          if x in keys - {s[0]} {
            var j :| 0 <= j < |s| && s[j] == x;
            assert j != 0 && rest[j - 1] == x;
          }
        }
      }
      assert NoDuplicates(rest) by {
        forall i, j | 0 <= i < j < |rest| ensures rest[i] != rest[j] {
          assert rest[i] == s[i + 1] && rest[j] == s[j + 1];
        }
      }
      ListingHasSetSize(rest, keys - {s[0]});
      assert |keys - {s[0]}| == |keys| - 1;
    } else {
      assert forall x :: x !in keys;
      assert keys == {};
    }
  }
}
