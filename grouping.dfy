/**
 * `FetchDataService.groupByYear`: `Collectors.groupingBy(Holiday::getYear)` over the
 * parsed records.  The collector walks the list once and appends each record to the
 * list of its year, creating the list on first sight of the year.
 */
module Grouping {
  import opened Base
  import opened Holidays

  /** `groupingBy` throws on a null key, so every record it groups has a year. */
  predicate AllHaveYear(hs: seq<Holiday>) {
    forall i :: 0 <= i < |hs| ==> hs[i].year.Some?
  }

  /** The distinct year values of the records. */
  function YearsOf(hs: seq<Holiday>): set<string>
    requires AllHaveYear(hs)
  {
    set i | 0 <= i < |hs| :: hs[i].year.value
  }

  /** Reference definition: the records whose year is `y`, in input order. */
  function RecordsOfYear(hs: seq<Holiday>, y: string): seq<Holiday>
    decreases |hs|
  {
    if hs == [] then []
    else
      var last := hs[|hs| - 1];
      RecordsOfYear(hs[..|hs| - 1], y) + (if last.year == Some(y) then [last] else [])
  }

  /** Dropping the last record keeps every year present and removes at most its year. */
  lemma FrontHasYears(hs: seq<Holiday>)
    requires AllHaveYear(hs) && hs != []
    ensures AllHaveYear(hs[..|hs| - 1])
    ensures YearsOf(hs) == YearsOf(hs[..|hs| - 1]) + {hs[|hs| - 1].year.value}
  {
    var front := hs[..|hs| - 1];
    assert AllHaveYear(front) by {
      forall i | 0 <= i < |front| ensures front[i].year.Some? {
        assert front[i] == hs[i];
      }
    }
    forall i | 0 <= i < |front| ensures front[i] == hs[i] { }
  }

  /**
   * The grouping: its keys are exactly the distinct years of the input (the empty year
   * "" is an ordinary key), and the group of each key is exactly the records of that
   * year in their original order.
   */
  function GroupByYear(hs: seq<Holiday>): (g: map<string, seq<Holiday>>)
    requires AllHaveYear(hs)
    ensures g.Keys == YearsOf(hs)
    ensures forall y {:trigger g[y]} :: y in g ==> g[y] == RecordsOfYear(hs, y)
    decreases |hs|
  {
    if hs == [] then map[]
    else
      var front := hs[..|hs| - 1];
      var h := hs[|hs| - 1];
      var y := h.year.value;
      FrontHasYears(hs);
      var g := GroupByYear(front);
      assert y !in g ==> RecordsOfYear(front, y) == [] by {
        if y !in g { NoRecordsOfAbsentYear(front, y); }
      }
      g[y := (if y in g then g[y] else []) + [h]]
  }

  /** A year that no record carries has no records. */
  lemma {:induction false} NoRecordsOfAbsentYear(hs: seq<Holiday>, y: string)
    requires AllHaveYear(hs)
    requires y !in YearsOf(hs)
    ensures RecordsOfYear(hs, y) == []
    decreases |hs|
  {
    if hs != [] {
      var front := hs[..|hs| - 1];
      assert hs[|hs| - 1].year.value in YearsOf(hs);
      assert AllHaveYear(front) by {
        forall i | 0 <= i < |front| ensures front[i].year.Some? { assert front[i] == hs[i]; }
      }
      assert YearsOf(front) <= YearsOf(hs) by {
        forall i | 0 <= i < |front| ensures front[i] == hs[i] { }
      }
      NoRecordsOfAbsentYear(front, y);
    }
  }

  /** The positions, in increasing order, of the records whose year is `y`. */
  function PositionsOfYear(hs: seq<Holiday>, y: string): seq<nat>
    decreases |hs|
  {
    if hs == [] then []
    else
      PositionsOfYear(hs[..|hs| - 1], y) + (if hs[|hs| - 1].year == Some(y) then [|hs| - 1] else [])
  }

  /**
   * Each group keeps the input order: the k-th record of the group of `y` is the record
   * at the k-th position, positions strictly increase, and a position is listed exactly
   * when the record there has year `y`.
   */
  lemma {:induction false} GroupKeepsInputOrder(hs: seq<Holiday>, y: string)
    ensures var ps := PositionsOfYear(hs, y);
      && |ps| == |RecordsOfYear(hs, y)|
      && (forall k :: 0 <= k < |ps| ==> ps[k] < |hs| && RecordsOfYear(hs, y)[k] == hs[ps[k]])
      && (forall k, l :: 0 <= k < l < |ps| ==> ps[k] < ps[l])
      && (forall i :: 0 <= i < |hs| ==> (i in ps <==> hs[i].year == Some(y)))
    decreases |hs|
  {
    if hs != [] {
      var front := hs[..|hs| - 1];
      GroupKeepsInputOrder(front, y);
      forall i | 0 <= i < |front| ensures front[i] == hs[i] { }
    }
  }

  /** Every record lies in the group of its own year. */
  lemma {:induction false} RecordInOwnGroup(hs: seq<Holiday>, i: nat)
    requires AllHaveYear(hs) && i < |hs|
    ensures hs[i].year.value in GroupByYear(hs)
    ensures hs[i] in GroupByYear(hs)[hs[i].year.value]
  {
    var y := hs[i].year.value;
    GroupKeepsInputOrder(hs, y);
    var ps := PositionsOfYear(hs, y);
    assert i in ps;
    var k :| 0 <= k < |ps| && ps[k] == i;
    assert RecordsOfYear(hs, y)[k] == hs[i];
  }

  /** Sum of the sizes of the groups named by `keys`. */
  function TotalSize(g: map<string, seq<Holiday>>, keys: seq<string>): nat
    requires forall k :: k in keys ==> k in g
    decreases |keys|
  {
    if keys == [] then 0 else |g[keys[0]]| + TotalSize(g, keys[1..])
  }

  /** Sum over `keys` of the number of records of each key's year. */
  function CountOver(hs: seq<Holiday>, keys: seq<string>): nat
    decreases |keys|
  {
    if keys == [] then 0 else |RecordsOfYear(hs, keys[0])| + CountOver(hs, keys[1..])
  }

  /** How often `y` occurs in `keys`. */
  function Occurrences(keys: seq<string>, y: string): nat
    decreases |keys|
  {
    if keys == [] then 0 else (if keys[0] == y then 1 else 0) + Occurrences(keys[1..], y)
  }

  /** Adding one record of year `y` adds one per occurrence of `y` among the keys. */
  lemma {:induction false} CountOverSnoc(hs: seq<Holiday>, h: Holiday, keys: seq<string>)
    requires h.year.Some?
    ensures CountOver(hs + [h], keys) == CountOver(hs, keys) + Occurrences(keys, h.year.value)
    decreases |keys|
  {
    if keys != [] {
      assert (hs + [h])[..|hs + [h]| - 1] == hs;
      CountOverSnoc(hs, h, keys[1..]);
    }
  }

  /** In a list without repeats, a member occurs exactly once. */
  lemma {:induction false} OccursOnce(keys: seq<string>, y: string)
    requires forall i, j :: 0 <= i < j < |keys| ==> keys[i] != keys[j]
    ensures Occurrences(keys, y) == if y in keys then 1 else 0
    decreases |keys|
  {
    if keys != [] {
      OccursOnce(keys[1..], y);
      if keys[0] == y {
        assert y !in keys[1..] by {
          forall j | 0 <= j < |keys[1..]| ensures keys[1..][j] != y { assert keys[1..][j] == keys[j + 1]; }
        }
      } else {
        assert y in keys ==> y in keys[1..] by {
          if y in keys { var j :| 0 <= j < |keys| && keys[j] == y; assert keys[1..][j - 1] == y; }
        }
      }
    }
  }

  /** Over a repeat-free list covering every year, the per-year counts add up to the input length. */
  lemma {:induction false} CountOverCovers(hs: seq<Holiday>, keys: seq<string>)
    requires AllHaveYear(hs)
    requires forall i, j :: 0 <= i < j < |keys| ==> keys[i] != keys[j]
    requires YearsOf(hs) <= set k | k in keys
    ensures CountOver(hs, keys) == |hs|
    decreases |hs|
  {
    if hs == [] {
      EmptyCounts(keys);
    } else {
      var front := hs[..|hs| - 1];
      var h := hs[|hs| - 1];
      assert hs == front + [h];
      forall i | 0 <= i < |front| ensures front[i] == hs[i] { }
      assert YearsOf(front) <= YearsOf(hs);
      CountOverCovers(front, keys);
      CountOverSnoc(front, h, keys);
      assert h.year.value in YearsOf(hs);
      OccursOnce(keys, h.year.value);
    }
  }

  /** No records, no counts. */
  lemma {:induction false} EmptyCounts(keys: seq<string>)
    ensures CountOver([], keys) == 0
    decreases |keys|
  {
    if keys != [] { EmptyCounts(keys[1..]); }
  }

  /** `TotalSize` over the grouping is the per-year count. */
  lemma {:induction false} TotalSizeIsCount(hs: seq<Holiday>, keys: seq<string>)
    requires AllHaveYear(hs)
    requires forall k :: k in keys ==> k in GroupByYear(hs)
    ensures TotalSize(GroupByYear(hs), keys) == CountOver(hs, keys)
    decreases |keys|
  {
    if keys != [] { TotalSizeIsCount(hs, keys[1..]); }
  }

  /**
   * The groups partition the input: listing every key once, the group sizes add up to
   * the number of records.
   */
  lemma GroupSizesSumToInput(hs: seq<Holiday>, keys: seq<string>)
    requires AllHaveYear(hs)
    requires forall i, j :: 0 <= i < j < |keys| ==> keys[i] != keys[j]
    requires (set k | k in keys) == GroupByYear(hs).Keys
    ensures TotalSize(GroupByYear(hs), keys) == |hs|
  {
    TotalSizeIsCount(hs, keys);
    CountOverCovers(hs, keys);
  }
}
