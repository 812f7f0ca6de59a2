/** Which cars a segment holds within a tick, in ascending id order: the
    `filter(..).collect()` and `sort_by_key(|c| c.id)` of the tick loop.
    `pos[i]` is the road index of `cars[i]` at that moment. */
module Segments {
  import opened Cars
  import opened Fleet

  /** The cars whose index is `r`, in fleet order. */
  function Selected(cars: seq<Car>, pos: seq<nat>, r: nat): seq<Car>
    requires |pos| == |cars|
    decreases |cars|
  {
    if cars == [] then []
    else
      var n := |cars| - 1;
      Selected(cars[..n], pos[..n], r) + (if pos[n] == r then [cars[n]] else [])
  }

  /** The selection holds only cars at index `r`, and every one of them. */
  lemma {:induction false} SelectedFacts(cars: seq<Car>, pos: seq<nat>, r: nat)
    requires |pos| == |cars|
    ensures forall j :: 0 <= j < |Selected(cars, pos, r)| ==>
      exists i :: 0 <= i < |cars| && cars[i] == Selected(cars, pos, r)[j] && pos[i] == r
    ensures forall i :: 0 <= i < |cars| && pos[i] == r ==> cars[i] in Selected(cars, pos, r)
    decreases |cars|
  {
    if cars != [] {
      var n := |cars| - 1;
      SelectedFacts(cars[..n], pos[..n], r);
      var init := Selected(cars[..n], pos[..n], r);
      var s := Selected(cars, pos, r);
      assert s == init + (if pos[n] == r then [cars[n]] else []);
      forall j | 0 <= j < |s| ensures exists i :: 0 <= i < |cars| && cars[i] == s[j] && pos[i] == r {
        if j < |init| {
          var i :| 0 <= i < n && cars[..n][i] == init[j] && pos[..n][i] == r;
          assert cars[i] == s[j] && pos[i] == r;
        } else {
          assert s[j] == cars[n] && pos[n] == r;
        }
      }
      forall i | 0 <= i < |cars| && pos[i] == r ensures cars[i] in s {
        if i < n {
          assert cars[..n][i] == cars[i] && pos[..n][i] == pos[i];
          assert cars[i] in init;
        } else {
          assert s[|init|] == cars[n];
        }
      }
    } else {
      assert Selected(cars, pos, r) == [];
    }
  }

  /** A selection from a fleet with distinct ids has distinct ids. */
  lemma {:induction false} SelectedDistinct(cars: seq<Car>, pos: seq<nat>, r: nat)
    requires |pos| == |cars| && DistinctIds(cars)
    ensures DistinctIds(Selected(cars, pos, r))
    decreases |cars|
  {
    if cars != [] {
      var n := |cars| - 1;
      assert DistinctIds(cars[..n]);
      SelectedDistinct(cars[..n], pos[..n], r);
      SelectedFacts(cars[..n], pos[..n], r);
      var init := Selected(cars[..n], pos[..n], r);
      assert forall j :: 0 <= j < |init| ==> init[j].id != cars[n].id by {
        forall j | 0 <= j < |init| ensures init[j].id != cars[n].id {
          assert exists i :: 0 <= i < |cars[..n]| && cars[..n][i] == init[j] && pos[..n][i] == r;
          var i :| 0 <= i < n && cars[..n][i] == init[j] && pos[..n][i] == r;
          assert cars[..n][i] == cars[i];
        }
      }
    }
  }

  /** Strictly ascending ids. */
  ghost predicate Ascending(s: seq<Car>)
  {
    forall i, j :: 0 <= i < j < |s| ==> s[i].id < s[j].id
  }

  /** Insert `c` before the first car whose id is not smaller. */
  function Insert(c: Car, s: seq<Car>): (r: seq<Car>)
    ensures multiset(r) == multiset(s) + multiset{c}
  {
    if s == [] then [c]
    else if c.id <= s[0].id then [c] + s
    else
      assert s == [s[0]] + s[1..];
      [s[0]] + Insert(c, s[1..])
  }

  /** The id sort, as an insertion sort; with distinct ids every correct sort
      gives this same sequence. */
  function SortById(s: seq<Car>): (r: seq<Car>)
    ensures multiset(r) == multiset(s)
  {
    if s == [] then []
    else
      assert s == [s[0]] + s[1..];
      Insert(s[0], SortById(s[1..]))
  }

  lemma {:induction false} InsertAscending(c: Car, s: seq<Car>)
    requires Ascending(s)
    requires forall j :: 0 <= j < |s| ==> s[j].id != c.id
    ensures Ascending(Insert(c, s))
  {
    if s != [] && c.id > s[0].id {
      Uncons(s);
      InsertAscending(c, s[1..]);
      var tail := Insert(c, s[1..]);
      forall j | 0 <= j < |tail| ensures s[0].id < tail[j].id {
        InsertedFrom(c, s[1..], j);
      }
      PrependAscending(s[0], tail);
    }
  }

  /** Every car of an insertion is the inserted car or one of the others. */
  lemma InsertedFrom(c: Car, s: seq<Car>, j: nat)
    requires j < |Insert(c, s)|
    ensures Insert(c, s)[j] == c || Insert(c, s)[j] in s
  {
    assert Insert(c, s)[j] in multiset(Insert(c, s));
  }

  /** A car with a smaller id than every car of an ascending sequence can go
      in front of it. */
  lemma PrependAscending(c: Car, s: seq<Car>)
    requires Ascending(s) && forall j :: 0 <= j < |s| ==> c.id < s[j].id
    ensures Ascending([c] + s)
  {
  }

  lemma {:induction false} SortAscending(s: seq<Car>)
    requires DistinctIds(s)
    ensures Ascending(SortById(s))
  {
    if s != [] {
      assert DistinctIds(s[1..]) by {
        forall i, j | 0 <= i < |s| - 1 && 0 <= j < |s| - 1 && i != j ensures s[1..][i].id != s[1..][j].id {
          assert s[1..][i] == s[i + 1] && s[1..][j] == s[j + 1];
        }
      }
      SortAscending(s[1..]);
      var sorted := SortById(s[1..]);
      forall j | 0 <= j < |sorted| ensures sorted[j].id != s[0].id {
        assert sorted[j] in multiset(s[1..]);
        var k :| 0 <= k < |s[1..]| && s[1..][k] == sorted[j];
        assert s[k + 1] == sorted[j];
      }
      InsertAscending(s[0], sorted);
    }
  }

  /** `cars_on_road` after the sort: the cars at index `r`, by ascending id,
      each inserted as the fleet order reaches it. OnSegmentSorts shows this
      is the filter followed by the sort. */
  function OnSegment(cars: seq<Car>, pos: seq<nat>, r: nat): seq<Car>
    requires |pos| == |cars|
    decreases |cars|
  {
    if cars == [] then []
    else
      var n := |cars| - 1;
      var rest := OnSegment(cars[..n], pos[..n], r);
      if pos[n] == r then Insert(cars[n], rest) else rest
  }

  /** The segment's sorted cars are a permutation of the selection. */
  lemma {:induction false} OnSegmentPermutes(cars: seq<Car>, pos: seq<nat>, r: nat)
    requires |pos| == |cars|
    ensures multiset(OnSegment(cars, pos, r)) == multiset(Selected(cars, pos, r))
    decreases |cars|
  {
    if cars != [] {
      var n := |cars| - 1;
      OnSegmentPermutes(cars[..n], pos[..n], r);
      assert Selected(cars, pos, r) == Selected(cars[..n], pos[..n], r) + (if pos[n] == r then [cars[n]] else []);
    }
  }

  /** With distinct ids the segment's cars come in strictly ascending order. */
  lemma {:induction false} OnSegmentAscending(cars: seq<Car>, pos: seq<nat>, r: nat)
    requires |pos| == |cars| && DistinctIds(cars)
    ensures Ascending(OnSegment(cars, pos, r))
    decreases |cars|
  {
    if cars != [] {
      var n := |cars| - 1;
      assert DistinctIds(cars[..n]);
      OnSegmentAscending(cars[..n], pos[..n], r);
      if pos[n] == r {
        LastIsNew(cars, pos, r);
        InsertAscending(cars[n], OnSegment(cars[..n], pos[..n], r));
      }
    }
  }

  /** The last car of a fleet with distinct ids shares its id with no car the
      segment holds before it is reached. */
  lemma LastIsNew(cars: seq<Car>, pos: seq<nat>, r: nat)
    requires |pos| == |cars| && DistinctIds(cars) && cars != []
    ensures var n := |cars| - 1;
      forall j :: 0 <= j < |OnSegment(cars[..n], pos[..n], r)| ==> OnSegment(cars[..n], pos[..n], r)[j].id != cars[n].id
  {
    var n := |cars| - 1;
    var rest := OnSegment(cars[..n], pos[..n], r);
    var sel := Selected(cars[..n], pos[..n], r);
    OnSegmentPermutes(cars[..n], pos[..n], r);
    SelectedFacts(cars[..n], pos[..n], r);
    forall j | 0 <= j < |rest| ensures rest[j].id != cars[n].id {
      assert rest[j] in multiset(sel);
      var k :| 0 <= k < |sel| && sel[k] == rest[j];
      var i :| 0 <= i < n && cars[..n][i] == sel[k] && pos[..n][i] == r;
      assert cars[i] == rest[j];
    }
  }

  /** Two strictly ascending arrangements of the same cars are the same
      sequence: with distinct ids the sort has only one possible result. */
  lemma {:induction false} AscendingUnique(a: seq<Car>, b: seq<Car>)
    requires Ascending(a) && Ascending(b) && multiset(a) == multiset(b)
    ensures a == b
    decreases |a|
  {
    if a == [] {
      assert |b| == |multiset(b)| == 0;
    } else {
      assert b != [] by { assert a[0] in multiset(b); }
      SameLeast(a, b);
      Uncons(a);
      Uncons(b);
      assert multiset(a[1..]) == multiset(a) - multiset{a[0]};
      assert multiset(b[1..]) == multiset(b) - multiset{b[0]};
      AscendingUnique(a[1..], b[1..]);
    }
  }

  /** Two non-empty ascending arrangements of the same cars start alike. */
  lemma SameLeast(a: seq<Car>, b: seq<Car>)
    requires Ascending(a) && Ascending(b) && multiset(a) == multiset(b)
    requires a != [] && b != []
    ensures a[0] == b[0]
  {
    assert a[0] in multiset(b) && b[0] in multiset(a);
    var j :| 0 <= j < |b| && b[j] == a[0];
    var i :| 0 <= i < |a| && a[i] == b[0];
    HeadIsLeast(a, i);
    HeadIsLeast(b, j);
  }

  /** The head of an ascending sequence has the smallest id. */
  lemma HeadIsLeast(s: seq<Car>, k: nat)
    requires Ascending(s) && k < |s|
    ensures k == 0 || s[0].id < s[k].id
  {
  }

  /** A non-empty sequence is its head and its tail, also as a multiset, and
      the tail of an ascending sequence is ascending. */
  lemma Uncons(s: seq<Car>)
    requires s != []
    ensures s == [s[0]] + s[1..]
    ensures multiset(s) == multiset{s[0]} + multiset(s[1..])
    ensures Ascending(s) ==> Ascending(s[1..])
  {
    assert s == [s[0]] + s[1..];
  }

  /** The filter followed by the id sort gives the segment's cars. */
  lemma OnSegmentSorts(cars: seq<Car>, pos: seq<nat>, r: nat)
    requires |pos| == |cars| && DistinctIds(cars)
    ensures SortById(Selected(cars, pos, r)) == OnSegment(cars, pos, r)
  {
    SelectedDistinct(cars, pos, r);
    SortAscending(Selected(cars, pos, r));
    OnSegmentAscending(cars, pos, r);
    OnSegmentPermutes(cars, pos, r);
    AscendingUnique(SortById(Selected(cars, pos, r)), OnSegment(cars, pos, r));
  }

  /** The sorted selection holds exactly the cars at `r`, with strictly
      ascending ids. */
  lemma OnSegmentFacts(cars: seq<Car>, pos: seq<nat>, r: nat)
    requires |pos| == |cars| && DistinctIds(cars)
    ensures Ascending(OnSegment(cars, pos, r))
    ensures forall j :: 0 <= j < |OnSegment(cars, pos, r)| ==>
      exists i :: 0 <= i < |cars| && cars[i] == OnSegment(cars, pos, r)[j] && pos[i] == r
    ensures forall i :: 0 <= i < |cars| && pos[i] == r ==> cars[i] in OnSegment(cars, pos, r)
  {
    var sel := Selected(cars, pos, r);
    var s := OnSegment(cars, pos, r);
    SelectedFacts(cars, pos, r);
    OnSegmentAscending(cars, pos, r);
    OnSegmentPermutes(cars, pos, r);
    forall j | 0 <= j < |s| ensures exists i :: 0 <= i < |cars| && cars[i] == s[j] && pos[i] == r {
      assert s[j] in multiset(sel);
      var k :| 0 <= k < |sel| && sel[k] == s[j];
    }
    forall i | 0 <= i < |cars| && pos[i] == r ensures cars[i] in s {
      assert cars[i] in multiset(sel);
    }
  }

  /** Consecutive cars of a segment are neighbours: no car at that segment
      has an id strictly between theirs. */
  lemma NoCarBetween(cars: seq<Car>, pos: seq<nat>, r: nat, j: nat, k: nat)
    requires |pos| == |cars| && DistinctIds(cars)
    requires j + 1 < |OnSegment(cars, pos, r)|
    requires k < |cars| && pos[k] == r
    ensures !(OnSegment(cars, pos, r)[j].id < cars[k].id < OnSegment(cars, pos, r)[j + 1].id)
  {
    var s := OnSegment(cars, pos, r);
    OnSegmentFacts(cars, pos, r);
    var m :| 0 <= m < |s| && s[m] == cars[k];
    if m <= j {
      assert m == j || s[m].id < s[j].id;
    } else {
      assert m == j + 1 || s[j + 1].id < s[m].id;
    }
  }
}
