/** A stable sort, newest first, of items carrying an optional day number:
    the shape of `array.sort((a, b) => day(b) - day(a))` when an absent day
    compares as neither earlier nor later. */
module Sorting {
  import opened Wrappers

  /** `a` is strictly newer than `b`: both have a day and `a`'s is larger. */
  predicate Newer<T>(a: T, b: T, day: T -> Option<int>) {
    day(a).Some? && day(b).Some? && day(a).value > day(b).value
  }

  /** No item is strictly newer than one listed before it. */
  predicate NewestFirst<T>(s: seq<T>, day: T -> Option<int>) {
    forall i, j :: 0 <= i < j < |s| ==> !Newer(s[j], s[i], day)
  }

  /** One insertion step: `x` goes before the first item it is strictly
      newer than, so after every item of the same day. */
  function Insert<T>(x: T, s: seq<T>, day: T -> Option<int>): (r: seq<T>)
    ensures |r| == |s| + 1
  {
    if s == [] then [x]
    else if Newer(x, s[0], day) then [x] + s
    else [s[0]] + Insert(x, s[1..], day)
  }

  /** Insert the items one after the other, first to last. */
  function Sort<T>(s: seq<T>, day: T -> Option<int>): (r: seq<T>)
    ensures |r| == |s|
    decreases |s|
  {
    if s == [] then []
    else Insert(s[|s| - 1], Sort(s[..|s| - 1], day), day)
  }

  lemma {:induction false} InsertPermutes<T>(x: T, s: seq<T>, day: T -> Option<int>)
    ensures multiset(Insert(x, s, day)) == multiset(s) + multiset{x}
  {
    if s == [] {
      assert Insert(x, s, day) == [x];
    } else if Newer(x, s[0], day) {
      assert Insert(x, s, day) == [x] + s;
    } else {
      var tail := Insert(x, s[1..], day);
      InsertPermutes(x, s[1..], day);
      assert Insert(x, s, day) == [s[0]] + tail;
      assert multiset([s[0]] + tail) == multiset{s[0]} + multiset(tail);
      assert s == [s[0]] + s[1..];
      assert multiset(s) == multiset{s[0]} + multiset(s[1..]);
    }
  }

  /** The sort only reorders. */
  lemma {:induction false} SortPermutes<T>(s: seq<T>, day: T -> Option<int>)
    ensures multiset(Sort(s, day)) == multiset(s)
    decreases |s|
  {
    if s != [] {
      SortPermutes(s[..|s| - 1], day);
      InsertPermutes(s[|s| - 1], Sort(s[..|s| - 1], day), day);
      assert s == s[..|s| - 1] + [s[|s| - 1]];
    }
  }

  lemma {:induction false} InsertSorted<T>(x: T, s: seq<T>, day: T -> Option<int>)
    requires NewestFirst(s, day)
    ensures NewestFirst(Insert(x, s, day), day)
    ensures forall i :: 0 <= i < |Insert(x, s, day)| ==> Insert(x, s, day)[i] == x || Insert(x, s, day)[i] in s
  {
    if s != [] {
      if Newer(x, s[0], day) {
        var r := [x] + s;
        forall i, j | 0 <= i < j < |r|
          ensures !Newer(r[j], r[i], day)
        {
          assert r[j] == s[j - 1];
          if i > 0 {
            assert r[i] == s[i - 1];
          }
        }
      } else {
        var tail := Insert(x, s[1..], day);
        InsertSorted(x, s[1..], day);
        var r := [s[0]] + tail;
        forall i, j | 0 <= i < j < |r|
          ensures !Newer(r[j], r[i], day)
        {
          assert r[j] == tail[j - 1];
          if i == 0 {
            if tail[j - 1] != x {
              var k :| 0 <= k < |s[1..]| && s[1..][k] == tail[j - 1];
              assert s[k + 1] == tail[j - 1];
            }
          } else {
            assert r[i] == tail[i - 1];
          }
        }
        forall i | 0 <= i < |r|
          ensures r[i] == x || r[i] in s
        {
          if i > 0 {
            assert r[i] == tail[i - 1];
          }
        }
      }
    }
  }

  /** The result is newest first, whatever the days. */
  lemma {:induction false} SortSorts<T>(s: seq<T>, day: T -> Option<int>)
    ensures NewestFirst(Sort(s, day), day)
    decreases |s|
  {
    if s != [] {
      SortSorts(s[..|s| - 1], day);
      InsertSorted(s[|s| - 1], Sort(s[..|s| - 1], day), day);
    }
  }

  /** An item no newer than any before it goes to the end. */
  lemma {:induction false} InsertLast<T>(x: T, s: seq<T>, day: T -> Option<int>)
    requires forall i :: 0 <= i < |s| ==> !Newer(x, s[i], day)
    ensures Insert(x, s, day) == s + [x]
  {
    if s != [] {
      assert forall i :: 0 <= i < |s[1..]| ==> s[1..][i] == s[i + 1];
      InsertLast(x, s[1..], day);
      assert s == [s[0]] + s[1..];
    }
  }

  /** Items already newest first stay in place: sorting twice is sorting
      once. */
  lemma {:induction false} SortKeepsSorted<T>(s: seq<T>, day: T -> Option<int>)
    requires NewestFirst(s, day)
    ensures Sort(s, day) == s
    decreases |s|
  {
    if s != [] {
      var prefix := s[..|s| - 1];
      assert NewestFirst(prefix, day) by {
        forall i, j | 0 <= i < j < |prefix| ensures !Newer(prefix[j], prefix[i], day) {
          assert prefix[i] == s[i] && prefix[j] == s[j];
        }
      }
      SortKeepsSorted(prefix, day);
      forall i | 0 <= i < |prefix| ensures !Newer(s[|s| - 1], prefix[i], day) {
        assert prefix[i] == s[i];
      }
      InsertLast(s[|s| - 1], prefix, day);
      assert prefix + [s[|s| - 1]] == s;
    }
  }

  /** The items whose day is `d`, in their order in `s`. */
  function Only<T>(s: seq<T>, day: T -> Option<int>, d: Option<int>): (r: seq<T>)
    ensures |r| <= |s|
  {
    if s == [] then []
    else (if day(s[0]) == d then [s[0]] else []) + Only(s[1..], day, d)
  }

  lemma {:induction false} OnlyAppend<T>(a: seq<T>, b: seq<T>, day: T -> Option<int>, d: Option<int>)
    ensures Only(a + b, day, d) == Only(a, day, d) + Only(b, day, d)
  {
    if a == [] {
      assert a + b == b;
    } else {
      var head := if day(a[0]) == d then [a[0]] else [];
      calc {
        Only(a + b, day, d);
        == { assert (a + b)[0] == a[0] && (a + b)[1..] == a[1..] + b; }
        head + Only(a[1..] + b, day, d);
        == { OnlyAppend(a[1..], b, day, d); }
        head + (Only(a[1..], day, d) + Only(b, day, d));
        ==
        (head + Only(a[1..], day, d)) + Only(b, day, d);
      }
    }
  }

  lemma {:induction false} OnlyNone<T>(s: seq<T>, day: T -> Option<int>, d: Option<int>)
    requires forall i :: 0 <= i < |s| ==> day(s[i]) != d
    ensures Only(s, day, d) == []
  {
    if s != [] {
      assert forall i :: 0 <= i < |s[1..]| ==> s[1..][i] == s[i + 1];
      OnlyNone(s[1..], day, d);
    }
  }

  lemma NewestFirstTail<T>(s: seq<T>, day: T -> Option<int>)
    requires s != [] && NewestFirst(s, day)
    ensures NewestFirst(s[1..], day)
  {
    forall i, j | 0 <= i < j < |s[1..]| ensures !Newer(s[1..][j], s[1..][i], day) {
      assert s[1..][i] == s[i + 1] && s[1..][j] == s[j + 1];
    }
  }

  /** An inserted item goes after every item of its own day. */
  lemma {:induction false} InsertOnly<T>(x: T, s: seq<T>, day: T -> Option<int>, d: Option<int>)
    requires NewestFirst(s, day)
    ensures Only(Insert(x, s, day), day, d) == Only(s, day, d) + (if day(x) == d then [x] else [])
  {
    if s == [] {
      assert Insert(x, s, day) == [x];
      assert [x][1..] == [];
    } else if Newer(x, s[0], day) {
      InsertInFront(x, s, day, d);
    } else {
      NewestFirstTail(s, day);
      InsertOnly(x, s[1..], day, d);
      InsertBehind(x, s, day, d);
    }
  }

  /** An item newer than the first goes in front; no item of its day
      is there yet. */
  lemma InsertInFront<T>(x: T, s: seq<T>, day: T -> Option<int>, d: Option<int>)
    requires NewestFirst(s, day) && s != [] && Newer(x, s[0], day)
    ensures Only(Insert(x, s, day), day, d) == Only(s, day, d) + (if day(x) == d then [x] else [])
  {
    assert Insert(x, s, day) == [x] + s;
    assert ([x] + s)[1..] == s;
    if day(x) == d {
      forall i | 0 <= i < |s|
        ensures day(s[i]) != d
      {
        if i > 0 {
          assert !Newer(s[i], s[0], day);
        }
      }
      OnlyNone(s, day, d);
    }
  }

  /** An item not newer than the first goes among the others. */
  lemma InsertBehind<T>(x: T, s: seq<T>, day: T -> Option<int>, d: Option<int>)
    requires s != [] && !Newer(x, s[0], day)
    requires Only(Insert(x, s[1..], day), day, d) == Only(s[1..], day, d) + (if day(x) == d then [x] else [])
    ensures Only(Insert(x, s, day), day, d) == Only(s, day, d) + (if day(x) == d then [x] else [])
  {
    var tail := Insert(x, s[1..], day);
    var head := if day(s[0]) == d then [s[0]] else [];
    var xs := if day(x) == d then [x] else [];
    calc {
      Only(Insert(x, s, day), day, d);
      == { assert Insert(x, s, day) == [s[0]] + tail; assert ([s[0]] + tail)[1..] == tail; }
      head + Only(tail, day, d);
      ==
      head + (Only(s[1..], day, d) + xs);
      ==
      (head + Only(s[1..], day, d)) + xs;
    }
  }

  /** The sort is stable: the items of any one day, and the items without
      a day, come out in their input order. */
  lemma {:induction false} SortStable<T>(s: seq<T>, day: T -> Option<int>, d: Option<int>)
    ensures Only(Sort(s, day), day, d) == Only(s, day, d)
    decreases |s|
  {
    if s != [] {
      var prefix, x := s[..|s| - 1], s[|s| - 1];
      SortStable(prefix, day, d);
      SortSorts(prefix, day);
      InsertOnly(x, Sort(prefix, day), day, d);
      assert s == prefix + [x];
      OnlyAppend(prefix, [x], day, d);
      assert [x][1..] == [];
    }
  }
}
