/** The segment store of the guide lines: a `TreeSet` kept in the order of a
    pluggable `Comparator`, modelled as a sequence that is strictly sorted by
    that comparator. Adding an element the comparator finds equal to one
    already stored leaves the store as it was. */
module SegmentStore {

  /** `x` comes strictly before `y`. */
  predicate Before<T>(cmp: (T, T) -> int, x: T, y: T) {
    cmp(x, y) < 0
  }

  /** What the store relies on of a comparator: `cmp(x, y)` and `cmp(y, x)`
      have opposite signs, and "strictly before" is transitive. Proofs bring
      either fact into play by naming `Before`. */
  ghost predicate IsComparator<T(!new)>(cmp: (T, T) -> int) {
    && (forall x, y {:trigger Before(cmp, x, y)} :: Before(cmp, x, y) <==> cmp(y, x) > 0)
    && (forall x, y, z {:trigger Before(cmp, x, y), Before(cmp, y, z)} ::
          Before(cmp, x, y) && Before(cmp, y, z) ==> Before(cmp, x, z))
  }

  /** Every element comes strictly before every later one. */
  ghost predicate Sorted<T>(cmp: (T, T) -> int, s: seq<T>) {
    forall i, j :: 0 <= i < j < |s| ==> cmp(s[i], s[j]) < 0
  }

  /** Each element comes strictly before the next, as an in-order walk of
      the tree hands them out. */
  predicate Ascending<T>(cmp: (T, T) -> int, s: seq<T>)
    decreases |s|
  {
    |s| < 2 || (cmp(s[0], s[1]) < 0 && Ascending(cmp, s[1..]))
  }

  /** Some stored element compares equal to `x` (`compare(x, e) == 0`). */
  predicate HasTwin<T>(cmp: (T, T) -> int, s: seq<T>, x: T) {
    exists i :: 0 <= i < |s| && cmp(x, s[i]) == 0
  }

  /** `TreeSet.add`: walk past the elements `x` comes after, keep the store
      unchanged on an equal one, otherwise put `x` in front of the first
      element it comes before. */
  function Insert<T>(cmp: (T, T) -> int, s: seq<T>, x: T): seq<T> {
    if s == [] then [x]
    else if cmp(x, s[0]) < 0 then [x] + s
    else if cmp(x, s[0]) == 0 then s
    else [s[0]] + Insert(cmp, s[1..], x)
  }

  /** The store after adding `xs[0]`, ..., `xs[n - 1]` in turn. */
  function InsertPrefix<T>(cmp: (T, T) -> int, s: seq<T>, xs: seq<T>, n: nat): seq<T>
    requires n <= |xs|
    decreases n
  {
    if n == 0 then s
    else Insert(cmp, InsertPrefix(cmp, s, xs, n - 1), xs[n - 1])
  }

  /** Every element compares equal to itself. */
  lemma SelfIsTwin<T(!new)>(cmp: (T, T) -> int, x: T)
    requires IsComparator(cmp)
    ensures cmp(x, x) == 0
  {
    assert Before(cmp, x, x) <==> cmp(x, x) > 0;
  }

  /** Past an element that does not compare equal to `x`, whether the store
      has a twin of `x` is decided by the rest. */
  lemma TwinInTail<T>(cmp: (T, T) -> int, s: seq<T>, x: T)
    requires s != [] && cmp(x, s[0]) != 0
    ensures HasTwin(cmp, s, x) == HasTwin(cmp, s[1..], x)
  {
    if HasTwin(cmp, s, x) {
      var i :| 0 <= i < |s| && cmp(x, s[i]) == 0;
      assert cmp(x, s[1..][i - 1]) == 0;
    }
    if HasTwin(cmp, s[1..], x) {
      var i :| 0 <= i < |s[1..]| && cmp(x, s[1..][i]) == 0;
      assert cmp(x, s[i + 1]) == 0;
    }
  }

  /** Putting `y` in front of a sorted store that it comes before keeps the
      store sorted. */
  lemma SortedCons<T>(cmp: (T, T) -> int, y: T, s: seq<T>)
    requires Sorted(cmp, s)
    requires forall j :: 0 <= j < |s| ==> cmp(y, s[j]) < 0
    ensures Sorted(cmp, [y] + s)
  {
    var r := [y] + s;
    forall i, j | 0 <= i < j < |r| ensures cmp(r[i], r[j]) < 0 {
      assert r[j] == s[j - 1];
      if i > 0 {
        assert r[i] == s[i - 1];
      }
    }
  }

  /** An element that comes before the first of a sorted store comes before
      all of it. */
  lemma BeforeFirstIsBeforeAll<T(!new)>(cmp: (T, T) -> int, s: seq<T>, x: T)
    requires IsComparator(cmp) && Sorted(cmp, s)
    requires s != [] && cmp(x, s[0]) < 0
    ensures forall j :: 0 <= j < |s| ==> cmp(x, s[j]) < 0
  {
    forall j | 0 < j < |s| ensures cmp(x, s[j]) < 0 {
      assert Before(cmp, x, s[0]) && Before(cmp, s[0], s[j]);
    }
  }

  /** Adding `x` brings in no element but `x`. */
  lemma {:induction false} InsertElements<T>(cmp: (T, T) -> int, s: seq<T>, x: T)
    ensures forall e :: e in Insert(cmp, s, x) ==> e == x || e in s
    decreases |s|
  {
    if s != [] && cmp(x, s[0]) > 0 {
      InsertElements(cmp, s[1..], x);
      assert Insert(cmp, s, x) == [s[0]] + Insert(cmp, s[1..], x);
      assert s == [s[0]] + s[1..];
    }
  }

  /** Whatever order the store is in, `x` is represented once it is added,
      provided it compares equal to itself. */
  lemma {:induction false} InsertTwin<T>(cmp: (T, T) -> int, s: seq<T>, x: T)
    requires cmp(x, x) == 0
    ensures HasTwin(cmp, Insert(cmp, s, x), x)
    decreases |s|
  {
    var r := Insert(cmp, s, x);
    if s == [] || cmp(x, s[0]) < 0 {
      assert cmp(x, r[0]) == 0;
    } else if cmp(x, s[0]) == 0 {
      assert cmp(x, r[0]) == 0;
    } else {
      var rest := Insert(cmp, s[1..], x);
      InsertTwin(cmp, s[1..], x);
      var i :| 0 <= i < |rest| && cmp(x, rest[i]) == 0;
      assert r == [s[0]] + rest;
      assert cmp(x, r[i + 1]) == 0;
    }
  }

  /** Whatever order the store is in, adding `x` keeps everything it held
      and makes it at most one longer. */
  lemma {:induction false} InsertKeeps<T>(cmp: (T, T) -> int, s: seq<T>, x: T)
    ensures forall e :: e in s ==> e in Insert(cmp, s, x)
    ensures |s| <= |Insert(cmp, s, x)| <= |s| + 1
    decreases |s|
  {
    if s != [] && cmp(x, s[0]) > 0 {
      var rest := Insert(cmp, s[1..], x);
      InsertKeeps(cmp, s[1..], x);
      assert Insert(cmp, s, x) == [s[0]] + rest;
      forall e | e in s ensures e in [s[0]] + rest {
        if e != s[0] {
          var i :| 0 <= i < |s| && s[i] == e;
          assert s[1..][i - 1] == e;
        }
      }
    }
  }

  /** Adding to a sorted store keeps it sorted. */
  lemma {:induction false} InsertSorted<T(!new)>(cmp: (T, T) -> int, s: seq<T>, x: T)
    requires IsComparator(cmp) && Sorted(cmp, s)
    ensures Sorted(cmp, Insert(cmp, s, x))
    decreases |s|
  {
    if s == [] {
    } else if cmp(x, s[0]) < 0 {
      BeforeFirstIsBeforeAll(cmp, s, x);
      SortedCons(cmp, x, s);
    } else if cmp(x, s[0]) > 0 {
      var rest := Insert(cmp, s[1..], x);
      SortedTail(cmp, s);
      InsertSorted(cmp, s[1..], x);
      InsertElements(cmp, s[1..], x);
      FirstBeforeTail(cmp, s);
      assert Before(cmp, s[0], x) <==> cmp(x, s[0]) > 0;
      forall j | 0 <= j < |rest| ensures cmp(s[0], rest[j]) < 0 {
        assert rest[j] in rest;
        if rest[j] != x {
          var k :| 0 <= k < |s[1..]| && s[1..][k] == rest[j];
        }
      }
      SortedCons(cmp, s[0], rest);
    }
  }

  /** For a comparator, each element coming before the next is the same as
      every element coming before every later one. */
  lemma {:induction false} AscendingIsSorted<T(!new)>(cmp: (T, T) -> int, s: seq<T>)
    requires IsComparator(cmp)
    ensures Ascending(cmp, s) <==> Sorted(cmp, s)
    decreases |s|
  {
    if |s| >= 2 {
      AscendingIsSorted(cmp, s[1..]);
      if Ascending(cmp, s) {
        assert s[1..][0] == s[1];
        BeforeFirstIsBeforeAll(cmp, s[1..], s[0]);
        SortedCons(cmp, s[0], s[1..]);
        assert s == [s[0]] + s[1..];
      }
      if Sorted(cmp, s) {
        SortedTail(cmp, s);
        assert cmp(s[0], s[1]) < 0;
      }
    }
  }

  /** What is left of a sorted store after its first element is sorted. */
  lemma SortedTail<T>(cmp: (T, T) -> int, s: seq<T>)
    requires Sorted(cmp, s) && s != []
    ensures Sorted(cmp, s[1..])
  {
    forall i, j | 0 <= i < j < |s| - 1 ensures cmp(s[1..][i], s[1..][j]) < 0 {
      assert s[1..][i] == s[i + 1] && s[1..][j] == s[j + 1];
    }
  }

  /** The first element of a sorted store comes before all of the rest. */
  lemma FirstBeforeTail<T>(cmp: (T, T) -> int, s: seq<T>)
    requires Sorted(cmp, s) && s != []
    ensures forall j :: 0 <= j < |s[1..]| ==> cmp(s[0], s[1..][j]) < 0
  {
    forall j | 0 <= j < |s[1..]| ensures cmp(s[0], s[1..][j]) < 0 {
      assert s[1..][j] == s[j + 1];
    }
  }

  /** Whatever order the store is in, adding an element that compares equal
      to none stored makes it one longer. */
  lemma {:induction false} InsertNewGrows<T>(cmp: (T, T) -> int, s: seq<T>, x: T)
    ensures !HasTwin(cmp, s, x) ==> |Insert(cmp, s, x)| == |s| + 1
    decreases |s|
  {
    if s != [] && cmp(x, s[0]) == 0 {
      assert HasTwin(cmp, s, x);
    } else if s != [] && cmp(x, s[0]) > 0 {
      InsertNewGrows(cmp, s[1..], x);
      TwinInTail(cmp, s, x);
    }
  }

  /** Adding an element that compares equal to a stored one leaves a sorted
      store exactly as it was. */
  lemma {:induction false} InsertTwinUnchanged<T(!new)>(cmp: (T, T) -> int, s: seq<T>, x: T)
    requires IsComparator(cmp) && Sorted(cmp, s)
    ensures HasTwin(cmp, s, x) ==> Insert(cmp, s, x) == s
    decreases |s|
  {
    if s != [] && cmp(x, s[0]) < 0 {
      BeforeFirstIsBeforeAll(cmp, s, x);
      assert !HasTwin(cmp, s, x);
    } else if s != [] && cmp(x, s[0]) > 0 {
      assert HasTwin(cmp, s[1..], x) ==> Insert(cmp, s[1..], x) == s[1..] by {
        SortedTail(cmp, s);
        InsertTwinUnchanged(cmp, s[1..], x);
      }
      TwinInTail(cmp, s, x);
      assert s == [s[0]] + s[1..];
    }
  }

  /** Adding an element that compares equal to a stored one leaves a sorted
      store exactly as it was; adding any other element makes it one longer. */
  lemma InsertChangesIffNew<T(!new)>(cmp: (T, T) -> int, s: seq<T>, x: T)
    requires IsComparator(cmp) && Sorted(cmp, s)
    ensures HasTwin(cmp, s, x) ==> Insert(cmp, s, x) == s
    ensures !HasTwin(cmp, s, x) ==> |Insert(cmp, s, x)| == |s| + 1
  {
    InsertTwinUnchanged(cmp, s, x);
    InsertNewGrows(cmp, s, x);
  }

  /** Adding to the store keeps it strictly sorted and keeps everything it
      held; an element that compares equal to a stored one leaves it as it
      was, any other makes it one longer and brings in nothing but itself;
      either way `x` is then represented in the store. */
  lemma InsertKeepsStore<T(!new)>(cmp: (T, T) -> int, s: seq<T>, x: T)
    requires IsComparator(cmp) && Sorted(cmp, s)
    ensures Sorted(cmp, Insert(cmp, s, x))
    ensures forall e :: e in s ==> e in Insert(cmp, s, x)
    ensures forall e :: e in Insert(cmp, s, x) ==> e == x || e in s
    ensures HasTwin(cmp, s, x) ==> Insert(cmp, s, x) == s
    ensures !HasTwin(cmp, s, x) ==> |Insert(cmp, s, x)| == |s| + 1
    ensures HasTwin(cmp, Insert(cmp, s, x), x)
  {
    SelfIsTwin(cmp, x);
    InsertTwin(cmp, s, x);
    InsertKeeps(cmp, s, x);
    InsertElements(cmp, s, x);
    InsertSorted(cmp, s, x);
    InsertChangesIffNew(cmp, s, x);
  }

  /** A twin of `y` already stored survives into any store that keeps
      everything the first one held. */
  lemma TwinSurvivesInsert<T>(cmp: (T, T) -> int, s: seq<T>, r: seq<T>, y: T)
    requires (forall e :: e in s ==> e in r) && HasTwin(cmp, s, y)
    ensures HasTwin(cmp, r, y)
  {
    var i :| 0 <= i < |s| && cmp(y, s[i]) == 0;
    assert s[i] in r;
    var k :| 0 <= k < |r| && r[k] == s[i];
  }

  /** Adding a list of elements to a sorted store keeps it sorted. */
  lemma {:induction false} InsertPrefixSorted<T(!new)>(cmp: (T, T) -> int, s: seq<T>, xs: seq<T>, n: nat)
    requires IsComparator(cmp) && Sorted(cmp, s) && n <= |xs|
    ensures Sorted(cmp, InsertPrefix(cmp, s, xs, n))
    decreases n
  {
    if n > 0 {
      InsertPrefixSorted(cmp, s, xs, n - 1);
      InsertSorted(cmp, InsertPrefix(cmp, s, xs, n - 1), xs[n - 1]);
    }
  }

  /** Adding a list of elements keeps everything the store held, and the
      store does not shrink. */
  lemma {:induction false} InsertPrefixKeeps<T>(cmp: (T, T) -> int, s: seq<T>, xs: seq<T>, n: nat)
    requires n <= |xs|
    ensures forall e :: e in s ==> e in InsertPrefix(cmp, s, xs, n)
    ensures |s| <= |InsertPrefix(cmp, s, xs, n)|
    decreases n
  {
    if n > 0 {
      InsertPrefixKeeps(cmp, s, xs, n - 1);
      InsertKeeps(cmp, InsertPrefix(cmp, s, xs, n - 1), xs[n - 1]);
    }
  }

  /** Adding a list of elements brings in nothing but elements of the list. */
  lemma {:induction false} InsertPrefixElements<T>(cmp: (T, T) -> int, s: seq<T>, xs: seq<T>, n: nat)
    requires n <= |xs|
    ensures forall e :: e in InsertPrefix(cmp, s, xs, n) ==> e in s || exists k :: 0 <= k < n && xs[k] == e
    decreases n
  {
    if n > 0 {
      InsertPrefixElements(cmp, s, xs, n - 1);
      InsertElements(cmp, InsertPrefix(cmp, s, xs, n - 1), xs[n - 1]);
    }
  }

  /** After adding a list of elements, each of them is represented in the
      store. */
  lemma {:induction false} InsertPrefixTwins<T(!new)>(cmp: (T, T) -> int, s: seq<T>, xs: seq<T>, n: nat)
    requires IsComparator(cmp) && n <= |xs|
    ensures forall k :: 0 <= k < n ==> HasTwin(cmp, InsertPrefix(cmp, s, xs, n), xs[k])
    decreases n
  {
    if n > 0 {
      var before := InsertPrefix(cmp, s, xs, n - 1);
      var r := Insert(cmp, before, xs[n - 1]);
      InsertPrefixTwins(cmp, s, xs, n - 1);
      InsertKeeps(cmp, before, xs[n - 1]);
      SelfIsTwin(cmp, xs[n - 1]);
      InsertTwin(cmp, before, xs[n - 1]);
      forall k | 0 <= k < n - 1 ensures HasTwin(cmp, r, xs[k]) {
        TwinSurvivesInsert(cmp, before, r, xs[k]);
      }
    }
  }

  /** Adding a list of elements keeps the store strictly sorted, keeps
      everything it held, brings in nothing but elements of the list, and
      leaves every element added represented. */
  lemma InsertPrefixKeepsStore<T(!new)>(cmp: (T, T) -> int, s: seq<T>, xs: seq<T>, n: nat)
    requires IsComparator(cmp) && Sorted(cmp, s) && n <= |xs|
    ensures Sorted(cmp, InsertPrefix(cmp, s, xs, n))
    ensures forall e :: e in s ==> e in InsertPrefix(cmp, s, xs, n)
    ensures forall e :: e in InsertPrefix(cmp, s, xs, n) ==> e in s || exists k :: 0 <= k < n && xs[k] == e
    ensures forall k :: 0 <= k < n ==> HasTwin(cmp, InsertPrefix(cmp, s, xs, n), xs[k])
    ensures |s| <= |InsertPrefix(cmp, s, xs, n)|
  {
    InsertPrefixSorted(cmp, s, xs, n);
    InsertPrefixKeeps(cmp, s, xs, n);
    InsertPrefixElements(cmp, s, xs, n);
    InsertPrefixTwins(cmp, s, xs, n);
  }

  /** Adding a list leaves a sorted store as it was exactly when the store
      has not grown. */
  lemma {:induction false} InsertPrefixUnchangedIffSameLength<T(!new)>(cmp: (T, T) -> int, s: seq<T>, xs: seq<T>, n: nat)
    requires IsComparator(cmp) && Sorted(cmp, s) && n <= |xs|
    ensures InsertPrefix(cmp, s, xs, n) == s <==> |InsertPrefix(cmp, s, xs, n)| == |s|
    decreases n
  {
    if n > 0 {
      var before := InsertPrefix(cmp, s, xs, n - 1);
      InsertPrefixKeeps(cmp, s, xs, n - 1);
      InsertPrefixSorted(cmp, s, xs, n - 1);
      InsertChangesIffNew(cmp, before, xs[n - 1]);
      InsertPrefixUnchangedIffSameLength(cmp, s, xs, n - 1);
    }
  }

  /** A strictly sorted store holds no two elements the comparator finds
      equal, and its first element comes before all the others. */
  lemma SortedIsDuplicateFree<T(!new)>(cmp: (T, T) -> int, s: seq<T>)
    requires IsComparator(cmp) && Sorted(cmp, s)
    ensures forall i, j :: 0 <= i < |s| && 0 <= j < |s| && i != j ==> cmp(s[i], s[j]) != 0
    ensures forall j :: 0 < j < |s| ==> cmp(s[0], s[j]) < 0
  {
    forall i, j | 0 <= j < i < |s| ensures cmp(s[i], s[j]) != 0 {
      assert Before(cmp, s[j], s[i]) <==> cmp(s[i], s[j]) > 0;
    }
  }
}
