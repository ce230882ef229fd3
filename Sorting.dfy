/** The two orderings of the "available" list (WhatsNewComparator and
    RecentlyUpdatedComparator) and the stable sort Collections.sort applies
    with them. */
module Sorting {
  import opened Records

  /** Which comparator is in force: newest `added` first, or newest
      `lastUpdated` first. */
  datatype Ordering = ByAddedDescending | ByUpdatedDescending

  /** The timestamp a comparator reads, null when the record lacks it. */
  function SortKey(o: Ordering, app: App): Option<int>
  {
    match o
    case ByAddedDescending => app.added
    case ByUpdatedDescending => app.lastUpdated
  }

  /** WhatsNewComparator.compare and RecentlyUpdatedComparator.compare:
      rhs.key.compareTo(lhs.key). Negative means lhs goes first. */
  function Compare(o: Ordering, lhs: App, rhs: App): (r: Checked<int>)
    ensures r.Ok? <==> SortKey(o, lhs).Some? && SortKey(o, rhs).Some?
    ensures r.Ok? ==> (r.value < 0 <==> SortKey(o, lhs).value > SortKey(o, rhs).value)
    ensures r.Ok? ==> (r.value == 0 <==> SortKey(o, lhs).value == SortKey(o, rhs).value)
  {
    match SortKey(o, rhs)
    case None => NullPointerException
    case Some(k) => DateCompareTo(k, SortKey(o, lhs))
  }

  /** Every record of s carries the timestamp the ordering sorts on. */
  predicate Keyed(o: Ordering, s: seq<App>)
  {
    forall i :: 0 <= i < |s| ==> SortKey(o, s[i]).Some?
  }

  /** The timestamp a comparator reads, as a number. Only records that
      carry it are ever sorted (a null one makes the comparator throw
      first), so the 0 for a missing timestamp is never consulted. */
  function Key(o: Ordering, app: App): int
  {
    match SortKey(o, app)
    case Some(k) => k
    case None => 0
  }

  /** s is ordered newest first under o. */
  ghost predicate Descending(o: Ordering, s: seq<App>)
  {
    forall i, j :: 0 <= i < j < |s| ==> Key(o, s[i]) >= Key(o, s[j])
  }

  /** The records of s whose key is k, in the order s has them. Two lists
      with the same WithKey for every k keep equal-keyed records in the same
      relative order: this is what stability means. */
  function WithKey(o: Ordering, s: seq<App>, k: int): seq<App>
  {
    if s == [] then []
    else WithKey(o, s[..|s| - 1], k) + (if Key(o, s[|s| - 1]) == k then [s[|s| - 1]] else [])
  }

  /** One step of insertion sort: x, the last element, moves left past every
      element whose key is strictly smaller and stops behind the first one
      that is not, so equal keys keep their order. */
  function InsertLast(o: Ordering, t: seq<App>, x: App): (r: seq<App>)
    ensures |r| == |t| + 1
    decreases |t|
  {
    if t == [] || Key(o, t[|t| - 1]) >= Key(o, x) then t + [x]
    else InsertLast(o, t[..|t| - 1], x) + [t[|t| - 1]]
  }

  /** Stable insertion sort, newest first. */
  function SortByKey(o: Ordering, s: seq<App>): (r: seq<App>)
    ensures |r| == |s|
    decreases |s|
  {
    if s == [] then []
    else InsertLast(o, SortByKey(o, s[..|s| - 1]), s[|s| - 1])
  }

  lemma {:induction false} InsertLastPermutes(o: Ordering, t: seq<App>, x: App)
    ensures multiset(InsertLast(o, t, x)) == multiset(t) + multiset{x}
    decreases |t|
  {
    if t != [] && Key(o, t[|t| - 1]) < Key(o, x) {
      InsertLastPermutes(o, t[..|t| - 1], x);
      assert t == t[..|t| - 1] + [t[|t| - 1]];
    }
  }

  /** SortByKey returns a permutation of its input. */
  lemma {:induction false} SortByKeyPermutes(o: Ordering, s: seq<App>)
    ensures multiset(SortByKey(o, s)) == multiset(s)
    decreases |s|
  {
    if s != [] {
      SortByKeyPermutes(o, s[..|s| - 1]);
      InsertLastPermutes(o, SortByKey(o, s[..|s| - 1]), s[|s| - 1]);
      assert s == s[..|s| - 1] + [s[|s| - 1]];
    }
  }

  lemma {:induction false} WithKeyMembers(o: Ordering, s: seq<App>, k: int)
    ensures forall x :: x in WithKey(o, s, k) <==> x in s && Key(o, x) == k
  {
    if s != [] {
      WithKeyMembers(o, s[..|s| - 1], k);
      assert s == s[..|s| - 1] + [s[|s| - 1]];
    }
  }

  /** Inserting x appends it to the records of its own key and leaves the
      records of every other key as they were. */
  lemma {:induction false} InsertLastStable(o: Ordering, t: seq<App>, x: App, k: int)
    ensures WithKey(o, InsertLast(o, t, x), k) == WithKey(o, t, k) + (if Key(o, x) == k then [x] else [])
    decreases |t|
  {
    var r := InsertLast(o, t, x);
    var mine := if Key(o, x) == k then [x] else [];
    if t == [] || Key(o, t[|t| - 1]) >= Key(o, x) {
      assert r == t + [x] && r[..|r| - 1] == t;
    } else {
      var t', last := t[..|t| - 1], t[|t| - 1];
      var r' := InsertLast(o, t', x);
      var theirs := if Key(o, last) == k then [last] else [];
      InsertLastStable(o, t', x, k);
      assert r == r' + [last] && r[..|r| - 1] == r';
      assert WithKey(o, r, k) == WithKey(o, r', k) + theirs;
      assert WithKey(o, t, k) == WithKey(o, t', k) + theirs;
      if mine == [] {
        assert WithKey(o, r', k) == WithKey(o, t', k);
      } else {
        assert theirs == [];
        assert WithKey(o, r, k) == WithKey(o, r', k) && WithKey(o, t, k) == WithKey(o, t', k);
      }
    }
  }

  /** A lower bound on the keys of t and of x bounds the keys of the
      insertion. */
  lemma InsertLastKeysAbove(o: Ordering, t: seq<App>, x: App, b: int)
    requires forall m :: 0 <= m < |t| ==> Key(o, t[m]) >= b
    requires Key(o, x) >= b
    ensures forall i :: 0 <= i < |InsertLast(o, t, x)| ==> Key(o, InsertLast(o, t, x)[i]) >= b
  {
    var r := InsertLast(o, t, x);
    InsertLastPermutes(o, t, x);
    forall i | 0 <= i < |r| ensures Key(o, r[i]) >= b {
      assert r[i] in multiset(r);
      if r[i] != x {
        assert r[i] in multiset(t);
        var m :| 0 <= m < |t| && t[m] == r[i];
      }
    }
  }

  /** Inserting into a newest-first list keeps it newest first. */
  lemma {:induction false} InsertLastSorted(o: Ordering, t: seq<App>, x: App)
    requires Descending(o, t)
    ensures Descending(o, InsertLast(o, t, x))
    decreases |t|
  {
    var r := InsertLast(o, t, x);
    if t == [] || Key(o, t[|t| - 1]) >= Key(o, x) {
      assert r == t + [x];
      forall i, j | 0 <= i < j < |r| ensures Key(o, r[i]) >= Key(o, r[j]) {
        if j < |t| {
          assert r[i] == t[i] && r[j] == t[j];
        } else if i < |t| - 1 {
          assert r[i] == t[i] && r[j] == x;
          assert Key(o, t[i]) >= Key(o, t[|t| - 1]);
        }
      }
    } else {
      var t', last := t[..|t| - 1], t[|t| - 1];
      var r' := InsertLast(o, t', x);
      InsertLastSorted(o, t', x);
      assert r == r' + [last];
      forall m | 0 <= m < |t'| ensures Key(o, t'[m]) >= Key(o, last) {
        assert t[m] == t'[m];
      }
      InsertLastKeysAbove(o, t', x, Key(o, last));
      forall i, j | 0 <= i < j < |r| ensures Key(o, r[i]) >= Key(o, r[j]) {
        if j < |r'| {
          assert r[i] == r'[i] && r[j] == r'[j];
        } else {
          assert r[i] == r'[i] && r[j] == last;
          assert Key(o, r'[i]) >= Key(o, last);
        }
      }
    }
  }

  /** SortByKey orders newest first and is stable. */
  lemma {:induction false} SortByKeySortedStable(o: Ordering, s: seq<App>)
    ensures Descending(o, SortByKey(o, s))
    ensures forall k :: WithKey(o, SortByKey(o, s), k) == WithKey(o, s, k)
    decreases |s|
  {
    if s != [] {
      var s', last := s[..|s| - 1], s[|s| - 1];
      SortByKeySortedStable(o, s');
      InsertLastSorted(o, SortByKey(o, s'), last);
      forall k ensures WithKey(o, SortByKey(o, s), k) == WithKey(o, s, k) {
        InsertLastStable(o, SortByKey(o, s'), last, k);
        assert s[..|s| - 1] == s';
      }
    }
  }

  /** Sorting a list that is already newest first changes nothing. */
  lemma {:induction false} SortByKeyIdempotent(o: Ordering, s: seq<App>)
    requires Descending(o, s)
    ensures SortByKey(o, s) == s
    decreases |s|
  {
    if s != [] {
      var s', last := s[..|s| - 1], s[|s| - 1];
      assert Descending(o, s') by {
        forall i, j | 0 <= i < j < |s'| ensures Key(o, s'[i]) >= Key(o, s'[j]) {
          assert s'[i] == s[i] && s'[j] == s[j];
        }
      }
      SortByKeyIdempotent(o, s');
      assert s' == [] || Key(o, s'[|s'| - 1]) >= Key(o, last) by {
        if s' != [] { assert s'[|s'| - 1] == s[|s| - 2]; }
      }
      assert s == s' + [last];
    }
  }

  /** In a newest-first list the last record has the smallest key, so a
      record of key k anywhere in it bounds that key from below. */
  lemma LastKeyIsSmallest(o: Ordering, s: seq<App>, k: int)
    requires Descending(o, s) && WithKey(o, s, k) != []
    ensures s != [] && Key(o, s[|s| - 1]) <= k
  {
    WithKeyMembers(o, s, k);
    var y := WithKey(o, s, k)[0];
    assert y in WithKey(o, s, k);
    var i :| 0 <= i < |s| && s[i] == y;
  }

  /** Dropping the last record of s drops the last record of its key's
      list and nothing else. */
  lemma WithKeyButLast(o: Ordering, s: seq<App>, k: int)
    requires s != []
    ensures var w, w' := WithKey(o, s, k), WithKey(o, s[..|s| - 1], k);
      if Key(o, s[|s| - 1]) == k then w != [] && w[|w| - 1] == s[|s| - 1] && w' == w[..|w| - 1]
      else w' == w
  {
  }

  /** Two non-empty newest-first lists that agree on the records of every
      key end with the same record. */
  lemma SameLast(o: Ordering, r: seq<App>, q: seq<App>)
    requires Descending(o, r) && Descending(o, q) && r != [] && q != []
    requires forall k :: WithKey(o, r, k) == WithKey(o, q, k)
    ensures r[|r| - 1] == q[|q| - 1]
  {
    var ka, kb := Key(o, r[|r| - 1]), Key(o, q[|q| - 1]);
    WithKeyButLast(o, r, ka);
    assert WithKey(o, q, ka) == WithKey(o, r, ka);
    LastKeyIsSmallest(o, q, ka);
    WithKeyButLast(o, q, kb);
    assert WithKey(o, r, kb) == WithKey(o, q, kb);
    LastKeyIsSmallest(o, r, kb);
    WithKeyButLast(o, q, ka);
  }

  /** Two newest-first lists that agree on the records of every key are
      equal. */
  lemma {:induction false} DescendingDeterminedByKeys(o: Ordering, r: seq<App>, q: seq<App>)
    requires Descending(o, r) && Descending(o, q)
    requires forall k :: WithKey(o, r, k) == WithKey(o, q, k)
    ensures r == q
    decreases |r|
  {
    if r == [] {
      if q != [] {
        LastKeyIsSmallest(o, r, Key(o, q[|q| - 1]));
      }
    } else if q == [] {
      LastKeyIsSmallest(o, q, Key(o, r[|r| - 1]));
    } else {
      SameLast(o, r, q);
      var r', q' := r[..|r| - 1], q[..|q| - 1];
      forall k ensures WithKey(o, r', k) == WithKey(o, q', k) {
        WithKeyButLast(o, r, k);
        WithKeyButLast(o, q, k);
      }
      DescendingDeterminedByKeys(o, r', q');
      assert r == r' + [r[|r| - 1]] && q == q' + [q[|q| - 1]];
    }
  }

  /** Any stable newest-first sort of s, such as the one Collections.sort
      performs, returns SortByKey(o, s). */
  lemma StableSortIsSortByKey(o: Ordering, s: seq<App>, r: seq<App>)
    requires Descending(o, r)
    requires forall k :: WithKey(o, r, k) == WithKey(o, s, k)
    ensures r == SortByKey(o, s)
  {
    SortByKeySortedStable(o, s);
    DescendingDeterminedByKeys(o, r, SortByKey(o, s));
  }

  /** A newest-first list is sorted in the comparator's own sense: no
      earlier record compares greater than a later one. */
  lemma DescendingAgreesWithComparator(o: Ordering, s: seq<App>)
    requires Keyed(o, s) && Descending(o, s)
    ensures forall i, j :: 0 <= i < j < |s| ==> Compare(o, s[i], s[j]).Ok? && Compare(o, s[i], s[j]).value <= 0
  {
  }
}
