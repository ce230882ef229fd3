/** What one pass of AppListManager.updateApps computes from the catalog:
    the installed and can-upgrade lists, the candidate pool for the
    available list, and the available list after sorting. */
module Curation {
  import opened Records
  import opened Sorting
  import opened Categories

  /** a can be obtained from b by deleting records: its records appear in b
      in the same order. */
  ghost predicate IsSubsequence(a: seq<App>, b: seq<App>)
    decreases |b|
  {
    if a == [] then true
    else if b == [] then false
    else (a[|a| - 1] == b[|b| - 1] && IsSubsequence(a[..|a| - 1], b[..|b| - 1]))
         || IsSubsequence(a, b[..|b| - 1])
  }

  /** A subsequence of b without its last record stays one of b, with or
      without that record appended. */
  lemma SubsequenceExtend(a: seq<App>, b: seq<App>)
    requires b != [] && IsSubsequence(a, b[..|b| - 1])
    ensures IsSubsequence(a, b) && IsSubsequence(a + [b[|b| - 1]], b)
  {
    assert (a + [b[|b| - 1]])[..|a|] == a;
  }

  /** The installed list: the records with an installed version, in catalog
      order. */
  function Installed(apps: seq<App>): (r: seq<App>)
    decreases |apps|
  {
    if apps == [] then []
    else
      var rest, app := apps[..|apps| - 1], apps[|apps| - 1];
      assert apps == rest + [app];
      Installed(rest) + (if app.installedVersion.Some? then [app] else [])
  }

  /** The can-upgrade list: installed records that have an update, in
      catalog order. */
  function Upgradable(apps: seq<App>): (r: seq<App>)
    decreases |apps|
  {
    if apps == [] then []
    else
      var rest, app := apps[..|apps| - 1], apps[|apps| - 1];
      assert apps == rest + [app];
      Upgradable(rest) + (if app.installedVersion.Some? && app.hasUpdates then [app] else [])
  }

  /** The installed list holds exactly the installed records of the
      catalog. */
  lemma {:induction false} InstalledMembers(apps: seq<App>)
    ensures forall x :: x in Installed(apps) <==> x in apps && x.installedVersion.Some?
    decreases |apps|
  {
    if apps != [] {
      var rest, app := apps[..|apps| - 1], apps[|apps| - 1];
      InstalledMembers(rest);
      assert apps == rest + [app];
    }
  }

  /** The can-upgrade list holds exactly the installed records of the
      catalog that have an update. */
  lemma {:induction false} UpgradableMembers(apps: seq<App>)
    ensures forall x :: x in Upgradable(apps) <==> x in apps && x.installedVersion.Some? && x.hasUpdates
    decreases |apps|
  {
    if apps != [] {
      var rest, app := apps[..|apps| - 1], apps[|apps| - 1];
      UpgradableMembers(rest);
      assert apps == rest + [app];
    }
  }

  /** The records of s that have an update, in order. */
  function WithUpdates(s: seq<App>): (r: seq<App>)
    ensures forall x :: x in r <==> x in s && x.hasUpdates
    decreases |s|
  {
    if s == [] then []
    else
      var rest, app := s[..|s| - 1], s[|s| - 1];
      assert s == rest + [app];
      WithUpdates(rest) + (if app.hasUpdates then [app] else [])
  }

  lemma {:induction false} WithUpdatesAppend(s: seq<App>, t: seq<App>)
    ensures WithUpdates(s + t) == WithUpdates(s) + WithUpdates(t)
    decreases |t|
  {
    if t == [] {
      assert s + t == s;
    } else {
      var t', last := t[..|t| - 1], t[|t| - 1];
      var mine := if last.hasUpdates then [last] else [];
      WithUpdatesAppend(s, t');
      assert (s + t)[..|s + t| - 1] == s + t' && (s + t)[|s + t| - 1] == last;
      assert WithUpdates(s + t) == WithUpdates(s + t') + mine;
      assert WithUpdates(t) == WithUpdates(t') + mine;
    }
  }

  /** The installed list is a subsequence of the catalog. */
  lemma {:induction false} InstalledInCatalogOrder(apps: seq<App>)
    ensures IsSubsequence(Installed(apps), apps)
    decreases |apps|
  {
    if apps != [] {
      var rest, app := apps[..|apps| - 1], apps[|apps| - 1];
      InstalledInCatalogOrder(rest);
      SubsequenceExtend(Installed(rest), apps);
      if app.installedVersion.Some? {
        assert Installed(apps) == Installed(rest) + [app];
      } else {
        assert Installed(apps) == Installed(rest);
      }
    }
  }

  lemma {:induction false} WithUpdatesInOrder(s: seq<App>)
    ensures IsSubsequence(WithUpdates(s), s)
    decreases |s|
  {
    if s != [] {
      var rest, app := s[..|s| - 1], s[|s| - 1];
      WithUpdatesInOrder(rest);
      SubsequenceExtend(WithUpdates(rest), s);
      if app.hasUpdates {
        assert WithUpdates(s) == WithUpdates(rest) + [app];
      } else {
        assert WithUpdates(s) == WithUpdates(rest);
      }
    }
  }

  /** The can-upgrade list is exactly the installed list with the records
      lacking an update left out; in particular it is a subsequence of it. */
  lemma {:induction false} UpgradableFromInstalled(apps: seq<App>)
    ensures Upgradable(apps) == WithUpdates(Installed(apps))
    ensures IsSubsequence(Upgradable(apps), Installed(apps))
    decreases |apps|
  {
    if apps != [] {
      var rest, app := apps[..|apps| - 1], apps[|apps| - 1];
      UpgradableFromInstalled(rest);
      if app.installedVersion.Some? {
        WithUpdatesAppend(Installed(rest), [app]);
        assert [app][..0] == [];
        assert Installed(apps) == Installed(rest) + [app];
      } else {
        assert Installed(apps) == Installed(rest);
      }
    }
    WithUpdatesInOrder(Installed(apps));
  }

  /** A record joins the candidate pool for the available list when the
      filter does not reject it and it belongs to the active category. */
  predicate Candidate(app: App, category: string, labels: Labels, recentDate: int, filtered: App -> bool)
  {
    !filtered(app) && InCategory(app, category, labels, recentDate) == Ok(true)
  }

  /** The state of the single loop of updateApps over the catalog: the
      candidate pool collected so far, how many records were processed, and
      whether isInCategory threw on the next one. */
  datatype Scan = Scan(pool: seq<App>, scanned: nat, failed: bool)

  /** The loop of updateApps over apps. It stops at the first record whose
      membership test throws: scanned is that record's index, or the
      length of the catalog when none throws. */
  function ScanCatalog(apps: seq<App>, category: string, labels: Labels, recentDate: int, filtered: App -> bool): (s: Scan)
    ensures s.scanned <= |apps|
    ensures s.failed <==> s.scanned < |apps|
    ensures s.failed ==> InCategory(apps[s.scanned], category, labels, recentDate) == NullPointerException
    ensures forall j :: 0 <= j < s.scanned ==> InCategory(apps[j], category, labels, recentDate).Ok?
    decreases |apps|
  {
    if apps == [] then Scan([], 0, false)
    else
      var rest, app := apps[..|apps| - 1], apps[|apps| - 1];
      var prev := ScanCatalog(rest, category, labels, recentDate, filtered);
      if prev.failed then prev
      else if InCategory(app, category, labels, recentDate).NullPointerException? then Scan(prev.pool, prev.scanned, true)
      else Scan(prev.pool + (if Candidate(app, category, labels, recentDate, filtered) then [app] else []), |apps|, false)
  }

  /** One more record of the loop: the scan of a longer prefix extends the
      scan of the shorter one as the loop body does, and so do the installed
      and can-upgrade lists. */
  lemma ScanStep(apps: seq<App>, i: nat, category: string, labels: Labels, recentDate: int, filtered: App -> bool)
    requires i < |apps|
    requires !ScanCatalog(apps[..i], category, labels, recentDate, filtered).failed
    ensures var prev, next := ScanCatalog(apps[..i], category, labels, recentDate, filtered),
                              ScanCatalog(apps[..i + 1], category, labels, recentDate, filtered);
      && (InCategory(apps[i], category, labels, recentDate).NullPointerException? ==> next == Scan(prev.pool, i, true))
      && (InCategory(apps[i], category, labels, recentDate).Ok? ==>
            next == Scan(prev.pool + (if Candidate(apps[i], category, labels, recentDate, filtered) then [apps[i]] else []), i + 1, false))
    ensures Installed(apps[..i + 1]) == Installed(apps[..i]) + (if apps[i].installedVersion.Some? then [apps[i]] else [])
    ensures Upgradable(apps[..i + 1]) == Upgradable(apps[..i]) + (if apps[i].installedVersion.Some? && apps[i].hasUpdates then [apps[i]] else [])
  {
    assert apps[..i + 1][..i] == apps[..i];
  }

  /** Once the loop has thrown on a prefix, the rest of the catalog is never
      looked at. */
  lemma {:induction false} ScanKeepsFailure(apps: seq<App>, n: nat, category: string, labels: Labels, recentDate: int, filtered: App -> bool)
    requires n <= |apps| && ScanCatalog(apps[..n], category, labels, recentDate, filtered).failed
    ensures ScanCatalog(apps, category, labels, recentDate, filtered) == ScanCatalog(apps[..n], category, labels, recentDate, filtered)
    decreases |apps|
  {
    if n == |apps| {
      assert apps[..n] == apps;
    } else {
      var rest := apps[..|apps| - 1];
      assert rest[..n] == apps[..n];
      ScanKeepsFailure(rest, n, category, labels, recentDate, filtered);
    }
  }

  /** The loop throws exactly under Recently Updated (when its label is not
      also the All or What's New label) on a catalog holding a record with
      an update timestamp but no added timestamp. */
  lemma ScanThrowsExactlyWhen(apps: seq<App>, category: string, labels: Labels, recentDate: int, filtered: App -> bool)
    ensures ScanCatalog(apps, category, labels, recentDate, filtered).failed <==>
              && category != labels.all && category != labels.whatsNew && category == labels.recentlyUpdated
              && exists j :: 0 <= j < |apps| && apps[j].lastUpdated.Some? && apps[j].added.None?
  {
    var s := ScanCatalog(apps, category, labels, recentDate, filtered);
    if !s.failed {
      forall j | 0 <= j < |apps|
        ensures InCategory(apps[j], category, labels, recentDate).Ok?
      {
      }
    }
  }

  /** When the loop completes, the installed and can-upgrade lists are
      those of the whole catalog, whatever the category and the filter. */
  lemma CompletedScanListsWholeCatalog(apps: seq<App>, category: string, labels: Labels, recentDate: int, filtered: App -> bool)
    requires !ScanCatalog(apps, category, labels, recentDate, filtered).failed
    ensures var n := ScanCatalog(apps, category, labels, recentDate, filtered).scanned;
      Installed(apps[..n]) == Installed(apps) && Upgradable(apps[..n]) == Upgradable(apps)
  {
    assert apps[..|apps|] == apps;
  }

  /** Changing the category or the filter and running the pass again over
      the same catalog never changes the installed or can-upgrade list, as
      long as both passes complete. */
  lemma InstalledIgnoresCategory(apps: seq<App>, labels: Labels, recentDate: int,
                                 c1: string, f1: App -> bool, c2: string, f2: App -> bool)
    requires !ScanCatalog(apps, c1, labels, recentDate, f1).failed
    requires !ScanCatalog(apps, c2, labels, recentDate, f2).failed
    ensures var n1, n2 := ScanCatalog(apps, c1, labels, recentDate, f1).scanned,
                          ScanCatalog(apps, c2, labels, recentDate, f2).scanned;
      && Installed(apps[..n1]) == Installed(apps[..n2])
      && Upgradable(apps[..n1]) == Upgradable(apps[..n2])
  {
    CompletedScanListsWholeCatalog(apps, c1, labels, recentDate, f1);
    CompletedScanListsWholeCatalog(apps, c2, labels, recentDate, f2);
  }

  /** When the loop completes, the pool lists candidates in catalog order. */
  lemma {:induction false} PoolInCatalogOrder(apps: seq<App>, category: string, labels: Labels, recentDate: int, filtered: App -> bool)
    requires !ScanCatalog(apps, category, labels, recentDate, filtered).failed
    ensures IsSubsequence(ScanCatalog(apps, category, labels, recentDate, filtered).pool, apps)
    decreases |apps|
  {
    if apps != [] {
      var rest, app := apps[..|apps| - 1], apps[|apps| - 1];
      var prev := ScanCatalog(rest, category, labels, recentDate, filtered).pool;
      var pool := ScanCatalog(apps, category, labels, recentDate, filtered).pool;
      PoolInCatalogOrder(rest, category, labels, recentDate, filtered);
      SubsequenceExtend(prev, apps);
      if Candidate(app, category, labels, recentDate, filtered) {
        assert pool == prev + [app];
      } else {
        assert pool == prev;
      }
    }
  }

  /** When the loop completes, the pool holds every candidate of the
      catalog as often as the catalog does, and nothing else. */
  lemma {:induction false} PoolIsCandidates(apps: seq<App>, category: string, labels: Labels, recentDate: int, filtered: App -> bool)
    requires !ScanCatalog(apps, category, labels, recentDate, filtered).failed
    ensures var pool := ScanCatalog(apps, category, labels, recentDate, filtered).pool;
      forall x :: multiset(pool)[x] == if Candidate(x, category, labels, recentDate, filtered) then multiset(apps)[x] else 0
    decreases |apps|
  {
    if apps != [] {
      var rest, app := apps[..|apps| - 1], apps[|apps| - 1];
      var prev := ScanCatalog(rest, category, labels, recentDate, filtered).pool;
      var pool := ScanCatalog(apps, category, labels, recentDate, filtered).pool;
      PoolIsCandidates(rest, category, labels, recentDate, filtered);
      assert multiset(apps) == multiset(rest) + multiset{app} by {
        assert apps == rest + [app];
      }
      var mine := if Candidate(app, category, labels, recentDate, filtered) then [app] else [];
      assert pool == prev + mine;
      forall x
        ensures multiset(pool)[x] == if Candidate(x, category, labels, recentDate, filtered) then multiset(apps)[x] else 0
      {
        assert multiset(pool)[x] == multiset(prev)[x] + multiset(mine)[x];
      }
    }
  }

  /** The available list, or the exception that escapes while building it:
      the pool in catalog order, sorted by the active category's comparator
      when it has one. A sort of fewer than two records calls no
      comparator; otherwise a record without the sort key makes the
      comparator throw. */
  function Available(apps: seq<App>, category: string, labels: Labels, recentDate: int, filtered: App -> bool): (r: Checked<seq<App>>)
  {
    var scan := ScanCatalog(apps, category, labels, recentDate, filtered);
    if scan.failed then NullPointerException
    else match OrderFor(category, labels)
      case None => Ok(scan.pool)
      case Some(o) =>
        if |scan.pool| < 2 then Ok(scan.pool)
        else if !Keyed(o, scan.pool) then NullPointerException
        else Ok(SortByKey(o, scan.pool))
  }

  /** The available list holds the candidates of the catalog, each as often
      as the catalog does: it is a permutation of the pool. */
  lemma AvailableIsCandidates(apps: seq<App>, category: string, labels: Labels, recentDate: int, filtered: App -> bool)
    requires Available(apps, category, labels, recentDate, filtered).Ok?
    ensures var av := Available(apps, category, labels, recentDate, filtered).value;
      forall x :: multiset(av)[x] == if Candidate(x, category, labels, recentDate, filtered) then multiset(apps)[x] else 0
  {
    var scan := ScanCatalog(apps, category, labels, recentDate, filtered);
    PoolIsCandidates(apps, category, labels, recentDate, filtered);
    if OrderFor(category, labels).Some? {
      SortByKeyPermutes(OrderFor(category, labels).value, scan.pool);
    }
  }

  /** Every pool member that reaches a comparator carries its sort key,
      provided the sorted category's label is not also the All label. */
  lemma SortedPoolIsKeyed(apps: seq<App>, category: string, labels: Labels, recentDate: int, filtered: App -> bool)
    requires category != labels.all && OrderFor(category, labels).Some?
    requires !ScanCatalog(apps, category, labels, recentDate, filtered).failed
    ensures Keyed(OrderFor(category, labels).value, ScanCatalog(apps, category, labels, recentDate, filtered).pool)
  {
    var pool := ScanCatalog(apps, category, labels, recentDate, filtered).pool;
    PoolIsCandidates(apps, category, labels, recentDate, filtered);
    forall i | 0 <= i < |pool| ensures SortKey(OrderFor(category, labels).value, pool[i]).Some? {
      assert multiset(pool)[pool[i]] > 0;
      MemberHasSortKey(pool[i], category, labels, recentDate);
    }
  }

  /** Under What's New or Recently Updated (with labels distinct from All)
      the available list is the pool sorted newest first by that category's
      timestamp, with records of equal timestamp in catalog order. */
  lemma AvailableNewestFirst(apps: seq<App>, category: string, labels: Labels, recentDate: int, filtered: App -> bool)
    requires category != labels.all && OrderFor(category, labels).Some?
    requires !ScanCatalog(apps, category, labels, recentDate, filtered).failed
    ensures var o, av := OrderFor(category, labels).value, Available(apps, category, labels, recentDate, filtered);
      && av.Ok? && Keyed(o, av.value) && Descending(o, av.value)
      && forall k :: WithKey(o, av.value, k) == WithKey(o, ScanCatalog(apps, category, labels, recentDate, filtered).pool, k)
  {
    var o := OrderFor(category, labels).value;
    var pool := ScanCatalog(apps, category, labels, recentDate, filtered).pool;
    SortedPoolIsKeyed(apps, category, labels, recentDate, filtered);
    if |pool| >= 2 {
      SortByKeySortedStable(o, pool);
      SortByKeyPermutes(o, pool);
      var av := SortByKey(o, pool);
      forall i | 0 <= i < |av| ensures SortKey(o, av[i]).Some? {
        assert av[i] in multiset(pool);
      }
    }
  }

  /** Under any other category the available list is the pool itself, in
      catalog order. */
  lemma AvailableInCatalogOrder(apps: seq<App>, category: string, labels: Labels, recentDate: int, filtered: App -> bool)
    requires OrderFor(category, labels).None?
    requires !ScanCatalog(apps, category, labels, recentDate, filtered).failed
    ensures var av := Available(apps, category, labels, recentDate, filtered);
      av.Ok? && IsSubsequence(av.value, apps)
  {
    PoolInCatalogOrder(apps, category, labels, recentDate, filtered);
  }
}
