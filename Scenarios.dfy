/** Concrete passes over small catalogs: the worked examples of the
    curation rules, and the two ways a pass ends in a
    NullPointerException. Timestamps are in milliseconds. */
module Scenarios {
  import opened Records
  import opened Sorting
  import opened Categories
  import opened Curation

  const Day: int := 86400000
  const Now: int := 1000 * Day
  /** The cutoff for the default history of 14 days. */
  const Cutoff: int := Now - 14 * Day
  const English: Labels := Labels("All", "What's New", "Recently Updated")

  /** A filter that rejects nothing. */
  const KeepAll: App -> bool := (app: App) => false

  const OldGame: App := App("a", Some("Games"), Some(Now - 20 * Day), None, None, false)
  const NewGame: App := App("b", Some("Games"), Some(Now - 2 * Day), None, Some("1.0"), true)

  /** Under What's New only the game added two days ago is available, and
      it is also the only installed and upgradable record. */
  lemma WhatsNewExample()
    ensures Available([OldGame, NewGame], English.whatsNew, English, Cutoff, KeepAll) == Ok([NewGame])
    ensures Installed([OldGame, NewGame]) == [NewGame]
    ensures Upgradable([OldGame, NewGame]) == [NewGame]
  {
    var apps := [OldGame, NewGame];
    assert apps[..1] == [OldGame] && [OldGame][..0] == [];
    assert ScanCatalog([OldGame], English.whatsNew, English, Cutoff, KeepAll) == Scan([], 1, false);
    assert ScanCatalog(apps, English.whatsNew, English, Cutoff, KeepAll) == Scan([NewGame], 2, false);
    assert Installed([OldGame]) == [] && Upgradable([OldGame]) == [];
  }

  /** A record updated at the moment it was added is not recently updated,
      however recent. */
  lemma AddedIsNotUpdatedExample()
    ensures InCategory(App("c", None, Some(Now - Day), Some(Now - Day), None, false),
                       English.recentlyUpdated, English, Cutoff) == Ok(false)
  {
  }

  /** An installed record with an update timestamp but no added timestamp,
      placed first, makes the pass under Recently Updated throw before any
      record is classified: the installed list stays empty, although under
      any other category the pass lists both installed records. */
  const Orphan: App := App("d", Some("Tools"), None, Some(Now - Day), Some("2.0"), false)

  lemma OrphanStopsRecentlyUpdated()
    ensures var scan := ScanCatalog([Orphan, NewGame], English.recentlyUpdated, English, Cutoff, KeepAll);
      scan.failed && scan.scanned == 0 && Installed([Orphan, NewGame][..scan.scanned]) == []
    ensures Available([Orphan, NewGame], English.recentlyUpdated, English, Cutoff, KeepAll) == NullPointerException
    ensures !ScanCatalog([Orphan, NewGame], English.all, English, Cutoff, KeepAll).failed
    ensures Installed([Orphan, NewGame]) == [Orphan, NewGame]
  {
    var apps := [Orphan, NewGame];
    assert apps[..1] == [Orphan] && [Orphan][..0] == [];
    assert ScanCatalog([Orphan], English.recentlyUpdated, English, Cutoff, KeepAll).failed;
    assert apps[..0] == [];
    assert ScanCatalog([Orphan], English.all, English, Cutoff, KeepAll) == Scan([Orphan], 1, false);
  }

  /** When the host's What's New label coincides with its All label, every
      record is a candidate, and a record without an added timestamp reaches
      WhatsNewComparator, which throws. */
  const Shared: Labels := Labels("All", "All", "Recently Updated")

  lemma SharedLabelReachesComparator()
    ensures Available([Orphan, NewGame], Shared.whatsNew, Shared, Cutoff, KeepAll) == NullPointerException
  {
    var apps := [Orphan, NewGame];
    assert apps[..1] == [Orphan] && [Orphan][..0] == [];
    assert ScanCatalog([Orphan], Shared.whatsNew, Shared, Cutoff, KeepAll) == Scan([Orphan], 1, false);
    assert ScanCatalog(apps, Shared.whatsNew, Shared, Cutoff, KeepAll) == Scan(apps, 2, false);
    assert !Keyed(ByAddedDescending, apps) by {
      assert SortKey(ByAddedDescending, apps[0]).None?;
    }
  }
}
