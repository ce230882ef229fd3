/** AppListManager: the object that owns the three app lists and the
    category list shown by the store's tabs, and rebuilds them on every
    pass. */
module AppLists {
  import opened Records
  import opened Sorting
  import opened Categories
  import opened Curation

  class AppListManager {
    /** The lists behind the Available, Installed and Updates tabs and the
        category spinner. */
    var availableApps: seq<App>
    var installedApps: seq<App>
    var canUpgradeApps: seq<App>
    var categories: seq<string>

    /** The selected category and the three synthetic labels; all null until
        the first pass. */
    var currentCategory: Option<string>
    var categoryAll: Option<string>
    var categoryWhatsNew: Option<string>
    var categoryRecentlyUpdated: Option<string>

    constructor ()
      ensures availableApps == [] && installedApps == [] && canUpgradeApps == [] && categories == []
      ensures currentCategory == None
      ensures categoryAll == None && categoryWhatsNew == None && categoryRecentlyUpdated == None
    {
      availableApps, installedApps, canUpgradeApps, categories := [], [], [], [];
      currentCategory := None;
      categoryAll, categoryWhatsNew, categoryRecentlyUpdated := None, None, None;
    }

    /** The state updateCategories leaves behind, which updateApps relies
        on: a selected category and the three labels. */
    predicate Ready()
      reads this`currentCategory, this`categoryAll, this`categoryWhatsNew, this`categoryRecentlyUpdated
    {
      currentCategory.Some? && categoryAll.Some? && categoryWhatsNew.Some? && categoryRecentlyUpdated.Some?
    }

    function CurrentLabels(): Labels
      reads this`currentCategory, this`categoryAll, this`categoryWhatsNew, this`categoryRecentlyUpdated
      requires Ready()
    {
      Labels(categoryAll.value, categoryWhatsNew.value, categoryRecentlyUpdated.value)
    }

    /** Empties the four lists; the selection and the labels stay. */
    method Clear()
      modifies this`availableApps, this`installedApps, this`canUpgradeApps, this`categories
      ensures availableApps == [] && installedApps == [] && canUpgradeApps == [] && categories == []
    {
      installedApps := [];
      availableApps := [];
      canUpgradeApps := [];
      categories := [];
    }

    /** Reads the three labels, appends them and then the database's
        categories to the category list, and selects What's New if nothing
        was selected yet. */
    method UpdateCategories(labels: Labels, dbCategories: seq<string>)
      modifies this`categories, this`currentCategory, this`categoryAll, this`categoryWhatsNew, this`categoryRecentlyUpdated
      ensures categoryAll == Some(labels.all) && categoryWhatsNew == Some(labels.whatsNew)
      ensures categoryRecentlyUpdated == Some(labels.recentlyUpdated)
      ensures categories == old(categories) + [labels.all, labels.whatsNew, labels.recentlyUpdated] + dbCategories
      ensures currentCategory == if old(currentCategory).None? then Some(labels.whatsNew) else old(currentCategory)
      ensures Ready()
    {
      categoryAll := Some(labels.all);
      categoryWhatsNew := Some(labels.whatsNew);
      categoryRecentlyUpdated := Some(labels.recentlyUpdated);

      categories := categories + [labels.all];
      categories := categories + [labels.whatsNew];
      categories := categories + [labels.recentlyUpdated];

      var i := 0;
      while i < |dbCategories|
        invariant 0 <= i <= |dbCategories|
        invariant categories == old(categories) + [labels.all, labels.whatsNew, labels.recentlyUpdated] + dbCategories[..i]
        invariant currentCategory == old(currentCategory)
        invariant categoryAll == Some(labels.all) && categoryWhatsNew == Some(labels.whatsNew)
        invariant categoryRecentlyUpdated == Some(labels.recentlyUpdated)
      {
        categories := categories + [dbCategories[i]];
        i := i + 1;
      }
      assert dbCategories[..i] == dbCategories;

      if currentCategory.None? {
        currentCategory := Some(labels.whatsNew);
      }
    }

    /** The spinner's selection; takes effect on the next pass. */
    method SetCurrentCategory(category: string)
      modifies this`currentCategory
      ensures currentCategory == Some(category)
    {
      currentCategory := Some(category);
    }

    /** One pass over the catalog. An empty catalog only hands the decision
        to the host (refreshOnEmpty is what updateEmptyRepos answers).
        Otherwise every installed record goes to the installed list and, if
        it has an update, to the can-upgrade list; every candidate goes to
        the pool, which is sorted for What's New and Recently Updated and
        then appended to the available list. A NullPointerException ends the
        pass with the records before the throwing one already added. */
    method UpdateApps(catalog: seq<App>, recentDate: int, filtered: App -> bool, refreshOnEmpty: bool)
      returns (r: Checked<bool>)
      requires Ready()
      modifies this`availableApps, this`installedApps, this`canUpgradeApps
      ensures |catalog| == 0 ==>
        && r == Ok(refreshOnEmpty)
        && availableApps == old(availableApps)
        && installedApps == old(installedApps)
        && canUpgradeApps == old(canUpgradeApps)
      ensures |catalog| > 0 ==>
        var scan := ScanCatalog(catalog, currentCategory.value, CurrentLabels(), recentDate, filtered);
        var av := Available(catalog, currentCategory.value, CurrentLabels(), recentDate, filtered);
        && installedApps == old(installedApps) + Installed(catalog[..scan.scanned])
        && canUpgradeApps == old(canUpgradeApps) + Upgradable(catalog[..scan.scanned])
        && r == (if av.Ok? then Ok(true) else NullPointerException)
        && availableApps == old(availableApps) + (if av.Ok? then av.value else [])
    {
      if |catalog| == 0 {
        return Ok(refreshOnEmpty);
      }
      var category, labels := currentCategory.value, CurrentLabels();
      var scanned := ScanApps(catalog, category, labels, recentDate, filtered);
      if scanned.NullPointerException? {
        return NullPointerException;
      }
      var pool := scanned.value;

      match OrderFor(category, labels) {
        case None =>
        case Some(o) =>
          // Collections.sort compares nothing in a list of fewer than two
          // records; otherwise each record meets the comparator.
          if |pool| >= 2 {
            if !Keyed(o, pool) {
              return NullPointerException;
            }
            pool := SortByKey(o, pool);
          }
      }

      AddAvailable(pool);
      return Ok(true);
    }

    /** The loop of updateApps over the catalog: fills the installed and
        can-upgrade lists and collects the candidate pool, stopping at the
        first record whose membership test throws. */
    method ScanApps(catalog: seq<App>, category: string, labels: Labels, recentDate: int, filtered: App -> bool)
      returns (pool: Checked<seq<App>>)
      modifies this`installedApps, this`canUpgradeApps
      ensures var scan := ScanCatalog(catalog, category, labels, recentDate, filtered);
        && installedApps == old(installedApps) + Installed(catalog[..scan.scanned])
        && canUpgradeApps == old(canUpgradeApps) + Upgradable(catalog[..scan.scanned])
        && pool == if scan.failed then NullPointerException else Ok(scan.pool)
    {
      var candidates: seq<App> := [];
      var i := 0;
      while i < |catalog|
        invariant 0 <= i <= |catalog|
        invariant ScanCatalog(catalog[..i], category, labels, recentDate, filtered) == Scan(candidates, i, false)
        invariant installedApps == old(installedApps) + Installed(catalog[..i])
        invariant canUpgradeApps == old(canUpgradeApps) + Upgradable(catalog[..i])
      {
        var app := catalog[i];
        ScanStep(catalog, i, category, labels, recentDate, filtered);
        var member := InCategory(app, category, labels, recentDate);
        if member.NullPointerException? {
          ScanKeepsFailure(catalog, i + 1, category, labels, recentDate, filtered);
          return NullPointerException;
        }
        var isFiltered := filtered(app);
        if !isFiltered && member.value {
          candidates := candidates + [app];
        }
        AddInstalled(app);
        i := i + 1;
      }
      assert catalog[..i] == catalog;
      return Ok(candidates);
    }

    /** The tail of the loop body of updateApps: an installed record joins
        the installed list and, when it has an update, the can-upgrade
        list. */
    method AddInstalled(app: App)
      modifies this`installedApps, this`canUpgradeApps
      ensures installedApps == old(installedApps) + (if app.installedVersion.Some? then [app] else [])
      ensures canUpgradeApps == old(canUpgradeApps) + (if app.installedVersion.Some? && app.hasUpdates then [app] else [])
    {
      if app.installedVersion.Some? {
        installedApps := installedApps + [app];
        if app.hasUpdates {
          canUpgradeApps := canUpgradeApps + [app];
        }
      }
    }

    /** The closing loop of updateApps: adds the records of pool to the
        available list one by one, in order. */
    method AddAvailable(pool: seq<App>)
      modifies this`availableApps
      ensures availableApps == old(availableApps) + pool
    {
      var k := 0;
      while k < |pool|
        invariant 0 <= k <= |pool|
        invariant availableApps == old(availableApps) + pool[..k]
      {
        assert pool[..k + 1] == pool[..k] + [pool[k]];
        availableApps := availableApps + [pool[k]];
        k := k + 1;
      }
      assert pool[..k] == pool;
    }

    /** A full pass: clear, rebuild the categories, rebuild the app lists.
        The host ignores updateApps's answer; completed is false when an
        exception escapes. On an empty catalog the three app lists end up
        empty and the category list is still filled. */
    method RepopulateLists(labels: Labels, dbCategories: seq<string>, catalog: seq<App>,
                           recentDate: int, filtered: App -> bool, refreshOnEmpty: bool)
      returns (completed: bool)
      modifies this
      ensures categories == [labels.all, labels.whatsNew, labels.recentlyUpdated] + dbCategories
      ensures currentCategory == if old(currentCategory).None? then Some(labels.whatsNew) else old(currentCategory)
      ensures Ready() && CurrentLabels() == labels
      ensures |catalog| == 0 ==> completed && availableApps == [] && installedApps == [] && canUpgradeApps == []
      ensures
        var scan := ScanCatalog(catalog, currentCategory.value, labels, recentDate, filtered);
        var av := Available(catalog, currentCategory.value, labels, recentDate, filtered);
        && installedApps == Installed(catalog[..scan.scanned])
        && canUpgradeApps == Upgradable(catalog[..scan.scanned])
        && completed == av.Ok?
        && availableApps == (if av.Ok? then av.value else [])
    {
      Clear();
      UpdateCategories(labels, dbCategories);
      var r := UpdateApps(catalog, recentDate, filtered, refreshOnEmpty);
      completed := r.Ok?;
      if |catalog| == 0 {
        assert catalog[..0] == [];
      }
    }
  }
}
