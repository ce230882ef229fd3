# Catalog curation of the Uhuru mobile store

This project models `AppListManager`, the object in the Uhuru store (a fork
of F-Droid) that turns the in-memory catalog of app records into the lists
the store's tabs show:

- the category list: the three synthetic categories All, What's New and
  Recently Updated, then the database's own categories;
- the available list: the records that the compatibility filter keeps and
  that belong to the selected category, newest first under What's New
  (by `added`) and Recently Updated (by `lastUpdated`), in catalog order
  otherwise;
- the installed list: the records with an installed version, in catalog
  order;
- the can-upgrade list: the installed records that have an update.

The model has five modules.

- `Records` holds the app record, the three labels, and `Checked<T>`.
  `Checked<T>` stands for a Java computation that either yields a value or
  lets a `NullPointerException` escape. `java.util.Date` values are integers
  (milliseconds), and a null field is `None`.
- `Categories` holds the membership test (`isInCategory`) and the choice of
  comparator.
- `Sorting` holds the two comparators. It also holds `SortByKey`, a
  functional stable insertion sort that stands for `Collections.sort`.
  `StableSortIsSortByKey` proves that any stable newest-first sort gives the
  same list, so the choice of algorithm does not matter.
- `Curation` holds the specification functions of one pass:
  - `ScanCatalog` is the loop over the catalog;
  - `Installed`, `Upgradable` and `Available` are the three lists it
    produces;
  - the lemmas about them are the properties the store relies on.
- `AppLists` holds the class `AppListManager`. Its fields are the four lists,
  the current category and the three labels. Its methods update them in
  place.
  - `Clear`, `UpdateCategories` and `SetCurrentCategory` state their new
    state directly.
  - `UpdateApps`, `ScanApps` and `RepopulateLists` are proved against the
    `Curation` functions.
- `Scenarios` works through small concrete catalogs.

Two behaviours of the code are easy to miss, and the model keeps both.

- Under Recently Updated, a record that has an update timestamp but no
  added timestamp makes `Date.compareTo(null)` throw inside `isInCategory`.
  The pass then stops at that record. Only the records before it reach the
  installed and can-upgrade lists, and nothing reaches the available list
  (`ScanThrowsExactlyWhen`, `OrphanStopsRecentlyUpdated`).
  - So the installed and can-upgrade lists do not depend on the category
    or the filter only when the pass completes
    (`CompletedScanListsWholeCatalog`, `InstalledIgnoresCategory`).
- The comparators dereference the timestamps of both records. A record
  without the timestamp can reach them only when the What's New or Recently
  Updated label equals the All label (`SortedPoolIsKeyed`,
  `SharedLabelReachesComparator`).

The catalog, the cutoff date (`recentDate`), the compatibility filter, the
localised labels, the database's categories and the host's answer to
`updateEmptyRepos` are all parameters.

## Model

| member | source | states |
|---|---|---|
| Records.DateCompareTo | app/src/main/java/fdroid/fdroid/org/uhurustore/AppListManager.java:179-181 | `Date.compareTo` throws exactly on a null argument, otherwise gives -1, 0 or 1, negative iff before and zero iff equal |
| Categories.InCategory | app/src/main/java/fdroid/fdroid/org/uhurustore/AppListManager.java:163-189 | All admits every record. What's New admits exactly the records with `added` at or after the cutoff, inclusive. Recently Updated throws exactly when `lastUpdated` is set and `added` is null, and admits exactly the records whose `lastUpdated` differs from `added` and is at or after the cutoff. Any other string admits exactly the records of that literal category. The labels are tried in the order All, What's New, Recently Updated |
| Categories.OrderFor | app/src/main/java/fdroid/fdroid/org/uhurustore/AppListManager.java:224-228 | What's New selects the added-descending comparator. Otherwise Recently Updated selects the updated-descending one. Any other category leaves the list unsorted |
| Categories.MemberHasSortKey | app/src/main/java/fdroid/fdroid/org/uhurustore/AppListManager.java:167-184 | A member of a sorted category carries the timestamp its comparator reads, unless that category's label is also the All label |
| Sorting.Compare | app/src/main/java/fdroid/fdroid/org/uhurustore/AppListManager.java:240-252 | The comparators throw iff either record lacks the key. They are negative iff the left record is newer and zero iff the keys are equal |
| Sorting.DescendingAgreesWithComparator | app/src/main/java/fdroid/fdroid/org/uhurustore/AppListManager.java:240-252 | A keyed newest-first list is sorted in the comparator's sense: no earlier record compares above a later one |
| Sorting.SortByKeyPermutes | app/src/main/java/fdroid/fdroid/org/uhurustore/AppListManager.java:224-228 | The sort is a permutation of its input |
| Sorting.SortByKeySortedStable | app/src/main/java/fdroid/fdroid/org/uhurustore/AppListManager.java:224-228 | The sort orders newest first and keeps records of equal key in their input order (stability) |
| Sorting.SortByKeyIdempotent | app/src/main/java/fdroid/fdroid/org/uhurustore/AppListManager.java:224-228 | Sorting a list that is already newest first returns it unchanged |
| Sorting.StableSortIsSortByKey | app/src/main/java/fdroid/fdroid/org/uhurustore/AppListManager.java:224-228 | Every stable newest-first rearrangement of a list equals `SortByKey`, so the model's sort is the one `Collections.sort` performs |
| Curation.InstalledMembers | app/src/main/java/fdroid/fdroid/org/uhurustore/AppListManager.java:217-218 | The installed list holds exactly the catalog records with an installed version |
| Curation.InstalledInCatalogOrder | app/src/main/java/fdroid/fdroid/org/uhurustore/AppListManager.java:208-222 | The installed list is a subsequence of the catalog (catalog order) |
| Curation.UpgradableMembers | app/src/main/java/fdroid/fdroid/org/uhurustore/AppListManager.java:217-221 | The can-upgrade list holds exactly the installed records that have an update |
| Curation.UpgradableFromInstalled | app/src/main/java/fdroid/fdroid/org/uhurustore/AppListManager.java:217-221 | The can-upgrade list is the installed list without the records that lack an update, and is a subsequence of it |
| Curation.ScanCatalog | app/src/main/java/fdroid/fdroid/org/uhurustore/AppListManager.java:208-222 | The loop stops at the first record whose membership test throws and at no other. Every record before it was tested without exception |
| Curation.ScanThrowsExactlyWhen | app/src/main/java/fdroid/fdroid/org/uhurustore/AppListManager.java:174-184 | The loop throws iff the category is Recently Updated, that label is neither All nor What's New, and some record has `lastUpdated` without `added` |
| Curation.CompletedScanListsWholeCatalog | app/src/main/java/fdroid/fdroid/org/uhurustore/AppListManager.java:208-222 | When the loop completes, the installed and can-upgrade lists cover the whole catalog, whatever the category and the filter |
| Curation.InstalledIgnoresCategory | app/src/main/java/fdroid/fdroid/org/uhurustore/AppListManager.java:208-222 | Two completed passes over the same catalog under any two categories and filters give equal installed lists and equal can-upgrade lists |
| Curation.PoolInCatalogOrder | app/src/main/java/fdroid/fdroid/org/uhurustore/AppListManager.java:208-216 | The candidate pool is a subsequence of the catalog |
| Curation.PoolIsCandidates | app/src/main/java/fdroid/fdroid/org/uhurustore/AppListManager.java:208-216 | The pool holds each record as often as the catalog does if the filter keeps it and it is in the category, and otherwise not at all |
| Curation.AvailableIsCandidates | app/src/main/java/fdroid/fdroid/org/uhurustore/AppListManager.java:207-231 | A completed available list is a permutation of the unfiltered in-category records of the catalog |
| Curation.SortedPoolIsKeyed | app/src/main/java/fdroid/fdroid/org/uhurustore/AppListManager.java:224-228 | Every pool member that reaches a comparator has that comparator's timestamp, provided the label is not also All |
| Curation.AvailableNewestFirst | app/src/main/java/fdroid/fdroid/org/uhurustore/AppListManager.java:224-231 | When the scan completes under What's New or Recently Updated (labels distinct from All), the sort does not throw. The available list is then newest first by the category's timestamp, and equal timestamps keep catalog order |
| Curation.AvailableInCatalogOrder | app/src/main/java/fdroid/fdroid/org/uhurustore/AppListManager.java:224-231 | Under any other category a completed available list is in catalog order |
| AppLists.AppListManager.constructor | app/src/main/java/fdroid/fdroid/org/uhurustore/AppListManager.java:46-80 | All lists start empty, and the category and the labels start null |
| AppLists.AppListManager.Clear | app/src/main/java/fdroid/fdroid/org/uhurustore/AppListManager.java:82-87 | The four lists become empty, and nothing else changes |
| AppLists.AppListManager.UpdateCategories | app/src/main/java/fdroid/fdroid/org/uhurustore/AppListManager.java:98-123 | Stores the labels. Appends All, What's New, Recently Updated and then the database's categories in their order. Selects What's New only if nothing was selected |
| AppLists.AppListManager.SetCurrentCategory | app/src/main/java/fdroid/fdroid/org/uhurustore/AppListManager.java:236-238 | The selection becomes the given category, and nothing else changes |
| AppLists.AppListManager.UpdateApps | app/src/main/java/fdroid/fdroid/org/uhurustore/AppListManager.java:193-234 | An empty catalog returns the host's answer and changes no list. Otherwise the installed and can-upgrade lists grow by those of the records scanned, and the available list grows by `Available`. The method returns true, or throws exactly when `Available` does |
| AppLists.AppListManager.ScanApps | app/src/main/java/fdroid/fdroid/org/uhurustore/AppListManager.java:207-222 | The loop appends the installed and can-upgrade records scanned, and yields the pool of `ScanCatalog` or its exception |
| AppLists.AppListManager.AddInstalled | app/src/main/java/fdroid/fdroid/org/uhurustore/AppListManager.java:217-221 | One record joins the installed list iff installed, and the can-upgrade list iff also updatable |
| AppLists.AppListManager.AddAvailable | app/src/main/java/fdroid/fdroid/org/uhurustore/AppListManager.java:230-231 | The available list grows by the sorted pool, in order |
| AppLists.AppListManager.RepopulateLists | app/src/main/java/fdroid/fdroid/org/uhurustore/AppListManager.java:131-145 | A full pass leaves exactly the pass's category list and app lists. The pass completes iff `Available` does. On an empty catalog all app lists are empty and the category list is filled |
| Scenarios.WhatsNewExample | app/src/main/java/fdroid/fdroid/org/uhurustore/AppListManager.java:207-231 | Of a game added 20 days ago and an installed, updatable game added 2 days ago, with a 14-day history, only the second is available, installed and upgradable under What's New |
| Scenarios.AddedIsNotUpdatedExample | app/src/main/java/fdroid/fdroid/org/uhurustore/AppListManager.java:179-180 | A record updated at the moment it was added is not recently updated |
| Scenarios.OrphanStopsRecentlyUpdated | app/src/main/java/fdroid/fdroid/org/uhurustore/AppListManager.java:174-184 | A leading record with an update timestamp and no added timestamp stops the Recently Updated pass before any record is listed. Under All the same catalog lists both installed records |
| Scenarios.SharedLabelReachesComparator | app/src/main/java/fdroid/fdroid/org/uhurustore/AppListManager.java:224-225 | When the What's New label equals the All label, a record without `added` reaches the comparator and the pass throws |

## Left out

- The Android adapters (`AppListAdapter`, `ArrayAdapter`) are modelled as
  sequences. `notifyLists`, `notifyActivity` and the tab-label refresh are
  UI notifications and are not modelled.
- The log line and the timing in `repopulateLists` are left out. So is the
  `allApps` field: it only carries the catalog from `updateApps` to that log
  line, and the model passes the catalog to `UpdateApps` as the parameter
  `catalog`.
- `DB.getDB`/`DB.releaseDB` and `FDroidApp.getApps()` are foreign calls. The
  database's categories and the catalog are input sequences.
- `calcMaxHistory` reads a preference, parses it and does calendar
  arithmetic. The cutoff is the integer parameter `recentDate`.
- `AppFilter.filter` is code outside this model. It is the total predicate
  parameter `filtered`.
- `getString` and `updateEmptyRepos` are host callbacks. Their results are
  the parameters `labels` and `refreshOnEmpty`.
- The fragments (`AppListFragment`, `AvailableAppsFragment`,
  `InstalledAppsFragment`) and `Utils` are UI and I/O plumbing, not part of
  this model.
- `Collections.sort`'s own algorithm (a merge sort over the Vector, in place)
  is not modelled. The model uses the stable insertion sort `SortByKey`, and
  `StableSortIsSortByKey` shows that every stable sort gives the same result.
- Sorting.Compare: the model assumes that `Collections.sort` calls no
  comparator on fewer than two records, and on two or more records calls it
  on every record. So a record without the sort key throws exactly when the
  pool has at least two records.
- AppLists.AppListManager.SetCurrentCategory: a null argument is not
  modelled. Its only caller passes the selected spinner entry.
- AppLists.AppListManager.RepopulateLists: the boolean that `updateApps`
  returns is discarded, as in the source. `completed` only reports whether
  an exception escaped.
- The loop of `updateApps` over the catalog is the method `ScanApps`, with
  its installed/can-upgrade branch in `AddInstalled`. The second loop, which
  adds the sorted pool to the available list, is `AddAvailable`. All three
  are methods of the same class and keep the source's order of updates.
- The model follows `updateCategories`, which reads `db.getCategories()`
  and appends those categories in the database's order.
