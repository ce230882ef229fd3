/** Category membership (AppListManager.isInCategory) and the choice of
    comparator for the active category. */
module Categories {
  import opened Records
  import opened Sorting

  /** Whether app belongs to category, judged against the recency cutoff
      recentDate. The three synthetic labels are tried first, in the order
      All, What's New, Recently Updated; any other string is a literal
      category compared with the app's own. Under Recently Updated a record
      with an update timestamp but no added timestamp makes
      Date.compareTo(null) throw. */
  function InCategory(app: App, category: string, labels: Labels, recentDate: int): (r: Checked<bool>)
    ensures category == labels.all ==> r == Ok(true)
    ensures category != labels.all && category == labels.whatsNew ==>
              r == Ok(app.added.Some? && app.added.value >= recentDate)
    ensures category != labels.all && category != labels.whatsNew && category == labels.recentlyUpdated ==>
              && (r == NullPointerException <==> app.lastUpdated.Some? && app.added.None?)
              && (r == Ok(true) <==> && app.lastUpdated.Some? && app.added.Some?
                                     && app.lastUpdated.value != app.added.value
                                     && app.lastUpdated.value >= recentDate)
    ensures category != labels.all && category != labels.whatsNew && category != labels.recentlyUpdated ==>
              r == Ok(app.category == Some(category))
  {
    if category == labels.all then Ok(true)
    else if category == labels.whatsNew then
      match app.added
      case None => Ok(false)
      case Some(added) => Ok(!(DateCompareTo(added, Some(recentDate)).value < 0))
    else if category == labels.recentlyUpdated then
      match app.lastUpdated
      case None => Ok(false)
      case Some(updated) =>
        match DateCompareTo(updated, app.added)
        case NullPointerException => NullPointerException
        case Ok(c) => if c == 0 then Ok(false) else Ok(!(DateCompareTo(updated, Some(recentDate)).value < 0))
    else Ok(app.category == Some(category))
  }

  /** The comparator updateApps sorts the available list with: What's New
      is tested before Recently Updated; any other category keeps catalog
      order. */
  function OrderFor(category: string, labels: Labels): (r: Option<Ordering>)
    ensures r == Some(ByAddedDescending) <==> category == labels.whatsNew
    ensures r == Some(ByUpdatedDescending) <==> category != labels.whatsNew && category == labels.recentlyUpdated
    ensures r == None <==> category != labels.whatsNew && category != labels.recentlyUpdated
  {
    if category == labels.whatsNew then Some(ByAddedDescending)
    else if category == labels.recentlyUpdated then Some(ByUpdatedDescending)
    else None
  }

  /** A record that passes the membership test of a sorted category carries
      the timestamp that category is sorted on, unless the category's label
      coincides with the All label. */
  lemma MemberHasSortKey(app: App, category: string, labels: Labels, recentDate: int)
    requires category != labels.all && OrderFor(category, labels).Some?
    requires InCategory(app, category, labels, recentDate) == Ok(true)
    ensures SortKey(OrderFor(category, labels).value, app).Some?
  {
  }
}
