/** The values the curation core works on: catalog records, the host's
    category labels, and the null-dereference outcome of Java code. */
module Records {

  /** A Java reference that may be null. */
  datatype Option<T> = None | Some(value: T)

  /** The outcome of Java code that may dereference a null reference:
      either a value, or the NullPointerException that escapes. */
  datatype Checked<T> = Ok(value: T) | NullPointerException

  /** One catalog record (DB.App). Timestamps are java.util.Date values
      taken as milliseconds since the epoch; None stands for a null field.
      installedVersion is present iff the package is installed. */
  datatype App = App(
    id: string,
    category: Option<string>,
    added: Option<int>,
    lastUpdated: Option<int>,
    installedVersion: Option<string>,
    hasUpdates: bool)

  /** The localised names of the three synthetic categories, read from the
      host's string resources on every pass. */
  datatype Labels = Labels(all: string, whatsNew: string, recentlyUpdated: string)

  /** java.util.Date.compareTo: -1, 0 or 1 as self is before, equal to or
      after other; a null argument throws. */
  function DateCompareTo(self: int, other: Option<int>): (r: Checked<int>)
    ensures r.Ok? <==> other.Some?
    ensures r.Ok? ==> -1 <= r.value <= 1
    ensures r.Ok? ==> (r.value < 0 <==> self < other.value) && (r.value == 0 <==> self == other.value)
  {
    match other
    case None => NullPointerException
    case Some(t) => Ok(if self < t then -1 else if self == t then 0 else 1)
  }
}
