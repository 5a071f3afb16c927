/** The two optional request parameters every `findAll` listing takes: a free
    text `search` and a `status` name, each ignored when it selects nothing. */
module Listing {
  import opened Base
  import opened Sequences
  import opened Text
  import opened Domain

  /** The term the search compares against: the trimmed, lower-cased search,
      or `None` when the search is absent or blank. */
  function SearchTerm(search: Option<string>): (r: Option<string>)
    ensures r.None? <==> search.None? || IsBlank(search.value)
    ensures r.Some? ==> r.value == Lower(Trim(search.value)) && r.value != []
  {
    if search.None? || IsBlank(search.value) then None else Some(Lower(Trim(search.value)))
  }

  /** The status name to look up, upper-cased but not trimmed, or `None` when the
      status is absent, blank or "TODOS" in any letter case. */
  function StatusWord(status: Option<string>): (r: Option<string>)
    ensures r.None? <==> status.None? || IsBlank(status.value) || EqualsIgnoreCase(status.value, "TODOS")
    ensures r.Some? ==> r.value == Upper(status.value)
  {
    if status.None? || IsBlank(status.value) || EqualsIgnoreCase(status.value, "TODOS") then None
    else Some(Upper(status.value))
  }

  /** `field.toLowerCase().contains(term)`. */
  predicate Mentions(field: string, term: string)
  {
    Contains(Lower(field), term)
  }

  /** The monitoria status a listing filters by: a recognised status name, otherwise none. */
  function MonitoriaStatusFilter(status: Option<string>): (r: Option<MonitoriaStatus>)
    ensures r.Some? <==> StatusWord(status).Some? && ParseMonitoriaStatus(StatusWord(status).value).Some?
    ensures r.Some? ==> MonitoriaStatusName(r.value) == Upper(status.value)
  {
    match StatusWord(status)
    case None => None
    case Some(word) => ParseMonitoriaStatus(word)
  }

  /** The project status a listing filters by, for research and extension projects alike. */
  function ProjectStatusFilter(status: Option<string>): (r: Option<ProjectStatus>)
    ensures r.Some? <==> StatusWord(status).Some? && ParseProjectStatus(StatusWord(status).value).Some?
    ensures r.Some? ==> ProjectStatusName(r.value) == Upper(status.value)
  {
    match StatusWord(status)
    case None => None
    case Some(word) => ParseProjectStatus(word)
  }

  /** An optional filter lets `x` through when it is absent or holds of `x`. */
  predicate Admits<T>(filter: Option<T -> bool>, x: T)
  {
    filter.None? || filter.value(x)
  }

  /** The two optional filters together, as one predicate. */
  function Admitted<T>(search: Option<T -> bool>, status: Option<T -> bool>): T -> bool
  {
    x => Admits(search, x) && Admits(status, x)
  }

  /** The rows narrowed by the search filter and then by the status filter: one
      pass of the combined filter, so every admitted row is kept, duplicates included. */
  function Narrow<T(==)>(rows: seq<T>, search: Option<T -> bool>, status: Option<T -> bool>): (r: seq<T>)
    ensures r == Filter(Admitted(search, status), rows)
    ensures IsSubsequence(r, rows)
    ensures forall k :: 0 <= k < |r| ==> Admits(search, r[k]) && Admits(status, r[k])
    ensures forall k :: 0 <= k < |rows| && Admits(search, rows[k]) && Admits(status, rows[k]) ==> rows[k] in r
  {
    var searchOnly := Admitted(search, None);
    var searched := if search.Some? then Filter(search.value, rows) else rows;
    assert searched == Filter(searchOnly, rows) by {
      if search.Some? {
        FilterAgree(search.value, searchOnly, rows);
      } else {
        FilterKeepsAll(searchOnly, rows);
      }
    }
    FilterIsSubsequence(searchOnly, rows);
    if status.Some? then
      FilterIsSubsequence(status.value, searched);
      SubsequenceTransitive(Filter(status.value, searched), searched, rows);
      FilterFilter(searchOnly, status.value, rows);
      FilterAgree(Both(searchOnly, status.value), Admitted(search, status), rows);
      Filter(status.value, searched)
    else
      FilterAgree(searchOnly, Admitted(search, status), rows);
      searched
  }
}
