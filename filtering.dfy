/**
 * The filter effect of the review table: an exact match on `status`, then a
 * case-insensitive substring match on `name`, each applied only when its
 * filter value is truthy.
 */
module Filtering {
  import opened Wrappers
  import opened Text
  import opened ArrayOps
  import opened Records

  /** A status filter constrains only when it is neither null nor the empty string. */
  predicate StatusActive(statusFilter: Option<string>) {
    statusFilter.Some? && statusFilter.value != ""
  }

  /** `name.toLowerCase().includes(pattern.toLowerCase())`. */
  predicate NameMatches(name: string, pattern: string) {
    Contains(Lower(name), Lower(pattern))
  }

  /** The first pass: records whose status equals `status` exactly. */
  function KeepStatus(rs: seq<Record>, status: string): seq<Record> {
    Select(rs, (r: Record) => r.status == status)
  }

  /** The second pass: records whose name contains `pattern`, ignoring case. */
  function KeepName(rs: seq<Record>, pattern: string): seq<Record> {
    Select(rs, (r: Record) => NameMatches(r.name, pattern))
  }

  /** The filter effect's result: the status pass if active, then the name pass if active. */
  function Filter(rs: seq<Record>, statusFilter: Option<string>, nameFilter: string): (r: seq<Record>)
    ensures |r| <= |rs|
    ensures forall k :: 0 <= k < |r| ==> r[k] in rs && Matches(r[k], statusFilter, nameFilter)
  {
    var byStatus := if StatusActive(statusFilter) then KeepStatus(rs, statusFilter.value) else rs;
    if nameFilter != "" then KeepName(byStatus, nameFilter) else byStatus
  }

  /** What it means for one record to pass both active constraints. */
  predicate Matches(r: Record, statusFilter: Option<string>, nameFilter: string) {
    (StatusActive(statusFilter) ==> r.status == statusFilter.value) &&
    (nameFilter != "" ==> NameMatches(r.name, nameFilter))
  }

  /** The two passes in a row are one pass with the conjunction of both constraints. */
  lemma FilterIsSelect(rs: seq<Record>, statusFilter: Option<string>, nameFilter: string)
    ensures Filter(rs, statusFilter, nameFilter) == Select(rs, (r: Record) => Matches(r, statusFilter, nameFilter))
  {
    var both := (r: Record) => Matches(r, statusFilter, nameFilter);
    var byName := (r: Record) => NameMatches(r.name, nameFilter);
    if StatusActive(statusFilter) && nameFilter != "" {
      SelectSelect(rs, (r: Record) => r.status == statusFilter.value, byName, both);
    } else if StatusActive(statusFilter) {
      SelectExt(rs, (r: Record) => r.status == statusFilter.value, both);
    } else if nameFilter != "" {
      SelectExt(rs, byName, both);
    } else {
      SelectAll(rs, both);
    }
  }

  /** Soundness: every kept record satisfies both active constraints. */
  lemma FilterSound(rs: seq<Record>, statusFilter: Option<string>, nameFilter: string, k: int)
    requires 0 <= k < |Filter(rs, statusFilter, nameFilter)|
    ensures StatusActive(statusFilter) ==> Filter(rs, statusFilter, nameFilter)[k].status == statusFilter.value
    ensures nameFilter != "" ==>
      Contains(Lower(Filter(rs, statusFilter, nameFilter)[k].name), Lower(nameFilter))
  {
    FilterIsSelect(rs, statusFilter, nameFilter);
  }

  /** Completeness: every record of the input that satisfies both active constraints is kept. */
  lemma FilterComplete(rs: seq<Record>, statusFilter: Option<string>, nameFilter: string, x: Record)
    requires x in rs
    requires StatusActive(statusFilter) ==> x.status == statusFilter.value
    requires nameFilter != "" ==> NameMatches(x.name, nameFilter)
    ensures x in Filter(rs, statusFilter, nameFilter)
  {
    FilterIsSelect(rs, statusFilter, nameFilter);
    SelectComplete(rs, (r: Record) => Matches(r, statusFilter, nameFilter), x);
  }

  /** No duplicates or losses: a matching record is kept as many times as it occurs, others never. */
  lemma FilterCount(rs: seq<Record>, statusFilter: Option<string>, nameFilter: string, x: Record)
    ensures multiset(Filter(rs, statusFilter, nameFilter))[x] ==
      if Matches(x, statusFilter, nameFilter) then multiset(rs)[x] else 0
  {
    FilterIsSelect(rs, statusFilter, nameFilter);
    SelectCount(rs, (r: Record) => Matches(r, statusFilter, nameFilter), x);
  }

  /** The filtered list keeps the input's order: it is a subsequence of it. */
  lemma FilterPreservesOrder(rs: seq<Record>, statusFilter: Option<string>, nameFilter: string)
    ensures SubsequenceOf(Filter(rs, statusFilter, nameFilter), rs)
  {
    FilterIsSelect(rs, statusFilter, nameFilter);
    SelectIsSubsequence(rs, (r: Record) => Matches(r, statusFilter, nameFilter));
  }

  /** With no active constraint the filter returns its input unchanged. */
  lemma FilterInactive(rs: seq<Record>, statusFilter: Option<string>)
    requires !StatusActive(statusFilter)
    ensures Filter(rs, statusFilter, "") == rs
  {
  }

  /** Filtering the filtered list again changes nothing. */
  lemma FilterIdempotent(rs: seq<Record>, statusFilter: Option<string>, nameFilter: string)
    ensures Filter(Filter(rs, statusFilter, nameFilter), statusFilter, nameFilter) == Filter(rs, statusFilter, nameFilter)
  {
    var once := Filter(rs, statusFilter, nameFilter);
    var keep := (r: Record) => Matches(r, statusFilter, nameFilter);
    FilterIsSelect(rs, statusFilter, nameFilter);
    FilterIsSelect(once, statusFilter, nameFilter);
    SelectAll(once, keep);
  }

  /** Name filters that differ only in ASCII case select the same records. */
  lemma NameFilterIgnoresCase(rs: seq<Record>, statusFilter: Option<string>, f: string, g: string)
    requires Lower(f) == Lower(g)
    ensures Filter(rs, statusFilter, f) == Filter(rs, statusFilter, g)
  {
    FilterIsSelect(rs, statusFilter, f);
    FilterIsSelect(rs, statusFilter, g);
    SelectExt(rs, (r: Record) => Matches(r, statusFilter, f), (r: Record) => Matches(r, statusFilter, g));
  }

  /** A record's own name, in any case, is a name filter that keeps it. */
  lemma OwnNameIsKept(rs: seq<Record>, x: Record)
    requires x in rs
    ensures x in Filter(rs, None, x.name)
  {
    ContainsTrivial(Lower(x.name));
    if x.name != "" {
      FilterComplete(rs, None, x.name, x);
    }
  }
}
