/** The attendance ledger, `attendance.json`: how records are built, the
    delete-by-id filter and the newest-first listing. */
module Ledger {
  import opened Wrappers
  import opened Records
  import opened Seqs
  import opened Listing

  /** An attendance id, `f"{timestamp}_{suffix}"`, where the suffix is the
      six random characters the handler draws. */
  function AttendanceId(stamp: string, suffix: string): string {
    stamp + "_" + suffix
  }

  /** `request.timestamp or now`: a missing or empty timestamp falls back to
      the clock. */
  function ManualTime(given: Option<string>, now: string): string {
    if given.Some? && given.value != "" then given.value else now
  }

  function TimestampOf(r: AttendanceRecord): string {
    r.timestamp
  }

  /** The condition of the delete-by-id comprehension. */
  function IdDiffers(id: string): AttendanceRecord -> bool {
    (r: AttendanceRecord) => r.id != id
  }

  /** `[r for r in attendance if r.get("id") != record_id]` */
  function WithoutId(ledger: seq<AttendanceRecord>, id: string): seq<AttendanceRecord> {
    Filter(ledger, IdDiffers(id))
  }

  /** Deleting by id removes every record with that id and no other, keeping
      the order of the rest; the ledger keeps its length exactly when no
      record has that id, and is then unchanged. */
  lemma WithoutIdRemovesExactly(ledger: seq<AttendanceRecord>, id: string, x: AttendanceRecord)
    ensures forall i :: 0 <= i < |WithoutId(ledger, id)| ==> WithoutId(ledger, id)[i].id != id
    ensures IsSubsequence(WithoutId(ledger, id), ledger)
    ensures multiset(WithoutId(ledger, id))[x] == if x.id != id then multiset(ledger)[x] else 0
    ensures |WithoutId(ledger, id)| == |ledger| <==> forall i :: 0 <= i < |ledger| ==> ledger[i].id != id
    ensures (forall i :: 0 <= i < |ledger| ==> ledger[i].id != id) ==> WithoutId(ledger, id) == ledger
  {
    var p := IdDiffers(id);
    FilterIsSubsequence(ledger, p);
    FilterCounts(ledger, p, x);
    FilterDropsNothing(ledger, p);
  }

  /** `sorted(attendance, key=timestamp, reverse=True)`. */
  function NewestFirst(ledger: seq<AttendanceRecord>): (r: seq<AttendanceRecord>)
    ensures multiset(r) == multiset(ledger)
    ensures forall i, j :: 0 <= i < j < |r| ==> StrLe(r[j].timestamp, r[i].timestamp)
  {
    Sort(ledger, TimestampOf, true)
  }

  /** Records with the same timestamp are listed in the order they were
      appended. */
  lemma NewestFirstIsStable(ledger: seq<AttendanceRecord>, t: string)
    ensures WithKey(NewestFirst(ledger), TimestampOf, t) == WithKey(ledger, TimestampOf, t)
  {
    SortIsStable(ledger, TimestampOf, true, t);
  }
}
