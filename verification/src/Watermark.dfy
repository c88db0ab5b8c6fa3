/**
 Timestamps, the sync watermark and the size of the sync filter
 (internal/eds/pkg/datasync/watermark.go).
 */
module Watermark {
  import opened Wrappers

  datatype Timestamp = Timestamp(seconds: int, nanos: int)

  const ZERO := Timestamp(0, 0)

  /** `a` is not later than `b`. */
  predicate AtMost(a: Timestamp, b: Timestamp) {
    a.seconds < b.seconds || (a.seconds == b.seconds && a.nanos <= b.nanos)
  }

  const NANOS_PER_SECOND: int := 1_000_000_000

  /** On proper timestamps the comparison is that of the time in nanoseconds. */
  lemma AtMostIsTime(a: Timestamp, b: Timestamp)
    requires 0 <= a.nanos < NANOS_PER_SECOND && 0 <= b.nanos < NANOS_PER_SECOND
    ensures AtMost(a, b) <==> a.seconds * NANOS_PER_SECOND + a.nanos <= b.seconds * NANOS_PER_SECOND + b.nanos
  {
  }

  /** `maxTS` is the later of the two. */
  function MaxTS(lhs: Timestamp, rhs: Timestamp): (r: Timestamp)
    ensures (r == lhs || r == rhs) && AtMost(lhs, r) && AtMost(rhs, r)
  {
    if lhs.seconds > rhs.seconds then lhs
    else if lhs.seconds == rhs.seconds && lhs.nanos > rhs.nanos then lhs
    else rhs
  }

  datatype Mark = Mark(ts: Timestamp, objectCount: nat, relationCount: nat) {
    function Total(): nat { objectCount + relationCount }
  }

  const INIT_FILTER_SIZE: nat := 100000
  const GROWTH_FACTOR: nat := 2
  const ROUNDING: nat := 1000

  /** `getFilterSize`: whole thousands, more than twice the last total, and no more than needed for that. */
  function FilterSize(total: nat): (size: nat)
    ensures size % ROUNDING == 0 && size >= INIT_FILTER_SIZE
    ensures size > GROWTH_FACTOR * total
    ensures size <= INIT_FILTER_SIZE || size <= GROWTH_FACTOR * total + ROUNDING
  {
    if total == 0 then INIT_FILTER_SIZE else
    var growth := total * GROWTH_FACTOR;
    if growth < INIT_FILTER_SIZE then INIT_FILTER_SIZE
    else growth + (ROUNDING - growth % ROUNDING)
  }

  /** `getWatermark`: an unreadable file counts as none. */
  function GetWatermark(file: Option<Mark>): Mark {
    if file.Some? then file.value else Mark(ZERO, 0, 0)
  }

  /** `setWatermark` */
  function SetWatermark(file: Option<Mark>, ts: Timestamp, objects: nat, relations: nat): Option<Mark> {
    Some(Mark(MaxTS(GetWatermark(file).ts, ts), objects, relations))
  }

  /** One completed sync: the time it settled on and the bucket sizes it found. */
  datatype Completed = Completed(ts: Timestamp, objects: nat, relations: nat)

  function FileAfter(file: Option<Mark>, syncs: seq<Completed>, n: nat): Option<Mark>
    requires n <= |syncs|
  {
    if n == 0 then file
    else SetWatermark(FileAfter(file, syncs, n - 1), syncs[n - 1].ts, syncs[n - 1].objects, syncs[n - 1].relations)
  }

  /** Over any series of syncs the stored time never goes back, and covers every sync since. */
  lemma {:induction false} WatermarkMonotone(file: Option<Mark>, syncs: seq<Completed>, i: nat, j: nat)
    requires i <= j <= |syncs|
    ensures AtMost(GetWatermark(FileAfter(file, syncs, i)).ts, GetWatermark(FileAfter(file, syncs, j)).ts)
    ensures forall k :: i <= k < j ==> AtMost(syncs[k].ts, GetWatermark(FileAfter(file, syncs, j)).ts)
    decreases j
  {
    if i < j {
      WatermarkMonotone(file, syncs, i, j - 1);
    }
  }

  /**
   What is stored after a series of syncs is exact: the counts of the last one, and a time that was
   there before, or the zero time where the file could not be read, or the time of one of the syncs.
   */
  lemma {:induction false} FileExact(file: Option<Mark>, syncs: seq<Completed>, n: nat)
    requires n <= |syncs|
    ensures var mark := GetWatermark(FileAfter(file, syncs, n));
            && (mark.ts == (if file.Some? then file.value.ts else ZERO) || exists i :: 0 <= i < n && syncs[i].ts == mark.ts)
            && (n > 0 ==> mark.objectCount == syncs[n - 1].objects && mark.relationCount == syncs[n - 1].relations)
            && (n == 0 && file.None? ==> mark.Total() == 0)
    decreases n
  {
    if n > 0 {
      FileExact(file, syncs, n - 1);
    }
  }

  /** And the next sync gets a filter with room for twice what the last one left in the store. */
  lemma FilterHasRoom(file: Option<Mark>, syncs: seq<Completed>, n: nat)
    requires 0 < n <= |syncs|
    ensures var last := syncs[n - 1];
            FilterSize(GetWatermark(FileAfter(file, syncs, n)).Total()) > 2 * (last.objects + last.relations)
  {
    var total := GetWatermark(FileAfter(file, syncs, n)).Total();
    assert total == syncs[n - 1].objects + syncs[n - 1].relations by { FileExact(file, syncs, n); }
    assert FilterSize(total) > GROWTH_FACTOR * total;
  }
}
