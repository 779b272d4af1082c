/** The query loops that stop early: thread events, metrics and log entries. */
module EarlyStop {

  /** An object of a block: an event of a known type, or something that is skipped. */
  datatype Item = Event(time: int, row: nat) | Other

  function Flatten(blocks: seq<seq<Item>>): seq<Item> {
    if blocks == [] then [] else blocks[0] + Flatten(blocks[1..])
  }

  // ---------------------------------------------------------------------------
  // What is asked for
  // ---------------------------------------------------------------------------

  predicate IsIn(x: Item, begin: int, end: int) { x.Event? && begin <= x.time <= end }

  predicate IsAfter(x: Item, end: int) { x.Event? && x.time > end }

  /** All rows in the range. */
  function InRange(items: seq<Item>, begin: int, end: int): seq<nat> {
    if items == [] then []
    else (if IsIn(items[0], begin, end) then [items[0].row] else []) + InRange(items[1..], begin, end)
  }

  function First(rows: seq<nat>, limit: int): seq<nat> {
    if limit <= 0 then [] else if |rows| <= limit then rows else rows[..limit]
  }

  /** The items before the first one that is after the range. */
  function UntilAfter(items: seq<Item>, end: int): seq<Item> {
    if items == [] || IsAfter(items[0], end) then [] else [items[0]] + UntilAfter(items[1..], end)
  }

  ghost predicate Sorted(items: seq<Item>) {
    forall a, b :: 0 <= a < b < |items| && items[a].Event? && items[b].Event? ==> items[a].time <= items[b].time
  }

  // ---------------------------------------------------------------------------
  // The three loops
  // ---------------------------------------------------------------------------

  /** What the loop over metrics appends when it has appended `taken` rows. */
  function MetricsScan(items: seq<Item>, begin: int, end: int, limit: int, taken: nat): seq<nat> {
    if items == [] then []
    else
      var x := items[0];
      if x.Other? || x.time < begin then MetricsScan(items[1..], begin, end, limit, taken)
      else if x.time > end || taken >= limit then []
      else [x.row] + if taken + 1 < limit then MetricsScan(items[1..], begin, end, limit, taken + 1) else []
  }

  /** The same for ThreadEventsRecordBuilder, which looks at the limit first. */
  function ThreadScan(items: seq<Item>, begin: int, end: int, limit: int, taken: nat): seq<nat> {
    if items == [] then []
    else
      var x := items[0];
      if x.Other? then ThreadScan(items[1..], begin, end, limit, taken)
      else if taken >= limit then []
      else if x.time < begin then ThreadScan(items[1..], begin, end, limit, taken)
      else if x.time > end then []
      else [x.row] + if taken + 1 < limit then ThreadScan(items[1..], begin, end, limit, taken + 1) else []
  }

  /** One block of log entries: only the block is left early. */
  function LogScan(items: seq<Item>, begin: int, end: int, limit: int, taken: nat): seq<nat> {
    if items == [] then []
    else
      var x := items[0];
      if x.Other? then LogScan(items[1..], begin, end, limit, taken)
      else if begin <= x.time <= end && taken < limit then
        [x.row] + if taken + 1 < limit then LogScan(items[1..], begin, end, limit, taken + 1) else []
      else if x.time <= end && taken < limit then LogScan(items[1..], begin, end, limit, taken)
      else []
  }

  /** make_metrics_record_batch. */
  method MetricsRows(blocks: seq<seq<Item>>, begin: int, end: int, limit: int) returns (rows: seq<nat>)
    ensures rows == First(InRange(UntilAfter(Flatten(blocks), end), begin, end), limit)
    ensures Sorted(Flatten(blocks)) ==> rows == First(InRange(Flatten(blocks), begin, end), limit)
  {
    MetricsScanIs(Flatten(blocks), begin, end, limit, 0);
    if Sorted(Flatten(blocks)) {
      MetricsFilterThenTake(blocks, begin, end, limit);
    }
    rows := MetricsLoop(blocks, begin, end, limit);
  }

  /** One measure: what is appended, and whether the loop goes on. */
  lemma MetricsStep(x: Item, rest: seq<Item>, begin: int, end: int, limit: int, rows: seq<nat>)
    ensures rows + MetricsScan([x] + rest, begin, end, limit, |rows|) ==
            if x.Other? || x.time < begin then rows + MetricsScan(rest, begin, end, limit, |rows|)
            else if x.time > end || |rows| >= limit then rows
            else if |rows| + 1 < limit then (rows + [x.row]) + MetricsScan(rest, begin, end, limit, |rows| + 1)
            else rows + [x.row]
  {
    assert ([x] + rest)[1..] == rest && rows + [] == rows;
    if x.Event? && begin <= x.time <= end && |rows| < limit {
      var more := if |rows| + 1 < limit then MetricsScan(rest, begin, end, limit, |rows| + 1) else [];
      Associate(rows, [x.row], more);
    }
  }

  lemma Associate(a: seq<nat>, b: seq<nat>, c: seq<nat>)
    ensures a + (b + c) == (a + b) + c && a + [] == a && (a + b) + [] == a + b
  {
  }

  lemma FlattenAt(blocks: seq<seq<Item>>, i: nat)
    requires i < |blocks|
    ensures Flatten(blocks[i..]) == blocks[i] + Flatten(blocks[i + 1..])
  {
    assert blocks[i..][1..] == blocks[i + 1..];
  }

  lemma MetricsNone(begin: int, end: int, limit: int, rows: seq<nat>)
    ensures rows + MetricsScan(Flatten([]), begin, end, limit, |rows|) == rows
  {
  }

  method MetricsLoop(blocks: seq<seq<Item>>, begin: int, end: int, limit: int) returns (rows: seq<nat>)
    ensures rows == MetricsScan(Flatten(blocks), begin, end, limit, 0)
  {
    hide MetricsScan, Flatten;
    rows := [];
    var nb := 0;
    ghost var all := MetricsScan(Flatten(blocks), begin, end, limit, 0);
    assert blocks[0..] == blocks && [] + all == all;
    for i := 0 to |blocks|
      invariant nb == |rows| && rows + MetricsScan(Flatten(blocks[i..]), begin, end, limit, nb) == all
    {
      var continueIterating, j := true, 0;
      ghost var later := Flatten(blocks[i + 1..]);
      FlattenAt(blocks, i);
      assert blocks[i][0..] == blocks[i];
      while j < |blocks[i]| && continueIterating
        invariant j <= |blocks[i]| && nb == |rows|
        invariant if continueIterating then rows + MetricsScan(blocks[i][j..] + later, begin, end, limit, nb) == all
          else rows == all
      {
        var measure := blocks[i][j];
        assert blocks[i][j..] + later == [measure] + (blocks[i][j + 1..] + later);
        MetricsStep(measure, blocks[i][j + 1..] + later, begin, end, limit, rows);
        if measure.Event? && measure.time >= begin {
          if measure.time > end || nb >= limit {
            continueIterating := false;
          } else {
            rows := rows + [measure.row];
            nb := nb + 1;
            continueIterating := nb < limit;
          }
        }
        j := j + 1;
      }
      if !continueIterating {
        return;
      }
      assert blocks[i][j..] + later == later;
    }
    assert blocks[|blocks|..] == [];
    MetricsNone(begin, end, limit, rows);
  }

  /** A block of a thread stream: its events are numbered from its object offset. */
  datatype ThreadBlock = ThreadBlock(objectOffset: nat, items: seq<Item>)

  function Numbered(items: seq<Item>, offset: nat): seq<Item> {
    if items == [] then []
    else [if items[0].Event? then Event(items[0].time, offset) else Other] + Numbered(items[1..], offset + 1)
  }

  function NumberAll(blocks: seq<ThreadBlock>): seq<Item> {
    if blocks == [] then [] else Numbered(blocks[0].items, blocks[0].objectOffset) + NumberAll(blocks[1..])
  }

  class ThreadEventsRecordBuilder {
    const beginQuery: int
    const endQuery: int
    const limit: int
    var ids: seq<nat>
    var nbRows: nat

    constructor (begin: int, end: int, limit: int)
      ensures beginQuery == begin && endQuery == end && this.limit == limit && ids == [] && nbRows == 0
    {
      beginQuery, endQuery, this.limit := begin, end, limit;
      ids, nbRows := [], 0;
    }

    /** ThreadEventsRecordBuilder::process_event: whether to go on. With what it appends, it goes one step through
        the scan. */
    method ProcessEvent(eventId: nat, time: int, ghost rest: seq<Item>) returns (ok: bool)
      requires nbRows == |ids|
      modifies this
      ensures nbRows == |ids|
      ensures old(ids) + ThreadScan([Event(time, eventId)] + rest, beginQuery, endQuery, limit, old(nbRows))
           == ids + if ok then ThreadScan(rest, beginQuery, endQuery, limit, nbRows) else []
    {
      assert ([Event(time, eventId)] + rest)[1..] == rest;
      Associate(ids, [], []);
      if nbRows >= limit {
        return false;
      }
      if time < beginQuery {
        return true;
      }
      if time > endQuery {
        return false;
      }
      ghost var more := if nbRows + 1 < limit then ThreadScan(rest, beginQuery, endQuery, limit, nbRows + 1) else [];
      Associate(ids, [eventId], more);
      nbRows := nbRows + 1;
      ids := ids + [eventId];
      return nbRows < limit;
    }
  }

  /** make_thread_events_record_batch, over parse_thread_block. */
  method ThreadRows(blocks: seq<ThreadBlock>, begin: int, end: int, limit: int) returns (rows: seq<nat>)
    ensures rows == First(InRange(UntilAfter(NumberAll(blocks), end), begin, end), limit)
    ensures Sorted(NumberAll(blocks)) ==> rows == First(InRange(NumberAll(blocks), begin, end), limit)
  {
    ThreadScanIs(NumberAll(blocks), begin, end, limit, 0);
    if Sorted(NumberAll(blocks)) {
      ThreadFilterThenTake(blocks, begin, end, limit);
    }
    rows := ThreadLoop(blocks, begin, end, limit);
  }

  lemma NumberedAt(items: seq<Item>, j: nat, id: nat, later: seq<Item>)
    requires j < |items|
    ensures Numbered(items[j..], id) + later
         == [if items[j].Event? then Event(items[j].time, id) else Other] + (Numbered(items[j + 1..], id + 1) + later)
  {
    assert items[j..][1..] == items[j + 1..];
  }

  lemma NumberAllAt(blocks: seq<ThreadBlock>, i: nat)
    requires i < |blocks|
    ensures NumberAll(blocks[i..]) == Numbered(blocks[i].items[0..], blocks[i].objectOffset)
      + NumberAll(blocks[i + 1..])
  {
    assert blocks[i..][1..] == blocks[i + 1..] && blocks[i].items[0..] == blocks[i].items;
  }

  lemma ThreadNone(begin: int, end: int, limit: int, taken: nat, id: nat, later: seq<Item>)
    ensures ThreadScan(NumberAll([]), begin, end, limit, taken) == [] && Numbered([], id) + later == later
  {
  }

  lemma ThreadOther(rest: seq<Item>, begin: int, end: int, limit: int, taken: nat)
    ensures ThreadScan([Other] + rest, begin, end, limit, taken) == ThreadScan(rest, begin, end, limit, taken)
  {
    assert ([Other] + rest)[1..] == rest;
  }

  method ThreadLoop(blocks: seq<ThreadBlock>, begin: int, end: int, limit: int) returns (rows: seq<nat>)
    ensures rows == ThreadScan(NumberAll(blocks), begin, end, limit, 0)
  {
    hide ThreadScan, NumberAll, Numbered;
    var b := new ThreadEventsRecordBuilder(begin, end, limit);
    ghost var all := ThreadScan(NumberAll(blocks), begin, end, limit, 0);
    assert blocks[0..] == blocks && [] + all == all;
    for i := 0 to |blocks|
      invariant b.nbRows == |b.ids| && b.beginQuery == begin && b.endQuery == end && b.limit == limit
      invariant b.ids + ThreadScan(NumberAll(blocks[i..]), begin, end, limit, b.nbRows) == all
    {
      var items, eventId := blocks[i].items, blocks[i].objectOffset;
      ghost var later := NumberAll(blocks[i + 1..]);
      NumberAllAt(blocks, i);
      var continueIterating, j := true, 0;
      while j < |items| && continueIterating
        invariant j <= |items| && b.nbRows == |b.ids| && eventId == blocks[i].objectOffset + j
        invariant b.ids + (if continueIterating
          then ThreadScan(Numbered(items[j..], eventId) + later, begin, end, limit, b.nbRows) else [])
               == all
      {
        ghost var rest := Numbered(items[j + 1..], eventId + 1) + later;
        NumberedAt(items, j, eventId, later);
        if items[j].Event? {
          continueIterating := b.ProcessEvent(eventId, items[j].time, rest);
        } else {
          ThreadOther(rest, begin, end, limit, b.nbRows);
        }
        eventId := eventId + 1;
        j := j + 1;
      }
      if !continueIterating {
        Associate(b.ids, [], []);
        return b.ids;
      }
      assert items[j..] == [];
      ThreadNone(begin, end, limit, b.nbRows, eventId, later);
    }
    assert blocks[|blocks|..] == [];
    ThreadNone(begin, end, limit, b.nbRows, 0, []);
    Associate(b.ids, [], []);
    return b.ids;
  }

  /** What the loop over log entries appends, block by block. */
  function LogScanAll(blocks: seq<seq<Item>>, begin: int, end: int, limit: int, taken: nat): seq<nat> {
    if blocks == [] then []
    else
      var rows := LogScan(blocks[0], begin, end, limit, taken);
      rows + LogScanAll(blocks[1..], begin, end, limit, taken + |rows|)
  }

  /** make_log_entries_record_batch. */
  method LogRows(blocks: seq<seq<Item>>, begin: int, end: int, limit: int) returns (rows: seq<nat>)
    ensures (forall b :: b in blocks ==> Sorted(b)) ==> rows == First(InRange(Flatten(blocks), begin, end), limit)
    ensures rows == LogScanAll(blocks, begin, end, limit, 0)
  {
    if forall b :: b in blocks ==> Sorted(b) {
      LogFilterThenTake(blocks, begin, end, limit, 0);
    }
    rows := LogLoop(blocks, begin, end, limit);
  }

  method LogLoop(blocks: seq<seq<Item>>, begin: int, end: int, limit: int) returns (rows: seq<nat>)
    ensures rows == LogScanAll(blocks, begin, end, limit, 0)
  {
    hide LogScan;
    rows := [];
    ghost var all := LogScanAll(blocks, begin, end, limit, 0);
    assert blocks[0..] == blocks && [] + all == all;
    for i := 0 to |blocks|
      invariant rows + LogScanAll(blocks[i..], begin, end, limit, |rows|) == all
    {
      assert blocks[i..][1..] == blocks[i + 1..];
      ghost var before, more := rows, LogScan(blocks[i], begin, end, limit, |rows|);
      rows := LogBlockRows(blocks[i], begin, end, limit, rows);
      Associate(before, more, LogScanAll(blocks[i + 1..], begin, end, limit, |rows|));
    }
    Associate(rows, [], []);
  }

  lemma LogStep(items: seq<Item>, begin: int, end: int, limit: int, was: seq<nat>)
    requires items != [] && items[0].Event?
    ensures var x := items[0];
            var rows := if begin <= x.time <= end && |was| < limit then was + [x.row] else was;
            was + LogScan(items, begin, end, limit, |was|)
            == rows + if x.time <= end && |rows| < limit then LogScan(items[1..], begin, end, limit, |rows|) else []
  {
    var x := items[0];
    if begin <= x.time <= end && |was| < limit {
      var more := if |was| + 1 < limit then LogScan(items[1..], begin, end, limit, |was| + 1) else [];
      assert was + ([x.row] + more) == was + [x.row] + more;
    }
  }

  method LogBlockRows(block: seq<Item>, begin: int, end: int, limit: int, before: seq<nat>) returns (rows: seq<nat>)
    ensures rows == before + LogScan(block, begin, end, limit, |before|)
  {
    hide LogScan;
    rows := before;
    var continueIterating, j := true, 0;
    ghost var all := before + LogScan(block, begin, end, limit, |before|);
    assert block[0..] == block;
    while j < |block| && continueIterating
      invariant j <= |block|
      invariant if continueIterating then rows + LogScan(block[j..], begin, end, limit, |rows|) == all else rows == all
    {
      var entry := block[j];
      assert block[j..][1..] == block[j + 1..];
      if entry.Event? {
        LogStep(block[j..], begin, end, limit, rows);
        if entry.time >= begin && entry.time <= end && |rows| < limit {
          rows := rows + [entry.row];
        }
        continueIterating := entry.time <= end && |rows| < limit;
        Associate(rows, [], []);
      } else {
        LogOther(block[j..], begin, end, limit, |rows|);
      }
      j := j + 1;
    }
    LogNone(block[j..], begin, end, limit, |rows|);
    Associate(rows, [], []);
  }

  lemma LogOther(items: seq<Item>, begin: int, end: int, limit: int, taken: nat)
    requires items != [] && items[0].Other?
    ensures LogScan(items, begin, end, limit, taken) == LogScan(items[1..], begin, end, limit, taken)
  {
  }

  lemma LogNone(items: seq<Item>, begin: int, end: int, limit: int, taken: nat)
    ensures items == [] ==> LogScan(items, begin, end, limit, taken) == []
  {
  }

  // ---------------------------------------------------------------------------
  // Filter, then take
  // ---------------------------------------------------------------------------

  lemma FirstNone(limit: int)
    ensures First([], limit) == []
  {
  }

  lemma FirstStep(x: nat, rows: seq<nat>, limit: int)
    ensures First([x] + rows, limit) == if limit <= 0 then [] else [x] + First(rows, limit - 1)
    ensures limit <= 1 ==> First(rows, limit - 1) == []
    ensures limit <= 0 ==> First(rows, limit) == []
  {
  }

  lemma SeenStep(items: seq<Item>, begin: int, end: int)
    requires items != []
    ensures InRange(UntilAfter(items, end), begin, end) ==
            if IsAfter(items[0], end) then []
            else if IsIn(items[0], begin, end) then [items[0].row] + InRange(UntilAfter(items[1..], end), begin, end)
            else InRange(UntilAfter(items[1..], end), begin, end)
  {
    if !IsAfter(items[0], end) {
      assert UntilAfter(items, end)[1..] == UntilAfter(items[1..], end);
      Associate([], [], InRange(UntilAfter(items[1..], end), begin, end));
    }
  }

  lemma {:induction false} EmptyRange(items: seq<Item>, begin: int, end: int, limit: int, taken: nat)
    requires begin > end
    ensures InRange(items, begin, end) == MetricsScan(items, begin, end, limit, taken)
      == ThreadScan(items, begin, end, limit, taken) == []
  {
    if items != [] {
      EmptyRange(items[1..], begin, end, limit, taken);
    }
  }

  lemma {:induction false} MetricsScanIs(items: seq<Item>, begin: int, end: int, limit: int, taken: nat)
    ensures MetricsScan(items, begin, end, limit, taken)
      == First(InRange(UntilAfter(items, end), begin, end), limit - taken)
  {
    if begin > end {
      EmptyRange(items, begin, end, limit, taken);
      EmptyRange(UntilAfter(items, end), begin, end, limit, taken);
    } else if items == [] {
      FirstNone(limit - taken);
    } else {
      hide First, InRange, UntilAfter;
      SeenStep(items, begin, end);
      var x, rest := items[0], items[1..];
      if !IsAfter(x, end) {
        MetricsScanIs(rest, begin, end, limit, if IsIn(x, begin, end) then taken + 1 else taken);
        if IsIn(x, begin, end) {
          FirstStep(x.row, InRange(UntilAfter(rest, end), begin, end), limit - taken);
        }
      } else {
        FirstNone(limit - taken);
      }
    }
  }

  lemma {:induction false} ThreadScanIs(items: seq<Item>, begin: int, end: int, limit: int, taken: nat)
    ensures ThreadScan(items, begin, end, limit, taken)
      == First(InRange(UntilAfter(items, end), begin, end), limit - taken)
  {
    if begin > end {
      EmptyRange(items, begin, end, limit, taken);
      EmptyRange(UntilAfter(items, end), begin, end, limit, taken);
    } else if items == [] {
      FirstNone(limit - taken);
    } else {
      hide First, InRange, UntilAfter;
      SeenStep(items, begin, end);
      var x, rest := items[0], items[1..];
      if !IsAfter(x, end) {
        ThreadScanIs(rest, begin, end, limit, if IsIn(x, begin, end) then taken + 1 else taken);
        if IsIn(x, begin, end) {
          FirstStep(x.row, InRange(UntilAfter(rest, end), begin, end), limit - taken);
        }
      } else {
        FirstNone(limit - taken);
      }
    }
  }

  lemma {:induction false} LogScanIs(items: seq<Item>, begin: int, end: int, limit: int, taken: nat)
    ensures LogScan(items, begin, end, limit, taken)
      == First(InRange(UntilAfter(items, end), begin, end), limit - taken)
  {
    if items == [] {
      FirstNone(limit - taken);
    } else {
      hide First, InRange, UntilAfter;
      SeenStep(items, begin, end);
      var x, rest := items[0], items[1..];
      if !IsAfter(x, end) {
        LogScanIs(rest, begin, end, limit, if IsIn(x, begin, end) && taken < limit then taken + 1 else taken);
        if IsIn(x, begin, end) {
          FirstStep(x.row, InRange(UntilAfter(rest, end), begin, end), limit - taken);
        }
      } else {
        FirstNone(limit - taken);
      }
    }
  }

  lemma {:induction false} InRangeAppend(a: seq<Item>, b: seq<Item>, begin: int, end: int)
    ensures InRange(a + b, begin, end) == InRange(a, begin, end) + InRange(b, begin, end)
  {
    if a == [] {
      assert a + b == b;
    } else {
      assert (a + b)[0] == a[0] && (a + b)[1..] == a[1..] + b;
      InRangeAppend(a[1..], b, begin, end);
    }
  }

  /** The items that a loop never looks at. */
  function Unseen(items: seq<Item>, end: int): seq<Item> {
    if items == [] || IsAfter(items[0], end) then items else Unseen(items[1..], end)
  }

  lemma {:induction false} SeenAndUnseen(items: seq<Item>, end: int)
    ensures items == UntilAfter(items, end) + Unseen(items, end)
  {
    if items != [] && !IsAfter(items[0], end) {
      SeenAndUnseen(items[1..], end);
    }
  }

  /** Leaving at the first event after the range gives the first rows of the range if, and only if, there are enough
      rows before it or none after it. */
  lemma StopIsRightIff(items: seq<Item>, begin: int, end: int, limit: int)
    ensures First(InRange(UntilAfter(items, end), begin, end), limit) == First(InRange(items, begin, end), limit)
            <==> limit <= |InRange(UntilAfter(items, end), begin, end)| || InRange(Unseen(items, end), begin, end) == []
  {
    SeenAndUnseen(items, end);
    InRangeAppend(UntilAfter(items, end), Unseen(items, end), begin, end);
    var a, b := InRange(UntilAfter(items, end), begin, end), InRange(Unseen(items, end), begin, end);
    if limit <= |a| {
      assert limit > 0 ==> (a + b)[..limit] == a[..limit];
    } else if b != [] {
      assert |First(a + b, limit)| > |First(a, limit)|;
    } else {
      assert a + b == a;
    }
  }

  lemma {:induction false} NothingAfter(items: seq<Item>, begin: int, end: int)
    requires forall x :: x in items && x.Event? ==> x.time > end
    ensures InRange(items, begin, end) == []
  {
    if items != [] {
      NothingAfter(items[1..], begin, end);
    }
  }

  lemma {:induction false} SortedUnseen(items: seq<Item>, begin: int, end: int)
    requires Sorted(items)
    ensures InRange(Unseen(items, end), begin, end) == []
    ensures InRange(UntilAfter(items, end), begin, end) == InRange(items, begin, end)
  {
    if items != [] {
      if IsAfter(items[0], end) {
        NothingAfter(items, begin, end);
      } else {
        SortedUnseen(items[1..], begin, end);
        assert UntilAfter(items, end)[1..] == UntilAfter(items[1..], end);
      }
    }
  }

  /** Over sorted events, the three loops filter and then take. */
  lemma MetricsFilterThenTake(blocks: seq<seq<Item>>, begin: int, end: int, limit: int)
    requires Sorted(Flatten(blocks))
    ensures MetricsScan(Flatten(blocks), begin, end, limit, 0) == First(InRange(Flatten(blocks), begin, end), limit)
  {
    MetricsScanIs(Flatten(blocks), begin, end, limit, 0);
    SortedUnseen(Flatten(blocks), begin, end);
  }

  lemma ThreadFilterThenTake(blocks: seq<ThreadBlock>, begin: int, end: int, limit: int)
    requires Sorted(NumberAll(blocks))
    ensures ThreadScan(NumberAll(blocks), begin, end, limit, 0) == First(InRange(NumberAll(blocks), begin, end), limit)
  {
    ThreadScanIs(NumberAll(blocks), begin, end, limit, 0);
    SortedUnseen(NumberAll(blocks), begin, end);
  }

  lemma FirstOfTwo(a: seq<nat>, b: seq<nat>, limit: int)
    ensures First(a + b, limit) == First(a, limit) + First(b, limit - |First(a, limit)|)
  {
  }

  lemma NothingToTake(begin: int, end: int, limit: int)
    ensures First(InRange([], begin, end), limit) == []
  {
  }

  /** Log entries only need to be sorted inside each block: the next block is always looked at. */
  lemma {:induction false} LogFilterThenTake(blocks: seq<seq<Item>>, begin: int, end: int, limit: int, taken: nat)
    requires forall b :: b in blocks ==> Sorted(b)
    ensures LogScanAll(blocks, begin, end, limit, taken) == First(InRange(Flatten(blocks), begin, end), limit - taken)
  {
    hide First, InRange, LogScan, Sorted;
    if blocks == [] {
      NothingToTake(begin, end, limit - taken);
    } else {
      var rows := LogScan(blocks[0], begin, end, limit, taken);
      LogScanIs(blocks[0], begin, end, limit, taken);
      SortedUnseen(blocks[0], begin, end);
      LogFilterThenTake(blocks[1..], begin, end, limit, taken + |rows|);
      InRangeAppend(blocks[0], Flatten(blocks[1..]), begin, end);
      FirstOfTwo(InRange(blocks[0], begin, end), InRange(Flatten(blocks[1..]), begin, end), limit - taken);
    }
  }

  /** Two blocks, each sorted, that are not in order: the loops that leave for good miss a row that log entries have. */
  lemma BlocksOutOfOrder()
    ensures var blocks := [[Event(5, 0)], [Event(1, 1)]];
            && (forall b :: b in blocks ==> Sorted(b))
            && MetricsScan(Flatten(blocks), 0, 2, 10, 0) == [] && LogScanAll(blocks, 0, 2, 10, 0) == [1]
            && First(InRange(Flatten(blocks), 0, 2), 10) == [1]
  {
    var blocks := [[Event(5, 0)], [Event(1, 1)]];
    assert blocks[1..] == [[Event(1, 1)]] && Flatten(blocks) == [Event(5, 0), Event(1, 1)];
    assert Flatten(blocks)[1..] == [Event(1, 1)];
    LogFilterThenTake(blocks, 0, 2, 10, 0);
  }
}
