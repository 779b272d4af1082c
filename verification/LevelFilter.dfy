/** LogMetadata::set_level_filter and level_filter: an atomic word that packs a 16-bit generation with a filter. Any
    number of calls run at once, step by step. All accesses are to one atomic word: a read may return an old value, but
    a call never reads values in the wrong order, and an exchange that succeeds reads the last one. */
module LevelFilter {
  import opened Basics

  const FILTER_LEVEL_UNSET_VALUE := 0xF
  const U16_MODULUS := 0x1_0000

  /** LevelFilter::from_u32 knows 0 to 6. */
  type Filter = x: int | 0 <= x <= 6

  datatype FilterState = Outdated | NotSet | Set(filter: Filter)

  function Generation(word: nat): nat { word / U16_MODULUS % U16_MODULUS }

  function Pack(generation: nat, filter: Option<Filter>): nat {
    (match filter case None => FILTER_LEVEL_UNSET_VALUE case Some(f) => f) + generation * U16_MODULUS
  }

  /** LogMetadata::level_filter on the word that was read. */
  function FilterIn(word: nat, generation: nat): FilterState {
    if generation > Generation(word) then Outdated
    else if word % 16 <= 6 then Set(word % 16)
    else NotSet
  }

  /** What is packed is read back. */
  lemma PackReads(generation: nat, filter: Option<Filter>, asked: nat)
    requires generation < U16_MODULUS
    ensures Pack(generation, filter) == 65536 * generation + match filter case None => 15 case Some(f) => f
    ensures Generation(Pack(generation, filter)) == generation
    ensures FilterIn(Pack(generation, filter), asked) ==
            if asked > generation then Outdated else if filter.None? then NotSet else Set(filter.value)
  {
    var low := if filter.None? then FILTER_LEVEL_UNSET_VALUE else filter.value;
    HighBits(generation, low);
    LowBits(generation, low);
  }

  lemma HighBits(generation: nat, low: nat)
    requires low < U16_MODULUS
    ensures (low + generation * U16_MODULUS) / U16_MODULUS == generation
  {
  }

  lemma LowBits(generation: nat, low: nat)
    requires low < 16
    ensures (low + generation * U16_MODULUS) % 16 == low
  {
    var q := 4096 * generation;
    assert generation * U16_MODULUS == 16 * q;
    Remainder(q, low);
  }

  lemma Remainder(q: nat, low: nat)
    requires low < 16
    ensures (low + 16 * q) % 16 == low
  {
  }

  // ---------------------------------------------------------------------------
  // Concurrent calls
  // ---------------------------------------------------------------------------

  /** Where a call is: before its load, before an exchange that expects the value at `seen`, or done. */
  datatype Progress = Load | Exchange(seen: nat) | Done(wrote: bool)

  datatype Call = Call(generation: nat, filter: Option<Filter>, progress: Progress)

  /** All values that the word has had, and who wrote those after the first. */
  datatype State = State(history: seq<nat>, writers: seq<nat>, calls: seq<Call>)

  /** A load, or the read of an exchange that fails. */
  function AfterRead(c: Call, history: seq<nat>, at: nat): Call
    requires at < |history|
  {
    c.(progress := if c.generation <= Generation(history[at]) then Done(false) else Exchange(at))
  }

  /** One step of call `i`, which reads the value at `at`. */
  predicate CanStep(s: State, i: nat, at: nat) {
    && i < |s.calls| && at < |s.history|
    && match s.calls[i].progress
       case Load => true
       case Exchange(seen) => seen < |s.history| &&
         (s.history[|s.history| - 1] == s.history[seen] || (seen <= at && s.history[at] != s.history[seen]))
       case Done(_) => false
  }

  /** The exchange of call `i` succeeds when the word still has the value that it expects. */
  predicate Succeeds(s: State, i: nat)
    requires i < |s.calls| && s.history != []
  {
    var p := s.calls[i].progress;
    p.Exchange? && p.seen < |s.history| && s.history[|s.history| - 1] == s.history[p.seen]
  }

  function Step(s: State, i: nat, at: nat): State
    requires CanStep(s, i, at)
  {
    var c := s.calls[i];
    if Succeeds(s, i) then
      State(s.history + [Pack(c.generation, c.filter)], s.writers + [i], s.calls[i := c.(progress := Done(true))])
    else
      s.(calls := s.calls[i := AfterRead(c, s.history, at)])
  }

  function Begin(word: nat, requests: seq<(nat, Option<Filter>)>): State {
    State([word], [], seq(|requests|, i requires 0 <= i < |requests| => Call(requests[i].0, requests[i].1, Load)))
  }

  /** A schedule says who steps, and what is read. */
  function Run(s: State, schedule: seq<(nat, nat)>): Option<State>
    decreases |schedule|
  {
    if schedule == [] then Some(s)
    else if CanStep(s, schedule[0].0, schedule[0].1) then Run(Step(s, schedule[0].0, schedule[0].1), schedule[1..])
    else None
  }

  ghost predicate Inv(s: State) {
    && |s.history| == |s.writers| + 1
    && (forall c :: c in s.calls ==> c.generation < U16_MODULUS)
    && (forall j :: 0 <= j < |s.writers| ==> WrittenBy(s, j, s.writers[j]))
    && (forall j :: 0 <= j < |s.writers| ==> Generation(s.history[j]) < Generation(s.history[j + 1]))
    && (forall i :: 0 <= i < |s.calls| ==> CallOk(s, s.calls[i]))
  }

  ghost predicate WrittenBy(s: State, j: nat, i: nat)
    requires j + 1 < |s.history|
  {
    i < |s.calls| && s.calls[i].progress == Done(true)
      && s.history[j + 1] == Pack(s.calls[i].generation, s.calls[i].filter)
  }

  ghost predicate CallOk(s: State, c: Call)
    requires s.history != []
  {
    match c.progress
    case Load => true
    case Exchange(seen) => seen < |s.history| && Generation(s.history[seen]) < c.generation
    case Done(wrote) => c.generation <= Generation(s.history[|s.history| - 1])
  }

  lemma BeginInv(word: nat, requests: seq<(nat, Option<Filter>)>)
    requires forall r :: r in requests ==> r.0 < U16_MODULUS
    ensures Inv(Begin(word, requests))
  {
  }

  /** Later values have greater generations. */
  lemma {:induction false} Rising(s: State, a: nat, b: nat)
    requires Inv(s) && a < b < |s.history|
    ensures Generation(s.history[a]) < Generation(s.history[b])
    decreases b - a
  {
    if a + 1 < b {
      Rising(s, a, b - 1);
      assert Generation(s.history[b - 1]) < Generation(s.history[b - 1 + 1]);
    } else {
      assert Generation(s.history[a]) < Generation(s.history[a + 1]);
    }
  }

  /** Every step keeps the invariant. In particular an exchange that succeeds raises the generation. */
  lemma StepInv(s: State, i: nat, at: nat)
    requires Inv(s) && CanStep(s, i, at)
    ensures Inv(Step(s, i, at))
    ensures Succeeds(s, i) ==> Generation(s.history[|s.history| - 1]) < s.calls[i].generation
  {
    hide Generation, Pack;
    var s', c := Step(s, i, at), s.calls[i];
    assert CallOk(s, c);
    if Succeeds(s, i) {
      PackReads(c.generation, c.filter, 0);
      assert s'.history[|s.history|] == Pack(c.generation, c.filter) && s'.history[..|s.history|] == s.history;
      forall j | 0 <= j < |s'.writers|
        ensures WrittenBy(s', j, s'.writers[j]) && Generation(s'.history[j]) < Generation(s'.history[j + 1])
      {
        if j < |s.writers| {
          assert WrittenBy(s, j, s.writers[j]) && Generation(s.history[j]) < Generation(s.history[j + 1]);
        }
      }
      forall k | 0 <= k < |s'.calls|
        ensures CallOk(s', s'.calls[k])
      {
        assert CallOk(s, s.calls[k]);
      }
    } else {
      LastIsGreatest(s, at);
      forall j | 0 <= j < |s'.writers|
        ensures WrittenBy(s', j, s'.writers[j]) && Generation(s'.history[j]) < Generation(s'.history[j + 1])
      {
        assert WrittenBy(s, j, s.writers[j]) && Generation(s.history[j]) < Generation(s.history[j + 1]);
      }
      forall k | 0 <= k < |s'.calls|
        ensures CallOk(s', s'.calls[k])
      {
        assert CallOk(s, s.calls[k]);
      }
    }
  }

  lemma LastIsGreatest(s: State, at: nat)
    requires Inv(s) && at < |s.history|
    ensures Generation(s.history[at]) <= Generation(s.history[|s.history| - 1])
  {
    if at < |s.history| - 1 {
      Rising(s, at, |s.history| - 1);
    }
  }

  lemma {:induction false} RunInv(s: State, schedule: seq<(nat, nat)>)
    requires Inv(s) && Run(s, schedule).Some?
    ensures Inv(Run(s, schedule).value)
    ensures s.history <= Run(s, schedule).value.history && |Run(s, schedule).value.calls| == |s.calls|
    ensures forall i :: 0 <= i < |s.calls| ==>
      Run(s, schedule).value.calls[i].generation == s.calls[i].generation
        && Run(s, schedule).value.calls[i].filter == s.calls[i].filter
    decreases |schedule|
  {
    hide Inv, AfterRead, Pack, CanStep;
    if schedule != [] {
      var (i, at) := schedule[0];
      StepInv(s, i, at);
      StepKeeps(s, i, at);
      RunInv(Step(s, i, at), schedule[1..]);
    }
  }

  lemma StepKeeps(s: State, i: nat, at: nat)
    requires CanStep(s, i, at)
    ensures s.history <= Step(s, i, at).history && |Step(s, i, at).calls| == |s.calls|
    ensures forall j :: 0 <= j < |s.calls| ==>
      Step(s, i, at).calls[j].generation == s.calls[j].generation && Step(s, i, at).calls[j].filter == s.calls[j].filter
  {
  }

  /** Each generation is written at most once, and each call writes at most once. */
  lemma WrittenOnce(s: State, a: nat, b: nat)
    requires Inv(s) && a < b < |s.writers|
    ensures s.writers[a] != s.writers[b]
    ensures s.calls[s.writers[a]].generation < s.calls[s.writers[b]].generation
  {
    hide Generation, Pack;
    assert WrittenBy(s, a, s.writers[a]) && WrittenBy(s, b, s.writers[b]);
    Rising(s, a + 1, b + 1);
    var x, y := s.calls[s.writers[a]], s.calls[s.writers[b]];
    PackReads(x.generation, x.filter, 0);
    PackReads(y.generation, y.filter, 0);
  }

  /** When all calls have returned, the word has the greatest of the first generation and those that were asked for. */
  lemma FinalIsGreatest(word: nat, requests: seq<(nat, Option<Filter>)>, schedule: seq<(nat, nat)>)
    requires forall r :: r in requests ==> r.0 < U16_MODULUS
    requires Run(Begin(word, requests), schedule).Some?
    requires forall c :: c in Run(Begin(word, requests), schedule).value.calls ==> c.progress.Done?
    ensures var history := Run(Begin(word, requests), schedule).value.history;
            history != [] &&
            var last := history[|history| - 1];
            && Generation(word) <= Generation(last) && (forall r :: r in requests ==> r.0 <= Generation(last))
            && (last == word || exists r :: r in requests && last == Pack(r.0, r.1))
  {
    hide Generation, Pack;
    var s0 := Begin(word, requests);
    BeginInv(word, requests);
    RunInv(s0, schedule);
    var s := Run(s0, schedule).value;
    LastIsGreatest(s, 0);
    assert s.history[0] == word;
    forall r | r in requests
      ensures r.0 <= Generation(s.history[|s.history| - 1])
    {
      var i :| 0 <= i < |requests| && requests[i] == r;
      assert CallOk(s, s.calls[i]) && s.calls[i] in s.calls && s.calls[i].generation == s0.calls[i].generation;
    }
    if |s.writers| > 0 {
      var i := s.writers[|s.writers| - 1];
      assert WrittenBy(s, |s.writers| - 1, i);
      assert s.calls[i].generation == s0.calls[i].generation == requests[i].0 && requests[i] in requests;
    }
  }

  // ---------------------------------------------------------------------------
  // Termination
  // ---------------------------------------------------------------------------

  /** How many steps a call may still take. */
  function StepsLeft(c: Call, n: nat): nat {
    match c.progress
    case Load => n + 2
    case Exchange(seen) => if seen <= n then n + 1 - seen else 0
    case Done(_) => 0
  }

  function Total(calls: seq<Call>, n: nat): nat {
    if calls == [] then 0 else StepsLeft(calls[0], n) + Total(calls[1..], n)
  }

  lemma {:induction false} TotalUpdate(calls: seq<Call>, i: nat, c: Call, n: nat)
    requires i < |calls|
    ensures Total(calls[i := c], n) == Total(calls, n) - StepsLeft(calls[i], n) + StepsLeft(c, n)
    decreases |calls|
  {
    hide StepsLeft;
    var calls' := calls[i := c];
    if i == 0 {
      assert calls'[1..] == calls[1..];
    } else {
      assert calls'[0] == calls[0] && calls'[1..] == calls[1..][i - 1 := c];
      TotalUpdate(calls[1..], i - 1, c, n);
    }
  }

  /** There are never more values than calls, and the first. */
  lemma HistoryBound(s: State)
    requires Inv(s)
    ensures |s.history| <= |s.calls| + 1
  {
    hide Generation, Pack;
    var w := set j | 0 <= j < |s.writers| :: s.writers[j];
    forall j | 0 <= j < |s.writers|
      ensures s.writers[j] < |s.calls|
    {
      assert WrittenBy(s, j, s.writers[j]);
    }
    forall a, b | 0 <= a < b < |s.writers|
      ensures s.writers[a] != s.writers[b]
    {
      WrittenOnce(s, a, b);
    }
    DistinctBelow(s.writers, |s.calls|);
  }

  lemma {:induction false} DistinctBelow(xs: seq<nat>, n: nat)
    requires forall j :: 0 <= j < |xs| ==> xs[j] < n
    requires forall a, b :: 0 <= a < b < |xs| ==> xs[a] != xs[b]
    ensures |xs| <= n
    decreases n
  {
    if xs == [] {
      return;
    }
    assert xs[0] < n;
    if n - 1 in xs {
      var j :| 0 <= j < |xs| && xs[j] == n - 1;
      var rest := xs[..j] + xs[j + 1..];
      forall k | 0 <= k < |rest|
        ensures rest[k] < n - 1
      {
        assert rest[k] == xs[if k < j then k else k + 1];
      }
      DistinctBelow(rest, n - 1);
    } else {
      DistinctBelow(xs, n - 1);
    }
  }

  /** Every step brings the end nearer: an exchange fails only because a later value has been written, and there are no
      more values than calls. */
  lemma StepDecreases(s: State, i: nat, at: nat)
    requires Inv(s) && CanStep(s, i, at)
    ensures Total(Step(s, i, at).calls, |s.calls|) < Total(s.calls, |s.calls|)
  {
    hide Generation, Pack, Total;
    var c := s.calls[i];
    assert CallOk(s, c);
    HistoryBound(s);
    TotalUpdate(s.calls, i, Step(s, i, at).calls[i], |s.calls|);
    if !Succeeds(s, i) && c.progress.Exchange? {
      assert c.progress.seen < at;
    }
  }

  /** So all loops end: no schedule has more steps than the square of the number of calls, and twice that number. */
  lemma {:induction false} SchedulesEnd(s: State, schedule: seq<(nat, nat)>)
    requires Inv(s) && Run(s, schedule).Some?
    ensures |schedule| <= Total(s.calls, |s.calls|)
    decreases |schedule|
  {
    hide Inv, Total, CanStep, StepsLeft;
    if schedule != [] {
      var (i, at) := schedule[0];
      StepInv(s, i, at);
      StepDecreases(s, i, at);
      StepKeeps(s, i, at);
      SchedulesEnd(Step(s, i, at), schedule[1..]);
    }
  }

  lemma {:induction false} TotalBound(calls: seq<Call>, n: nat)
    ensures Total(calls, n) <= |calls| * (n + 2)
    decreases |calls|
  {
    if calls != [] {
      TotalBound(calls[1..], n);
      assert |calls| * (n + 2) == (|calls| - 1) * (n + 2) + (n + 2);
    }
  }

  lemma AllCallsReturn(word: nat, requests: seq<(nat, Option<Filter>)>, schedule: seq<(nat, nat)>)
    requires forall r :: r in requests ==> r.0 < U16_MODULUS
    requires Run(Begin(word, requests), schedule).Some?
    ensures |schedule| <= |requests| * (|requests| + 2)
  {
    hide Total, Inv;
    var s := Begin(word, requests);
    BeginInv(word, requests);
    SchedulesEnd(s, schedule);
    TotalBound(s.calls, |s.calls|);
  }

  /** A call that has not returned can always step: nobody waits for another. */
  lemma NobodyWaits(s: State, i: nat)
    requires Inv(s) && i < |s.calls| && !s.calls[i].progress.Done?
    ensures exists at :: CanStep(s, i, at)
  {
    hide Generation, Pack;
    assert CallOk(s, s.calls[i]);
    assert CanStep(s, i, |s.history| - 1);
  }
}
