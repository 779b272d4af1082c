/** CompositeSink: the filter of a target is found by a search over the configured names, and cached in the word of
    LevelFilter. */
module FilterCache {
  import opened Basics
  import opened LevelFilter

  const GENERATION := 1
  const USIZE_MODULUS := 0x1_0000_0000_0000_0000

  datatype Entry = Entry(name: string, filter: Filter)

  // ---------------------------------------------------------------------------
  // The search
  // ---------------------------------------------------------------------------

  /** name.len().wrapping_neg() */
  function Key(e: Entry): nat {
    (USIZE_MODULUS - |e.name| % USIZE_MODULUS) % USIZE_MODULUS
  }

  function Insert(e: Entry, sorted: seq<Entry>): seq<Entry> {
    if sorted == [] then [e]
    else if Key(e) <= Key(sorted[0]) then [e] + sorted
    else [sorted[0]] + Insert(e, sorted[1..])
  }

  /** sort_by_key is stable: entries with the same key stay in their order. */
  function SortByKey(entries: seq<Entry>): seq<Entry> {
    if entries == [] then [] else Insert(entries[0], SortByKey(entries[1..]))
  }

  predicate StartsWith(target: string, e: Entry) { e.name <= target }

  /** The first name that the target starts with. */
  ghost predicate IsFirstPrefix(target: string, entries: seq<Entry>, i: nat) {
    i < |entries| && entries[i].name <= target && forall j :: 0 <= j < i ==> !(entries[j].name <= target)
  }

  /** CompositeSink::find_max_match. */
  method FindMaxMatch(target: string, entries: seq<Entry>) returns (r: Option<Filter>)
    ensures r == FirstMatch(target, entries)
    ensures r.None? ==> forall i :: 0 <= i < |entries| ==> !(entries[i].name <= target)
    ensures r.Some? ==> exists i: nat :: IsFirstPrefix(target, entries, i) && r == Some(entries[i].filter)
  {
    for i := 0 to |entries|
      invariant FirstMatch(target, entries) == FirstMatch(target, entries[i..])
      invariant forall j :: 0 <= j < i ==> !(entries[j].name <= target)
    {
      if StartsWith(target, entries[i]) {
        assert IsFirstPrefix(target, entries, i);
        return Some(entries[i].filter);
      }
      assert entries[i..][1..] == entries[i + 1..];
    }
    r := None;
  }

  function FirstMatch(target: string, entries: seq<Entry>): Option<Filter> {
    if entries == [] then None
    else if StartsWith(target, entries[0]) then Some(entries[0].filter)
    else FirstMatch(target, entries[1..])
  }

  /** The longest name that the target starts with, and the first of those that are the same. */
  function Longest(target: string, entries: seq<Entry>): Option<Entry> {
    if entries == [] then None
    else
      var r := Longest(target, entries[1..]);
      if StartsWith(target, entries[0]) && (r.None? || |r.value.name| <= |entries[0].name|) then Some(entries[0]) else r
  }

  /** What Longest means. */
  lemma {:induction false} LongestIsLongest(target: string, entries: seq<Entry>)
    ensures var r := Longest(target, entries);
            && (r.None? <==> forall e :: e in entries ==> !(e.name <= target))
            && (r.Some? ==> r.value in entries && r.value.name <= target
                            && forall e :: e in entries && e.name <= target ==> |e.name| <= |r.value.name|)
  {
    if entries != [] {
      LongestIsLongest(target, entries[1..]);
      assert forall e :: e in entries <==> e == entries[0] || e in entries[1..];
    }
  }

  ghost predicate Named(entries: seq<Entry>) {
    forall e :: e in entries ==> 0 < |e.name| < USIZE_MODULUS
  }

  /** Sorted by falling length. */
  ghost predicate Falling(entries: seq<Entry>) {
    entries == [] || ((forall e :: e in entries[1..] ==> |e.name| <= |entries[0].name|) && Falling(entries[1..]))
  }

  lemma KeyFalls(a: Entry, b: Entry)
    requires 0 < |a.name| < USIZE_MODULUS && 0 < |b.name| < USIZE_MODULUS
    ensures Key(a) <= Key(b) <==> |a.name| >= |b.name|
  {
  }

  lemma {:induction false} InsertElements(e: Entry, sorted: seq<Entry>)
    ensures multiset(Insert(e, sorted)) == multiset{e} + multiset(sorted)
  {
    if sorted != [] && Key(e) > Key(sorted[0]) {
      InsertElements(e, sorted[1..]);
      assert sorted == [sorted[0]] + sorted[1..];
    }
  }

  lemma {:induction false} SortElements(entries: seq<Entry>)
    ensures multiset(SortByKey(entries)) == multiset(entries)
  {
    if entries != [] {
      SortElements(entries[1..]);
      InsertElements(entries[0], SortByKey(entries[1..]));
      assert entries == [entries[0]] + entries[1..];
    }
  }

  lemma SameMembers(a: seq<Entry>, b: seq<Entry>)
    requires multiset(a) == multiset(b)
    ensures forall e :: e in a <==> e in b
  {
    forall e
      ensures e in a <==> e in b
    {
      assert e in a <==> e in multiset(a);
    }
  }

  lemma {:induction false} InsertFalling(e: Entry, sorted: seq<Entry>)
    requires Named([e] + sorted) && Falling(sorted)
    ensures Falling(Insert(e, sorted)) && Named(Insert(e, sorted))
  {
    hide Key;
    InsertElements(e, sorted);
    assert multiset([e] + sorted) == multiset{e} + multiset(sorted);
    SameMembers(Insert(e, sorted), [e] + sorted);
    if sorted != [] {
      NamedHere(e, sorted);
      KeyFalls(e, sorted[0]);
      if Key(e) > Key(sorted[0]) {
        NamedRest(e, sorted);
        InsertFalling(e, sorted[1..]);
        InsertElements(e, sorted[1..]);
        assert multiset([e] + sorted[1..]) == multiset{e} + multiset(sorted[1..]);
        SameMembers(Insert(e, sorted[1..]), [e] + sorted[1..]);
        assert Insert(e, sorted)[1..] == Insert(e, sorted[1..]);
      } else {
        assert Insert(e, sorted)[1..] == sorted;
      }
    }
  }

  /** Inserting in a sorted list: the first match of the result is the new entry, if it matches and nothing that
      matches is longer, or the first match as it was. */
  lemma {:induction false} InsertMatch(target: string, e: Entry, sorted: seq<Entry>)
    requires Named([e] + sorted) && Falling(sorted)
    ensures FirstMatch(target, Insert(e, sorted)) ==
            (var r := Longest(target, sorted);
             if StartsWith(target, e) && (r.None? || |r.value.name| <= |e.name|) then Some(e.filter)
             else FirstMatch(target, sorted))
  {
    hide Key, StartsWith, Named;
    LongestIsLongest(target, sorted);
    if sorted != [] {
      assert 0 < |e.name| < USIZE_MODULUS && 0 < |sorted[0].name| < USIZE_MODULUS by { NamedHere(e, sorted); }
      KeyFalls(e, sorted[0]);
      if Key(e) > Key(sorted[0]) {
        NamedRest(e, sorted);
        InsertMatch(target, e, sorted[1..]);
      } else {
        assert forall x :: x in sorted ==> x == sorted[0] || x in sorted[1..];
      }
    }
  }

  lemma NamedHere(e: Entry, sorted: seq<Entry>)
    requires Named([e] + sorted) && sorted != []
    ensures 0 < |e.name| < USIZE_MODULUS && 0 < |sorted[0].name| < USIZE_MODULUS
  {
    assert e in [e] + sorted && sorted[0] in [e] + sorted;
  }

  lemma NamedRest(e: Entry, sorted: seq<Entry>)
    requires Named([e] + sorted) && sorted != []
    ensures Named([e] + sorted[1..])
  {
    assert forall x :: x in [e] + sorted[1..] ==> x in [e] + sorted;
  }

  /** The length of the longest match does not depend on the order. */
  lemma SameLength(target: string, a: seq<Entry>, b: seq<Entry>)
    requires forall e :: e in a <==> e in b
    ensures Longest(target, a).None? <==> Longest(target, b).None?
    ensures Longest(target, a).Some? ==> |Longest(target, a).value.name| == |Longest(target, b).value.name|
  {
    LongestIsLongest(target, a);
    LongestIsLongest(target, b);
  }

  /** Without an empty name, the search over the sorted names finds the longest prefix. */
  lemma {:induction false} SearchIsLongest(target: string, entries: seq<Entry>)
    requires Named(entries)
    ensures Falling(SortByKey(entries))
    ensures FirstMatch(target, SortByKey(entries)) ==
            match Longest(target, entries) case None => None case Some(e) => Some(e.filter)
  {
    hide Insert, StartsWith;
    if entries != [] {
      var e, rest := entries[0], entries[1..];
      SearchIsLongest(target, rest);
      SortElements(rest);
      SameMembers(SortByKey(rest), rest);
      SameLength(target, SortByKey(rest), rest);
      InsertFalling(e, SortByKey(rest));
      InsertMatch(target, e, SortByKey(rest));
    }
  }

  /** An empty name has the smallest key: it comes first, and matches every target. */
  lemma {:induction false} EmptyNameWins(target: string, entries: seq<Entry>, i: nat)
    requires forall e :: e in entries ==> |e.name| < USIZE_MODULUS
    requires i < |entries| && entries[i].name == [] && forall j :: 0 <= j < i ==> entries[j].name != []
    ensures SortByKey(entries) != [] && SortByKey(entries)[0] == entries[i]
    ensures FirstMatch(target, SortByKey(entries)) == Some(entries[i].filter)
    decreases |entries|
  {
    if i > 0 {
      assert entries[0] in entries;
      EmptyNameWins(target, entries[1..], i - 1);
    }
  }

  /** The filter of the first entry with a name. */
  function FirstFilter(entries: seq<Entry>, name: string): Option<Filter> {
    if entries == [] then None
    else if entries[0].name == name then Some(entries[0].filter)
    else FirstFilter(entries[1..], name)
  }

  lemma {:induction false} LongestIsFirst(target: string, entries: seq<Entry>)
    requires Longest(target, entries).Some?
    ensures var e := Longest(target, entries).value; FirstFilter(entries, e.name) == Some(e.filter)
  {
    LongestIsLongest(target, entries[1..]);
    if Longest(target, entries[1..]).Some? {
      LongestIsFirst(target, entries[1..]);
    }
  }

  lemma PrefixesOfOneLength(target: string, a: Entry, b: Entry)
    requires StartsWith(target, a) && StartsWith(target, b) && |a.name| == |b.name|
    ensures a.name == b.name
  {
  }

  lemma {:induction false} FirstEmpty(entries: seq<Entry>, name: string) returns (i: nat)
    requires FirstFilter(entries, name).Some?
    ensures i < |entries| && entries[i].name == name && FirstFilter(entries, name) == Some(entries[i].filter)
    ensures forall j :: 0 <= j < i ==> entries[j].name != name
  {
    if entries[0].name == name {
      return 0;
    }
    var k := FirstEmpty(entries[1..], name);
    return k + 1;
  }

  lemma {:induction false} NoFirst(entries: seq<Entry>, name: string)
    requires FirstFilter(entries, name).None?
    ensures forall e :: e in entries ==> e.name != name
  {
    if entries != [] {
      NoFirst(entries[1..], name);
    }
  }

  /** The search finds the filter of the longest prefix. */
  ghost predicate FindsLongest(target: string, entries: seq<Entry>) {
    FirstMatch(target, SortByKey(entries))
      == match Longest(target, entries) case None => None case Some(e) => Some(e.filter)
  }

  /** It does for every target if, and only if, no name is empty or every name has the filter of the empty one. */
  lemma SearchIsLongestIff(entries: seq<Entry>)
    requires forall e :: e in entries ==> |e.name| < USIZE_MODULUS
    ensures (forall target :: FindsLongest(target, entries)) <==>
            (FirstFilter(entries, []).None? || forall e :: e in entries ==>
              FirstFilter(entries, e.name) == FirstFilter(entries, []))
  {
    hide SortByKey, FirstMatch, StartsWith, Longest, FirstFilter;
    var empty := FirstFilter(entries, []);
    if empty.None? {
      NoFirst(entries, []);
      forall target
        ensures FindsLongest(target, entries)
      {
        SearchIsLongest(target, entries);
      }
    } else {
      var i := FirstEmpty(entries, []);
      forall target
        ensures FirstMatch(target, SortByKey(entries)) == empty
      {
        EmptyNameWins(target, entries, i);
      }
      if forall e :: e in entries ==> FirstFilter(entries, e.name) == empty {
        forall target
          ensures FindsLongest(target, entries)
        {
          SomethingMatches(target, entries, i);
          LongestIsFirst(target, entries);
        }
      } else {
        var e :| e in entries && FirstFilter(entries, e.name) != empty;
        LongestOfName(entries, e);
        assert !FindsLongest(e.name, entries);
      }
    }
  }

  lemma SomethingMatches(target: string, entries: seq<Entry>, i: nat)
    requires i < |entries| && entries[i].name == []
    ensures Longest(target, entries).Some? && Longest(target, entries).value in entries
  {
    LongestIsLongest(target, entries);
    assert StartsWith(target, entries[i]);
  }

  lemma LongestOfName(entries: seq<Entry>, e: Entry)
    requires e in entries
    ensures Longest(e.name, entries).Some?
      && FirstFilter(entries, e.name) == Some(Longest(e.name, entries).value.filter)
  {
    LongestIsLongest(e.name, entries);
    assert StartsWith(e.name, e);
    LongestIsFirst(e.name, entries);
    PrefixesOfOneLength(e.name, e, Longest(e.name, entries).value);
  }

  // ---------------------------------------------------------------------------
  // The cache
  // ---------------------------------------------------------------------------

  /** Where a call of target_max_level is. */
  datatype Asker = Ask | Store(found: Option<Filter>, call: Call) | Returned(answer: Option<Filter>)

  /** Calls for the same target, whose word has had the values of the history. */
  datatype Cache = Cache(target: string, entries: seq<Entry>, history: seq<nat>, askers: seq<Asker>)

  function Word(history: seq<nat>, c: Call): State { State(history, [], [c]) }

  predicate CanStep(s: Cache, i: nat, at: nat) {
    && i < |s.askers| && at < |s.history|
    && match s.askers[i]
       case Ask => true
       case Store(_, c) => LevelFilter.CanStep(Word(s.history, c), 0, at)
       case Returned(_) => false
  }

  function Step(s: Cache, i: nat, at: nat): Cache
    requires CanStep(s, i, at)
  {
    match s.askers[i]
    case Ask =>
      var next :=
        match FilterIn(s.history[at], GENERATION)
        case Outdated => var found := FirstMatch(s.target, s.entries); Store(found, Call(GENERATION, found, Load))
        case NotSet => Returned(None)
        case Set(filter) => Returned(Some(filter));
      s.(askers := s.askers[i := next])
    case Store(found, c) =>
      var w := LevelFilter.Step(Word(s.history, c), 0, at);
      var next := if w.calls[0].progress.Done? then Returned(found) else Store(found, w.calls[0]);
      s.(history := w.history, askers := s.askers[i := next])
    case Returned(_) => s
  }

  function Run(s: Cache, schedule: seq<(nat, nat)>): Option<Cache>
    decreases |schedule|
  {
    if schedule == [] then Some(s)
    else if CanStep(s, schedule[0].0, schedule[0].1) then Run(Step(s, schedule[0].0, schedule[0].1), schedule[1..])
    else None
  }

  function Begin(target: string, entries: seq<Entry>, word: nat, n: nat): Cache {
    Cache(target, entries, [word], seq(n, _ => Ask))
  }

  /** The word is not set yet, or holds what the search finds. */
  ghost predicate Agrees(s: Cache) {
    var found := FirstMatch(s.target, s.entries);
    && s.history != [] && Generation(s.history[0]) == 0
    && (forall j :: 0 < j < |s.history| ==> s.history[j] == Pack(GENERATION, found))
    && (forall i :: 0 <= i < |s.askers| ==> AskerAgrees(s.askers[i], found))
    && (forall i :: 0 <= i < |s.askers| && s.askers[i].Returned? ==> 2 <= |s.history|)
  }

  predicate AskerAgrees(a: Asker, found: Option<Filter>) {
    match a
    case Ask => true
    case Store(f, c) => f == found && c.generation == GENERATION && c.filter == found
    case Returned(answer) => answer == found
  }

  lemma StepAgrees(s: Cache, i: nat, at: nat)
    requires Agrees(s) && CanStep(s, i, at)
    ensures Agrees(Step(s, i, at))
  {
    hide FirstMatch, Generation, Pack, FilterIn;
    var found := FirstMatch(s.target, s.entries);
    PackReads(GENERATION, found, GENERATION);
    assert AskerAgrees(s.askers[i], found);
    assert FilterIn(s.history[0], GENERATION).Outdated? by { NotYet(s.history[0]); }
    var s' := Step(s, i, at);
    forall k | 0 <= k < |s'.askers|
      ensures AskerAgrees(s'.askers[k], found)
    {
      assert AskerAgrees(s.askers[k], found);
    }
  }

  lemma NotYet(word: nat)
    requires Generation(word) == 0
    ensures FilterIn(word, GENERATION).Outdated?
  {
  }

  lemma {:induction false} RunAgrees(s: Cache, schedule: seq<(nat, nat)>)
    requires Agrees(s) && Run(s, schedule).Some?
    ensures Agrees(Run(s, schedule).value)
    ensures Run(s, schedule).value.target == s.target && Run(s, schedule).value.entries == s.entries
    decreases |schedule|
  {
    hide Agrees, CanStep, FirstMatch, FilterIn;
    if schedule != [] {
      StepAgrees(s, schedule[0].0, schedule[0].1);
      RunAgrees(Step(s, schedule[0].0, schedule[0].1), schedule[1..]);
    }
  }

  /** The filter of the longest configured prefix of the target. */
  function LongestFilter(target: string, entries: seq<Entry>): Option<Filter> {
    match Longest(target, entries) case None => None case Some(e) => Some(e.filter)
  }

  /** Every call that has returned has answered `filter`. */
  predicate AllAnswer(s: Cache, filter: Option<Filter>) {
    forall a :: a in s.askers && a.Returned? ==> a.answer == filter
  }

  /** Once a call has returned, the word holds the answer, and later calls find it there. */
  ghost predicate Cached(s: Cache, filter: Option<Filter>) {
    (exists a :: a in s.askers && a.Returned?) ==>
      s.history != [] && s.history[|s.history| - 1] == Pack(1, filter)
  }

  /** What such an answer says of the configured names. */
  ghost predicate IsOfLongest(target: string, entries: seq<Entry>, answer: Option<Filter>) {
    match answer
    case None => forall e :: e in entries ==> !(e.name <= target)
    case Some(filter) => exists e :: IsLongestPrefix(target, entries, e) && e.filter == filter
  }

  ghost predicate IsLongestPrefix(target: string, entries: seq<Entry>, e: Entry) {
    e in entries && e.name <= target && forall x :: x in entries && x.name <= target ==> |x.name| <= |e.name|
  }

  lemma LongestFilterIs(target: string, entries: seq<Entry>)
    ensures IsOfLongest(target, entries, LongestFilter(target, entries))
  {
    LongestIsLongest(target, entries);
    assert Longest(target, entries).Some? ==> IsLongestPrefix(target, entries, Longest(target, entries).value);
  }

  /** In every interleaving every answer is the filter of the longest configured prefix of the target, if no name is
      empty and the word starts in generation 0. */
  lemma CachedIsLongest(target: string, entries: seq<Entry>, word: nat, n: nat, schedule: seq<(nat, nat)>)
    requires Named(entries) && Generation(word) == 0
    requires Run(Begin(target, SortByKey(entries), word, n), schedule).Some?
    ensures AllAnswer(Run(Begin(target, SortByKey(entries), word, n), schedule).value, LongestFilter(target, entries))
    ensures IsOfLongest(target, entries, LongestFilter(target, entries))
    ensures var s := Run(Begin(target, SortByKey(entries), word, n), schedule).value;
            Cached(s, LongestFilter(target, entries))
  {
    LongestFilterIs(target, entries);
    hide IsOfLongest;
    hide FirstMatch, SortByKey, Generation, Pack, Longest;
    var s := Begin(target, SortByKey(entries), word, n);
    RunAgrees(s, schedule);
    SearchIsLongest(target, entries);
    var s' := Run(s, schedule).value;
    forall a | a in s'.askers && a.Returned?
      ensures a.answer == FirstMatch(target, SortByKey(entries))
    {
      var i :| 0 <= i < |s'.askers| && s'.askers[i] == a;
      assert AskerAgrees(s'.askers[i], FirstMatch(target, SortByKey(entries)));
    }
  }

  /** What a word in a late generation answers. */
  function Held(word: nat): Option<Filter> {
    if word % 16 <= 6 then Some(word % 16) else None
  }

  /** A word that starts in a later generation is never written, and every answer is what it holds. */
  ghost predicate Stuck(s: Cache, word: nat) {
    && s.history == [word]
    && forall i :: 0 <= i < |s.askers| ==> s.askers[i].Ask? || s.askers[i] == Returned(Held(word))
  }

  lemma {:induction false} RunStuck(s: Cache, word: nat, schedule: seq<(nat, nat)>)
    requires Stuck(s, word) && GENERATION <= Generation(word) && Run(s, schedule).Some?
    ensures Stuck(Run(s, schedule).value, word)
    decreases |schedule|
  {
    if schedule != [] {
      var (i, at) := schedule[0];
      assert s.askers[i].Ask?;
      RunStuck(Step(s, i, at), word, schedule[1..]);
    }
  }

  /** So it is in every interleaving. */
  ghost predicate AlwaysAnswers(s: Cache, filter: Option<Filter>) {
    forall schedule :: Run(s, schedule).Some? ==> AllAnswer(Run(s, schedule).value, filter)
  }

  /** Every answer in every interleaving is the filter of the longest prefix if, and only if, the word starts in
      generation 0, or already holds that filter. */
  lemma CachedIsLongestIff(target: string, entries: seq<Entry>, word: nat, n: nat)
    requires Named(entries) && 0 < n
    ensures AlwaysAnswers(Begin(target, SortByKey(entries), word, n), LongestFilter(target, entries))
        <==> Generation(word) == 0 || Held(word) == LongestFilter(target, entries)
  {
    var s, filter := Begin(target, SortByKey(entries), word, n), LongestFilter(target, entries);
    if Generation(word) == 0 {
      forall schedule | Run(s, schedule).Some?
        ensures AllAnswer(Run(s, schedule).value, filter)
      {
        CachedIsLongest(target, entries, word, n, schedule);
      }
    } else if Held(word) == filter {
      hide LongestFilter, SortByKey, Generation;
      forall schedule | Run(s, schedule).Some?
        ensures AllAnswer(Run(s, schedule).value, filter)
      {
        RunStuck(s, word, schedule);
      }
    } else {
      hide LongestFilter, SortByKey;
      var once: seq<(nat, nat)> := [(0, 0)];
      assert once[1..] == [] && CanStep(s, 0, 0);
      var s' := Step(s, 0, 0);
      assert Run(s, once) == Some(s') by { assert Run(s', []) == Some(s'); }
      assert s'.askers[0] == Returned(Held(word)) && s'.askers[0] in s'.askers;
      assert !AllAnswer(s', filter);
      if AlwaysAnswers(s, filter) {
        OneAnswer(s, filter, once);
      }
    }
  }

  lemma OneAnswer(s: Cache, filter: Option<Filter>, schedule: seq<(nat, nat)>)
    requires Run(s, schedule).Some? && AlwaysAnswers(s, filter)
    ensures AllAnswer(Run(s, schedule).value, filter)
  {
  }
}
