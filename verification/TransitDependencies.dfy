/** ExtractDeps of the log, metrics and thread queues: the static items that the events of a block refer to, each
    once, strings before the records that point to them; and the whole way from events to parsed objects. */
module TransitDependencies {
  import opened Basics
  import opened Bytes
  import opened TransitQueue
  import opened TransitParser
  import opened TransitEvents

  /** What stands at an address. A record is made of its own address, its strings and two numbers. */
  datatype Item =
    | StaticText(text: Text)
    | Metadata(kind: nat, strings: seq<nat>, line: nat, extra: nat)

  /** The static items of the process: an address names one item. */
  type World = map<nat, Item>

  predicate IsText(w: World, ptr: nat) { ptr in w && w[ptr].StaticText? }

  predicate IsMetadata(w: World, key: nat) { key in w && w[key].Metadata? }

  predicate WorldOk(w: World) {
    forall key :: key in w && w[key].Metadata? ==> forall s :: s in w[key].strings ==> IsText(w, s)
  }

  // ---------------------------------------------------------------------------
  // Which items are recorded, in what order
  // ---------------------------------------------------------------------------

  /** The references of an event, in field order. */
  function References(fields: seq<Field>): seq<nat> {
    if fields == [] then []
    else
      (match fields[0]
       case Ref(key) => [key]
       case StrId(ptr, _) => [ptr]
       case _ => [])
      + References(fields[1..])
  }

  function ReferencesOf(e: Event): seq<nat> {
    match e
    case Pod(_, _, fields) => References(fields)
    case LogString(_, desc, _, _) => [desc]
    case LogStringInterop(_, _, _, _, target, _) => References([target])
  }

  /** A string is recorded the first time it is met. */
  function RecordText(deps: seq<nat>, ptr: nat): seq<nat> {
    if ptr in deps then deps else deps + [ptr]
  }

  function RecordTexts(deps: seq<nat>, ptrs: seq<nat>): seq<nat>
    decreases |ptrs|
  {
    if ptrs == [] then deps else RecordTexts(RecordText(deps, ptrs[0]), ptrs[1..])
  }

  /** An item is recorded the first time it is met, a record after its strings. */
  function Record(w: World, deps: seq<nat>, key: nat): seq<nat> {
    if key in deps then deps
    else if IsMetadata(w, key) then RecordTexts(deps, w[key].strings) + [key]
    else deps + [key]
  }

  function RecordAll(w: World, deps: seq<nat>, keys: seq<nat>): seq<nat>
    decreases |keys|
  {
    if keys == [] then deps else RecordAll(w, Record(w, deps, keys[0]), keys[1..])
  }

  function RecordEvents(w: World, deps: seq<nat>, es: seq<Event>): seq<nat>
    decreases |es|
  {
    if es == [] then deps else RecordEvents(w, RecordAll(w, deps, ReferencesOf(es[0])), es[1..])
  }

  // ---------------------------------------------------------------------------
  // The dependencies of a block are well formed
  // ---------------------------------------------------------------------------

  /** Ids are pairwise distinct, and every string that a record points to comes before it. */
  ghost predicate WellFormed(w: World, deps: seq<nat>) {
    && (forall i, j :: 0 <= i < j < |deps| ==> deps[i] != deps[j])
    && (forall i :: 0 <= i < |deps| ==> deps[i] in w)
    && (forall i :: 0 <= i < |deps| && IsMetadata(w, deps[i]) ==> forall s :: s in w[deps[i]].strings ==>
      s in deps[..i])
  }

  /** The items that keys refer to, directly or through a record. */
  ghost function Closure(w: World, keys: set<nat>): set<nat> {
    keys + set key, s | key in keys && IsMetadata(w, key) && s in w[key].strings :: s
  }

  ghost function Set(s: seq<nat>): set<nat> { set x | x in s }

  lemma RecordTextKeeps(w: World, deps: seq<nat>, ptr: nat)
    requires WellFormed(w, deps) && IsText(w, ptr)
    ensures WellFormed(w, RecordText(deps, ptr)) && Set(RecordText(deps, ptr)) == Set(deps) + {ptr}
  {
    var deps' := RecordText(deps, ptr);
    if ptr !in deps {
      forall i | 0 <= i < |deps'| && IsMetadata(w, deps'[i])
        ensures forall s :: s in w[deps'[i]].strings ==> s in deps'[..i]
      {
        assert i < |deps| && deps'[i] == deps[i] && deps'[..i] == deps[..i];
      }
    }
  }

  lemma {:induction false} RecordTextsKeep(w: World, deps: seq<nat>, ptrs: seq<nat>)
    requires WellFormed(w, deps) && forall s :: s in ptrs ==> IsText(w, s)
    ensures WellFormed(w, RecordTexts(deps, ptrs)) && Set(RecordTexts(deps, ptrs)) == Set(deps) + Set(ptrs)
    decreases |ptrs|
  {
    hide WellFormed, RecordText;
    if ptrs != [] {
      RecordTextKeeps(w, deps, ptrs[0]);
      RecordTextsKeep(w, RecordText(deps, ptrs[0]), ptrs[1..]);
      assert ptrs == [ptrs[0]] + ptrs[1..];
    }
  }

  lemma AppendRecord(w: World, deps: seq<nat>, key: nat)
    requires WellFormed(w, deps) && key in w && key !in deps
    requires IsMetadata(w, key) ==> forall s :: s in w[key].strings ==> s in deps
    ensures WellFormed(w, deps + [key])
  {
    var deps' := deps + [key];
    forall i | 0 <= i < |deps'| && IsMetadata(w, deps'[i])
      ensures forall s :: s in w[deps'[i]].strings ==> s in deps'[..i]
    {
      assert deps'[..i] == deps[..i];
      assert i < |deps| ==> deps'[i] == deps[i];
      assert deps[..|deps|] == deps;
    }
  }

  lemma ClosureOfOne(w: World, key: nat)
    ensures Closure(w, {key}) == {key} + if IsMetadata(w, key) then Set(w[key].strings) else {}
  {
  }

  lemma RecordKeeps(w: World, deps: seq<nat>, key: nat)
    requires WorldOk(w) && WellFormed(w, deps) && key in w
    ensures WellFormed(w, Record(w, deps, key)) && Set(Record(w, deps, key)) == Set(deps) + Closure(w, {key})
  {
    ClosureOfOne(w, key);
    hide Closure;
    if key in deps {
      var i :| 0 <= i < |deps| && deps[i] == key;
      if IsMetadata(w, key) {
        assert forall s :: s in w[key].strings ==> s in deps[..i];
      }
    } else {
      var texts := if IsMetadata(w, key) then RecordTexts(deps, w[key].strings) else deps;
      if IsMetadata(w, key) {
        RecordTextsKeep(w, deps, w[key].strings);
        assert key in Set(texts) <==> key in Set(deps) || key in Set(w[key].strings);
        assert forall s :: s in w[key].strings ==> s in Set(texts);
      }
      AppendRecord(w, texts, key);
      hide WellFormed, RecordTexts;
      assert Record(w, deps, key) == texts + [key];
      assert Set(texts + [key]) == Set(texts) + {key};
    }
  }

  lemma {:induction false} RecordAllKeeps(w: World, deps: seq<nat>, keys: seq<nat>)
    requires WorldOk(w) && WellFormed(w, deps) && forall key :: key in keys ==> key in w
    ensures WellFormed(w, RecordAll(w, deps, keys))
    ensures Set(RecordAll(w, deps, keys)) == Set(deps) + Closure(w, Set(keys))
    decreases |keys|
  {
    hide WellFormed, WorldOk, Record;
    if keys == [] {
      assert Closure(w, Set(keys)) == {};
    } else {
      RecordKeeps(w, deps, keys[0]);
      RecordAllKeeps(w, Record(w, deps, keys[0]), keys[1..]);
      assert keys == [keys[0]] + keys[1..];
      ClosureUnion(w, {keys[0]}, Set(keys[1..]));
      assert Set(keys) == {keys[0]} + Set(keys[1..]);
      hide Closure;
    }
  }

  lemma ClosureUnion(w: World, a: set<nat>, b: set<nat>)
    ensures Closure(w, a + b) == Closure(w, a) + Closure(w, b)
  {
  }

  /** All that the events refer to. */
  function AllReferences(es: seq<Event>): seq<nat>
    decreases |es|
  {
    if es == [] then [] else ReferencesOf(es[0]) + AllReferences(es[1..])
  }

  lemma {:induction false} RecordEventsIsRecordAll(w: World, deps: seq<nat>, es: seq<Event>)
    ensures RecordEvents(w, deps, es) == RecordAll(w, deps, AllReferences(es))
    decreases |es|
  {
    if es != [] {
      RecordEventsIsRecordAll(w, RecordAll(w, deps, ReferencesOf(es[0])), es[1..]);
      RecordAllAppend(w, deps, ReferencesOf(es[0]), AllReferences(es[1..]));
    }
  }

  lemma {:induction false} RecordAllAppend(w: World, deps: seq<nat>, a: seq<nat>, b: seq<nat>)
    ensures RecordAll(w, deps, a + b) == RecordAll(w, RecordAll(w, deps, a), b)
    decreases |a|
  {
    if a == [] {
      assert a + b == b;
    } else {
      assert (a + b)[0] == a[0] && (a + b)[1..] == a[1..] + b;
      RecordAllAppend(w, Record(w, deps, a[0]), a[1..], b);
    }
  }

  predicate KnownReferences(w: World, es: seq<Event>) {
    forall key :: key in AllReferences(es) ==> key in w
  }

  /** The dependencies of any list of events: ids are distinct, records come after their strings, and the ids are
      exactly those that the events refer to, directly or through a record. */
  lemma DependenciesAreWellFormed(w: World, es: seq<Event>)
    requires WorldOk(w) && KnownReferences(w, es)
    ensures WellFormed(w, RecordEvents(w, [], es))
    ensures Set(RecordEvents(w, [], es)) == Closure(w, Set(AllReferences(es)))
  {
    RecordEventsIsRecordAll(w, [], es);
    RecordAllKeeps(w, [], AllReferences(es));
  }
}
