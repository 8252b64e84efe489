/** `MetaObjectTreeModel`: the registry of every descriptor seen in the
    inspected application, its per-type instance counters, and the batching
    of count-change notifications behind a single-shot timer. */
module TreeModel {
  import opened Wrappers
  import opened MetaObjects
  import opened TreeAddressing
  import opened TreeInsertion
  import opened TreeCounts

  /** The signals the model emits. */
  datatype Event =
    | RowsInserted(parent: ModelIndex, first: nat, last: nat)
    | DataChanged(topLeft: ModelIndex, bottomRight: ModelIndex)

  /** The `rowsInserted` signals of `addMetaObject(x)`: one per missing
      descriptor, ancestors first, each announcing one row at the end of its
      parent's child list. */
  ghost function InsertEvents(u: Universe, t: Tree, x: Option<Id>): seq<Event>
    requires TreeValid(u, t)
    decreases u.Height(x)
  {
    if x.None? || t.IsKnown(x.value) then []
    else
      var p := u.Super(x.value);
      var t1 := InsertTree(u, t, p);
      InsertEvents(u, t, p) + [RowsInserted(IndexForMetaObject(u, t1, p), |t1.Children(p)|, |t1.Children(p)|)]
  }

  /** One `rowsInserted` per new descriptor. */
  lemma {:induction false} InsertEventsCount(u: Universe, t: Tree, x: Option<Id>)
    requires TreeValid(u, t)
    ensures |InsertEvents(u, t, x)| == |NewIds(u, t, x)|
    decreases u.Height(x)
  {
    if x.Some? && !t.IsKnown(x.value) {
      InsertEventsCount(u, t, u.Super(x.value));
      NewIdsStep(u, t, x.value);
    } else {
      KnownLineIfSome(u, t, x);
    }
  }

  /** Every signal of an insertion announces exactly one row. */
  lemma {:induction false} InsertEventsSingleRows(u: Universe, t: Tree, x: Option<Id>)
    requires TreeValid(u, t)
    ensures forall e :: e in InsertEvents(u, t, x) ==> e.RowsInserted? && e.first == e.last
    decreases u.Height(x)
  {
    if x.Some? && !t.IsKnown(x.value) {
      InsertEventsSingleRows(u, t, u.Super(x.value));
    }
  }

  /** For a new `x`, the last signal addresses its superclass's row and
      announces the row just past that list's old end. */
  lemma InsertEventsLast(u: Universe, t: Tree, mo: Id)
    requires TreeValid(u, t) && !t.IsKnown(mo)
    ensures var r := InsertEvents(u, t, Some(mo));
      && |r| > 0 && r[|r| - 1].RowsInserted?
      && MetaObjectForIndex(r[|r| - 1].parent) == u.Super(mo)
      && r[|r| - 1].first == |t.Children(u.Super(mo))|
  {
    var p := u.Super(mo);
    var t1 := InsertTree(u, t, p);
    InsertTreeKeepsStartList(u, t, p);
    if p.Some? {
      StartsLine(u, p.value);
    }
    IndexForMetaObjectSpec(u, t1, p);
  }

  /** The `rowsInserted` signals of `addMetaObject` called on each of
      `types` in turn. */
  ghost function InsertAllEvents(u: Universe, t: Tree, types: seq<Id>): seq<Event>
    requires TreeValid(u, t)
  {
    if |types| == 0 then []
    else
      var prefix := types[..|types| - 1];
      InsertAllEvents(u, t, prefix) + InsertEvents(u, InsertAll(u, t, prefix), Some(types[|types| - 1]))
  }

  /** Seeding with one more type is one more `addMetaObject`. */
  lemma InsertAllSnoc(u: Universe, t: Tree, types: seq<Id>, i: nat)
    requires TreeValid(u, t) && i < |types|
    ensures var t1 := InsertAll(u, t, types[..i]);
      && InsertAll(u, t, types[..i + 1]) == InsertTree(u, t1, Some(types[i]))
      && InsertAllEvents(u, t, types[..i + 1]) == InsertAllEvents(u, t, types[..i]) + InsertEvents(u, t1, Some(types[i]))
  {
    assert types[..i + 1][..i] == types[..i];
  }

  /** Adding a set `m` to `l` adds to `l - k` the part of `m` outside `k + l`. */
  /** One turn of the seeding loop: adding the next type to the tree and
      log seeded so far gives the tree and log seeded one type further. */
  lemma SeedStep(u: Universe, t0: Tree, types: seq<Id>, i: nat, e0: seq<Event>, t1: Tree, e1: seq<Event>)
    requires TreeValid(u, t0) && i < |types|
    requires t1 == InsertAll(u, t0, types[..i]) && e1 == e0 + InsertAllEvents(u, t0, types[..i])
    ensures InsertAll(u, t0, types[..i + 1]) == InsertTree(u, t1, Some(types[i]))
    ensures e0 + InsertAllEvents(u, t0, types[..i + 1]) == e1 + InsertEvents(u, t1, Some(types[i]))
  {
    InsertAllSnoc(u, t0, types, i);
    ConcatAssoc(e0, InsertAllEvents(u, t0, types[..i]), InsertEvents(u, t1, Some(types[i])));
  }

  lemma CardNewPart(k: set<Id>, l: set<Id>, m: set<Id>)
    ensures |(l + m) - k| == |l - k| + |m - (k + l)|
  {
    assert (l + m) - k == (l - k) + (m - (k + l));
    assert (l - k) !! (m - (k + l));
  }

  /** Seeding announces one insertion per descriptor it adds. */
  lemma {:induction false} InsertAllEventsCount(u: Universe, t: Tree, types: seq<Id>)
    requires TreeValid(u, t)
    ensures |InsertAllEvents(u, t, types)| == |Lines(u, types) - t.childParentMap.Keys|
    decreases |types|
  {
    if |types| > 0 {
      var prefix := types[..|types| - 1];
      var x := Some(types[|types| - 1]);
      var t1 := InsertAll(u, t, prefix);
      assert InsertAllEvents(u, t, types) == InsertAllEvents(u, t, prefix) + InsertEvents(u, t1, x);
      InsertAllEventsCount(u, t, prefix);
      InsertAllKeys(u, t, prefix);
      InsertEventsCount(u, t1, x);
      LinesSnoc(u, types);
      assert NewIds(u, t1, x) == u.Line(x) - (t.childParentMap.Keys + Lines(u, prefix));
      CardNewPart(t.childParentMap.Keys, Lines(u, prefix), u.Line(x));
    }
  }

  /** Every signal of seeding announces exactly one row. */
  lemma {:induction false} InsertAllEventsSingleRows(u: Universe, t: Tree, types: seq<Id>)
    requires TreeValid(u, t)
    ensures forall e :: e in InsertAllEvents(u, t, types) ==> e.RowsInserted? && e.first == e.last
    decreases |types|
  {
    if |types| > 0 {
      var prefix := types[..|types| - 1];
      InsertAllEventsSingleRows(u, t, prefix);
      InsertEventsSingleRows(u, InsertAll(u, t, prefix), Some(types[|types| - 1]));
    }
  }

  /** One step of `addMetaObject` on snapshots: once the missing ancestors
      of `mo` are in, its parent has a valid address (or is null), appending
      `mo` completes the insertion, and the counts stay balanced. */
  lemma AddStep(u: Universe, t0: Tree, info: map<Id, Info>, mo: Id)
    requires TreeValid(u, t0) && CountsValid(t0, info) && !t0.IsKnown(mo)
    ensures var p := u.Super(mo);
      var t1 := InsertTree(u, t0, p);
      var index := IndexForMetaObject(u, t1, p);
      && (index.IsValid() || p.None?)
      && InsertTree(u, t0, Some(mo)) == AppendChild(t1, p, mo)
      && InsertEvents(u, t0, Some(mo)) == InsertEvents(u, t0, p) + [RowsInserted(index, |t1.Children(p)|, |t1.Children(p)|)]
      && CountsValid(InsertTree(u, t0, Some(mo)), info)
      && mo in InsertTree(u, t0, Some(mo)).childParentMap
      && t0.childParentMap.Keys <= InsertTree(u, t0, Some(mo)).childParentMap.Keys
  {
    var p := u.Super(mo);
    var t1 := InsertTree(u, t0, p);
    if p.Some? {
      StartsLine(u, p.value);
      IndexForMetaObjectSpec(u, t1, p);
    }
    StartsLine(u, mo);
    InsertTreeKeepsCounts(u, t0, info, Some(mo));
  }

  lemma AppendAssoc(a: seq<Event>, b: seq<Event>, e: Event)
    ensures (a + b) + [e] == a + (b + [e])
  {
  }

  lemma ConcatAssoc(a: seq<Event>, b: seq<Event>, c: seq<Event>)
    ensures (a + b) + c == a + (b + c)
  {
  }

  /** The notification that the Self..Incl. cells of a known descriptor's row changed. */
  function CountsChanged(u: Universe, t: Tree, mo: Id): Event
    requires TreeValid(u, t) && t.IsKnown(mo)
  {
    IndexForMetaObjectSpec(u, t, Some(mo));
    var index := IndexForMetaObject(u, t, Some(mo));
    DataChanged(Index(index.row, ObjectSelfCountColumn, mo), Index(index.row, ObjectInclusiveCountColumn, mo))
  }

  /** The signals `emitPendingDataChanged` sends when it visits the pending
      descriptors in `order`: one count change per descriptor that has an
      address, none for the others. */
  function Emitted(u: Universe, t: Tree, order: seq<Id>): seq<Event>
    requires TreeValid(u, t)
  {
    if |order| == 0 then []
    else
      var mo := order[|order| - 1];
      Emitted(u, t, order[..|order| - 1]) + (if t.IsKnown(mo) then [CountsChanged(u, t, mo)] else [])
  }

  /** Each flushed signal is the count change of a known descriptor of the
      order, and each known descriptor of the order gets one. */
  lemma {:induction false} EmittedSpec(u: Universe, t: Tree, order: seq<Id>)
    requires TreeValid(u, t)
    ensures forall e :: e in Emitted(u, t, order) ==>
      exists mo :: mo in order && t.IsKnown(mo) && e == CountsChanged(u, t, mo)
    ensures forall mo :: mo in order && t.IsKnown(mo) ==> CountsChanged(u, t, mo) in Emitted(u, t, order)
  {
    if |order| > 0 {
      var init := order[..|order| - 1];
      var mo := order[|order| - 1];
      EmittedSpec(u, t, init);
      forall e | e in Emitted(u, t, order)
        ensures exists m :: m in order && t.IsKnown(m) && e == CountsChanged(u, t, m)
      {
        if e in Emitted(u, t, init) {
          var m :| m in init && t.IsKnown(m) && e == CountsChanged(u, t, m);
          assert m in order;
        } else {
          assert mo in order && t.IsKnown(mo) && e == CountsChanged(u, t, mo);
        }
      }
      forall m | m in order && t.IsKnown(m) ensures CountsChanged(u, t, m) in Emitted(u, t, order) {
        if m != mo {
          assert m in init;
        }
      }
    }
  }

  /** One visit of `emitPendingDataChanged`: the signal it sends for `mo`
      (built with `sibling` from `mo`'s address), if any, extends the flushed
      signals of the visits so far to those of `order + [mo]`. */
  lemma EmitStep(u: Universe, t: Tree, e0: seq<Event>, order: seq<Id>, mo: Id)
    requires TreeValid(u, t)
    ensures var index := IndexForMetaObject(u, t, Some(mo));
      && (index.IsValid() <==> t.IsKnown(mo))
      && (index.IsValid() ==>
            e0 + Emitted(u, t, order) + [DataChanged(Sibling(u, t, index, index.row, ObjectSelfCountColumn),
                                                     Sibling(u, t, index, index.row, ObjectInclusiveCountColumn))]
            == e0 + Emitted(u, t, order + [mo]))
      && (!index.IsValid() ==> e0 + Emitted(u, t, order) == e0 + Emitted(u, t, order + [mo]))
  {
    IndexForMetaObjectSpec(u, t, Some(mo));
    assert (order + [mo])[..|order|] == order;
    if t.IsKnown(mo) {
      SiblingOfAddress(u, t, mo, ObjectSelfCountColumn);
      SiblingOfAddress(u, t, mo, ObjectInclusiveCountColumn);
      AppendAssoc(e0, Emitted(u, t, order), CountsChanged(u, t, mo));
    }
  }

  /** Appending a new element keeps a sequence free of duplicates. */
  lemma AppendFresh(s: seq<Id>, x: Id)
    requires NoDuplicates(s) && x !in s
    ensures NoDuplicates(s + [x])
  {
  }

  /** Visiting each pending descriptor once flushes each signal once. */
  lemma {:induction false} EmittedNoDuplicates(u: Universe, t: Tree, order: seq<Id>)
    requires TreeValid(u, t) && NoDuplicates(order)
    ensures forall i, j :: 0 <= i < j < |Emitted(u, t, order)| ==> Emitted(u, t, order)[i] != Emitted(u, t, order)[j]
  {
    if |order| > 0 {
      var init := order[..|order| - 1];
      var mo := order[|order| - 1];
      assert NoDuplicates(init);
      EmittedNoDuplicates(u, t, init);
      EmittedSpec(u, t, init);
      if t.IsKnown(mo) {
        var r := Emitted(u, t, init);
        assert CountsChanged(u, t, mo) !in r;
        var r' := r + [CountsChanged(u, t, mo)];
        forall i, j | 0 <= i < j < |r'| ensures r'[i] != r'[j] {
          if j == |r| {
            assert r'[i] in r;
          }
        }
      }
    }
  }

  /** The descriptor `objectAdded` counts: the object's own one, or for a
      dynamic meta object its nearest known ancestor (null if none). */
  function CountedType(u: Universe, known: set<Id>, mo: Id, dynamic: bool): Option<Id>
    requires u.Valid()
  {
    if dynamic then u.NearestKnown(known, Some(mo)) else Some(mo)
  }

  class MetaObjectTreeModel {
    const universe: Universe
    var parentChildMap: map<Option<Id>, seq<Id>>
    var childParentMap: map<Id, Option<Id>>
    var metaObjectInfoMap: map<Id, Info>
    var pendingDataChanged: set<Id>
    /** `m_pendingDataChangedTimer->isActive()`. */
    var timerActive: bool
    /** How often the timer was (re)started. */
    ghost var timerStarts: nat
    /** Every signal emitted so far, in order. */
    ghost var events: seq<Event>

    function Maps(): Tree
      reads this`parentChildMap, this`childParentMap
    {
      Tree(parentChildMap, childParentMap)
    }

    /** The tree and the counters are consistent. */
    ghost predicate Consistent()
      reads this`parentChildMap, this`childParentMap, this`metaObjectInfoMap
    {
      TreeValid(universe, Maps()) && CountsValid(Maps(), metaObjectInfoMap)
    }

    /** ... and no pending change waits without the timer running. */
    ghost predicate Valid()
      reads this`parentChildMap, this`childParentMap, this`metaObjectInfoMap
      reads this`pendingDataChanged, this`timerActive
    {
      Consistent() && (pendingDataChanged != {} ==> timerActive)
    }

    /** The model before any descriptor was seen. */
    constructor (u: Universe)
      requires u.Valid()
      ensures Valid() && universe == u
      ensures parentChildMap == map[] && childParentMap == map[] && metaObjectInfoMap == map[]
      ensures pendingDataChanged == {} && !timerActive && timerStarts == 0 && events == []
    {
      universe := u;
      parentChildMap := map[];
      childParentMap := map[];
      metaObjectInfoMap := map[];
      pendingDataChanged := {};
      timerActive := false;
      timerStarts := 0;
      events := [];
    }

    /** `addMetaObject`: insert `mo` and, first, every missing ancestor,
        announcing each new row to the views. */
    method AddMetaObject(mo: Id)
      requires Consistent()
      modifies this`parentChildMap, this`childParentMap, this`events
      ensures Consistent()
      ensures Maps() == InsertTree(universe, old(Maps()), Some(mo))
      ensures events == old(events) + InsertEvents(universe, old(Maps()), Some(mo))
      ensures mo in childParentMap && old(childParentMap.Keys) <= childParentMap.Keys
      decreases universe.Rank(mo)
    {
      if mo in childParentMap {
        assert events == old(events) + [];
        return;
      }
      ghost var t0 := Maps();
      ghost var e0 := events;
      var parentMetaObject := universe.Super(mo);
      if parentMetaObject.Some? && parentMetaObject.value !in childParentMap {
        // the superclass chain goes in before `mo`
        AddMetaObject(parentMetaObject.value);
      } else {
        assert events == e0 + [];
      }
      AddStep(universe, t0, metaObjectInfoMap, mo);
      ghost var t1 := Maps();
      assert t1 == InsertTree(universe, t0, parentMetaObject);

      // by AddStep the superclass now has a valid address, or there is none
      var parentIndex := IndexForMetaObject(universe, Maps(), parentMetaObject);
      var children := Maps().Children(parentMetaObject);
      AppendAssoc(e0, InsertEvents(universe, t0, parentMetaObject), RowsInserted(parentIndex, |children|, |children|));
      events := events + [RowsInserted(parentIndex, |children|, |children|)];
      parentChildMap := parentChildMap[parentMetaObject := children + [mo]];
      childParentMap := childParentMap[mo := parentMetaObject];
      assert Maps() == AppendChild(t1, parentMetaObject, mo);
    }

    /** `scanMetaTypes`, with the registered types given: seed the tree
        from a sequence of descriptors. */
    method SeedMetaTypes(types: seq<Id>)
      requires Valid()
      modifies this`parentChildMap, this`childParentMap, this`events
      ensures Valid()
      ensures Maps() == InsertAll(universe, old(Maps()), types)
      ensures events == old(events) + InsertAllEvents(universe, old(Maps()), types)
      ensures forall i :: 0 <= i < |types| ==> types[i] in childParentMap
      ensures old(childParentMap.Keys) <= childParentMap.Keys
    {
      ghost var t0 := Maps();
      ghost var e0 := events;
      var i := 0;
      while i < |types|
        invariant 0 <= i <= |types|
        invariant Consistent()
        invariant Maps() == InsertAll(universe, t0, types[..i])
        invariant events == e0 + InsertAllEvents(universe, t0, types[..i])
      {
        SeedStep(universe, t0, types, i, e0, Maps(), events);
        AddMetaObject(types[i]);
        i := i + 1;
      }
      assert Valid();
      assert types[..i] == types;
      InsertAllKnowsTypes(universe, t0, types);
    }

    /** `objectAdded`: count a new instance of `mo` (its nearest known
        ancestor for a dynamic meta object), inserting its type first, and
        schedule a count update for every type on its chain. */
    method ObjectAdded(mo: Id, dynamic: bool)
      requires Valid()
      modifies this`parentChildMap, this`childParentMap, this`events, this`metaObjectInfoMap
      modifies this`pendingDataChanged, this`timerActive, this`timerStarts
      ensures Valid()
      ensures var d := CountedType(universe, old(childParentMap.Keys), mo, dynamic);
        if d.None? then
          && Maps() == old(Maps()) && events == old(events)
          && metaObjectInfoMap == old(metaObjectInfoMap) && pendingDataChanged == old(pendingDataChanged)
          && timerActive == old(timerActive) && timerStarts == old(timerStarts)
        else
          && Maps() == InsertTree(universe, old(Maps()), d)
          && events == old(events) + InsertEvents(universe, old(Maps()), d)
          && metaObjectInfoMap == AddInstance(universe, old(metaObjectInfoMap), d.value)
          && pendingDataChanged == old(pendingDataChanged) + universe.Line(d)
          && timerActive
          && timerStarts == old(timerStarts) + (if old(timerActive) then 0 else 1)
    {
      var metaObject := Some(mo);
      if dynamic {
        // NearestKnown: the lowest registered descriptor of the chain
        while metaObject.Some? && metaObject.value !in childParentMap
          invariant universe.NearestKnown(childParentMap.Keys, metaObject) == universe.NearestKnown(childParentMap.Keys, Some(mo))
          decreases universe.Height(metaObject)
        {
          metaObject := universe.Super(metaObject.value);
        }
        if metaObject.None? {
          // no descriptor of the chain is registered: nothing to count
          return;
        }
      }
      assert metaObject == CountedType(universe, childParentMap.Keys, mo, dynamic);
      var d := metaObject.value;
      AddMetaObject(d);

      CountInstance(d);
    }

    /** The counting half of `objectAdded` for a known type `d`: one more own
        instance of `d`, one more inclusive instance on every type of its
        chain, each of those scheduled for a count update. */
    method CountInstance(d: Id)
      requires Consistent() && d in childParentMap
      modifies this`metaObjectInfoMap, this`pendingDataChanged, this`timerActive, this`timerStarts
      ensures Consistent()
      ensures metaObjectInfoMap == AddInstance(universe, old(metaObjectInfoMap), d)
      ensures pendingDataChanged == old(pendingDataChanged) + universe.Line(Some(d))
      ensures timerActive
      ensures timerStarts == old(timerStarts) + (if old(timerActive) then 0 else 1)
    {
      ghost var t := Maps();
      ghost var a := metaObjectInfoMap;
      metaObjectInfoMap := metaObjectInfoMap[d := Info(SelfCount(metaObjectInfoMap, d) + 1, InclusiveCount(metaObjectInfoMap, d))];
      ghost var a1 := metaObjectInfoMap;
      RaiseInclusiveCounts(d);
      assert RaisedOn(a1, metaObjectInfoMap, universe.Line(Some(d)));
      AddWalkDone(universe, t, a, metaObjectInfoMap, d);
      assert Maps() == t;
    }

    /** The walk of `objectAdded`: one more inclusive instance on every type
        of `d`'s chain, each scheduled for a count update. */
    method RaiseInclusiveCounts(d: Id)
      requires universe.Valid()
      modifies this`metaObjectInfoMap, this`pendingDataChanged, this`timerActive, this`timerStarts
      ensures RaisedOn(old(metaObjectInfoMap), metaObjectInfoMap, universe.Line(Some(d)))
      ensures pendingDataChanged == old(pendingDataChanged) + universe.Line(Some(d))
      ensures timerActive
      ensures timerStarts == old(timerStarts) + (if old(timerActive) then 0 else 1)
    {
      StartsLine(universe, d);
      var current := Some(d);
      ghost var visited: set<Id> := {};
      while current.Some?
        invariant universe.Line(Some(d)) == visited + universe.Line(current)
        invariant visited !! universe.Line(current)
        invariant RaisedOn(old(metaObjectInfoMap), metaObjectInfoMap, visited)
        invariant pendingDataChanged == old(pendingDataChanged) + visited
        invariant timerActive == (old(timerActive) || visited != {})
        invariant timerStarts == old(timerStarts) + (if !old(timerActive) && visited != {} then 1 else 0)
        decreases universe.Height(current)
      {
        var c := current.value;
        WalkStep(universe, d, visited, c);
        RaiseStep(old(metaObjectInfoMap), metaObjectInfoMap, visited, c);
        metaObjectInfoMap := metaObjectInfoMap[c := Info(SelfCount(metaObjectInfoMap, c), InclusiveCount(metaObjectInfoMap, c) + 1)];
        ScheduleDataChange(c);
        visited := visited + {c};
        current := universe.Super(c);
      }
    }

    /** `objectRemoved`: uncount an instance of `mo`'s type. Unknown types and
        types without a live instance are ignored; the latter still get a
        zero entry, as `operator[]` creates one. */
    method ObjectRemoved(mo: Id)
      requires Valid()
      modifies this`events, this`metaObjectInfoMap, this`pendingDataChanged, this`timerActive, this`timerStarts
      ensures Valid()
      ensures !Maps().IsKnown(mo) ==>
        && events == old(events) && metaObjectInfoMap == old(metaObjectInfoMap)
        && pendingDataChanged == old(pendingDataChanged) && timerActive == old(timerActive) && timerStarts == old(timerStarts)
      ensures Maps().IsKnown(mo) && old(SelfCount(metaObjectInfoMap, mo)) == 0 ==>
        && events == old(events)
        && metaObjectInfoMap == old(metaObjectInfoMap)[mo := Info(0, InclusiveCount(old(metaObjectInfoMap), mo))]
        && pendingDataChanged == old(pendingDataChanged) && timerActive == old(timerActive) && timerStarts == old(timerStarts)
      ensures Maps().IsKnown(mo) && old(SelfCount(metaObjectInfoMap, mo)) > 0 ==>
        && old(Removable(universe, metaObjectInfoMap, mo))
        && metaObjectInfoMap == RemoveInstance(universe, old(metaObjectInfoMap), mo)
        && events == old(events) + [DataChanged(IndexForMetaObject(universe, Maps(), Some(mo)), IndexForMetaObject(universe, Maps(), Some(mo)))]
        && pendingDataChanged == old(pendingDataChanged) + universe.Line(Some(mo))
        && timerActive
        && timerStarts == old(timerStarts) + (if old(timerActive) then 0 else 1)
    {
      var metaModelIndex := IndexForMetaObject(universe, Maps(), Some(mo));
      IndexForMetaObjectSpec(universe, Maps(), Some(mo));
      if !metaModelIndex.IsValid() {
        // the type was never registered: the state stays as it was
        return;
      }
      if mo !in metaObjectInfoMap {
        // `operator[]` creates a zero entry, whose self count then fails the test below
        ZeroEntryKeepsValid(Maps(), metaObjectInfoMap, mo);
        metaObjectInfoMap := metaObjectInfoMap[mo := Info(0, 0)];
        return;
      }
      if metaObjectInfoMap[mo].selfCount == 0 {
        return;
      }
      UncountInstance(mo);
      events := events + [DataChanged(metaModelIndex, metaModelIndex)];
    }

    /** The counting half of `objectRemoved` for a known type `d` with a live
        instance: one own instance fewer, one inclusive instance fewer on
        every type of its chain, each of those scheduled for a count update. */
    method UncountInstance(d: Id)
      requires Consistent() && d in childParentMap && d in metaObjectInfoMap && metaObjectInfoMap[d].selfCount > 0
      modifies this`metaObjectInfoMap, this`pendingDataChanged, this`timerActive, this`timerStarts
      ensures Consistent()
      ensures old(Removable(universe, metaObjectInfoMap, d))
      ensures metaObjectInfoMap == RemoveInstance(universe, old(metaObjectInfoMap), d)
      ensures pendingDataChanged == old(pendingDataChanged) + universe.Line(Some(d))
      ensures timerActive
      ensures timerStarts == old(timerStarts) + (if old(timerActive) then 0 else 1)
    {
      ghost var t := Maps();
      ghost var a := metaObjectInfoMap;
      ValidRemovable(universe, t, a, d);
      var entry := metaObjectInfoMap[d];
      SelfUpdateKeepsInclusive(universe, a, d, entry.selfCount - 1);
      metaObjectInfoMap := metaObjectInfoMap[d := Info(entry.selfCount - 1, entry.inclusiveCount)];
      ghost var a1 := metaObjectInfoMap;
      assert a1 == a[d := Info(a[d].selfCount - 1, a[d].inclusiveCount)];
      LowerInclusiveCounts(d);
      assert LoweredOn(a1, metaObjectInfoMap, universe.Line(Some(d)));
      RemoveWalkDone(universe, t, a, metaObjectInfoMap, d);
      assert Maps() == t;
    }

    /** The walk of `objectRemoved`: one inclusive instance fewer on every type
        of `d`'s chain, each scheduled for a count update. */
    method LowerInclusiveCounts(d: Id)
      requires universe.Valid()
      requires forall y :: y in universe.Line(Some(d)) ==> InclusiveCount(metaObjectInfoMap, y) > 0
      modifies this`metaObjectInfoMap, this`pendingDataChanged, this`timerActive, this`timerStarts
      ensures LoweredOn(old(metaObjectInfoMap), metaObjectInfoMap, universe.Line(Some(d)))
      ensures pendingDataChanged == old(pendingDataChanged) + universe.Line(Some(d))
      ensures timerActive
      ensures timerStarts == old(timerStarts) + (if old(timerActive) then 0 else 1)
    {
      StartsLine(universe, d);
      var current := Some(d);
      ghost var visited: set<Id> := {};
      while current.Some?
        invariant universe.Line(Some(d)) == visited + universe.Line(current)
        invariant visited !! universe.Line(current)
        invariant LoweredOn(old(metaObjectInfoMap), metaObjectInfoMap, visited)
        invariant pendingDataChanged == old(pendingDataChanged) + visited
        invariant timerActive == (old(timerActive) || visited != {})
        invariant timerStarts == old(timerStarts) + (if !old(timerActive) && visited != {} then 1 else 0)
        decreases universe.Height(current)
      {
        var c := current.value;
        WalkStep(universe, d, visited, c);
        assert InclusiveCount(metaObjectInfoMap, c) == InclusiveCount(old(metaObjectInfoMap), c) > 0;
        LowerStep(old(metaObjectInfoMap), metaObjectInfoMap, visited, c);
        var e := metaObjectInfoMap[c];
        metaObjectInfoMap := metaObjectInfoMap[c := Info(e.selfCount, e.inclusiveCount - 1)];
        ScheduleDataChange(c);
        visited := visited + {c};
        current := universe.Super(c);
      }
    }

    /** `emitPendingDataChanged`: one count-change signal per pending
        descriptor that has an address, in the set's (unspecified) order;
        then nothing is pending. */
    method EmitPendingDataChanged() returns (ghost order: seq<Id>)
      requires Consistent()
      modifies this`pendingDataChanged, this`events
      ensures Valid()
      ensures pendingDataChanged == {}
      ensures NoDuplicates(order) && forall m :: m in order <==> m in old(pendingDataChanged)
      ensures events == old(events) + Emitted(universe, Maps(), order)
    {
      var todo := pendingDataChanged;
      order := [];
      while todo != {}
        invariant NoDuplicates(order)
        invariant forall m :: m in order <==> m in old(pendingDataChanged) && m !in todo
        invariant todo <= old(pendingDataChanged)
        invariant events == old(events) + Emitted(universe, Maps(), order)
        decreases todo
      {
        var mo :| mo in todo;
        var index := IndexForMetaObject(universe, Maps(), Some(mo));
        EmitStep(universe, Maps(), old(events), order, mo);
        if index.IsValid() {
          events := events + [DataChanged(Sibling(universe, Maps(), index, index.row, ObjectSelfCountColumn),
                                          Sibling(universe, Maps(), index, index.row, ObjectInclusiveCountColumn))];
        }
        AppendFresh(order, mo);
        order := order + [mo];
        todo := todo - {mo};
      }
      pendingDataChanged := {};
    }

    /** The single-shot timer fires: it stops, and the pending changes are
        flushed. */
    method Timeout() returns (ghost order: seq<Id>)
      requires Valid() && timerActive
      modifies this`timerActive, this`pendingDataChanged, this`events
      ensures Valid() && !timerActive && pendingDataChanged == {}
      ensures NoDuplicates(order) && forall m :: m in order <==> m in old(pendingDataChanged)
      ensures events == old(events) + Emitted(universe, Maps(), order)
    {
      timerActive := false;
      order := EmitPendingDataChanged();
    }

    /** `scheduleDataChange`: remember `mo`; start the timer unless it runs. */
    method ScheduleDataChange(mo: Id)
      modifies this`pendingDataChanged, this`timerActive, this`timerStarts
      ensures pendingDataChanged == old(pendingDataChanged) + {mo}
      ensures timerActive
      ensures timerStarts == old(timerStarts) + (if old(timerActive) then 0 else 1)
    {
      pendingDataChanged := pendingDataChanged + {mo};
      if !timerActive {
        timerActive := true;
        timerStarts := timerStarts + 1;
      }
    }
  }
}
