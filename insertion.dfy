/** `addMetaObject` on the tree: what one insertion appends, proved once as
    a function on tree snapshots. */
module TreeInsertion {
  import opened Wrappers
  import opened MetaObjects
  import opened TreeAddressing

  /** The insertion step of `addMetaObject`: append `mo` to its parent's
      child list and record the parent. */
  function AppendChild(t: Tree, parent: Option<Id>, mo: Id): (r: Tree)
    ensures r.Children(parent) == t.Children(parent) + [mo]
    ensures forall p :: p != parent ==> r.Children(p) == t.Children(p)
    ensures r.childParentMap == t.childParentMap[mo := parent]
  {
    Tree(t.parentChildMap[parent := t.Children(parent) + [mo]], t.childParentMap[mo := parent])
  }

  /** Appending an unknown descriptor under its known (or null) superclass
      keeps the tree invariant. */
  lemma AppendChildValid(u: Universe, t: Tree, mo: Id)
    requires TreeValid(u, t) && !t.IsKnown(mo)
    requires u.Super(mo).None? || t.IsKnown(u.Super(mo).value)
    ensures TreeValid(u, AppendChild(t, u.Super(mo), mo))
  {
    AppendChildLinks(u, t, mo);
    AppendChildNoDuplicates(u, t, mo);
    AppendChildListed(u, t, mo);
  }

  /** After the append every child list entry still records its list's parent. */
  lemma AppendChildLinks(u: Universe, t: Tree, mo: Id)
    requires TreeValid(u, t) && !t.IsKnown(mo)
    ensures var p := u.Super(mo); var r := AppendChild(t, p, mo);
      forall q, i :: q in r.parentChildMap && 0 <= i < |r.parentChildMap[q]| ==>
        r.parentChildMap[q][i] in r.childParentMap && r.childParentMap[r.parentChildMap[q][i]] == q
  {
    var p := u.Super(mo);
    var r := AppendChild(t, p, mo);
    forall q, i | q in r.parentChildMap && 0 <= i < |r.parentChildMap[q]|
      ensures r.parentChildMap[q][i] in r.childParentMap && r.childParentMap[r.parentChildMap[q][i]] == q
    {
      if q == p && i == |t.Children(p)| {
      } else {
        assert q in t.parentChildMap;
        assert r.parentChildMap[q][i] == t.parentChildMap[q][i];
      }
    }
  }

  /** After the append no child list repeats an entry. */
  lemma AppendChildNoDuplicates(u: Universe, t: Tree, mo: Id)
    requires TreeValid(u, t) && !t.IsKnown(mo)
    ensures var p := u.Super(mo); var r := AppendChild(t, p, mo);
      forall q :: q in r.parentChildMap ==> NoDuplicates(r.parentChildMap[q])
  {
    var p := u.Super(mo);
    var r := AppendChild(t, p, mo);
    assert mo !in t.Children(p);
    forall q | q in r.parentChildMap ensures NoDuplicates(r.parentChildMap[q]) {
      if q == p {
        assert p in t.parentChildMap ==> NoDuplicates(t.parentChildMap[p]);
      }
    }
  }

  /** After the append every known descriptor sits in its parent's list. */
  lemma AppendChildListed(u: Universe, t: Tree, mo: Id)
    requires TreeValid(u, t)
    ensures var p := u.Super(mo); var r := AppendChild(t, p, mo);
      forall x {:trigger r.childParentMap[x]} :: x in r.childParentMap ==> x in r.Children(r.childParentMap[x])
  {
    var p := u.Super(mo);
    var r := AppendChild(t, p, mo);
    forall x | x in r.childParentMap ensures x in r.Children(r.childParentMap[x]) {
      if x != mo {
        assert x in t.Children(t.childParentMap[x]);
      }
    }
  }

  /** The descriptors an insertion of `x` adds: the unknown part of its chain. */
  ghost function NewIds(u: Universe, t: Tree, x: Option<Id>): set<Id>
    requires u.Valid()
  {
    u.Line(x) - t.childParentMap.Keys
  }

  /** Inserting `mo`'s chain is inserting its superclass's chain and `mo`. */
  lemma NewIdsStep(u: Universe, t: Tree, mo: Id)
    requires u.Valid() && !t.IsKnown(mo)
    ensures NewIds(u, t, Some(mo)) == NewIds(u, t, u.Super(mo)) + {mo}
    ensures mo !in NewIds(u, t, u.Super(mo))
    ensures |NewIds(u, t, Some(mo))| == |NewIds(u, t, u.Super(mo))| + 1
  {
    NewIdsSplit(u, t, mo);
    NotInOwnSuperLine(u, mo);
    CardAddOne(NewIds(u, t, u.Super(mo)), mo);
  }

  lemma NewIdsSplit(u: Universe, t: Tree, mo: Id)
    requires u.Valid() && !t.IsKnown(mo)
    ensures NewIds(u, t, Some(mo)) == NewIds(u, t, u.Super(mo)) + {mo}
  {
    assert u.Line(Some(mo)) == u.Line(u.Super(mo)) + {mo};
  }

  lemma CardAddOne(s: set<Id>, x: Id)
    requires x !in s
    ensures |s + {x}| == |s| + 1
  {
  }

  /** No descriptor of a chain has the chain's start as its superclass. */
  lemma NoneBelowStart(u: Universe, t: Tree, p: Option<Id>, y: Id)
    requires u.Valid() && y in NewIds(u, t, p)
    ensures u.Super(y) != p
  {
    if u.Super(y) == p {
      LineRank(u, p.value, y);
    }
  }

  /** The tree after `addMetaObject(x)`: first the missing ancestors, then
      `x` itself at the end of its superclass's child list. It keeps the tree
      invariant, and the known descriptors become the old ones plus `x`'s
      whole chain. */
  function InsertTree(u: Universe, t: Tree, x: Option<Id>): (r: Tree)
    requires TreeValid(u, t)
    ensures TreeValid(u, r)
    ensures r.childParentMap.Keys == t.childParentMap.Keys + u.Line(x)
    decreases u.Height(x)
  {
    if x.None? || t.IsKnown(x.value) then
      KnownLineIfSome(u, t, x);
      t
    else
      var p := u.Super(x.value);
      var t1 := InsertTree(u, t, p);
      NotInOwnSuperLine(u, x.value);
      assert p.None? || t1.IsKnown(p.value) by {
        if p.Some? {
          StartsLine(u, p.value);
        }
      }
      AppendChildValid(u, t1, x.value);
      AppendChild(t1, p, x.value)
  }

  /** `addMetaObject` of a known descriptor (or of null) changes nothing, so
      a second call with the same argument is a no-op. */
  lemma InsertTreeIdempotent(u: Universe, t: Tree, x: Option<Id>)
    requires TreeValid(u, t)
    ensures (x.None? || t.IsKnown(x.value)) ==> InsertTree(u, t, x) == t
    ensures InsertTree(u, InsertTree(u, t, x), x) == InsertTree(u, t, x)
  {
    if x.Some? {
      StartsLine(u, x.value);
    }
  }

  /** The chain of a known descriptor (or of null) is already known. */
  lemma KnownLineIfSome(u: Universe, t: Tree, x: Option<Id>)
    requires TreeValid(u, t) && (x.None? || t.IsKnown(x.value))
    ensures u.Line(x) <= t.childParentMap.Keys
  {
    if x.Some? {
      KnownLine(u, t, x.value);
    }
  }

  /** An insertion keeps every old entry: known descriptors keep their
      parent, and every old child list is a prefix of the new one. */
  lemma {:induction false} InsertTreeKeepsOld(u: Universe, t: Tree, x: Option<Id>)
    requires TreeValid(u, t)
    ensures forall y :: y in t.childParentMap ==> InsertTree(u, t, x).childParentMap[y] == t.childParentMap[y]
    ensures forall p :: t.Children(p) <= InsertTree(u, t, x).Children(p)
    decreases u.Height(x)
  {
    if x.Some? && !t.IsKnown(x.value) {
      var p := u.Super(x.value);
      InsertTreeKeepsOld(u, t, p);
      var t1 := InsertTree(u, t, p);
      assert InsertTree(u, t, x) == AppendChild(t1, p, x.value);
      AppendKeepsOld(t, t1, p, x.value);
    }
  }

  /** If `t1` extends `t`, so does `t1` with a descriptor unknown to `t`
      appended. */
  lemma AppendKeepsOld(t: Tree, t1: Tree, p: Option<Id>, mo: Id)
    requires !t.IsKnown(mo)
    requires forall y :: y in t.childParentMap ==> y in t1.childParentMap && t1.childParentMap[y] == t.childParentMap[y]
    requires forall q :: t.Children(q) <= t1.Children(q)
    ensures var r := AppendChild(t1, p, mo);
      && (forall y :: y in t.childParentMap ==> y in r.childParentMap && r.childParentMap[y] == t.childParentMap[y])
      && (forall q :: t.Children(q) <= r.Children(q))
  {
    var r := AppendChild(t1, p, mo);
    forall q ensures t.Children(q) <= r.Children(q) {
      assert t.Children(q) <= t1.Children(q);
    }
  }

  /** Whatever an insertion appends to a child list is a new descriptor. */
  lemma {:induction false} InsertTreeAddsOnlyNew(u: Universe, t: Tree, x: Option<Id>)
    requires TreeValid(u, t)
    ensures forall q, i :: |t.Children(q)| <= i < |InsertTree(u, t, x).Children(q)| ==>
      InsertTree(u, t, x).Children(q)[i] in NewIds(u, t, x)
    decreases u.Height(x)
  {
    if x.Some? && !t.IsKnown(x.value) {
      var mo := x.value;
      var p := u.Super(mo);
      NewIdsStep(u, t, mo);
      InsertTreeAddsOnlyNew(u, t, p);
      var t1 := InsertTree(u, t, p);
      assert InsertTree(u, t, x) == AppendChild(t1, p, mo);
      AppendedStaysIn(t, t1, p, mo, NewIds(u, t, p));
    }
  }

  /** If everything `t1` has beyond `t` lies in `s`, appending `mo` to `t1`
      adds only `mo` to that. */
  lemma AppendedStaysIn(t: Tree, t1: Tree, p: Option<Id>, mo: Id, s: set<Id>)
    requires forall q, i :: |t.Children(q)| <= i < |t1.Children(q)| ==> t1.Children(q)[i] in s
    ensures var r := AppendChild(t1, p, mo);
      forall q, i :: |t.Children(q)| <= i < |r.Children(q)| ==> r.Children(q)[i] in s + {mo}
  {
    var r := AppendChild(t1, p, mo);
    forall q, i | |t.Children(q)| <= i < |r.Children(q)| ensures r.Children(q)[i] in s + {mo} {
      if q != p || i < |t1.Children(p)| {
        assert r.Children(q)[i] == t1.Children(q)[i];
      }
    }
  }

  /** Inserting `p`'s chain leaves `p`'s own child list alone. */
  lemma InsertTreeKeepsStartList(u: Universe, t: Tree, p: Option<Id>)
    requires TreeValid(u, t)
    ensures InsertTree(u, t, p).Children(p) == t.Children(p)
  {
    var t1 := InsertTree(u, t, p);
    InsertTreeKeepsOld(u, t, p);
    InsertTreeAddsOnlyNew(u, t, p);
    if |t1.Children(p)| > |t.Children(p)| {
      var y := t1.Children(p)[|t.Children(p)|];
      NoneBelowStart(u, t, p, y);
      assert false;
    }
  }

  /** An insertion appends each new descriptor, alone, to the end of its
      superclass's child list. */
  lemma {:induction false} InsertTreeAppends(u: Universe, t: Tree, x: Option<Id>)
    requires TreeValid(u, t)
    ensures forall y :: y in NewIds(u, t, x) ==>
      InsertTree(u, t, x).Children(u.Super(y)) == t.Children(u.Super(y)) + [y]
    decreases u.Height(x)
  {
    if x.Some? && !t.IsKnown(x.value) {
      var mo := x.value;
      var p := u.Super(mo);
      NewIdsStep(u, t, mo);
      InsertTreeAppends(u, t, p);
      InsertTreeKeepsStartList(u, t, p);
      var t1 := InsertTree(u, t, p);
      var r := InsertTree(u, t, x);
      assert r == AppendChild(t1, p, mo);
      forall y | y in NewIds(u, t, x) ensures r.Children(u.Super(y)) == t.Children(u.Super(y)) + [y] {
        if y != mo {
          NoneBelowStart(u, t, p, y);
          assert t1.Children(u.Super(y)) == t.Children(u.Super(y)) + [y];
        }
      }
    }
  }

  /** The descriptors on the superclass chains of `types`. */
  ghost function Lines(u: Universe, types: seq<Id>): set<Id>
    requires u.Valid()
  {
    set i, y | 0 <= i < |types| && y in u.Line(Some(types[i])) :: y
  }

  /** One more type adds its chain. */
  lemma LinesSnoc(u: Universe, types: seq<Id>)
    requires u.Valid() && |types| > 0
    ensures Lines(u, types) == Lines(u, types[..|types| - 1]) + u.Line(Some(types[|types| - 1]))
  {
    var prefix := types[..|types| - 1];
    var last := |types| - 1;
    forall y | y in Lines(u, types) ensures y in Lines(u, prefix) + u.Line(Some(types[last])) {
      var i :| 0 <= i < |types| && y in u.Line(Some(types[i]));
      if i < last {
        assert types[i] == prefix[i];
      }
    }
    forall y | y in Lines(u, prefix) ensures y in Lines(u, types) {
      var i :| 0 <= i < |prefix| && y in u.Line(Some(prefix[i]));
      assert prefix[i] == types[i];
    }
  }

  /** `addMetaObject` of each of `types` in turn, as `scanMetaTypes` does;
      the tree invariant holds throughout. */
  function InsertAll(u: Universe, t: Tree, types: seq<Id>): (r: Tree)
    requires TreeValid(u, t)
    ensures TreeValid(u, r)
    ensures t.childParentMap.Keys <= r.childParentMap.Keys
  {
    if |types| == 0 then t
    else InsertTree(u, InsertAll(u, t, types[..|types| - 1]), Some(types[|types| - 1]))
  }

  /** Seeding makes known exactly the old descriptors plus every chain of
      the seeded types. */
  lemma {:induction false} InsertAllKeys(u: Universe, t: Tree, types: seq<Id>)
    requires TreeValid(u, t)
    ensures InsertAll(u, t, types).childParentMap.Keys == t.childParentMap.Keys + Lines(u, types)
    decreases |types|
  {
    if |types| > 0 {
      var prefix := types[..|types| - 1];
      InsertAllKeys(u, t, prefix);
      LinesSnoc(u, types);
      assert InsertAll(u, t, types) == InsertTree(u, InsertAll(u, t, prefix), Some(types[|types| - 1]));
    }
  }

  /** Every seeded type is known afterwards, and so is every descriptor
      known before. */
  lemma InsertAllKnowsTypes(u: Universe, t: Tree, types: seq<Id>)
    requires TreeValid(u, t)
    ensures forall k :: 0 <= k < |types| ==> types[k] in InsertAll(u, t, types).childParentMap
    ensures t.childParentMap.Keys <= InsertAll(u, t, types).childParentMap.Keys
  {
    InsertAllKeys(u, t, types);
    forall k | 0 <= k < |types| ensures types[k] in InsertAll(u, t, types).childParentMap {
      StartsLine(u, types[k]);
      assert types[k] in Lines(u, types);
    }
  }

  /** Seeding only extends the tree: known descriptors keep their parent,
      and every old child list is a prefix of the new one. */
  lemma {:induction false} InsertAllKeepsOld(u: Universe, t: Tree, types: seq<Id>)
    requires TreeValid(u, t)
    ensures forall y :: y in t.childParentMap ==> InsertAll(u, t, types).childParentMap[y] == t.childParentMap[y]
    ensures forall p :: t.Children(p) <= InsertAll(u, t, types).Children(p)
    decreases |types|
  {
    if |types| > 0 {
      var prefix := types[..|types| - 1];
      var t1 := InsertAll(u, t, prefix);
      var x := Some(types[|types| - 1]);
      InsertAllKeepsOld(u, t, prefix);
      InsertTreeKeepsOld(u, t1, x);
      var r := InsertAll(u, t, types);
      assert r == InsertTree(u, t1, x);
      forall y | y in t.childParentMap ensures r.childParentMap[y] == t.childParentMap[y] {
        assert t1.childParentMap[y] == t.childParentMap[y];
      }
      forall p ensures t.Children(p) <= r.Children(p) {
        assert t.Children(p) <= t1.Children(p) <= r.Children(p);
      }
    }
  }
}
