/** Per-type instance counters (`m_metaObjectInfoMap`), the aggregate
    invariant they keep over the tree, and the display policy of the two
    count columns. */
module TreeCounts {
  import opened Wrappers
  import opened MetaObjects
  import opened TreeAddressing
  import opened TreeInsertion

  /** `MetaObjectInfo`: instances of exactly this type, and of this type or
      any of its subtypes. */
  datatype Info = Info(selfCount: nat, inclusiveCount: nat)

  /** `m_metaObjectInfoMap.value(x).selfCount`: zero for a never-counted type. */
  function SelfCount(info: map<Id, Info>, x: Id): nat {
    if x in info then info[x].selfCount else 0
  }

  /** `m_metaObjectInfoMap.value(x).inclusiveCount`: zero for a never-counted type. */
  function InclusiveCount(info: map<Id, Info>, x: Id): nat {
    if x in info then info[x].inclusiveCount else 0
  }

  /** The sum of the inclusive counts of a child list. */
  function SumInclusive(info: map<Id, Info>, s: seq<Id>): nat {
    if |s| == 0 then 0 else SumInclusive(info, s[..|s| - 1]) + InclusiveCount(info, s[|s| - 1])
  }

  /** How far a node is from `inclusive = self + sum of children's inclusive`. */
  function Imbalance(t: Tree, info: map<Id, Info>, x: Id): int {
    InclusiveCount(info, x) - SelfCount(info, x) - SumInclusive(info, t.Children(Some(x)))
  }

  /** Only known types have counters, and every known type is balanced. */
  ghost predicate CountsValid(t: Tree, info: map<Id, Info>) {
    && (forall x :: x in info ==> x in t.childParentMap)
    && (forall x {:trigger Imbalance(t, info, x)} :: x in t.childParentMap ==> Imbalance(t, info, x) == 0)
  }

  /** `b` is `a` after one instance of `d` was counted: `d`'s self count and
      the inclusive count of every type on `d`'s chain are one higher. */
  ghost predicate CountedOnce(u: Universe, a: map<Id, Info>, b: map<Id, Info>, d: Id)
    requires u.Valid()
  {
    && (forall x :: SelfCount(b, x) == SelfCount(a, x) + (if x == d then 1 else 0))
    && (forall x :: InclusiveCount(b, x) == InclusiveCount(a, x) + (if x in u.Line(Some(d)) then 1 else 0))
  }

  lemma {:induction false} SumUnchanged(a: map<Id, Info>, b: map<Id, Info>, s: seq<Id>)
    requires forall i :: 0 <= i < |s| ==> InclusiveCount(a, s[i]) == InclusiveCount(b, s[i])
    ensures SumInclusive(a, s) == SumInclusive(b, s)
  {
    if |s| > 0 {
      SumUnchanged(a, b, s[..|s| - 1]);
    }
  }

  /** Raising one entry of a duplicate-free list by one raises the sum by one. */
  lemma {:induction false} SumBumped(a: map<Id, Info>, b: map<Id, Info>, s: seq<Id>, c: Id)
    requires NoDuplicates(s) && c in s
    requires forall i :: 0 <= i < |s| && s[i] != c ==> InclusiveCount(b, s[i]) == InclusiveCount(a, s[i])
    requires InclusiveCount(b, c) == InclusiveCount(a, c) + 1
    ensures SumInclusive(b, s) == SumInclusive(a, s) + 1
  {
    var init := s[..|s| - 1];
    if s[|s| - 1] == c {
      SumUnchanged(a, b, init);
    } else {
      assert c in init;
      SumBumped(a, b, init, c);
    }
  }

  /** Every entry of a list is at most the sum. */
  lemma {:induction false} SumAtLeast(info: map<Id, Info>, s: seq<Id>, c: Id)
    requires c in s
    ensures InclusiveCount(info, c) <= SumInclusive(info, s)
  {
    if s[|s| - 1] != c {
      SumAtLeast(info, s[..|s| - 1], c);
    }
  }

  /** Counting one instance of a known `d` leaves every known node exactly as
      balanced as it was. */
  lemma CountedOnceKeepsBalance(u: Universe, t: Tree, a: map<Id, Info>, b: map<Id, Info>, d: Id, x: Id)
    requires TreeValid(u, t) && t.IsKnown(d) && t.IsKnown(x)
    requires CountedOnce(u, a, b, d)
    ensures Imbalance(t, b, x) == Imbalance(t, a, x)
  {
    var line := u.Line(Some(d));
    var s := t.Children(Some(x));
    // every child of x has x as superclass
    assert forall i :: 0 <= i < |s| ==> u.Super(s[i]) == Some(x);
    if x !in line {
      forall i | 0 <= i < |s| ensures s[i] !in line {
        if s[i] in line {
          SuperInLine(u, d, s[i]);
        }
      }
      SumUnchanged(a, b, s);
    } else if x == d {
      forall i | 0 <= i < |s| ensures s[i] !in line {
        if s[i] in line {
          LineRank(u, d, s[i]);
        }
      }
      SumUnchanged(a, b, s);
    } else {
      var c := ChildInLine(u, d, x);
      KnownLine(u, t, d);
      assert t.IsKnown(c) && t.childParentMap[c] == Some(x);
      assert c in s;
      forall i | 0 <= i < |s| && s[i] != c ensures s[i] !in line {
        if s[i] in line {
          UniqueChildInLine(u, d, s[i], c);
        }
      }
      assert Some(x) in t.parentChildMap;
      SumBumped(a, b, s, c);
    }
  }

  /** `objectAdded`'s counting step keeps the aggregate invariant. */
  lemma CountingAddPreserves(u: Universe, t: Tree, a: map<Id, Info>, b: map<Id, Info>, d: Id)
    requires TreeValid(u, t) && t.IsKnown(d)
    requires CountsValid(t, a) && CountedOnce(u, a, b, d)
    requires forall x :: x in b ==> x in t.childParentMap
    ensures CountsValid(t, b)
  {
    forall x | x in t.childParentMap ensures Imbalance(t, b, x) == 0 {
      CountedOnceKeepsBalance(u, t, a, b, d, x);
    }
  }

  /** `objectRemoved`'s counting step (the inverse of counting once) keeps the
      aggregate invariant. */
  lemma CountingRemovePreserves(u: Universe, t: Tree, a: map<Id, Info>, b: map<Id, Info>, d: Id)
    requires TreeValid(u, t) && t.IsKnown(d)
    requires CountsValid(t, b) && CountedOnce(u, a, b, d)
    requires forall x :: x in a ==> x in t.childParentMap
    ensures CountsValid(t, a)
  {
    forall x | x in t.childParentMap ensures Imbalance(t, a, x) == 0 {
      CountedOnceKeepsBalance(u, t, a, b, d, x);
    }
  }

  /** Inserting a new (never counted) descriptor into the tree keeps every
      node balanced. */
  lemma AppendChildKeepsCounts(u: Universe, t: Tree, info: map<Id, Info>, mo: Id)
    requires TreeValid(u, t) && CountsValid(t, info) && !t.IsKnown(mo)
    requires u.Super(mo).None? || t.IsKnown(u.Super(mo).value)
    ensures CountsValid(AppendChild(t, u.Super(mo), mo), info)
  {
    var p := u.Super(mo);
    var r := AppendChild(t, p, mo);
    assert mo !in info;
    forall x | x in r.childParentMap ensures Imbalance(r, info, x) == 0 {
      if x == mo {
        assert Some(mo) != p by {
          if p == Some(mo) { LineRank(u, mo, mo); }
        }
        assert Some(mo) !in t.parentChildMap;
      } else if Some(x) == p {
        var s := t.Children(p);
        assert (s + [mo])[..|s|] == s;
        assert Imbalance(t, info, x) == 0;
      } else {
        assert Imbalance(t, info, x) == 0;
      }
    }
  }

  /** `addMetaObject` keeps every node balanced: new nodes are never counted. */
  lemma {:induction false} InsertTreeKeepsCounts(u: Universe, t: Tree, info: map<Id, Info>, x: Option<Id>)
    requires TreeValid(u, t) && CountsValid(t, info)
    ensures CountsValid(InsertTree(u, t, x), info)
    decreases u.Height(x)
  {
    if x.Some? && !t.IsKnown(x.value) {
      var mo := x.value;
      var p := u.Super(mo);
      var t1 := InsertTree(u, t, p);
      assert CountsValid(t1, info) by {
        InsertTreeKeepsCounts(u, t, info, p);
      }
      assert !t1.IsKnown(mo) && (p.None? || t1.IsKnown(p.value)) by {
        NotInOwnSuperLine(u, mo);
        if p.Some? {
          StartsLine(u, p.value);
        }
      }
      AppendChildKeepsCounts(u, t1, info, mo);
      assert InsertTree(u, t, x) == AppendChild(t1, p, mo);
    }
  }

  /** The invariant depends only on the counts, not on which zero entries
      are present. */
  lemma SameCountsKeepValid(t: Tree, a: map<Id, Info>, b: map<Id, Info>)
    requires CountsValid(t, a)
    requires forall x :: x in b ==> x in t.childParentMap
    requires forall x :: SelfCount(b, x) == SelfCount(a, x) && InclusiveCount(b, x) == InclusiveCount(a, x)
    ensures CountsValid(t, b)
  {
    forall x | x in t.childParentMap ensures Imbalance(t, b, x) == 0 {
      SumUnchanged(a, b, t.Children(Some(x)));
      assert Imbalance(t, a, x) == 0;
    }
  }

  /** The zero entry `operator[]` creates for a known type changes no count. */
  lemma ZeroEntryKeepsValid(t: Tree, info: map<Id, Info>, d: Id)
    requires CountsValid(t, info) && t.IsKnown(d) && d !in info
    ensures CountsValid(t, info[d := Info(0, 0)])
  {
    SameCountsKeepValid(t, info, info[d := Info(0, 0)]);
  }

  /** Under the invariant, inclusive counts only grow up a superclass chain. */
  lemma {:induction false} InclusiveGrowsUpward(u: Universe, t: Tree, info: map<Id, Info>, d: Id, x: Id)
    requires TreeValid(u, t) && CountsValid(t, info) && t.IsKnown(d)
    requires x in u.Line(Some(d))
    ensures SelfCount(info, d) <= InclusiveCount(info, d) <= InclusiveCount(info, x)
    decreases u.Rank(d)
  {
    assert Imbalance(t, info, d) == 0;
    if x != d {
      var p := u.Super(d).value;
      assert t.childParentMap[d] == Some(p);
      assert d in t.Children(Some(p));
      SumAtLeast(info, t.Children(Some(p)), d);
      assert Imbalance(t, info, p) == 0;
      InclusiveGrowsUpward(u, t, info, p, x);
    }
  }

  /** The counters after one more instance of `d` (`objectAdded`'s effect):
      entries are created on first use, as `operator[]` does. */
  function AddInstance(u: Universe, info: map<Id, Info>, d: Id): (r: map<Id, Info>)
    requires u.Valid()
    ensures r.Keys == info.Keys + u.Line(Some(d))
    ensures CountedOnce(u, info, r, d)
  {
    map x | x in info.Keys + u.Line(Some(d)) ::
      Info(SelfCount(info, x) + (if x == d then 1 else 0),
           InclusiveCount(info, x) + (if x in u.Line(Some(d)) then 1 else 0))
  }

  /** An instance of `d` can be taken away: `d` and every type on its chain
      count at least one (what `objectRemoved`'s asserts demand). */
  predicate Removable(u: Universe, info: map<Id, Info>, d: Id)
    requires u.Valid()
  {
    && SelfCount(info, d) > 0
    && forall x :: x in u.Line(Some(d)) ==> InclusiveCount(info, x) > 0
  }

  /** The counters after one instance of `d` is gone (`objectRemoved`'s effect). */
  function RemoveInstance(u: Universe, info: map<Id, Info>, d: Id): (r: map<Id, Info>)
    requires u.Valid() && Removable(u, info, d)
    ensures r.Keys == info.Keys
    ensures CountedOnce(u, r, info, d)
  {
    map x | x in info ::
      Info(info[x].selfCount - (if x == d then 1 else 0),
           info[x].inclusiveCount - (if x in u.Line(Some(d)) then 1 else 0))
  }

  /** Two counter maps with the same entries and the same counts are equal. */
  lemma SameCountsSame(a: map<Id, Info>, b: map<Id, Info>)
    requires a.Keys == b.Keys
    requires forall x :: SelfCount(a, x) == SelfCount(b, x) && InclusiveCount(a, x) == InclusiveCount(b, x)
    ensures a == b
  {
    forall x | x in a ensures a[x] == b[x] {
      assert SelfCount(a, x) == SelfCount(b, x) && InclusiveCount(a, x) == InclusiveCount(b, x);
    }
  }

  /** Counting one instance determines the new counters completely. */
  lemma CountedOnceIsAddInstance(u: Universe, a: map<Id, Info>, b: map<Id, Info>, d: Id)
    requires u.Valid() && CountedOnce(u, a, b, d) && b.Keys == a.Keys + u.Line(Some(d))
    ensures b == AddInstance(u, a, d)
  {
    var r := AddInstance(u, a, d);
    forall x ensures SelfCount(b, x) == SelfCount(r, x) && InclusiveCount(b, x) == InclusiveCount(r, x) {
      assert SelfCount(b, x) == SelfCount(a, x) + (if x == d then 1 else 0);
      assert InclusiveCount(b, x) == InclusiveCount(a, x) + (if x in u.Line(Some(d)) then 1 else 0);
    }
    SameCountsSame(b, r);
  }

  /** Counting one instance less determines the new counters completely. */
  lemma CountedOnceIsRemoveInstance(u: Universe, a: map<Id, Info>, b: map<Id, Info>, d: Id)
    requires u.Valid() && Removable(u, b, d) && CountedOnce(u, a, b, d) && a.Keys == b.Keys
    ensures a == RemoveInstance(u, b, d)
  {
    var r := RemoveInstance(u, b, d);
    forall x ensures SelfCount(a, x) == SelfCount(r, x) && InclusiveCount(a, x) == InclusiveCount(r, x) {
      assert SelfCount(b, x) == SelfCount(a, x) + (if x == d then 1 else 0);
      assert SelfCount(b, x) == SelfCount(r, x) + (if x == d then 1 else 0);
      assert InclusiveCount(b, x) == InclusiveCount(a, x) + (if x in u.Line(Some(d)) then 1 else 0);
      assert InclusiveCount(b, x) == InclusiveCount(r, x) + (if x in u.Line(Some(d)) then 1 else 0);
    }
    SameCountsSame(a, r);
  }

  /** Removing an instance undoes adding one: every count is back, and only
      zero entries for `d`'s chain may remain. */
  lemma RemoveUndoesAdd(u: Universe, info: map<Id, Info>, d: Id)
    requires u.Valid()
    ensures Removable(u, AddInstance(u, info, d), d)
    ensures var r := RemoveInstance(u, AddInstance(u, info, d), d);
      && r.Keys == info.Keys + u.Line(Some(d))
      && forall x :: SelfCount(r, x) == SelfCount(info, x) && InclusiveCount(r, x) == InclusiveCount(info, x)
  {
    var b := AddInstance(u, info, d);
    StartsLine(u, d);
    assert SelfCount(b, d) == SelfCount(info, d) + 1;
    forall x | x in u.Line(Some(d)) ensures InclusiveCount(b, x) > 0 {
      assert InclusiveCount(b, x) == InclusiveCount(info, x) + 1;
    }
    var r := RemoveInstance(u, b, d);
    forall x ensures SelfCount(r, x) == SelfCount(info, x) && InclusiveCount(r, x) == InclusiveCount(info, x) {
      assert SelfCount(b, x) == SelfCount(r, x) + (if x == d then 1 else 0);
      assert SelfCount(b, x) == SelfCount(info, x) + (if x == d then 1 else 0);
      assert InclusiveCount(b, x) == InclusiveCount(r, x) + (if x in u.Line(Some(d)) then 1 else 0);
      assert InclusiveCount(b, x) == InclusiveCount(info, x) + (if x in u.Line(Some(d)) then 1 else 0);
    }
  }

  /** Adding an instance undoes removing one, exactly. */
  lemma AddUndoesRemove(u: Universe, info: map<Id, Info>, d: Id)
    requires u.Valid() && Removable(u, info, d)
    ensures AddInstance(u, RemoveInstance(u, info, d), d) == info
  {
    var r := RemoveInstance(u, info, d);
    forall x | x in u.Line(Some(d)) ensures x in info {
      assert InclusiveCount(info, x) > 0;
    }
    CountedOnceIsAddInstance(u, r, info, d);
  }

  /** Under the invariant, a known type with a live instance can lose one:
      no counter on its chain would drop below zero. */
  lemma ValidRemovable(u: Universe, t: Tree, info: map<Id, Info>, d: Id)
    requires TreeValid(u, t) && CountsValid(t, info) && t.IsKnown(d) && SelfCount(info, d) > 0
    ensures Removable(u, info, d)
  {
    forall x | x in u.Line(Some(d)) ensures InclusiveCount(info, x) > 0 {
      InclusiveGrowsUpward(u, t, info, d, x);
    }
  }

  /** Changing only `d`'s own count leaves every inclusive count, and hence
      every chain's removability, as it was. */
  lemma SelfUpdateKeepsInclusive(u: Universe, a: map<Id, Info>, d: Id, self: nat)
    requires u.Valid() && d in a
    ensures forall y :: InclusiveCount(a[d := Info(self, a[d].inclusiveCount)], y) == InclusiveCount(a, y)
  {
  }

  /** Counting one more instance keeps the aggregate invariant. */
  lemma AddInstanceKeepsValid(u: Universe, t: Tree, info: map<Id, Info>, d: Id)
    requires TreeValid(u, t) && CountsValid(t, info) && t.IsKnown(d)
    ensures CountsValid(t, AddInstance(u, info, d))
  {
    KnownLine(u, t, d);
    CountingAddPreserves(u, t, info, AddInstance(u, info, d), d);
  }

  /** Counting one instance less keeps the aggregate invariant. */
  lemma RemoveInstanceKeepsValid(u: Universe, t: Tree, info: map<Id, Info>, d: Id)
    requires TreeValid(u, t) && CountsValid(t, info) && t.IsKnown(d) && Removable(u, info, d)
    ensures CountsValid(t, RemoveInstance(u, info, d))
  {
    CountingRemovePreserves(u, t, RemoveInstance(u, info, d), info, d);
  }

  /** Part way up `objectAdded`'s walk: every type in `visited` counts one
      more inclusive instance than in `a`, with its entry created on demand. */
  ghost predicate RaisedOn(a: map<Id, Info>, b: map<Id, Info>, visited: set<Id>) {
    && b.Keys == a.Keys + visited
    && (forall x :: SelfCount(b, x) == SelfCount(a, x))
    && (forall x :: InclusiveCount(b, x) == InclusiveCount(a, x) + (if x in visited then 1 else 0))
  }

  /** Part way up `objectRemoved`'s walk: every type in `visited` counts one
      inclusive instance less than in `a`. */
  ghost predicate LoweredOn(a: map<Id, Info>, b: map<Id, Info>, visited: set<Id>) {
    && b.Keys == a.Keys
    && (forall x :: SelfCount(b, x) == SelfCount(a, x))
    && (forall x :: InclusiveCount(b, x) + (if x in visited then 1 else 0) == InclusiveCount(a, x))
  }

  /** `++m_metaObjectInfoMap[c].inclusiveCount` for a not yet visited `c`. */
  lemma RaiseStep(a: map<Id, Info>, b: map<Id, Info>, visited: set<Id>, c: Id)
    requires RaisedOn(a, b, visited) && c !in visited
    ensures RaisedOn(a, b[c := Info(SelfCount(b, c), InclusiveCount(b, c) + 1)], visited + {c})
  {
    var b' := b[c := Info(SelfCount(b, c), InclusiveCount(b, c) + 1)];
    forall x ensures InclusiveCount(b', x) == InclusiveCount(a, x) + (if x in visited + {c} then 1 else 0) {
      assert InclusiveCount(b, x) == InclusiveCount(a, x) + (if x in visited then 1 else 0);
    }
    forall x ensures SelfCount(b', x) == SelfCount(a, x) {
      assert SelfCount(b, x) == SelfCount(a, x);
    }
  }

  /** `--m_metaObjectInfoMap[c].inclusiveCount` for a not yet visited `c`
      that still counts an instance. */
  lemma LowerStep(a: map<Id, Info>, b: map<Id, Info>, visited: set<Id>, c: Id)
    requires LoweredOn(a, b, visited) && c !in visited && c in b && b[c].inclusiveCount > 0
    ensures LoweredOn(a, b[c := Info(b[c].selfCount, b[c].inclusiveCount - 1)], visited + {c})
  {
    var b' := b[c := Info(b[c].selfCount, b[c].inclusiveCount - 1)];
    forall x ensures InclusiveCount(b', x) + (if x in visited + {c} then 1 else 0) == InclusiveCount(a, x) {
      assert InclusiveCount(b, x) + (if x in visited then 1 else 0) == InclusiveCount(a, x);
    }
    forall x ensures SelfCount(b', x) == SelfCount(a, x) {
      assert SelfCount(b, x) == SelfCount(a, x);
    }
  }

  /** `objectAdded`'s self increment followed by the whole walk up the chain
      is exactly one more instance of `d`, and keeps the counts consistent. */
  lemma AddWalkDone(u: Universe, t: Tree, a: map<Id, Info>, b: map<Id, Info>, d: Id)
    requires TreeValid(u, t) && CountsValid(t, a) && t.IsKnown(d)
    requires RaisedOn(a[d := Info(SelfCount(a, d) + 1, InclusiveCount(a, d))], b, u.Line(Some(d)))
    ensures b == AddInstance(u, a, d) && CountsValid(t, b)
  {
    var a1 := a[d := Info(SelfCount(a, d) + 1, InclusiveCount(a, d))];
    StartsLine(u, d);
    forall x ensures SelfCount(b, x) == SelfCount(a, x) + (if x == d then 1 else 0)
      && InclusiveCount(b, x) == InclusiveCount(a, x) + (if x in u.Line(Some(d)) then 1 else 0)
    {
      assert SelfCount(b, x) == SelfCount(a1, x);
      assert InclusiveCount(b, x) == InclusiveCount(a1, x) + (if x in u.Line(Some(d)) then 1 else 0);
    }
    CountedOnceIsAddInstance(u, a, b, d);
    AddInstanceKeepsValid(u, t, a, d);
  }

  /** `objectRemoved`'s self decrement followed by the whole walk up the
      chain is exactly one instance of `d` less, and keeps the counts
      consistent. */
  lemma RemoveWalkDone(u: Universe, t: Tree, a: map<Id, Info>, b: map<Id, Info>, d: Id)
    requires TreeValid(u, t) && CountsValid(t, a) && t.IsKnown(d)
    requires Removable(u, a, d) && d in a
    requires LoweredOn(a[d := Info(a[d].selfCount - 1, a[d].inclusiveCount)], b, u.Line(Some(d)))
    ensures b == RemoveInstance(u, a, d) && CountsValid(t, b)
  {
    var a1 := a[d := Info(a[d].selfCount - 1, a[d].inclusiveCount)];
    forall x ensures SelfCount(a, x) == SelfCount(b, x) + (if x == d then 1 else 0)
      && InclusiveCount(a, x) == InclusiveCount(b, x) + (if x in u.Line(Some(d)) then 1 else 0)
    {
      assert SelfCount(b, x) == SelfCount(a1, x);
      assert InclusiveCount(b, x) + (if x in u.Line(Some(d)) then 1 else 0) == InclusiveCount(a1, x);
    }
    CountedOnceIsRemoveInstance(u, b, a, d);
    RemoveInstanceKeepsValid(u, t, a, d);
  }

  /** The roles `data` answers. */
  datatype Role = DisplayRole | MetaObjectRole | OtherRole(code: int)

  /** The QVariant values `data` returns. */
  datatype Variant = NoValue | Text(text: string) | Number(n: nat) | MetaObjectValue(mo: Id)

  /** `data(index, role)`. */
  function Data(u: Universe, info: map<Id, Info>, index: ModelIndex, role: Role): Variant
    requires u.Valid()
  {
    if !index.IsValid() then NoValue
    else
      var mo := index.id;
      if role == DisplayRole then
        if index.column == ObjectColumn then Text(u.ClassName(mo))
        else if index.column == ObjectSelfCountColumn then
          if u.ReachesQObject(Some(mo)) then Number(SelfCount(info, mo)) else Text("-")
        else if index.column == ObjectInclusiveCountColumn then
          if u.ReachesQObject(Some(mo)) then Number(InclusiveCount(info, mo)) else Text("-")
        else NoValue
      else if role == MetaObjectRole then MetaObjectValue(mo)
      else NoValue
  }

  /** The count columns show numbers exactly for types whose chain reaches
      QObject, and "-" otherwise; a never-counted type shows 0. */
  lemma DisplayPolicy(u: Universe, info: map<Id, Info>, index: ModelIndex)
    requires u.Valid() && index.IsValid()
    requires index.column == ObjectSelfCountColumn || index.column == ObjectInclusiveCountColumn
    ensures Data(u, info, index, DisplayRole).Number? <==> QObjectId in u.Line(Some(index.id))
    ensures Data(u, info, index, DisplayRole).Text? <==> QObjectId !in u.Line(Some(index.id))
    ensures Data(u, info, index, DisplayRole).Text? ==> Data(u, info, index, DisplayRole).text == "-"
    ensures Data(u, info, index, DisplayRole).Number? && index.id !in info ==> Data(u, info, index, DisplayRole).n == 0
  {
  }

  /** Under the invariant the Incl. column never shows less than the Self column. */
  lemma InclusiveColumnAtLeastSelf(u: Universe, t: Tree, info: map<Id, Info>, x: Id, row: nat)
    requires TreeValid(u, t) && CountsValid(t, info) && t.IsKnown(x)
    requires QObjectId in u.Line(Some(x))
    ensures Data(u, info, Index(row, ObjectSelfCountColumn, x), DisplayRole).Number?
    ensures Data(u, info, Index(row, ObjectInclusiveCountColumn, x), DisplayRole).Number?
    ensures Data(u, info, Index(row, ObjectSelfCountColumn, x), DisplayRole).n
      <= Data(u, info, Index(row, ObjectInclusiveCountColumn, x), DisplayRole).n
  {
    assert Imbalance(t, info, x) == 0;
  }
}
