/** The tree of known descriptors kept by the tree model, and the mapping
    between descriptors and (row, column, parent) model addresses. */
module TreeAddressing {
  import opened Wrappers
  import opened MetaObjects

  /** `m_parentChildMap` (parent -> ordered children; the null parent holds
      the roots) and `m_childParentMap` (child -> parent). */
  datatype Tree = Tree(parentChildMap: map<Option<Id>, seq<Id>>, childParentMap: map<Id, Option<Id>>)
  {
    /** `isKnownMetaObject`. */
    predicate IsKnown(x: Id) {
      x in childParentMap
    }

    /** `m_parentChildMap.value(p)`: the empty vector for a missing key. */
    function Children(p: Option<Id>): seq<Id> {
      if p in parentChildMap then parentChildMap[p] else []
    }
  }

  const EmptyTree := Tree(map[], map[])

  ghost predicate NoDuplicates(s: seq<Id>) {
    forall i, j :: 0 <= i < j < |s| ==> s[i] != s[j]
  }

  /** The tree invariant: the recorded parent is the superclass, the known set
      is closed under superclass, the two maps are mutual inverses, and no
      child list repeats an entry. */
  ghost predicate TreeValid(u: Universe, t: Tree) {
    && u.Valid()
    && (forall x {:trigger t.childParentMap[x]} :: x in t.childParentMap ==> t.childParentMap[x] == u.Super(x))
    && (forall x {:trigger u.Super(x)} :: x in t.childParentMap && u.Super(x).Some? ==> u.Super(x).value in t.childParentMap)
    && (forall x {:trigger t.childParentMap[x]} :: x in t.childParentMap ==> x in t.Children(t.childParentMap[x]))
    && (forall p, i :: p in t.parentChildMap && 0 <= i < |t.parentChildMap[p]| ==>
          t.parentChildMap[p][i] in t.childParentMap && t.childParentMap[t.parentChildMap[p][i]] == p)
    && (forall p :: p in t.parentChildMap ==> NoDuplicates(t.parentChildMap[p]))
    && (forall p :: p in t.parentChildMap && p.Some? ==> p.value in t.childParentMap)
  }

  /** A QModelIndex of this model: invalid, or a row and column with the
      descriptor as internal pointer. */
  datatype ModelIndex = Invalid | Index(row: nat, column: nat, id: Id)
  {
    predicate IsValid() {
      Index?
    }
  }

  const ObjectColumn: nat := 0
  const ObjectSelfCountColumn: nat := 1
  const ObjectInclusiveCountColumn: nat := 2
  /** `columnCount()`, the `_Last` enumerator. */
  const ColumnCount: nat := 3

  /** `metaObjectForIndex`: the internal pointer, null for an invalid index. */
  function MetaObjectForIndex(index: ModelIndex): (r: Option<Id>)
    ensures r.Some? <==> index.IsValid()
    ensures index.IsValid() ==> r.value == index.id
  {
    if index.Invalid? then None else Some(index.id)
  }

  /** `rowCount`: the length of the parent's child list. */
  function RowCount(t: Tree, parent: ModelIndex): nat {
    |t.Children(MetaObjectForIndex(parent))|
  }

  /** `index(row, column, parent)`. */
  function IndexAt(t: Tree, row: int, column: int, parent: ModelIndex): (r: ModelIndex)
    ensures r.IsValid() <==> 0 <= row < RowCount(t, parent) && 0 <= column < ColumnCount
    ensures r.IsValid() ==>
      r.row == row && r.column == column && r.id == t.Children(MetaObjectForIndex(parent))[row]
  {
    var children := t.Children(MetaObjectForIndex(parent));
    if row < 0 || column < 0 || row >= |children| || column >= ColumnCount then Invalid
    else Index(row, column, children[row])
  }

  /** `QVector::indexOf`: the first position of `x`, or -1. */
  function IndexOf(s: seq<Id>, x: Id): (r: int)
    ensures -1 <= r < |s|
    ensures r == -1 <==> x !in s
    ensures r >= 0 ==> s[r] == x && forall j :: 0 <= j < r ==> s[j] != x
  {
    if |s| == 0 then -1
    else if s[0] == x then 0
    else
      var k := IndexOf(s[1..], x);
      if k < 0 then -1 else k + 1
  }

  /** `indexForMetaObject`: the address of a descriptor, built from the
      address of its recorded parent. */
  function IndexForMetaObject(u: Universe, t: Tree, mo: Option<Id>): ModelIndex
    requires TreeValid(u, t)
    decreases u.Height(mo)
  {
    if mo.None? then Invalid
    else
      var parentObject := if mo.value in t.childParentMap then t.childParentMap[mo.value] else None;
      var parentIndex := IndexForMetaObject(u, t, parentObject);
      if !parentIndex.IsValid() && parentObject.Some? then Invalid
      else
        var row := IndexOf(t.Children(parentObject), mo.value);
        if row < 0 then Invalid
        else IndexAt(t, row, 0, parentIndex)
  }

  /** `parent(child)`: the address of the child descriptor's superclass. */
  function Parent(u: Universe, t: Tree, child: ModelIndex): ModelIndex
    requires TreeValid(u, t)
  {
    if !child.IsValid() then Invalid
    else IndexForMetaObject(u, t, u.Super(child.id))
  }

  /** `QModelIndex::sibling` with Qt's default `QAbstractItemModel::sibling`. */
  function Sibling(u: Universe, t: Tree, index: ModelIndex, row: int, column: int): ModelIndex
    requires TreeValid(u, t)
  {
    if !index.IsValid() then Invalid
    else if row == index.row && column == index.column then index
    else IndexAt(t, row, column, Parent(u, t, index))
  }

  /** `match` for the descriptor role: exactly the descriptor's own address. */
  function MatchMetaObject(u: Universe, t: Tree, mo: Option<Id>): (r: seq<ModelIndex>)
    requires TreeValid(u, t)
    ensures |r| == 1
    ensures r[0].IsValid() <==> mo.Some? && t.IsKnown(mo.value)
    ensures r[0].IsValid() ==> MetaObjectForIndex(r[0]) == mo
  {
    IndexForMetaObjectSpec(u, t, mo);
    [IndexForMetaObject(u, t, mo)]
  }

  /** The empty tree satisfies the invariant. */
  lemma EmptyTreeValid(u: Universe)
    requires u.Valid()
    ensures TreeValid(u, EmptyTree)
  {
  }

  /** Every descriptor on a known descriptor's superclass chain is known. */
  lemma {:induction false} KnownLine(u: Universe, t: Tree, d: Id)
    requires TreeValid(u, t) && t.IsKnown(d)
    ensures forall y :: y in u.Line(Some(d)) ==> t.IsKnown(y)
    decreases u.Rank(d)
  {
    if u.Super(d).Some? {
      KnownLine(u, t, u.Super(d).value);
    }
  }

  /** A known descriptor sits in exactly one child list, that of its recorded
      parent, and exactly once there. */
  lemma KnownOccursOnce(u: Universe, t: Tree, x: Id, p: Option<Id>)
    requires TreeValid(u, t) && t.IsKnown(x)
    ensures x in t.Children(p) <==> p == t.childParentMap[x]
    ensures var s := t.Children(t.childParentMap[x]);
      forall i :: 0 <= i < |s| && s[i] == x ==> i == IndexOf(s, x)
  {
    var s := t.Children(t.childParentMap[x]);
    var k := IndexOf(s, x);
    forall i | 0 <= i < |s| && s[i] == x ensures i == k {
      assert t.childParentMap[x] in t.parentChildMap;
      assert NoDuplicates(s);
    }
    if x in t.Children(p) {
      var j :| 0 <= j < |t.Children(p)| && t.Children(p)[j] == x;
      assert p in t.parentChildMap;
    }
  }

  /** `indexForMetaObject` is valid exactly for known descriptors; then its row
      is the position in the recorded parent's child list, its column 0, and
      its internal pointer the descriptor (`metaObjectForIndex` undoes it). */
  lemma {:induction false} IndexForMetaObjectSpec(u: Universe, t: Tree, mo: Option<Id>)
    requires TreeValid(u, t)
    ensures IndexForMetaObject(u, t, mo).IsValid() <==> mo.Some? && t.IsKnown(mo.value)
    ensures mo.Some? && t.IsKnown(mo.value) ==>
      var s := t.Children(t.childParentMap[mo.value]);
      IndexForMetaObject(u, t, mo) == Index(IndexOf(s, mo.value), 0, mo.value) &&
      0 <= IndexOf(s, mo.value) < |s| && s[IndexOf(s, mo.value)] == mo.value
    ensures MetaObjectForIndex(IndexForMetaObject(u, t, mo)) == if mo.Some? && t.IsKnown(mo.value) then mo else None
    decreases u.Height(mo)
  {
    if mo.Some? {
      var x := mo.value;
      if t.IsKnown(x) {
        var p := t.childParentMap[x];
        IndexForMetaObjectSpec(u, t, p);
        assert x in t.Children(p);
      }
    }
  }

  /** The other round trip: any in-range row under a proper parent address
      names a descriptor whose own address is that index. */
  lemma AddressRoundTrip(u: Universe, t: Tree, p: Option<Id>, row: int)
    requires TreeValid(u, t)
    requires p.None? || t.IsKnown(p.value)
    requires 0 <= row < |t.Children(p)|
    ensures var index := IndexAt(t, row, 0, IndexForMetaObject(u, t, p));
      index.IsValid() && IndexForMetaObject(u, t, MetaObjectForIndex(index)) == index
  {
    IndexForMetaObjectSpec(u, t, p);
    var parentIndex := IndexForMetaObject(u, t, p);
    assert MetaObjectForIndex(parentIndex) == p;
    var c := t.Children(p)[row];
    assert p in t.parentChildMap;
    assert t.IsKnown(c) && t.childParentMap[c] == p;
    IndexForMetaObjectSpec(u, t, Some(c));
    KnownOccursOnce(u, t, c, p);
  }

  /** `rowCount` of a descriptor's address is its child-list length, and an
      index naming an unknown descriptor has no rows. */
  lemma RowCountSpec(u: Universe, t: Tree, x: Id, row: nat, column: nat)
    requires TreeValid(u, t)
    ensures t.IsKnown(x) ==> RowCount(t, IndexForMetaObject(u, t, Some(x))) == |t.Children(Some(x))|
    ensures !t.IsKnown(x) ==> RowCount(t, Index(row, column, x)) == 0
    ensures RowCount(t, Invalid) == |t.Children(None)|
  {
    IndexForMetaObjectSpec(u, t, Some(x));
  }

  /** `parent()`, computed from the superclass, agrees with the recorded
      parent: it addresses `childParentMap[x]`, and is invalid exactly for roots. */
  lemma ParentAgreesWithMap(u: Universe, t: Tree, x: Id, row: nat, column: nat)
    requires TreeValid(u, t) && t.IsKnown(x)
    ensures MetaObjectForIndex(Parent(u, t, Index(row, column, x))) == t.childParentMap[x]
    ensures Parent(u, t, Index(row, column, x)).IsValid() <==> t.childParentMap[x].Some?
  {
    IndexForMetaObjectSpec(u, t, u.Super(x));
  }

  /** The sibling of a known descriptor's address in another column is the
      same row and descriptor in that column. */
  lemma SiblingOfAddress(u: Universe, t: Tree, x: Id, column: nat)
    requires TreeValid(u, t) && t.IsKnown(x) && column < ColumnCount
    ensures var index := IndexForMetaObject(u, t, Some(x));
      index.IsValid() && Sibling(u, t, index, index.row, column) == Index(index.row, column, x)
  {
    IndexForMetaObjectSpec(u, t, Some(x));
    IndexForMetaObjectSpec(u, t, u.Super(x));
  }
}
