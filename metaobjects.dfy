/** Type descriptors (QMetaObject) as the tree model sees them: opaque
    identities, each with an optional superclass link and a class name.
    The superclass links are acyclic; a rank that strictly decreases along
    every link witnesses this and makes chain walks terminate. */
module MetaObjects {
  import opened Wrappers

  /** A type descriptor's identity (the `const QMetaObject *` pointer). */
  type Id = nat

  /** The descriptor of QObject itself: the marker that decides whether a
      type's instances are counted and shown. */
  const QObjectId: Id := 0

  /** The externally supplied, stable universe of descriptors. */
  datatype Universe = Universe(superClasses: map<Id, Id>, ranks: map<Id, nat>, classNames: map<Id, string>)
  {
    /** `metaObject->superClass()`; `None` is the null pointer. */
    function Super(x: Id): Option<Id> {
      if x in superClasses then Some(superClasses[x]) else None
    }

    function Rank(x: Id): nat {
      if x in ranks then ranks[x] else 0
    }

    /** `metaObject->className()`. */
    function ClassName(x: Id): string {
      if x in classNames then classNames[x] else ""
    }

    /** Every superclass link goes strictly down in rank: no cycles. */
    ghost predicate Valid() {
      forall x :: x in superClasses ==> Rank(superClasses[x]) < Rank(x)
    }

    /** The measure of a possibly-null descriptor during a chain walk. */
    function Height(x: Option<Id>): nat {
      if x.Some? then Rank(x.value) + 1 else 0
    }

    /** The superclass chain starting at `x`: `x`, its superclass, its
        superclass's superclass, ... (empty for null). */
    function Line(x: Option<Id>): set<Id>
      requires Valid()
      decreases Height(x)
    {
      if x.None? then {} else {x.value} + Line(Super(x.value))
    }

    /** The descriptor's chain reaches QObject (the spec of `inheritsQObject`). */
    predicate ReachesQObject(x: Option<Id>)
      requires Valid()
    {
      QObjectId in Line(x)
    }

    /** The first descriptor on the chain from `x` that is in `known`, if any:
        what `objectAdded` collapses a dynamic meta object to. */
    function NearestKnown(known: set<Id>, x: Option<Id>): (r: Option<Id>)
      requires Valid()
      decreases Height(x)
    {
      if x.None? then None
      else if x.value in known then x
      else NearestKnown(known, Super(x.value))
    }
  }

  /** A chain starts with its own descriptor. */
  lemma StartsLine(u: Universe, x: Id)
    requires u.Valid()
    ensures x in u.Line(Some(x))
  {
  }

  /** Every member of the chain from `x` sits at or below `x`'s rank, and
      strictly below unless it is `x` itself. */
  lemma {:induction false} LineRank(u: Universe, x: Id, y: Id)
    requires u.Valid() && y in u.Line(Some(x))
    ensures u.Rank(y) <= u.Rank(x)
    ensures y != x ==> u.Rank(y) < u.Rank(x)
    decreases u.Rank(x)
  {
    if y != x {
      var p := u.Super(x);
      assert y in u.Line(p);
      LineRank(u, p.value, y);
    }
  }

  /** One step up a chain: the chain of `x` is `x` and the chain above it. */
  lemma LineUnfold(u: Universe, x: Id)
    requires u.Valid()
    ensures u.Line(Some(x)) == {x} + u.Line(u.Super(x))
    ensures x !in u.Line(u.Super(x))
  {
    NotInOwnSuperLine(u, x);
  }

  /** A walk up the chain of `start` that has visited `visited` and now
      stands at `c` moves on to `c`'s superclass with `c` visited. */
  lemma WalkStep(u: Universe, start: Id, visited: set<Id>, c: Id)
    requires u.Valid()
    requires u.Line(Some(start)) == visited + u.Line(Some(c)) && visited !! u.Line(Some(c))
    ensures c !in visited
    ensures u.Line(Some(start)) == (visited + {c}) + u.Line(u.Super(c))
    ensures (visited + {c}) !! u.Line(u.Super(c))
  {
    LineUnfold(u, c);
  }

  /** A descriptor is never on the chain of its own superclass. */
  lemma NotInOwnSuperLine(u: Universe, x: Id)
    requires u.Valid()
    ensures x !in u.Line(u.Super(x))
  {
    if x in u.Line(u.Super(x)) {
      LineRank(u, u.Super(x).value, x);
      assert false;
    }
  }

  /** The chain from any member of a chain is contained in it. */
  lemma {:induction false} LineTransitive(u: Universe, x: Id, y: Id)
    requires u.Valid() && y in u.Line(Some(x))
    ensures u.Line(Some(y)) <= u.Line(Some(x))
    decreases u.Rank(x)
  {
    if y != x {
      LineTransitive(u, u.Super(x).value, y);
    }
  }

  /** The superclass of a chain member is on the chain. */
  lemma {:induction false} SuperInLine(u: Universe, d: Id, c: Id)
    requires u.Valid() && c in u.Line(Some(d)) && u.Super(c).Some?
    ensures u.Super(c).value in u.Line(Some(d))
  {
    LineTransitive(u, d, c);
    assert u.Super(c).value in u.Line(Some(c));
  }

  /** Two members of one chain: one is on the other's chain (the chain is a line,
      not a tree). */
  lemma {:induction false} LineTotal(u: Universe, d: Id, a: Id, b: Id)
    requires u.Valid() && a in u.Line(Some(d)) && b in u.Line(Some(d))
    ensures a in u.Line(Some(b)) || b in u.Line(Some(a))
    decreases u.Rank(d)
  {
    if a != d && b != d {
      LineTotal(u, u.Super(d).value, a, b);
    }
  }

  /** At most one member of a chain has a given superclass. */
  lemma UniqueChildInLine(u: Universe, d: Id, c1: Id, c2: Id)
    requires u.Valid() && c1 in u.Line(Some(d)) && c2 in u.Line(Some(d))
    requires u.Super(c1).Some? && u.Super(c1) == u.Super(c2)
    ensures c1 == c2
  {
    LineTotal(u, d, c1, c2);
    if c1 != c2 {
      if c1 in u.Line(Some(c2)) {
        LineRank(u, u.Super(c2).value, c1);
      } else {
        LineRank(u, u.Super(c1).value, c2);
      }
    }
  }

  /** Every strict ancestor on the chain of `d` has its child on that chain. */
  lemma {:induction false} ChildInLine(u: Universe, d: Id, t: Id) returns (c: Id)
    requires u.Valid() && t in u.Line(Some(d)) && t != d
    ensures c in u.Line(Some(d)) && u.Super(c) == Some(t)
    decreases u.Rank(d)
  {
    var p := u.Super(d).value;
    if p == t {
      c := d;
    } else {
      c := ChildInLine(u, p, t);
    }
  }

  /** What `NearestKnown` finds: null exactly when no chain member is known;
      otherwise a known chain member above or equal to every known member. */
  lemma {:induction false} NearestKnownIsNearest(u: Universe, known: set<Id>, x: Option<Id>)
    requires u.Valid()
    ensures u.NearestKnown(known, x).None? <==> u.Line(x) * known == {}
    ensures u.NearestKnown(known, x).Some? ==>
      var r := u.NearestKnown(known, x).value;
      r in known && r in u.Line(x) &&
      forall y :: y in u.Line(x) && y in known ==> y in u.Line(Some(r))
    decreases u.Height(x)
  {
    if x.Some? && x.value !in known {
      NearestKnownIsNearest(u, known, u.Super(x.value));
    }
  }

  /** `inheritsQObject`: walk the superclass chain looking for QObject. */
  method InheritsQObject(u: Universe, mo: Option<Id>) returns (b: bool)
    requires u.Valid()
    ensures b == u.ReachesQObject(mo)
  {
    var current := mo;
    while current.Some?
      invariant u.ReachesQObject(mo) == u.ReachesQObject(current)
      decreases u.Height(current)
    {
      if current.value == QObjectId {
        return true;
      }
      current := u.Super(current.value);
    }
    return false;
  }
}
