/**
  Removing elements from a tree. `RemoveChild` is the ElementTree call
  `parent.remove(child)`; `Detach` is the reference meaning of a series of such
  calls: every element whose identity was removed disappears with its subtree
  and nothing else changes.
 */
module Removal {
  import opened Xml

  /** `ms` without the elements whose identity is in `s`, order kept. */
  function DropIds(ms: seq<Element>, s: set<nat>): (r: seq<Element>)
    ensures forall e :: e in r <==> e in ms && e.id !in s
    ensures |r| <= |ms|
  {
    if ms == [] then []
    else (if ms[0].id in s then [] else [ms[0]]) + DropIds(ms[1..], s)
  }

  /** `t` with every proper descendant whose identity is in `s` taken out,
      together with everything below it. */
  function Detach(t: Element, s: set<nat>): Element
  {
    Element(t.id, t.tag, t.text, DropIds(MapDetach(t.children, s), s))
  }

  function MapDetach(ms: seq<Element>, s: set<nat>): (r: seq<Element>)
    ensures |r| == |ms|
    ensures forall i :: 0 <= i < |ms| ==> r[i].id == ms[i].id && r[i].tag == ms[i].tag
  {
    seq(|ms|, i requires 0 <= i < |ms| => Detach(ms[i], s))
  }

  /** `ms[i]` is the first element of `ms` with identity `x`. */
  predicate FirstId(ms: seq<Element>, x: nat, i: nat)
  {
    i < |ms| && ms[i].id == x && forall j :: 0 <= j < i ==> ms[j].id != x
  }

  /** `children.remove(x)` on a Python list: drops the first element whose
      identity is `x`. */
  function DropFirstId(ms: seq<Element>, x: nat): (r: seq<Element>)
    ensures (exists i :: 0 <= i < |ms| && ms[i].id == x) ==> |r| == |ms| - 1
    ensures (forall i :: 0 <= i < |ms| ==> ms[i].id != x) ==> r == ms
  {
    if ms == [] then []
    else if ms[0].id == x then ms[1..]
    else [ms[0]] + DropFirstId(ms[1..], x)
  }

  /** `remove` drops exactly the first element with identity `x` and keeps
      the others in order. */
  lemma {:induction false} DropFirstIdAt(ms: seq<Element>, x: nat, i: nat)
    requires FirstId(ms, x, i)
    ensures DropFirstId(ms, x) == ms[..i] + ms[i + 1..]
  {
    if i > 0 {
      assert ms[0].id != x;
      assert FirstId(ms[1..], x, i - 1);
      DropFirstIdAt(ms[1..], x, i - 1);
      assert ms[1..][..i - 1] == ms[1..i];
      assert ms[1..][i..] == ms[i + 1..];
      assert [ms[0]] + ms[1..i] == ms[..i];
    }
  }

  /** `parent.remove(child)` where `parent` is the element with identity `p`
      and `child` the element with identity `x`. */
  function RemoveChild(t: Element, p: nat, x: nat): (r: Element)
    ensures r.id == t.id && r.tag == t.tag && r.text == t.text
    ensures t.id != p ==> |r.children| == |t.children|
    ensures t.id == p && HasChild(t, x) ==> |r.children| == |t.children| - 1
    ensures t.id == p && !HasChild(t, x) ==> |r.children| == |t.children|
    ensures p !in Ids(t) ==> r == t
    ensures t.id == p && (forall i :: 0 <= i < |t.children| ==> p !in Ids(t.children[i])) ==>
              r.children == DropFirstId(t.children, x)
  {
    ChildIdsWithin(t);
    var m := MapRemoveChild(t.children, p, x);
    Element(t.id, t.tag, t.text, if t.id == p then DropFirstId(m, x) else m)
  }

  function MapRemoveChild(ms: seq<Element>, p: nat, x: nat): (r: seq<Element>)
    ensures |r| == |ms|
    ensures forall i :: 0 <= i < |ms| ==> r[i].id == ms[i].id
    ensures (forall i :: 0 <= i < |ms| ==> p !in Ids(ms[i])) ==> r == ms
  {
    seq(|ms|, i requires 0 <= i < |ms| => RemoveChild(ms[i], p, x))
  }

  lemma DropIdsNone(ms: seq<Element>, s: set<nat>)
    requires forall i :: 0 <= i < |ms| ==> ms[i].id !in s
    ensures DropIds(ms, s) == ms
  {
    if ms != [] {
      DropIdsNone(ms[1..], s);
    }
  }

  lemma DropDrop(ms: seq<Element>, s1: set<nat>, s2: set<nat>)
    ensures DropIds(DropIds(ms, s1), s2) == DropIds(ms, s1 + s2)
  {
    if ms != [] {
      DropDrop(ms[1..], s1, s2);
      var h := if ms[0].id in s1 then [] else [ms[0]];
      DropAppend(h, DropIds(ms[1..], s1), s2);
    }
  }

  lemma DropAppend(a: seq<Element>, b: seq<Element>, s: set<nat>)
    ensures DropIds(a + b, s) == DropIds(a, s) + DropIds(b, s)
  {
    if a != [] {
      assert (a + b)[1..] == a[1..] + b;
      DropAppend(a[1..], b, s);
    } else {
      assert a + b == b;
    }
  }

  lemma MapDetachAppend(a: seq<Element>, b: seq<Element>, s: set<nat>)
    ensures MapDetach(a + b, s) == MapDetach(a, s) + MapDetach(b, s)
  {
  }

  /** Detaching inside the kept elements commutes with dropping elements. */
  lemma MapDropCommute(ms: seq<Element>, s1: set<nat>, s2: set<nat>)
    ensures MapDetach(DropIds(ms, s1), s2) == DropIds(MapDetach(ms, s2), s1)
  {
    if ms != [] {
      var h := if ms[0].id in s1 then [] else [ms[0]];
      MapDetachAppend(h, DropIds(ms[1..], s1), s2);
      MapDropCommute(ms[1..], s1, s2);
      assert MapDetach(ms, s2)[1..] == MapDetach(ms[1..], s2);
    }
  }

  /** Two successive detachments are one detachment of both sets. */
  lemma {:induction false} DetachCompose(t: Element, s1: set<nat>, s2: set<nat>)
    ensures Detach(Detach(t, s1), s2) == Detach(t, s1 + s2)
    decreases t
  {
    var cs := t.children;
    var a := DropIds(MapDetach(cs, s1), s1);
    forall i | 0 <= i < |cs|
      ensures MapDetach(MapDetach(cs, s1), s2)[i] == MapDetach(cs, s1 + s2)[i]
    {
      DetachCompose(cs[i], s1, s2);
    }
    assert MapDetach(MapDetach(cs, s1), s2) == MapDetach(cs, s1 + s2);
    MapDropCommute(MapDetach(cs, s1), s1, s2);
    DropDrop(MapDetach(cs, s1 + s2), s1, s2);
  }

  /** Detaching identities that name no proper descendant changes nothing. */
  lemma {:induction false} DetachNoop(t: Element, s: set<nat>)
    requires ProperIds(t) !! s
    ensures Detach(t, s) == t
    decreases t
  {
    var cs := t.children;
    forall i | 0 <= i < |cs|
      ensures MapDetach(cs, s)[i] == cs[i] && cs[i].id !in s
    {
      SubtreeInDescendants(t, i);
      assert ProperIds(cs[i]) <= ProperIds(t) by {
        forall y | y in ProperIds(cs[i]) ensures y in ProperIds(t) {
          var d :| d in Descendants(cs[i]) && d.id == y;
          assert d in Nodes(cs[i]);
        }
      }
      DetachNoop(cs[i], s);
      assert cs[i] in Nodes(cs[i]);
      assert cs[i].id in ProperIds(t);
    }
    assert MapDetach(cs, s) == cs;
    DropIdsNone(cs, s);
  }

  /** Every element of a detached tree is the detached form of an element of
      the original tree. */
  lemma {:induction false} DetachNodes(t: Element, s: set<nat>, n: Element)
    requires n in Nodes(Detach(t, s))
    ensures exists m :: m in Nodes(t) && n == Detach(m, s)
    decreases t
  {
    if n != Detach(t, s) {
      var d := Detach(t, s);
      InDescendants(d, n);
      var k :| 0 <= k < |d.children| && n in Nodes(d.children[k]);
      assert d.children[k] in MapDetach(t.children, s);
      var i :| 0 <= i < |t.children| && d.children[k] == Detach(t.children[i], s);
      DetachNodes(t.children[i], s, n);
      var m :| m in Nodes(t.children[i]) && n == Detach(m, s);
      SubtreeInDescendants(t, i);
    }
  }

  /** Detaching only removes identities. */
  lemma DetachIdsSubset(t: Element, s: set<nat>)
    ensures Ids(Detach(t, s)) <= Ids(t)
  {
    forall y | y in Ids(Detach(t, s))
      ensures y in Ids(t)
    {
      var n :| n in Nodes(Detach(t, s)) && n.id == y;
      DetachNodes(t, s, n);
      var m :| m in Nodes(t) && n == Detach(m, s);
    }
  }

  lemma {:induction false} PairwiseDisjointDrop(ms: seq<Element>, s: set<nat>)
    requires PairwiseDisjoint(ms)
    ensures PairwiseDisjoint(DropIds(ms, s))
  {
    if ms != [] {
      var tail := ms[1..];
      assert PairwiseDisjoint(tail) by {
        forall i, j | 0 <= i < j < |tail| ensures Ids(tail[i]) !! Ids(tail[j]) {
          assert tail[i] == ms[i + 1] && tail[j] == ms[j + 1];
        }
      }
      PairwiseDisjointDrop(tail, s);
      var rest := DropIds(tail, s);
      if ms[0].id !in s {
        var r := [ms[0]] + rest;
        assert DropIds(ms, s) == r;
        forall i, j | 0 <= i < j < |r|
          ensures Ids(r[i]) !! Ids(r[j])
        {
          if i == 0 {
            assert r[j] == rest[j - 1];
            assert r[j] in tail;
            var k :| 0 <= k < |tail| && tail[k] == r[j];
            assert ms[k + 1] == r[j];
          } else {
            assert r[i] == rest[i - 1] && r[j] == rest[j - 1];
          }
        }
      } else {
        assert DropIds(ms, s) == rest;
      }
    }
  }

  /** Detaching keeps a document free of shared objects. */
  lemma {:induction false} DetachUnique(t: Element, s: set<nat>)
    requires Unique(t)
    ensures Unique(Detach(t, s))
    decreases t
  {
    var cs := t.children;
    var m := MapDetach(cs, s);
    forall i | 0 <= i < |cs|
      ensures Unique(m[i]) && Ids(m[i]) <= Ids(cs[i])
    {
      DetachUnique(cs[i], s);
      DetachIdsSubset(cs[i], s);
    }
    assert PairwiseDisjoint(m) by {
      forall i, j | 0 <= i < j < |m|
        ensures Ids(m[i]) !! Ids(m[j])
      {
        assert Ids(cs[i]) !! Ids(cs[j]);
      }
    }
    PairwiseDisjointDrop(m, s);
    var r := DropIds(m, s);
    forall k | 0 <= k < |r|
      ensures t.id !in Ids(r[k]) && Unique(r[k])
    {
      assert r[k] in m;
      var i :| 0 <= i < |m| && m[i] == r[k];
    }
  }

  /** An identity survives detachment exactly when it was in the tree and is
      not inside a detached element. */
  lemma {:induction false} DetachIds(t: Element, s: set<nat>, x: nat)
    requires Unique(t)
    ensures x in Ids(Detach(t, s)) <==>
              x in Ids(t) && forall d :: d in Descendants(t) && d.id in s ==> x !in Ids(d)
    decreases t
  {
    if x in Ids(Detach(t, s)) {
      DetachIdsKept(t, s, x);
    }
    if x in Ids(t) && forall d :: d in Descendants(t) && d.id in s ==> x !in Ids(d) {
      DetachIdsSurvive(t, s, x);
    }
  }

  /** The identities below an element of a child subtree stay in that subtree. */
  lemma IdsWithinSubtree(t: Element, j: nat, d: Element)
    requires j < |t.children|
    requires d in Nodes(t.children[j])
    ensures Ids(d) <= Ids(t.children[j])
  {
    forall y | y in Ids(d)
      ensures y in Ids(t.children[j])
    {
      var e :| e in Nodes(d) && e.id == y;
      NodesTransitive(t.children[j], d, e);
    }
  }

  /** Identities inside a proper descendant belong to exactly one child subtree. */
  lemma {:induction false} DescendantIdsAvoid(t: Element, d: Element, x: nat)
    requires Unique(t)
    requires d in Descendants(t)
    requires x == t.id || exists i :: 0 <= i < |t.children| && x in Ids(t.children[i]) && d !in Nodes(t.children[i])
    ensures x !in Ids(d)
  {
    InDescendants(t, d);
    var j :| 0 <= j < |t.children| && d in Nodes(t.children[j]);
    IdsWithinSubtree(t, j, d);
    assert UniqueBelow(t);
    if x == t.id {
      assert t.id !in Ids(t.children[j]);
    } else {
      var i :| 0 <= i < |t.children| && x in Ids(t.children[i]) && d !in Nodes(t.children[i]);
      assert i != j;
      assert x !in Ids(t.children[j]) by {
        assert PairwiseDisjoint(t.children);
        if i < j {
          assert Ids(t.children[i]) !! Ids(t.children[j]);
        } else {
          assert Ids(t.children[j]) !! Ids(t.children[i]);
        }
      }
    }
  }

  lemma {:induction false} DetachIdsKept(t: Element, s: set<nat>, x: nat)
    requires Unique(t)
    requires x in Ids(Detach(t, s))
    ensures x in Ids(t)
    ensures forall d :: d in Descendants(t) && d.id in s ==> x !in Ids(d)
    decreases t
  {
    DetachIdsSubset(t, s);
    var dt := Detach(t, s);
    var n :| n in Nodes(dt) && n.id == x;
    if n == dt {
      forall d | d in Descendants(t) && d.id in s
        ensures x !in Ids(d)
      {
        DescendantIdsAvoid(t, d, x);
      }
    } else {
      InDescendants(dt, n);
      var k :| 0 <= k < |dt.children| && n in Nodes(dt.children[k]);
      assert dt.children[k] in MapDetach(t.children, s);
      var i :| 0 <= i < |t.children| && dt.children[k] == Detach(t.children[i], s);
      var c := t.children[i];
      assert x in Ids(Detach(c, s));
      assert Unique(c);
      DetachIdsKept(c, s, x);
      forall d | d in Descendants(t) && d.id in s
        ensures x !in Ids(d)
      {
        if d in Nodes(c) {
          assert d != c;
          assert d in Descendants(c);
        } else {
          DescendantIdsAvoid(t, d, x);
        }
      }
    }
  }

  lemma {:induction false} DetachIdsSurvive(t: Element, s: set<nat>, x: nat)
    requires x in Ids(t)
    requires forall d :: d in Descendants(t) && d.id in s ==> x !in Ids(d)
    ensures x in Ids(Detach(t, s))
    decreases t
  {
    var dt := Detach(t, s);
    var n :| n in Nodes(t) && n.id == x;
    if n == t {
      assert dt in Nodes(dt);
    } else {
      InDescendants(t, n);
      var i :| 0 <= i < |t.children| && n in Nodes(t.children[i]);
      var c := t.children[i];
      SubtreeInDescendants(t, i);
      assert c in Nodes(c);
      assert c.id !in s;
      forall d | d in Descendants(c) && d.id in s
        ensures x !in Ids(d)
      {
        assert d in Nodes(c);
      }
      DetachIdsSurvive(c, s, x);
      var mc := MapDetach(t.children, s);
      assert mc[i] == Detach(c, s);
      assert Detach(c, s) in dt.children;
      var k :| 0 <= k < |dt.children| && dt.children[k] == Detach(c, s);
      SubtreeInDescendants(dt, k);
      var g :| g in Nodes(Detach(c, s)) && g.id == x;
    }
  }

  lemma DropFirstIsDropIds(ms: seq<Element>, x: nat)
    requires DistinctIds(ms)
    ensures DropFirstId(ms, x) == DropIds(ms, {x})
  {
    if ms != [] {
      if ms[0].id == x {
        DropIdsNone(ms[1..], {x});
      } else {
        DropFirstIsDropIds(ms[1..], x);
      }
    }
  }

  /** `parent.remove(child)` detaches the child, provided `parent` is the only
      element that holds it. */
  lemma {:induction false} RemoveChildDetaches(t: Element, p: nat, x: nat)
    requires Unique(t)
    requires forall n :: n in Nodes(t) && HasChild(n, x) ==> n.id == p
    ensures RemoveChild(t, p, x) == Detach(t, {x})
    decreases t
  {
    var cs := t.children;
    forall i | 0 <= i < |cs|
      ensures MapRemoveChild(cs, p, x)[i] == MapDetach(cs, {x})[i]
    {
      SubtreeInDescendants(t, i);
      RemoveChildDetaches(cs[i], p, x);
    }
    var m := MapDetach(cs, {x});
    assert MapRemoveChild(cs, p, x) == m;
    if t.id == p {
      DistinctChildIds(t);
      DropFirstIsDropIds(m, x);
    } else {
      assert !HasChild(t, x);
      DropIdsNone(m, {x});
    }
  }

  /** `s` without its element at index `i`. */
  function RemoveAt(s: seq<Element>, i: nat): (r: seq<Element>)
    requires i < |s|
    ensures |r| == |s| - 1
    ensures forall k :: 0 <= k < i ==> r[k] == s[k]
    ensures forall k :: i <= k < |r| ==> r[k] == s[k + 1]
  {
    s[..i] + s[i + 1..]
  }

  /** Dropping the identities that name exactly the element at `i` removes that element. */
  lemma DropIdsOne(ms: seq<Element>, s: set<nat>, i: nat)
    requires i < |ms|
    requires forall k :: 0 <= k < |ms| ==> (ms[k].id in s <==> k == i)
    ensures DropIds(ms, s) == RemoveAt(ms, i)
  {
    var a, x, b := ms[..i], ms[i], ms[i + 1..];
    assert ms == a + [x] + b;
    forall k | 0 <= k < |a|
      ensures a[k].id !in s
    {
      assert a[k] == ms[k];
    }
    forall k | 0 <= k < |b|
      ensures b[k].id !in s
    {
      assert b[k] == ms[i + 1 + k];
    }
    DropIdsNone(a, s);
    DropIdsNone(b, s);
    assert DropIds([x], s) == [] by {
      assert [x][1..] == [];
    }
    DropAppend(a + [x], b, s);
    DropAppend(a, [x], s);
    assert a + [] == a;
    assert RemoveAt(ms, i) == a + b;
  }

  /** An element holding `x` in a detached tree held `x` in the original tree. */
  lemma DetachedHasChild(m: Element, s: set<nat>, x: nat)
    requires HasChild(Detach(m, s), x)
    ensures HasChild(m, x)
  {
    var d := Detach(m, s);
    var k :| 0 <= k < |d.children| && d.children[k].id == x;
    assert d.children[k] in MapDetach(m.children, s);
    var j :| 0 <= j < |m.children| && d.children[k] == Detach(m.children[j], s);
  }

  /** After detachment, the only element that can hold a child of `p` is `p`. */
  lemma DetachedParent(root: Element, s: set<nat>, p: Element, i: nat, n: Element)
    requires Unique(root)
    requires p in Nodes(root) && i < |p.children|
    requires n in Nodes(Detach(root, s)) && HasChild(n, p.children[i].id)
    ensures n.id == p.id
  {
    DetachNodes(root, s, n);
    var m :| m in Nodes(root) && n == Detach(m, s);
    DetachedHasChild(m, s, p.children[i].id);
    UniqueParent(root, m, p, p.children[i].id);
  }
}
