/**
  An immutable model of the ElementTree documents the migration script rewrites:
  elements, document-order traversal (`iter`, `findall('.//tag')`), the `find`
  and `findall` child lookups, and element identity.
 */
module Xml {
  import opened Wrappers

  /** One XML element. `id` stands for the identity of the element object: the
      script tests membership (`element in parent`) and removes children
      (`parent.remove(child)`) by identity, never by content. `text` is None
      when the element holds no character data. */
  datatype Element = Element(id: nat, tag: string, text: Option<string>, children: seq<Element>)

  function Flatten(ss: seq<seq<Element>>): seq<Element>
  {
    if ss == [] then [] else ss[0] + Flatten(ss[1..])
  }

  lemma {:induction false} InFlatten(ss: seq<seq<Element>>, n: Element)
    ensures n in Flatten(ss) <==> exists i :: 0 <= i < |ss| && n in ss[i]
  {
    if ss != [] {
      InFlatten(ss[1..], n);
      if n in Flatten(ss[1..]) {
        var i :| 0 <= i < |ss[1..]| && n in ss[1..][i];
        assert n in ss[i + 1];
      }
      if exists i :: 0 <= i < |ss| && n in ss[i] {
        var i :| 0 <= i < |ss| && n in ss[i];
        if i > 0 {
          assert n in ss[1..][i - 1];
        }
      }
    }
  }

  /** The proper descendants of `t` in document order: the elements
      `t.findall('.//tag')` chooses from. */
  function Descendants(t: Element): seq<Element>
    decreases t, 0
  {
    Flatten(seq(|t.children|, i requires 0 <= i < |t.children| => Nodes(t.children[i])))
  }

  /** `t` followed by its descendants in document order: the order of `t.iter()`. */
  function Nodes(t: Element): seq<Element>
    decreases t, 1
  {
    [t] + Descendants(t)
  }

  lemma InDescendants(t: Element, n: Element)
    ensures n in Descendants(t) <==> exists i :: 0 <= i < |t.children| && n in Nodes(t.children[i])
  {
    var ss := seq(|t.children|, i requires 0 <= i < |t.children| => Nodes(t.children[i]));
    InFlatten(ss, n);
    if exists i :: 0 <= i < |t.children| && n in Nodes(t.children[i]) {
      var i :| 0 <= i < |t.children| && n in Nodes(t.children[i]);
      assert n in ss[i];
    }
  }

  /** Every node of a child's subtree is a descendant. */
  lemma SubtreeInDescendants(t: Element, i: nat)
    requires i < |t.children|
    ensures forall n :: n in Nodes(t.children[i]) ==> n in Descendants(t)
  {
    forall n | n in Nodes(t.children[i])
      ensures n in Descendants(t)
    {
      InDescendants(t, n);
    }
  }

  /** A child of any node of the subtree of `c` is a proper descendant of `c`. */
  lemma {:induction false} ChildInSubtree(c: Element, a: Element, k: nat)
    requires a in Nodes(c)
    requires k < |a.children|
    ensures a.children[k] in Descendants(c)
    decreases c
  {
    if a == c {
      SubtreeInDescendants(c, k);
    } else {
      InDescendants(c, a);
      var i :| 0 <= i < |c.children| && a in Nodes(c.children[i]);
      ChildInSubtree(c.children[i], a, k);
      SubtreeInDescendants(c, i);
    }
  }

  /** A node of a node's subtree is a node of the whole tree. */
  lemma {:induction false} NodesTransitive(t: Element, m: Element, n: Element)
    requires m in Nodes(t)
    requires n in Nodes(m)
    ensures n in Nodes(t)
    decreases t
  {
    if m != t {
      InDescendants(t, m);
      var i :| 0 <= i < |t.children| && m in Nodes(t.children[i]);
      NodesTransitive(t.children[i], m, n);
      SubtreeInDescendants(t, i);
    }
  }

  lemma {:induction false} FlattenLength(ss: seq<seq<Element>>, i: nat)
    requires i < |ss|
    ensures |ss[i]| <= |Flatten(ss)|
  {
    if i > 0 {
      FlattenLength(ss[1..], i - 1);
    }
  }

  /** A proper descendant has a strictly smaller subtree. */
  lemma {:induction false} DescendantSmaller(t: Element, n: Element)
    requires n in Descendants(t)
    ensures |Nodes(n)| < |Nodes(t)|
    decreases t
  {
    InDescendants(t, n);
    var i :| 0 <= i < |t.children| && n in Nodes(t.children[i]);
    var ss := seq(|t.children|, k requires 0 <= k < |t.children| => Nodes(t.children[k]));
    FlattenLength(ss, i);
    if n != t.children[i] {
      DescendantSmaller(t.children[i], n);
    }
  }

  /** No element is its own descendant. */
  lemma RootNotBelow(t: Element, n: Element)
    requires n in Descendants(t)
    ensures n != t
  {
    DescendantSmaller(t, n);
  }

  /** The identities of all elements of `t`, `t` included. */
  function Ids(t: Element): set<nat>
  {
    set n | n in Nodes(t) :: n.id
  }

  /** The identities of a child subtree are identities of the tree. */
  lemma ChildIdsWithin(t: Element)
    ensures forall i :: 0 <= i < |t.children| ==> Ids(t.children[i]) <= Ids(t)
  {
    forall i | 0 <= i < |t.children|
      ensures Ids(t.children[i]) <= Ids(t)
    {
      SubtreeInDescendants(t, i);
    }
  }

  /** The identities of the proper descendants of `t`. */
  function ProperIds(t: Element): set<nat>
  {
    set n | n in Descendants(t) :: n.id
  }

  /** `x in n`: some direct child of `n` is the element with identity `x`. */
  predicate HasChild(n: Element, x: nat)
  {
    exists i | 0 <= i < |n.children| :: n.children[i].id == x
  }

  predicate PairwiseDisjoint(ms: seq<Element>)
  {
    forall i, j | 0 <= i < j < |ms| :: Ids(ms[i]) !! Ids(ms[j])
  }

  /** Every element of the document is a distinct object: no identity occurs
      twice. A parsed document always satisfies this. */
  predicate Unique(t: Element)
  {
    UniqueBelow(t)
  }

  /** The recursive form of `Unique`: the root's identity is not below it,
      the child subtrees share no identity, and each of them is unique. */
  predicate UniqueBelow(t: Element)
  {
    && (forall i | 0 <= i < |t.children| :: t.id !in Ids(t.children[i]) && UniqueBelow(t.children[i]))
    && PairwiseDisjoint(t.children)
  }

  /** No two elements of `ms` have the same identity. */
  predicate DistinctIds(ms: seq<Element>)
  {
    forall i, j | 0 <= i < j < |ms| :: ms[i].id != ms[j].id
  }

  /** The children of an element of a document without shared objects have
      distinct identities. */
  lemma DistinctChildIds(t: Element)
    requires Unique(t)
    ensures DistinctIds(t.children)
  {
    forall i, j | 0 <= i < j < |t.children|
      ensures t.children[i].id != t.children[j].id
    {
      assert t.children[i].id in Ids(t.children[i]);
      assert t.children[j].id in Ids(t.children[j]);
    }
  }

  lemma {:induction false} UniqueSub(t: Element, n: Element)
    requires Unique(t)
    requires n in Nodes(t)
    ensures Unique(n)
    decreases t
  {
    if n != t {
      InDescendants(t, n);
      var i :| 0 <= i < |t.children| && n in Nodes(t.children[i]);
      UniqueSub(t.children[i], n);
    }
  }

  /** Elements of two different child subtrees have different identities. */
  lemma DisjointSubtrees(t: Element, i: nat, j: nat, a: Element, b: Element)
    requires Unique(t)
    requires i < |t.children| && j < |t.children| && i != j
    requires a in Nodes(t.children[i]) && b in Nodes(t.children[j])
    ensures a.id != b.id
  {
    assert a.id in Ids(t.children[i]) && b.id in Ids(t.children[j]);
    if i < j {
      assert Ids(t.children[i]) !! Ids(t.children[j]);
    } else {
      assert Ids(t.children[j]) !! Ids(t.children[i]);
    }
  }

  /** No element of a child subtree shares the root's identity. */
  lemma SubtreeIdNotRoot(t: Element, i: nat, a: Element)
    requires Unique(t)
    requires i < |t.children|
    requires a in Nodes(t.children[i])
    ensures a.id != t.id
  {
    assert a.id in Ids(t.children[i]);
  }

  /** The root's identity does not occur below it. */
  lemma RootIdNotBelow(t: Element)
    requires Unique(t)
    ensures t.id !in ProperIds(t)
  {
    forall d | d in Descendants(t)
      ensures d.id != t.id
    {
      InDescendants(t, d);
      var i :| 0 <= i < |t.children| && d in Nodes(t.children[i]);
      SubtreeIdNotRoot(t, i, d);
    }
  }

  /** An identity of a tree is the root's or one below it. */
  lemma IdsRootOrProper(t: Element, x: nat)
    ensures x in Ids(t) <==> x == t.id || x in ProperIds(t)
  {
    if x in Ids(t) {
      var n :| n in Nodes(t) && n.id == x;
    }
    if x in ProperIds(t) {
      var d :| d in Descendants(t) && d.id == x;
      assert d in Nodes(t);
    }
    assert t in Nodes(t);
  }

  /** In a document without shared objects, distinct elements have distinct
      identities. */
  lemma {:induction false} IdsSeparate(t: Element, a: Element, b: Element)
    requires Unique(t)
    requires a in Nodes(t) && b in Nodes(t)
    ensures a != b ==> a.id != b.id
    decreases t
  {
    if a != b {
      if a == t {
        InDescendants(t, b);
        var j :| 0 <= j < |t.children| && b in Nodes(t.children[j]);
        SubtreeIdNotRoot(t, j, b);
      } else if b == t {
        InDescendants(t, a);
        var i :| 0 <= i < |t.children| && a in Nodes(t.children[i]);
        SubtreeIdNotRoot(t, i, a);
      } else {
        InDescendants(t, a);
        InDescendants(t, b);
        var i :| 0 <= i < |t.children| && a in Nodes(t.children[i]);
        var j :| 0 <= j < |t.children| && b in Nodes(t.children[j]);
        if i == j {
          IdsSeparate(t.children[i], a, b);
        } else {
          DisjointSubtrees(t, i, j, a, b);
        }
      }
    }
  }

  /** In a document without shared objects, an identity names at most one element. */
  lemma SameIdSameNode(t: Element, a: Element, b: Element)
    requires Unique(t)
    requires a in Nodes(t) && b in Nodes(t)
    requires a.id == b.id
    ensures a == b
  {
    IdsSeparate(t, a, b);
  }

  /** In a document without shared objects, two distinct elements never hold
      the same child. */
  lemma {:induction false} ParentsSeparate(t: Element, a: Element, b: Element, x: nat)
    requires Unique(t)
    requires a in Nodes(t) && b in Nodes(t)
    ensures a != b && HasChild(a, x) ==> !HasChild(b, x)
    decreases t
  {
    if a != b && HasChild(a, x) {
      var ka :| 0 <= ka < |a.children| && a.children[ka].id == x;
      if a == t {
        RootChildHasNoOtherParent(t, b, ka);
      } else if b == t {
        forall kb | 0 <= kb < |t.children|
          ensures t.children[kb].id != x
        {
          RootChildHasNoOtherParent(t, a, kb);
        }
      } else {
        InDescendants(t, a);
        InDescendants(t, b);
        var i :| 0 <= i < |t.children| && a in Nodes(t.children[i]);
        var j :| 0 <= j < |t.children| && b in Nodes(t.children[j]);
        if i == j {
          ParentsSeparate(t.children[i], a, b, x);
        } else {
          forall kb | 0 <= kb < |b.children|
            ensures b.children[kb].id != x
          {
            ChildInSubtree(t.children[i], a, ka);
            ChildInSubtree(t.children[j], b, kb);
            DisjointSubtrees(t, i, j, a.children[ka], b.children[kb]);
          }
        }
      }
    }
  }

  /** In a document without shared objects, an element has at most one parent. */
  lemma UniqueParent(t: Element, a: Element, b: Element, x: nat)
    requires Unique(t)
    requires a in Nodes(t) && b in Nodes(t)
    requires HasChild(a, x) && HasChild(b, x)
    ensures a == b
  {
    ParentsSeparate(t, a, b, x);
  }

  /** A child of the root is the child of no proper descendant. */
  lemma RootChildHasNoOtherParent(t: Element, b: Element, k: nat)
    requires Unique(t)
    requires b in Descendants(t)
    requires k < |t.children|
    ensures !HasChild(b, t.children[k].id)
  {
    InDescendants(t, b);
    var j :| 0 <= j < |t.children| && b in Nodes(t.children[j]);
    forall kb | 0 <= kb < |b.children|
      ensures b.children[kb].id != t.children[k].id
    {
      ChildInSubtree(t.children[j], b, kb);
      if k == j {
        RootIdNotBelow(t.children[j]);
      } else {
        DisjointSubtrees(t, j, k, b.children[kb], t.children[k]);
      }
    }
  }

  /** Some element of `t` has `x` as a direct child exactly when `x` is the
      identity of a proper descendant of `t`. */
  lemma {:induction false} ParentExists(t: Element, x: nat)
    ensures (exists n :: n in Nodes(t) && HasChild(n, x)) <==> x in ProperIds(t)
    decreases t
  {
    if exists n :: n in Nodes(t) && HasChild(n, x) {
      var n, k :| n in Nodes(t) && 0 <= k < |n.children| && n.children[k].id == x;
      ChildInSubtree(t, n, k);
    }
    if x in ProperIds(t) {
      var d :| d in Descendants(t) && d.id == x;
      InDescendants(t, d);
      var i :| 0 <= i < |t.children| && d in Nodes(t.children[i]);
      if d == t.children[i] {
        assert t in Nodes(t) && HasChild(t, x);
      } else {
        assert x in ProperIds(t.children[i]);
        ParentExists(t.children[i], x);
        var n :| n in Nodes(t.children[i]) && HasChild(n, x);
        SubtreeInDescendants(t, i);
        assert n in Nodes(t);
      }
    }
  }

  /** Index of the first element of `cs` carrying `tag`. */
  function FirstIndex(cs: seq<Element>, tag: string): (r: Option<nat>)
    ensures r.Some? ==> FirstWithTag(cs, tag, r.value)
    ensures r.None? <==> forall j :: 0 <= j < |cs| ==> cs[j].tag != tag
  {
    if cs == [] then None
    else if cs[0].tag == tag then Some(0)
    else match FirstIndex(cs[1..], tag)
      case None => None
      case Some(k) => Some(k + 1)
  }

  /** `cs[i]` is the first element of `cs` carrying `tag`. */
  predicate FirstWithTag(cs: seq<Element>, tag: string, i: nat)
  {
    i < |cs| && cs[i].tag == tag && forall j :: 0 <= j < i ==> cs[j].tag != tag
  }

  /** `t.find(tag)`: the first direct child of `t` carrying `tag`. */
  function FirstChild(t: Element, tag: string): (r: Option<Element>)
    ensures r.Some? ==> r.value in t.children && r.value.tag == tag
    ensures r.None? <==> forall c :: c in t.children ==> c.tag != tag
  {
    match FirstIndex(t.children, tag)
    case None => None
    case Some(i) => Some(t.children[i])
  }

  /** The elements of `s` carrying `tag`, in their order in `s`. */
  function WithTag(s: seq<Element>, tag: string): (r: seq<Element>)
    ensures forall e :: e in r <==> e in s && e.tag == tag
    ensures |r| <= |s|
  {
    if s == [] then []
    else (if s[0].tag == tag then [s[0]] else []) + WithTag(s[1..], tag)
  }

  /** `t.findall(tag)`: the direct children of `t` carrying `tag`. */
  function ChildrenWithTag(t: Element, tag: string): seq<Element>
  {
    WithTag(t.children, tag)
  }

  /** `t.findall('.//' + tag)`: the proper descendants of `t` carrying `tag`,
      in document order. */
  function FindAll(t: Element, tag: string): seq<Element>
  {
    WithTag(Descendants(t), tag)
  }
}
