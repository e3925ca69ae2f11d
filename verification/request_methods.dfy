/**
  The `request_method` clean-up run before import: every `request_method`
  element below the root is looked up with `find_parent` and removed from
  its parent, so that the target server sees no such field.
 */
module RequestMethods {
  import opened Wrappers
  import opened Xml
  import opened Removal

  const RequestMethodTag: string := "request_method"

  /** `find_parent(element, tree)`: walk `tree.iter()`, that is the root and
      then its descendants in document order, and return the first element
      that holds `element` as a direct child. */
  method FindParent(element: Element, tree: Element) returns (r: Option<Element>)
    ensures r.Some? ==> r.value in Nodes(tree) && HasChild(r.value, element.id)
    ensures r.Some? ==> exists i :: 0 <= i < |Nodes(tree)| && Nodes(tree)[i] == r.value &&
                                    forall j :: 0 <= j < i ==> !HasChild(Nodes(tree)[j], element.id)
    ensures r.None? <==> element.id !in ProperIds(tree)
    ensures Unique(tree) ==> (r.None? <==> element.id == tree.id || element.id !in Ids(tree))
    ensures Unique(tree) && r.Some? ==> forall n :: n in Nodes(tree) && HasChild(n, element.id) ==> n == r.value
  {
    var nodes := Nodes(tree);
    ParentExists(tree, element.id);
    IdsRootOrProper(tree, element.id);
    if Unique(tree) {
      RootIdNotBelow(tree);
    }
    var k := 0;
    while k < |nodes|
      invariant 0 <= k <= |nodes|
      invariant forall j :: 0 <= j < k ==> !HasChild(nodes[j], element.id)
    {
      if HasChild(nodes[k], element.id) {
        r := Some(nodes[k]);
        if Unique(tree) {
          forall n | n in Nodes(tree) && HasChild(n, element.id)
            ensures n == nodes[k]
          {
            UniqueParent(tree, n, nodes[k], element.id);
          }
        }
        return;
      }
      k := k + 1;
    }
    r := None;
  }

  /** The body of the loop for one element: find its parent in the live
      tree and, if there is one, remove the element from it. */
  method RemoveFromParent(tree: Element, element: Element) returns (r: Element)
    requires Unique(tree)
    ensures r == Detach(tree, {element.id})
  {
    var parent := FindParent(element, tree);
    if parent.Some? {
      RemoveChildDetaches(tree, parent.value.id, element.id);
      r := RemoveChild(tree, parent.value.id, element.id);
    } else {
      DetachNoop(tree, {element.id});
      r := tree;
    }
  }

  /** The elements of `s` not carrying `tag`, in their order in `s`. */
  function WithoutTag(s: seq<Element>, tag: string): (r: seq<Element>)
    ensures forall e :: e in r <==> e in s && e.tag != tag
    ensures |r| <= |s|
  {
    if s == [] then []
    else (if s[0].tag == tag then [] else [s[0]]) + WithoutTag(s[1..], tag)
  }

  /** Reference result: `t` with every `request_method` below it removed,
      together with its subtree. */
  function Prune(t: Element): Element
  {
    Element(t.id, t.tag, t.text, WithoutTag(MapPrune(t.children), RequestMethodTag))
  }

  function MapPrune(ms: seq<Element>): (r: seq<Element>)
    ensures |r| == |ms|
    ensures forall i :: 0 <= i < |ms| ==> r[i].id == ms[i].id && r[i].tag == ms[i].tag
  {
    seq(|ms|, i requires 0 <= i < |ms| => Prune(ms[i]))
  }

  /** Identities of the elements `ms`. */
  function IdsOf(ms: seq<Element>): set<nat>
  {
    set m | m in ms :: m.id
  }

  /** The loop of the script: the `request_method` elements are listed once,
      then each is removed from the parent `find_parent` finds in the live
      tree, and skipped when it has none (it already left with an ancestor). */
  method PruneRequestMethods(root: Element) returns (r: Element)
    requires Unique(root)
    ensures r == Prune(root)
  {
    var targets := FindAll(root, RequestMethodTag);
    var tree := root;
    var k := 0;
    PruneStart(root, targets);
    while k < |targets|
      invariant 0 <= k <= |targets|
      invariant tree == Detach(root, IdsOf(targets[..k]))
    {
      var element := targets[k];
      PruneStep(root, targets, k, tree);
      tree := RemoveFromParent(tree, element);
      k := k + 1;
    }
    PruneEnd(root, tree);
    r := tree;
  }

  lemma PruneStart(root: Element, targets: seq<Element>)
    ensures root == Detach(root, IdsOf(targets[..0]))
  {
    assert IdsOf(targets[..0]) == {};
    DetachNoop(root, {});
  }

  lemma PruneEnd(root: Element, tree: Element)
    requires Unique(root)
    requires tree == Detach(root, IdsOf(FindAll(root, RequestMethodTag)[..|FindAll(root, RequestMethodTag)|]))
    ensures tree == Prune(root)
  {
    var targets := FindAll(root, RequestMethodTag);
    assert targets[..|targets|] == targets;
    PruneIsDetach(root);
  }

  /** Removing one more `request_method` from the live tree extends the
      detached set by its identity. */
  lemma PruneStep(root: Element, targets: seq<Element>, k: nat, tree: Element)
    requires Unique(root)
    requires k < |targets|
    requires tree == Detach(root, IdsOf(targets[..k]))
    ensures Unique(tree)
    ensures Detach(tree, {targets[k].id}) == Detach(root, IdsOf(targets[..k + 1]))
  {
    DetachUnique(root, IdsOf(targets[..k]));
    DetachCompose(root, IdsOf(targets[..k]), {targets[k].id});
    IdsOfPrefix(targets, k);
  }

  lemma IdsOfPrefix(ts: seq<Element>, k: nat)
    requires k < |ts|
    ensures IdsOf(ts[..k + 1]) == IdsOf(ts[..k]) + {ts[k].id}
  {
    assert ts[..k + 1] == ts[..k] + [ts[k]];
  }

  /** Dropping by identity is dropping by tag when the two pick the same elements. */
  lemma {:induction false} DropIdsByTag(ms: seq<Element>, s: set<nat>, tag: string)
    requires forall i :: 0 <= i < |ms| ==> (ms[i].id in s <==> ms[i].tag == tag)
    ensures DropIds(ms, s) == WithoutTag(ms, tag)
  {
    if ms != [] {
      DropIdsByTag(ms[1..], s, tag);
    }
  }

  /** Detaching exactly the `request_method` children everywhere is pruning. */
  lemma {:induction false} DetachPrune(t: Element, s: set<nat>)
    requires forall n, k :: n in Nodes(t) && 0 <= k < |n.children| ==>
               (n.children[k].id in s <==> n.children[k].tag == RequestMethodTag)
    ensures Detach(t, s) == Prune(t)
    decreases t
  {
    var cs := t.children;
    forall i | 0 <= i < |cs|
      ensures MapDetach(cs, s)[i] == MapPrune(cs)[i]
    {
      SubtreeInDescendants(t, i);
      DetachPrune(cs[i], s);
    }
    assert MapDetach(cs, s) == MapPrune(cs);
    assert t in Nodes(t);
    DropIdsByTag(MapPrune(cs), s, RequestMethodTag);
  }

  /** The loop's removals amount to the reference result. */
  lemma PruneIsDetach(root: Element)
    requires Unique(root)
    ensures Detach(root, IdsOf(FindAll(root, RequestMethodTag))) == Prune(root)
  {
    var targets := FindAll(root, RequestMethodTag);
    var s := IdsOf(targets);
    forall n, k | n in Nodes(root) && 0 <= k < |n.children|
      ensures n.children[k].id in s <==> n.children[k].tag == RequestMethodTag
    {
      var c := n.children[k];
      ChildInSubtree(root, n, k);
      if c.id in s {
        var d :| d in targets && d.id == c.id;
        SameIdSameNode(root, c, d);
      }
    }
    DetachPrune(root, s);
  }

  /** No `request_method` is left below the root. */
  lemma {:induction false} PruneClean(t: Element)
    ensures forall n :: n in Descendants(Prune(t)) ==> n.tag != RequestMethodTag
    decreases t
  {
    var p := Prune(t);
    forall n | n in Descendants(p)
      ensures n.tag != RequestMethodTag
    {
      InDescendants(p, n);
      var i :| 0 <= i < |p.children| && n in Nodes(p.children[i]);
      assert p.children[i] in MapPrune(t.children);
      var j :| 0 <= j < |t.children| && p.children[i] == Prune(t.children[j]);
      if n != p.children[i] {
        PruneClean(t.children[j]);
      }
    }
  }

  lemma WithoutTagNoop(s: seq<Element>, tag: string)
    requires forall i :: 0 <= i < |s| ==> s[i].tag != tag
    ensures WithoutTag(s, tag) == s
  {
  }

  /** Pruning twice is pruning once. */
  lemma {:induction false} PruneIdempotent(t: Element)
    ensures Prune(Prune(t)) == Prune(t)
    decreases t
  {
    var kept := Prune(t).children;
    forall i | 0 <= i < |kept|
      ensures Prune(kept[i]) == kept[i] && kept[i].tag != RequestMethodTag
    {
      assert kept[i] in MapPrune(t.children);
      var j :| 0 <= j < |t.children| && kept[i] == Prune(t.children[j]);
      PruneIdempotent(t.children[j]);
    }
    assert MapPrune(kept) == kept;
    WithoutTagNoop(kept, RequestMethodTag);
  }

  /** The children kept are the non-`request_method` children, in their
      original order, each pruned in turn. */
  lemma {:induction false} PruneKeepsOrder(t: Element)
    ensures Prune(t).children == MapPrune(WithoutTag(t.children, RequestMethodTag))
  {
    MapFilterCommute(t.children);
  }

  lemma {:induction false} MapFilterCommute(cs: seq<Element>)
    ensures WithoutTag(MapPrune(cs), RequestMethodTag) == MapPrune(WithoutTag(cs, RequestMethodTag))
  {
    if cs != [] {
      var rest := cs[1..];
      MapFilterCommute(rest);
      var w := WithoutTag(rest, RequestMethodTag);
      var head := if cs[0].tag == RequestMethodTag then [] else [cs[0]];
      MapPruneCons(cs[0], rest);
      assert cs == [cs[0]] + rest;
      WithoutTagCons(Prune(cs[0]), MapPrune(rest), RequestMethodTag);
      MapPruneAppend(head, w);
    }
  }

  lemma WithoutTagCons(x: Element, rest: seq<Element>, tag: string)
    ensures WithoutTag([x] + rest, tag) == (if x.tag == tag then [] else [x]) + WithoutTag(rest, tag)
  {
    assert ([x] + rest)[1..] == rest;
  }

  lemma MapPruneCons(x: Element, rest: seq<Element>)
    ensures MapPrune([x] + rest) == [Prune(x)] + MapPrune(rest)
  {
  }

  lemma MapPruneAppend(a: seq<Element>, b: seq<Element>)
    ensures MapPrune(a + b) == MapPrune(a) + MapPrune(b)
  {
  }

  /** An element survives the clean-up exactly when it is in the document and
      in none of the `request_method` subtrees. */
  lemma PruneSurvivors(root: Element, x: nat)
    requires Unique(root)
    ensures x in Ids(Prune(root)) <==>
              x in Ids(root) && forall d :: d in FindAll(root, RequestMethodTag) ==> x !in Ids(d)
  {
    var targets := FindAll(root, RequestMethodTag);
    var s := IdsOf(targets);
    PruneIsDetach(root);
    DetachIds(root, s, x);
    forall d | d in Descendants(root) && d.id in s
      ensures d in targets
    {
      var e :| e in targets && e.id == d.id;
      SameIdSameNode(root, d, e);
    }
  }

  /** Every element of a pruned subtree is the pruned form of an element of
      the original subtree. */
  lemma {:induction false} PruneNodes(t: Element, n: Element)
    requires n in Nodes(Prune(t))
    ensures exists m :: m in Nodes(t) && n == Prune(m)
    decreases t
  {
    var p := Prune(t);
    if n != p {
      InDescendants(p, n);
      var i :| 0 <= i < |p.children| && n in Nodes(p.children[i]);
      assert p.children[i] in MapPrune(t.children);
      var j :| 0 <= j < |t.children| && p.children[i] == Prune(t.children[j]);
      PruneNodes(t.children[j], n);
      var m :| m in Nodes(t.children[j]) && n == Prune(m);
      SubtreeInDescendants(t, j);
    }
  }
}
