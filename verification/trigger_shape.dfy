/**
  The shape of the document after the trigger pass: which elements survive,
  that an inspected `dependencies` block is gone whatever its expressions
  say, and that a childless block stays.
 */
module TriggerShape {
  import opened Wrappers
  import opened Xml
  import opened Removal
  import opened Text
  import opened Triggers

  /** `t` has at most one `dependencies` child, as in an exported template. */
  predicate SingleBlock(t: Element)
  {
    forall i, j | 0 <= i < |t.children| && 0 <= j < |t.children| ::
      t.children[i].tag == DependenciesTag && t.children[j].tag == DependenciesTag ==> i == j
  }

  /** Every element of the rewritten subtree of `t` is the rewritten form of an
      element of `t`. */
  lemma {:induction false} StripNodeNodes(t: Element, n: Element)
    requires n in Nodes(StripNode(t))
    ensures exists m :: m in Nodes(t) && n == StripNode(m)
    decreases t
  {
    var r := StripNode(t);
    if n != r {
      InDescendants(r, n);
      var i :| 0 <= i < |r.children| && n in Nodes(r.children[i]);
      var j := if IsStripped(t) && i >= InspectedBlock(t).value then i + 1 else i;
      assert r.children[i] == StripNode(t.children[j]);
      StripNodeNodes(t.children[j], n);
      var m :| m in Nodes(t.children[j]) && n == StripNode(m);
      SubtreeInDescendants(t, j);
    }
  }

  /** Every element below the root of the rewritten document is the rewritten
      form of an element below the original root. */
  lemma StripTreeNodes(root: Element, n: Element)
    requires n in Descendants(StripTree(root))
    ensures exists m :: m in Descendants(root) && n == StripNode(m)
  {
    var r := StripTree(root);
    InDescendants(r, n);
    var i :| 0 <= i < |r.children| && n in Nodes(r.children[i]);
    StripNodeNodes(root.children[i], n);
    var m :| m in Nodes(root.children[i]) && n == StripNode(m);
    SubtreeInDescendants(root, i);
  }

  /** A trigger with a single `dependencies` child keeps no non-empty one. */
  lemma StripNodeNoBlock(t: Element)
    requires t.tag == TriggerTag && SingleBlock(t)
    ensures forall c :: c in StripNode(t).children && c.tag == DependenciesTag ==> c.children == []
  {
    var cs := t.children;
    var kids := StripNode(t).children;
    forall k | 0 <= k < |kids|
      ensures kids[k].tag != DependenciesTag || kids[k].children == []
    {
      var j := if IsStripped(t) && k >= InspectedBlock(t).value then k + 1 else k;
      assert kids[k] == StripNode(cs[j]);
      match FirstIndex(cs, DependenciesTag)
      case None =>
        assert cs[j].tag != DependenciesTag;
      case Some(i) =>
        if IsStripped(t) {
          assert j != i;
          assert cs[j].tag != DependenciesTag;
        } else if cs[j].tag == DependenciesTag {
          assert j == i;
          assert cs[j].children == [];
        }
    }
  }

  /** No trigger of the rewritten document keeps a `dependencies` child with
      children, provided every trigger had a single block. */
  lemma NoNonEmptyBlockLeft(root: Element)
    requires forall m :: m in Descendants(root) && m.tag == TriggerTag ==> SingleBlock(m)
    ensures forall n, c :: n in Descendants(StripTree(root)) && n.tag == TriggerTag && c in n.children && c.tag == DependenciesTag ==>
              c.children == []
  {
    forall n | n in Descendants(StripTree(root)) && n.tag == TriggerTag
      ensures forall c :: c in n.children && c.tag == DependenciesTag ==> c.children == []
    {
      StripTreeNodes(root, n);
      var m :| m in Descendants(root) && n == StripNode(m);
      StripNodeNoBlock(m);
    }
  }

  /** Equal tags, equal first index. */
  lemma {:induction false} FirstIndexByTags(a: seq<Element>, b: seq<Element>, tag: string)
    requires |a| == |b|
    requires forall i :: 0 <= i < |a| ==> a[i].tag == b[i].tag
    ensures FirstIndex(a, tag) == FirstIndex(b, tag)
  {
    if a != [] {
      FirstIndexByTags(a[1..], b[1..], tag);
    }
  }

  /** A childless first `dependencies` block is left in place, unchanged. */
  lemma EmptyBlockKept(t: Element, e: Element)
    requires t.tag == TriggerTag
    requires FirstChild(t, DependenciesTag) == Some(e) && e.children == []
    ensures FirstChild(StripNode(t), DependenciesTag) == Some(e)
  {
    var i := FirstIndex(t.children, DependenciesTag).value;
    FirstIndexByTags(t.children, MapStrip(t.children), DependenciesTag);
    assert StripNode(e) == e;
  }

  /** An element survives the pass exactly when it is in the document and in
      none of the inspected blocks of its triggers. */
  lemma StripSurvivors(root: Element, x: nat)
    requires Unique(root)
    ensures x in Ids(StripTree(root)) <==>
              x in Ids(root) && forall t :: t in FindAll(root, TriggerTag) && IsStripped(t) ==> x !in Ids(Block(t))
  {
    var ts := FindAll(root, TriggerTag);
    var s := BlockIds(ts);
    StripIsDetach(root);
    DetachIds(root, s, x);
    forall t | t in ts && IsStripped(t)
      ensures Block(t) in Descendants(root) && Block(t).id in s
    {
      ChildInSubtree(root, t, InspectedBlock(t).value);
    }
    forall d | d in Descendants(root) && d.id in s
      ensures exists t :: t in ts && IsStripped(t) && d == Block(t)
    {
      var t :| t in ts && IsStripped(t) && Block(t).id == d.id;
      ChildInSubtree(root, t, InspectedBlock(t).value);
      SameIdSameNode(root, d, Block(t));
    }
  }

  /** An inspected block is gone after a successful pass, whatever the
      expressions of its dependencies say about the template. */
  lemma BlockGone(root: Element, name: string, t: Element)
    requires Unique(root) && Literal(name)
    requires t in FindAll(root, TriggerTag) && IsStripped(t)
    requires StripDependencies(root, name).Ok?
    ensures Block(t).id !in Ids(StripDependencies(root, name).value.tree)
  {
    StripSurvivors(root, Block(t).id);
  }
}
