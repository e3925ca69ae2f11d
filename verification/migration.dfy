/**
  The rewriting the script performs on one exported template before the
  import call: strip the trigger dependencies, check readiness, and, when
  ready, drop every `request_method`. The import call itself and everything
  around it are not modelled.
 */
module Migration {
  import opened Wrappers
  import opened Xml
  import opened Removal
  import opened Text
  import opened Triggers
  import opened TriggerShape
  import opened Readiness
  import opened RequestMethods

  /** What reaches the import call: the rewritten document, or nothing when the
      readiness check fails. Both carry the dependency log. */
  datatype Outcome =
    | Imported(document: Element, log: seq<LogEntry>)
    | Held(log: seq<LogEntry>)

  /** The rewriting of one template called `name`. */
  method Migrate(root: Element, name: string) returns (r: Result<Outcome, Crash>)
    requires Unique(root)
    requires Literal(name)
    ensures r.Err? <==> StripDependencies(root, name).Err?
    ensures StripDependencies(root, name).Err? ==> r == Err(StripDependencies(root, name).error)
    ensures StripDependencies(root, name).Ok? ==>
              r == Ok(Imported(Prune(StripTree(root)), StripDependencies(root, name).value.log))
  {
    var stripped := StripPass(root, name);
    if stripped.Err? {
      return Err(stripped.error);
    }
    var log := stripped.value.log;
    var isReady := CheckReady(LogLines(log), name);
    ReadinessAlwaysPasses(root, name);
    var document := stripped.value.tree;
    if isReady == 1 {
      StripIsDetach(root);
      DetachUnique(root, BlockIds(FindAll(root, TriggerTag)));
      document := PruneRequestMethods(document);
    }
    r := Ok(if isReady == 1 then Imported(document, log) else Held(log));
  }

  /** Pruning keeps every `dependencies` child childless that was. */
  lemma PruneKeepsEmptyBlocks(m: Element)
    requires forall c :: c in m.children && c.tag == DependenciesTag ==> c.children == []
    ensures forall c :: c in Prune(m).children && c.tag == DependenciesTag ==> c.children == []
  {
    forall c | c in Prune(m).children && c.tag == DependenciesTag
      ensures c.children == []
    {
      assert c in MapPrune(m.children);
      var j :| 0 <= j < |m.children| && c == Prune(m.children[j]);
      assert m.children[j] in m.children;
    }
  }

  /** The document sent for import holds no `request_method` below its root
      and, when every trigger had a single `dependencies` block, no trigger
      with a non-empty one. */
  lemma ImportedDocument(root: Element)
    ensures forall n :: n in Descendants(Prune(StripTree(root))) ==> n.tag != RequestMethodTag
    ensures (forall m :: m in Descendants(root) && m.tag == TriggerTag ==> SingleBlock(m)) ==>
              forall n, c ::
                (n in Descendants(Prune(StripTree(root))) && n.tag == TriggerTag && c in n.children && c.tag == DependenciesTag)
                ==> c.children == []
  {
    PruneClean(StripTree(root));
    if forall m :: m in Descendants(root) && m.tag == TriggerTag ==> SingleBlock(m) {
      NoBlockAfterPrune(root);
    }
  }

  /** The one-block half of `ImportedDocument`. */
  lemma NoBlockAfterPrune(root: Element)
    requires forall m :: m in Descendants(root) && m.tag == TriggerTag ==> SingleBlock(m)
    ensures forall n, c ::
              (n in Descendants(Prune(StripTree(root))) && n.tag == TriggerTag && c in n.children && c.tag == DependenciesTag)
              ==> c.children == []
  {
    var s := StripTree(root);
    var p := Prune(s);
    NoNonEmptyBlockLeft(root);
    forall n | n in Descendants(p) && n.tag == TriggerTag
      ensures forall c :: c in n.children && c.tag == DependenciesTag ==> c.children == []
    {
      PruneNodes(s, n);
      var m :| m in Nodes(s) && n == Prune(m);
      RootNotBelow(p, n);
      assert m in Descendants(s);
      PruneKeepsEmptyBlocks(m);
    }
  }
}
