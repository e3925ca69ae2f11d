/**
  The trigger-dependency pass of the migration script. Every `trigger`
  below the template root is visited in document order. When the trigger's
  first `dependencies` child has children, each `dependency` in it is
  examined. A log entry is kept for each dependency whose expression does
  not name the template itself. The whole `dependencies` block is then
  removed, whatever the expressions say.
 */
module Triggers {
  import opened Wrappers
  import opened Xml
  import opened Removal
  import opened Text

  const TriggerTag: string := "trigger"
  const DependenciesTag: string := "dependencies"
  const DependencyTag: string := "dependency"
  const NameTag: string := "name"
  const ExpressionTag: string := "expression"

  /** One logged cross-template dependency. */
  datatype LogEntry = LogEntry(template: string, trigger: string, dependentTemplate: string, expression: string)

  /** The exceptions that end the pass early; each names the offending element. */
  datatype Crash =
    | TriggerWithoutName(trigger: nat)          // `elem.find('name')` is None, so `.text` fails
    | DependencyWithoutExpression(dependency: nat)  // `re.search` is handed None
    | EmptyExpression(dependency: nat)          // `dependent_template` is unbound or stale

  /** The rewritten template and the dependency log. */
  datatype Stripped = Stripped(tree: Element, log: seq<LogEntry>)

  /** The text of a log entry as the script formats it. */
  function Render(e: LogEntry): (r: string)
    ensures "\nШаблон: " + e.template <= r
    ensures |r| > |e.expression| && r[|r| - |e.expression| - 1..] == e.expression + "\n"
  {
    "\nШаблон: " + e.template + "\nТриггер:" + e.trigger
    + "\nЗависимость от: " + e.dependentTemplate + ", выражение триггерa: " + e.expression + "\n"
  }

  /** `elem.find('name').text` as an f-string prints it; a name element
      without text prints as `None`. */
  function TriggerName(t: Element): (r: Result<string, Crash>)
    ensures r.Err? <==> forall c :: c in t.children ==> c.tag != NameTag
    ensures r.Err? ==> r == Err(TriggerWithoutName(t.id))
    ensures r.Ok? ==> exists i: nat :: FirstWithTag(t.children, NameTag, i) && r.value == Printed(t.children[i].text)
  {
    match FirstChild(t, NameTag)
    case None => Err(TriggerWithoutName(t.id))
    case Some(n) => Ok(Printed(n.text))
  }

  /** An optional text as an f-string prints it. */
  function Printed(text: Option<string>): string
  {
    match text case None => "None" case Some(s) => s
  }

  /** `v.find('expression').text`, or None when `v` has no `expression` child. */
  function ExpressionOf(v: Element): (r: Option<string>)
    ensures (forall c :: c in v.children ==> c.tag != ExpressionTag) ==> r.None?
    ensures r.Some? ==> exists i: nat :: FirstWithTag(v.children, ExpressionTag, i) && v.children[i].text == r
    ensures forall i: nat :: FirstWithTag(v.children, ExpressionTag, i) ==> r == v.children[i].text
  {
    match FirstChild(v, ExpressionTag)
    case None => None
    case Some(e) => e.text
  }

  /** Index of the block the pass inspects and removes: the first
      `dependencies` child, provided it has a child (`if dep:`). */
  function InspectedBlock(t: Element): (r: Option<nat>)
    ensures r.Some? ==> r.value < |t.children| && t.children[r.value].tag == DependenciesTag
    ensures r.Some? ==> |t.children[r.value].children| > 0
  {
    match FirstIndex(t.children, DependenciesTag)
    case None => None
    case Some(i) => if |t.children[i].children| > 0 then Some(i) else None
  }

  /** The trigger loses its inspected `dependencies` block. */
  predicate IsStripped(t: Element)
  {
    t.tag == TriggerTag && InspectedBlock(t).Some?
  }

  function Block(t: Element): Element
    requires IsStripped(t)
  {
    t.children[InspectedBlock(t).value]
  }

  /** The dependencies of `t` the pass examines: the `dependency` children of its
      inspected block. */
  function Checked(t: Element): seq<Element>
  {
    match InspectedBlock(t)
    case None => []
    case Some(i) => ChildrenWithTag(t.children[i], DependencyTag)
  }

  /** Sequential composition of two steps that may crash: the first crash wins,
      otherwise the logs are concatenated. */
  function Then(a: Result<seq<LogEntry>, Crash>, b: Result<seq<LogEntry>, Crash>): Result<seq<LogEntry>, Crash>
  {
    match a
    case Err(e) => Err(e)
    case Ok(x) => match b case Err(e) => Err(e) case Ok(y) => Ok(x + y)
  }

  /** The dependency `v` of the trigger named `trigger` yields the entry `e`. */
  predicate Logged(v: Element, name: string, trigger: string, e: LogEntry)
  {
    && ExpressionOf(v) == Some(e.expression)
    && e.expression != ""
    && !Contains(e.expression, name + ":")
    && e == LogEntry(name, trigger, DependentTemplate(e.expression), e.expression)
  }

  /** The dependency `v` makes the script raise. */
  predicate Broken(v: Element)
  {
    ExpressionOf(v).None? || ExpressionOf(v) == Some("")
  }

  /** The log entries for one dependency `v` of the trigger named `trigger`. */
  function DependencyEntry(v: Element, name: string, trigger: string): Result<seq<LogEntry>, Crash>
    requires Literal(name)
  {
    match ExpressionOf(v)
    case None => Err(DependencyWithoutExpression(v.id))
    case Some(expression) =>
      if expression == "" then Err(EmptyExpression(v.id))
      else
        LiteralWithColon(name);
        if Search(name + ":", expression) then Ok([])
        else Ok([LogEntry(name, trigger, DependentTemplate(expression), expression)])
  }

  /** The log entries for the dependencies `vs`, in order. */
  function DependencyLog(vs: seq<Element>, name: string, trigger: string): Result<seq<LogEntry>, Crash>
    requires Literal(name)
  {
    if vs == [] then Ok([])
    else Then(DependencyLog(vs[..|vs| - 1], name, trigger), DependencyEntry(vs[|vs| - 1], name, trigger))
  }

  /** The log entries for one trigger. */
  function TriggerLog(t: Element, name: string): Result<seq<LogEntry>, Crash>
    requires Literal(name)
  {
    match TriggerName(t)
    case Err(e) => Err(e)
    case Ok(trigger) => DependencyLog(Checked(t), name, trigger)
  }

  /** The log entries for the triggers `ts`, in order. */
  function CollectLog(ts: seq<Element>, name: string): Result<seq<LogEntry>, Crash>
    requires Literal(name)
  {
    if ts == [] then Ok([])
    else Then(CollectLog(ts[..|ts| - 1], name), TriggerLog(ts[|ts| - 1], name))
  }

  /** Reference result of the pass on an element below the root. */
  function StripNode(t: Element): Element
  {
    var m := MapStrip(t.children);
    Element(t.id, t.tag, t.text, if IsStripped(t) then RemoveAt(m, InspectedBlock(t).value) else m)
  }

  function MapStrip(ms: seq<Element>): (r: seq<Element>)
    ensures |r| == |ms|
    ensures forall i :: 0 <= i < |ms| ==> r[i].id == ms[i].id && r[i].tag == ms[i].tag
  {
    seq(|ms|, i requires 0 <= i < |ms| => StripNode(ms[i]))
  }

  /** Reference result of the pass on the tree: the root itself is never
      visited (`findall('.//trigger')` looks strictly below it). */
  function StripTree(root: Element): Element
  {
    Element(root.id, root.tag, root.text, MapStrip(root.children))
  }

  /** Reference result of the whole pass. */
  function StripDependencies(root: Element, name: string): Result<Stripped, Crash>
    requires Literal(name)
  {
    match CollectLog(FindAll(root, TriggerTag), name)
    case Err(e) => Err(e)
    case Ok(log) => Ok(Stripped(StripTree(root), log))
  }

  /** Identities of the blocks the triggers `ts` lose. */
  function BlockIds(ts: seq<Element>): set<nat>
  {
    set t | t in ts && IsStripped(t) :: Block(t).id
  }

  /** The loop of the script, step by step: the trigger list is computed
      once, before any removal; each trigger is read as it was parsed; its
      block is removed from the live tree with `elem.remove(dep)`. */
  method StripPass(root: Element, name: string) returns (r: Result<Stripped, Crash>)
    requires Unique(root)
    requires Literal(name)
    ensures r == StripDependencies(root, name)
  {
    var triggers := FindAll(root, TriggerTag);
    var tree := root;
    var log: seq<LogEntry> := [];
    var k := 0;
    StripStart(root, triggers, name);
    while k < |triggers|
      invariant 0 <= k <= |triggers|
      invariant CollectLog(triggers[..k], name) == Ok(log)
      invariant tree == Detach(root, BlockIds(triggers[..k]))
    {
      var step := Advance(root, name, triggers, k, tree, log);
      if step.Err? {
        return Err(step.error);
      }
      tree, log := step.value.tree, step.value.log;
      k := k + 1;
    }
    StripEnd(root, name, tree, log);
    r := Ok(Stripped(tree, log));
  }

  /** One turn of the loop over `triggers`, stated against the prefix
      `triggers[..k]` the earlier turns have handled. */
  method Advance(root: Element, name: string, triggers: seq<Element>, k: nat, tree: Element, log: seq<LogEntry>)
    returns (r: Result<Progress, Crash>)
    requires Unique(root) && Literal(name)
    requires triggers == FindAll(root, TriggerTag) && k < |triggers|
    requires CollectLog(triggers[..k], name) == Ok(log)
    requires tree == Detach(root, BlockIds(triggers[..k]))
    ensures r.Err? ==> CollectLog(triggers, name) == Err(r.error)
    ensures r.Ok? ==> CollectLog(triggers[..k + 1], name) == Ok(r.value.log)
    ensures r.Ok? ==> r.value.tree == Detach(root, BlockIds(triggers[..k + 1]))
  {
    var elem := triggers[k];
    CollectLogStep(triggers, k, name);
    var step := StripTrigger(tree, elem, name, log);
    if step.Err? {
      CollectLogCrashPrefix(triggers, k + 1, name);
      return Err(step.error);
    }
    if IsStripped(elem) {
      StripStep(root, triggers, k, tree);
    } else {
      SkipStep(triggers, k);
    }
    r := step;
  }

  lemma StripStart(root: Element, triggers: seq<Element>, name: string)
    requires Literal(name)
    ensures CollectLog(triggers[..0], name) == Ok([])
    ensures root == Detach(root, BlockIds(triggers[..0]))
  {
    assert triggers[..0] == [];
    assert BlockIds(triggers[..0]) == {};
    DetachNoop(root, {});
  }

  lemma StripEnd(root: Element, name: string, tree: Element, log: seq<LogEntry>)
    requires Unique(root)
    requires Literal(name)
    requires CollectLog(FindAll(root, TriggerTag)[..|FindAll(root, TriggerTag)|], name) == Ok(log)
    requires tree == Detach(root, BlockIds(FindAll(root, TriggerTag)[..|FindAll(root, TriggerTag)|]))
    ensures Ok(Stripped(tree, log)) == StripDependencies(root, name)
  {
    var triggers := FindAll(root, TriggerTag);
    assert triggers[..|triggers|] == triggers;
    StripIsDetach(root);
  }

  /** The live tree and the log between two triggers. */
  datatype Progress = Progress(tree: Element, log: seq<LogEntry>)

  /** One turn of the loop for the trigger `elem`: log its dependencies whose
      expression does not mention the template, then detach its block from
      the live tree `tree`. */
  method StripTrigger(tree: Element, elem: Element, name: string, log: seq<LogEntry>)
    returns (r: Result<Progress, Crash>)
    requires Literal(name)
    ensures r.Err? <==> TriggerLog(elem, name).Err?
    ensures r.Err? ==> r.error == TriggerLog(elem, name).error
    ensures r.Ok? ==> r.value.log == log + TriggerLog(elem, name).value
    ensures r.Ok? && InspectedBlock(elem).Some? ==>
              r.value.tree == RemoveChild(tree, elem.id, elem.children[InspectedBlock(elem).value].id)
    ensures r.Ok? && InspectedBlock(elem).None? ==> r.value.tree == tree
  {
    var triggerName := TriggerName(elem);
    if triggerName.Err? {
      return Err(triggerName.error);
    }
    var dep := FirstChild(elem, DependenciesTag);
    InspectedIsFirst(elem);
    if dep.Some? && |dep.value.children| > 0 {
      var values := ChildrenWithTag(dep.value, DependencyTag);
      var extended := LogDependencies(values, name, triggerName.value, log);
      if extended.Err? {
        return Err(extended.error);
      }
      r := Ok(Progress(RemoveChild(tree, elem.id, dep.value.id), extended.value));
    } else {
      assert log + [] == log;
      r := Ok(Progress(tree, log));
    }
  }

  /** The body of the inner loop for the dependency `v`: read its expression,
      derive the dependent template and log the pair unless the expression
      mentions the template being imported. */
  method CheckDependency(v: Element, name: string, trigger: string) returns (r: Result<seq<LogEntry>, Crash>)
    requires Literal(name)
    ensures r == DependencyEntry(v, name, trigger)
    ensures r.Err? <==> Broken(v)
    ensures r.Ok? ==> |r.value| <= 1
    ensures r.Ok? ==> forall e :: e in r.value <==> Logged(v, name, trigger, e)
    ensures r.Ok? ==> forall e :: e in r.value ==> ':' !in e.dependentTemplate && '{' !in e.dependentTemplate
  {
    var expression := ExpressionOf(v);
    if expression.None? {
      return Err(DependencyWithoutExpression(v.id));
    }
    if expression.value == "" {
      return Err(EmptyExpression(v.id));
    }
    var dependentTemplate := DependentTemplate(expression.value);
    LiteralWithColon(name);
    var entries: seq<LogEntry> := [];
    if !Search(name + ":", expression.value) {
      entries := [LogEntry(name, trigger, dependentTemplate, expression.value)];
    }
    r := Ok(entries);
  }

  /** The inner loop over the dependencies of one trigger, appending to `log`. */
  method LogDependencies(values: seq<Element>, name: string, trigger: string, log: seq<LogEntry>)
    returns (r: Result<seq<LogEntry>, Crash>)
    requires Literal(name)
    ensures r == Then(Ok(log), DependencyLog(values, name, trigger))
  {
    var out := log;
    var j := 0;
    assert values[..0] == [];
    assert log + [] == log;
    while j < |values|
      invariant 0 <= j <= |values|
      invariant Then(Ok(log), DependencyLog(values[..j], name, trigger)) == Ok(out)
    {
      var v := values[j];
      DependencyLogStep(values, j, name, trigger);
      ThenAfter(log, DependencyLog(values[..j], name, trigger), out, DependencyEntry(v, name, trigger));
      var entries := CheckDependency(v, name, trigger);
      if entries.Err? {
        DependencyLogCrashPrefix(values, j + 1, name, trigger);
        return Err(entries.error);
      }
      out := out + entries.value;
      j := j + 1;
    }
    assert values[..j] == values;
    r := Ok(out);
  }

  /** `InspectedBlock` is the script's `find('dependencies')` followed by `if dep:`. */
  lemma InspectedIsFirst(t: Element)
    ensures var dep := FirstChild(t, DependenciesTag);
      && (InspectedBlock(t).Some? <==> dep.Some? && |dep.value.children| > 0)
      && (InspectedBlock(t).Some? ==> t.children[InspectedBlock(t).value] == dep.value)
      && Checked(t) == (if dep.Some? && |dep.value.children| > 0 then ChildrenWithTag(dep.value, DependencyTag) else [])
  {
  }

  /** A trigger without an inspected block adds nothing to the removed set. */
  lemma SkipStep(triggers: seq<Element>, k: nat)
    requires k < |triggers| && !IsStripped(triggers[k])
    ensures BlockIds(triggers[..k + 1]) == BlockIds(triggers[..k])
  {
    BlockIdsPrefix(triggers, k);
  }

  /** Appending one more step to a log already extended to `out`. */
  lemma ThenAfter(log: seq<LogEntry>, a: Result<seq<LogEntry>, Crash>, out: seq<LogEntry>, e: Result<seq<LogEntry>, Crash>)
    requires Then(Ok(log), a) == Ok(out)
    ensures Then(Ok(log), Then(a, e)) == Then(Ok(out), e)
  {
    if e.Ok? {
      assert log + (a.value + e.value) == (log + a.value) + e.value;
    }
  }

  lemma CollectLogStep(ts: seq<Element>, k: nat, name: string)
    requires Literal(name)
    requires k < |ts|
    ensures CollectLog(ts[..k + 1], name) == Then(CollectLog(ts[..k], name), TriggerLog(ts[k], name))
  {
    assert ts[..k + 1][..k] == ts[..k];
  }

  lemma DependencyLogStep(vs: seq<Element>, j: nat, name: string, trigger: string)
    requires Literal(name)
    requires j < |vs|
    ensures DependencyLog(vs[..j + 1], name, trigger) == Then(DependencyLog(vs[..j], name, trigger), DependencyEntry(vs[j], name, trigger))
  {
    assert vs[..j + 1][..j] == vs[..j];
  }

  lemma CollectLogCrashPrefix(ts: seq<Element>, m: nat, name: string)
    requires Literal(name)
    requires m <= |ts|
    requires CollectLog(ts[..m], name).Err?
    ensures CollectLog(ts, name) == CollectLog(ts[..m], name)
    decreases |ts| - m
  {
    if m < |ts| {
      assert ts[..m + 1][..m] == ts[..m];
      CollectLogCrashPrefix(ts, m + 1, name);
    } else {
      assert ts[..m] == ts;
    }
  }

  lemma DependencyLogCrashPrefix(vs: seq<Element>, m: nat, name: string, trigger: string)
    requires Literal(name)
    requires m <= |vs|
    requires DependencyLog(vs[..m], name, trigger).Err?
    ensures DependencyLog(vs, name, trigger) == DependencyLog(vs[..m], name, trigger)
    decreases |vs| - m
  {
    if m < |vs| {
      assert vs[..m + 1][..m] == vs[..m];
      DependencyLogCrashPrefix(vs, m + 1, name, trigger);
    } else {
      assert vs[..m] == vs;
    }
  }

  lemma BlockIdsPrefix(ts: seq<Element>, k: nat)
    requires k < |ts|
    ensures BlockIds(ts[..k + 1]) == BlockIds(ts[..k]) + (if IsStripped(ts[k]) then {Block(ts[k]).id} else {})
  {
    assert ts[..k + 1] == ts[..k] + [ts[k]];
  }

  /** In the live tree, only the trigger itself can hold its block. */
  lemma BlockHolder(root: Element, s: set<nat>, elem: Element, tree: Element)
    requires Unique(root)
    requires elem in Nodes(root) && IsStripped(elem)
    requires tree == Detach(root, s)
    ensures forall n :: n in Nodes(tree) && HasChild(n, Block(elem).id) ==> n.id == elem.id
  {
    forall n | n in Nodes(tree) && HasChild(n, Block(elem).id)
      ensures n.id == elem.id
    {
      DetachedParent(root, s, elem, InspectedBlock(elem).value, n);
    }
  }

  /** One step of the loop: `elem.remove(dep)` on the live tree detaches the block. */
  lemma StripStep(root: Element, triggers: seq<Element>, k: nat, tree: Element)
    requires Unique(root)
    requires triggers == FindAll(root, TriggerTag)
    requires k < |triggers| && IsStripped(triggers[k])
    requires tree == Detach(root, BlockIds(triggers[..k]))
    ensures RemoveChild(tree, triggers[k].id, Block(triggers[k]).id) == Detach(root, BlockIds(triggers[..k + 1]))
  {
    var elem := triggers[k];
    var s := BlockIds(triggers[..k]);
    var x := Block(elem).id;
    assert elem in Nodes(root) by {
      assert elem in Descendants(root);
    }
    DetachUnique(root, s);
    BlockHolder(root, s, elem, tree);
    RemoveChildDetaches(tree, elem.id, x);
    assert RemoveChild(tree, elem.id, x) == Detach(Detach(root, s), {x});
    DetachCompose(root, s, {x});
    BlockIdsPrefix(triggers, k);
  }

  /** Which children of `n` a set of identities marks for removal: exactly the
      inspected block, and only when `n` is stripped. */
  predicate Marks(n: Element, s: set<nat>)
  {
    forall k | 0 <= k < |n.children| :: (n.children[k].id in s <==> IsStripped(n) && InspectedBlock(n) == Some(k))
  }

  lemma {:induction false} DetachStripNode(t: Element, s: set<nat>)
    requires forall n :: n in Nodes(t) ==> Marks(n, s)
    ensures Detach(t, s) == StripNode(t)
    decreases t
  {
    var cs := t.children;
    forall i | 0 <= i < |cs|
      ensures MapDetach(cs, s)[i] == MapStrip(cs)[i]
    {
      SubtreeInDescendants(t, i);
      DetachStripNode(cs[i], s);
    }
    var m := MapStrip(cs);
    assert MapDetach(cs, s) == m;
    assert Marks(t, s);
    if IsStripped(t) {
      DropIdsOne(m, s, InspectedBlock(t).value);
    } else {
      DropIdsNone(m, s);
    }
  }

  lemma DetachStripTree(root: Element, s: set<nat>)
    requires forall k :: 0 <= k < |root.children| ==> root.children[k].id !in s
    requires forall n :: n in Descendants(root) ==> Marks(n, s)
    ensures Detach(root, s) == StripTree(root)
  {
    var cs := root.children;
    forall i | 0 <= i < |cs|
      ensures MapDetach(cs, s)[i] == MapStrip(cs)[i]
    {
      SubtreeInDescendants(root, i);
      DetachStripNode(cs[i], s);
    }
    assert MapDetach(cs, s) == MapStrip(cs);
    DropIdsNone(MapStrip(cs), s);
  }

  /** The blocks removed by the loop mark exactly what the reference removes. */
  lemma BlockIdsMark(root: Element)
    requires Unique(root)
    ensures forall k :: 0 <= k < |root.children| ==> root.children[k].id !in BlockIds(FindAll(root, TriggerTag))
    ensures forall n :: n in Descendants(root) ==> Marks(n, BlockIds(FindAll(root, TriggerTag)))
  {
    var s := BlockIds(FindAll(root, TriggerTag));
    forall k | 0 <= k < |root.children|
      ensures root.children[k].id !in s
    {
      if root.children[k].id in s {
        var t :| t in FindAll(root, TriggerTag) && IsStripped(t) && Block(t).id == root.children[k].id;
        assert HasChild(t, root.children[k].id);
        RootChildHasNoOtherParent(root, t, k);
      }
    }
    forall n | n in Descendants(root)
      ensures Marks(n, s)
    {
      forall k | 0 <= k < |n.children|
        ensures n.children[k].id in s <==> IsStripped(n) && InspectedBlock(n) == Some(k)
      {
        if IsStripped(n) && InspectedBlock(n) == Some(k) {
          assert n in FindAll(root, TriggerTag);
        }
        if n.children[k].id in s {
          BlockOwner(root, n, k);
        }
      }
    }
  }

  lemma BlockOwner(root: Element, n: Element, k: nat)
    requires Unique(root)
    requires n in Descendants(root) && k < |n.children|
    requires n.children[k].id in BlockIds(FindAll(root, TriggerTag))
    ensures IsStripped(n) && InspectedBlock(n) == Some(k)
  {
    var x := n.children[k].id;
    var t := BlockOwnerTrigger(root, x);
    assert t in Nodes(root) && n in Nodes(root);
    assert HasChild(n, x) by { assert n.children[k].id == x; }
    assert n == t by { UniqueParent(root, n, t, x); }
    SameChildIndex(root, n, InspectedBlock(n).value, k);
  }

  /** The stripped trigger whose block has identity `x`. */
  lemma BlockOwnerTrigger(root: Element, x: nat) returns (t: Element)
    requires x in BlockIds(FindAll(root, TriggerTag))
    ensures t in FindAll(root, TriggerTag) && IsStripped(t) && Block(t).id == x
    ensures HasChild(t, x)
  {
    t :| t in FindAll(root, TriggerTag) && IsStripped(t) && Block(t).id == x;
    assert t.children[InspectedBlock(t).value].id == x;
  }

  /** Two children of a node below a unique root with the same identity are
      the same child. */
  lemma SameChildIndex(root: Element, n: Element, i: nat, k: nat)
    requires Unique(root) && n in Descendants(root)
    requires i < |n.children| && k < |n.children|
    ensures n.children[i].id == n.children[k].id ==> i == k
  {
    assert n in Nodes(root);
    UniqueSub(root, n);
    DistinctChildIds(n);
  }

  /** The loop's removals amount to the reference result. */
  lemma StripIsDetach(root: Element)
    requires Unique(root)
    ensures Detach(root, BlockIds(FindAll(root, TriggerTag))) == StripTree(root)
  {
    BlockIdsMark(root);
    DetachStripTree(root, BlockIds(FindAll(root, TriggerTag)));
  }
}
