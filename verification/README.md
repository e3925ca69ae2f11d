# Zabbix 5 → 7 template rewriting, modelled in Dafny

The migration script `import_zabbix_template_from_5_to_7.py` exports a
template from Zabbix 5 as XML. Before it imports the template into Zabbix 7,
it rewrites the document in memory in three steps. This project models those
steps and proves properties of them:

1. **Trigger-dependency pass** (lines 119-135). Every `trigger` below the root is
   visited in document order. When the trigger's first `dependencies` child
   has children, each of its `dependency` children is examined. A log line is
   kept for each dependency whose expression does not contain `<template>:`.
   The line names the dependent template: the expression up to its first
   colon, with the `{` characters deleted. The whole `dependencies` block is
   then removed, whatever the expressions say.
2. **Readiness check** (lines 138-141). The template counts as ready when every
   log line mentions the template name.
3. **`request_method` pruning** (lines 145-148). When the template is ready, every
   `request_method` element is removed from its parent. `find_parent`
   (lines 60-64) locates the parent.

The XML document is an `Xml.Element` tree. Python object identity decides what
`element in parent`, `elem.remove(dep)` and `parent.remove(x)` see. It is
modelled by an `id` field. A parsed document holds distinct objects, so the
operations that depend on identity require `Xml.Unique` (all `id`s distinct).

The script's loops are methods that follow the source statement by statement:
- a snapshot list taken with `findall('.//tag')` (`Xml.FindAll`, which excludes the root);
- a live tree that shrinks one `remove` at a time (`Removal.RemoveChild`).

Each loop is proved equal to a structural reference definition:
- `Triggers.StripTree` and `Triggers.CollectLog` for the dependency pass;
- `RequestMethods.Prune` for the pruning.

Both proofs go through one general operation, `Removal.Detach(t, S)`, which
cuts every subtree whose root has an identity in `S`.

The exceptions the dependency pass can raise are the `Triggers.Crash` values:
- a trigger without a `name` child;
- a dependency without an `expression` text;
- an empty expression.

Modules:
- `Wrappers`: the option and result types.
- `Xml`: elements, preorder traversal, `find`, `findall`, identity facts.
- `Removal`: `remove` by identity, and detaching a set of subtrees.
- `Text`: literal search, `split(':')[0]`, `replace('{', '')`.
- `Triggers`: the dependency pass and its reference definition.
- `Report`: what the dependency log contains, in which order, and when the pass crashes.
- `TriggerShape`: what the document looks like after the pass.
- `Readiness`: the readiness check.
- `RequestMethods`: `find_parent` and the pruning.
- `Migration`: the three steps together.

## Model

| member | source | states |
|---|---|---|
| Text.DependentTemplate | import_zabbix_template_from_5_to_7.py:129 | The dependent template written to the log contains no `:` and no `{`. |
| Text.BeforeColon | import_zabbix_template_from_5_to_7.py:129 | `split(':')[0]` is a prefix of the expression with no colon in it. When it is shorter than the expression, a colon follows it. |
| Text.DeleteChar | import_zabbix_template_from_5_to_7.py:129 | `replace('{', '')` leaves no `{` and introduces no character that was not there. A string without `{` comes back unchanged. |
| Text.DeleteCharCounts | import_zabbix_template_from_5_to_7.py:129 | `replace('{', '')` keeps the count of every other character, and the string shrinks by the number of `{`. |
| Text.DeleteCharAppend | import_zabbix_template_from_5_to_7.py:129 | Deleting a character distributes over concatenation, so the characters that stay keep their order. With the clauses of `DeleteChar`, this fixes the result exactly. |
| Text.DependentTemplateOf | import_zabbix_template_from_5_to_7.py:129 | For an expression `a:b` where `a` has no colon, the dependent template is `a` without its braces. |
| Triggers.TriggerName | import_zabbix_template_from_5_to_7.py:121 | `elem.find('name').text`: a trigger with no `name` child is the `TriggerWithoutName` crash. Otherwise the result is the text of the first `name` child as an f-string prints it, with a missing text printed as `None`. |
| Triggers.ExpressionOf | import_zabbix_template_from_5_to_7.py:127 | `v.find('expression').text`: None when `v` has no `expression` child. Otherwise the result is exactly the text of the first `expression` child, which is None when that child has no text. Both directions are stated: a non-None result comes from the first `expression` child, and the first `expression` child's text is the result. |
| Triggers.Render | import_zabbix_template_from_5_to_7.py:131-133 | The f-string of one log line. It begins with a newline, the header `Шаблон: ` and the template name, and it ends with the expression and a newline. The Cyrillic labels are copied as written, including the Latin `a` in `триггерa`. |
| Triggers.InspectedIsFirst | import_zabbix_template_from_5_to_7.py:122-124 | The block the pass inspects is the trigger's first `dependencies` child, and only when that child has children (`if dep:`). Its `dependency` children are the ones examined. |
| Triggers.CheckDependency | import_zabbix_template_from_5_to_7.py:127-133 | One dependency crashes exactly when it is `Broken`: no expression text, or an empty one. Otherwise it logs at most one entry. An entry is logged exactly when it is `Logged`: the expression lacks `<template>:`, and the entry names the template, the trigger, the derived dependent template and the expression. A logged dependent template has no `:` and no `{`. |
| Triggers.LogDependencies | import_zabbix_template_from_5_to_7.py:125-133 | The inner loop appends the entries of the dependencies in order. The first crashing dependency ends it with that crash. |
| Triggers.StripTrigger | import_zabbix_template_from_5_to_7.py:121-134 | One turn of the outer loop. It crashes exactly when the trigger's name or one of its dependencies crashes. Otherwise it appends the trigger's entries and removes exactly the inspected block from its trigger; with no inspected block, the tree is unchanged. |
| Triggers.StripPass | import_zabbix_template_from_5_to_7.py:119-134 | The loop over the `findall` snapshot, which mutates the live tree, gives the same result as the reference definition. The reference crashes with the first crash in document order; otherwise it yields the tree in which every trigger lost its inspected block, plus the log of all triggers in order. |
| Triggers.StripIsDetach | import_zabbix_template_from_5_to_7.py:120-134 | Detaching the inspected blocks of all triggers in the snapshot is the structural rewrite `StripTree`. |
| Report.DependencyLogAppend | import_zabbix_template_from_5_to_7.py:125-133 | The log of the dependencies `a + b` is the log of `a` followed by the log of `b`, and the first crash wins. |
| Report.CollectLogAppend | import_zabbix_template_from_5_to_7.py:120-133 | The log of the triggers `a + b` is the log of `a` followed by the log of `b`: entries keep the document order of their triggers. |
| Report.DependencyLogMembers | import_zabbix_template_from_5_to_7.py:125-133 | Suppose the trigger's log is produced. Then an entry is in it exactly when some examined dependency has a non-empty expression lacking `<template>:`, and the entry is formed from that expression. |
| Report.DependencyLogCrash | import_zabbix_template_from_5_to_7.py:127-130 | A trigger's dependencies crash exactly when one of them has no expression text or an empty one. |
| Report.DependencyLogFirstCrash | import_zabbix_template_from_5_to_7.py:125-130 | When the earlier dependencies are sound, the first broken dependency decides the crash, whatever follows it. |
| Report.CollectLogMembers | import_zabbix_template_from_5_to_7.py:120-133 | Suppose the pass succeeds. Then an entry is in the log exactly when some trigger of the snapshot produces it from one of its examined dependencies. |
| Report.CollectLogCrash | import_zabbix_template_from_5_to_7.py:120-130 | The pass crashes exactly when some trigger has no `name` child or has a broken examined dependency. |
| Report.CollectLogFirstCrash | import_zabbix_template_from_5_to_7.py:120-130 | When the earlier triggers are sound, the first failing trigger decides the crash, whatever follows it. |
| Report.EntryFacts | import_zabbix_template_from_5_to_7.py:128-133 | Every logged entry has these properties: its template is the imported one; its expression is non-empty and lacks `<template>:`; its dependent template is derived from the expression and has no `:` or `{`; some trigger of the document produced it. |
| Report.PassLog | import_zabbix_template_from_5_to_7.py:120-133 | The pass crashes exactly when some trigger fails. Otherwise an entry is logged exactly when some trigger produces it. |
| TriggerShape.NoNonEmptyBlockLeft | import_zabbix_template_from_5_to_7.py:122-134 | After the pass, no trigger keeps a `dependencies` child with children, provided every trigger had one `dependencies` child. |
| TriggerShape.EmptyBlockKept | import_zabbix_template_from_5_to_7.py:122-123 | A childless first `dependencies` child stays in place, unchanged. |
| TriggerShape.StripSurvivors | import_zabbix_template_from_5_to_7.py:120-134 | An element survives the pass exactly when it lies in no trigger's inspected block. |
| TriggerShape.BlockGone | import_zabbix_template_from_5_to_7.py:123-134 | After a successful pass, every inspected block is gone, even one whose dependencies all name the template itself. |
| Readiness.CheckReady | import_zabbix_template_from_5_to_7.py:138-141 | `is_ready` ends as 0 or 1. It is 1 exactly when every log line contains the template name. |
| Readiness.RenderMentionsTemplate | import_zabbix_template_from_5_to_7.py:131-133 | A formatted log line contains the template name that it was formatted with. |
| Readiness.ReadinessAlwaysPasses | import_zabbix_template_from_5_to_7.py:130-141 | Whatever the document, every line logged by a successful pass mentions the template, so the readiness check always passes. |
| RequestMethods.FindParent | import_zabbix_template_from_5_to_7.py:60-64 | When a parent is returned, it is the first node in `tree.iter()` order that has the element as a child. None is returned exactly when no node below the root has the element's identity. In a unique tree, that means the element is the root or absent, and the parent is the only one. |
| RequestMethods.RemoveFromParent | import_zabbix_template_from_5_to_7.py:146-148 | Finding the parent and removing the element from it cuts exactly that element's subtree. An element with no parent leaves the tree as it is. |
| RequestMethods.PruneRequestMethods | import_zabbix_template_from_5_to_7.py:145-148 | The loop over the `findall` snapshot gives the structural pruning: every `request_method` below the root goes, with its subtree. |
| RequestMethods.PruneIsDetach | import_zabbix_template_from_5_to_7.py:145-148 | Detaching every `request_method` of the snapshot is the structural pruning. |
| RequestMethods.PruneClean | import_zabbix_template_from_5_to_7.py:145-148 | No `request_method` is left below the root after pruning. |
| RequestMethods.PruneIdempotent | import_zabbix_template_from_5_to_7.py:145-148 | Pruning a pruned document changes nothing. |
| RequestMethods.PruneKeepsOrder | import_zabbix_template_from_5_to_7.py:145-148 | The surviving children keep their relative order: pruning filters the children and recurses into the survivors. |
| RequestMethods.PruneSurvivors | import_zabbix_template_from_5_to_7.py:145-148 | An element survives pruning exactly when it lies inside no `request_method`. |
| Removal.RemoveChild | import_zabbix_template_from_5_to_7.py:134 | `parent.remove(child)` by identity, as at line 134 and at line 148. A tree without the identity `p` comes back unchanged. At the element `p`, when no identity `p` occurs again below it, the children become the old children with the first one of identity `x` taken out (`DropFirstId`). The root keeps its identity, tag and text. The child count drops by one at `p` when `p` holds `x`, and is unchanged everywhere else. |
| Removal.DropFirstId | import_zabbix_template_from_5_to_7.py:134 | Removing from a child list drops one element when some child has identity `x`. Otherwise the list is unchanged. |
| Removal.DropFirstIdAt | import_zabbix_template_from_5_to_7.py:134 | The element dropped is exactly the first one with identity `x`. The children before it and after it keep their order. |
| Removal.RemoveChildDetaches | import_zabbix_template_from_5_to_7.py:134 | Suppose the parent holding the identity `x` is the only one. Then `parent.remove(x)` is the same as detaching the subtree `x`. |
| Removal.DetachIds | import_zabbix_template_from_5_to_7.py:134 | After detaching the subtrees rooted at `S`, an element remains exactly when it lies in none of them. |
| Migration.Migrate | import_zabbix_template_from_5_to_7.py:119-148 | The rewriting crashes exactly when the dependency pass does. Otherwise the template is always imported, as the pruned, stripped document with the pass's log. |
| Migration.ImportedDocument | import_zabbix_template_from_5_to_7.py:119-148 | For every document, the imported document has no `request_method` below its root. If every trigger had one `dependencies` child, then no trigger keeps a non-empty one either. |

## Left out

- The Zabbix API calls, the HTTP fetch from Bitbucket, and group creation are not modelled. Neither is the import call after line 148.
- The document's XML parsing (`ET.fromstring`) and serialisation (`ET.tostring`) are not modelled. The model starts and ends with an element tree.
- Writing the log with `logging.info` (line 135) is not modelled. The log is the sequence of entries, and `Triggers.Render` is the f-string of lines 131-133.
- Command-line parsing and the configuration constants are not modelled.
- `import_template_groups_via_creating.py` is not part of this model.
- `v.find('name')` at line 126 is computed and never used, so it is not modelled.
- Regular expressions are not modelled: `re.search` on a template name is literal substring search.
- Triggers.StripPass, Readiness.CheckReady, Migration.Migrate: require the template name to contain no regular-expression metacharacter (`Text.Literal`). A name with one changes what `re.search` matches.
- Triggers.CheckDependency: an empty expression text counts as a crash (`EmptyExpression`). In the script, such a dependency fails the `if expression:` guard. It then logs with a `dependent_template` that is unbound, which raises, or stale from the previous dependency. ElementTree's parser reports empty text as None, so a parsed document never reaches this case.
- The state of the half-rewritten tree when an exception escapes is not modelled. A crash is reported only as the `Crash` value.
- TriggerShape.NoNonEmptyBlockLeft: requires every trigger to have one `dependencies` child. The script inspects only the first one (`find`), so a second non-empty block would survive.
- Migration.ImportedDocument: the claim that no trigger keeps a non-empty `dependencies` child is made only when every trigger had one such child, for the same reason as `TriggerShape.NoNonEmptyBlockLeft`. The `request_method` claim holds for every document.
- Migration.Migrate: the branch where the readiness check fails is kept in the method, but it is unreachable (`Readiness.ReadinessAlwaysPasses`). The not-ready outcome is never produced.
