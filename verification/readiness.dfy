/**
  The readiness check that decides whether the rewritten template is
  imported: every logged line must mention the template being imported.
  Each line is rendered with the template's own name in it, so the check
  always passes.
 */
module Readiness {
  import opened Xml
  import opened Text
  import opened Triggers
  import opened Report

  /** The lines of the dependency log as the script collects them. */
  function LogLines(log: seq<LogEntry>): (r: seq<string>)
    ensures |r| == |log|
    ensures forall i :: 0 <= i < |log| ==> r[i] == Render(log[i])
  {
    seq(|log|, i requires 0 <= i < |log| => Render(log[i]))
  }

  /** Every line mentions `name`. */
  predicate AllMention(lines: seq<string>, name: string)
  {
    forall i :: 0 <= i < |lines| ==> Contains(lines[i], name)
  }

  /** The loop of the script: start from 1 and drop to 0 on the first line
      that `re.search(name, line)` does not match. */
  method CheckReady(lines: seq<string>, name: string) returns (isReady: int)
    requires Literal(name)
    ensures isReady == 0 || isReady == 1
    ensures isReady == 1 <==> AllMention(lines, name)
  {
    isReady := 1;
    var k := 0;
    while k < |lines|
      invariant 0 <= k <= |lines|
      invariant isReady == 0 || isReady == 1
      invariant isReady == 1 <==> forall i :: 0 <= i < k ==> Contains(lines[i], name)
    {
      if !Search(name, lines[k]) {
        isReady := 0;
      }
      k := k + 1;
    }
  }

  /** A rendered entry names its template. */
  lemma RenderMentionsTemplate(e: LogEntry)
    ensures Contains(Render(e), e.template)
  {
    var before := "\nШаблон: ";
    var after := "\nТриггер:" + e.trigger + "\nЗависимость от: " + e.dependentTemplate
                 + ", выражение триггерa: " + e.expression + "\n";
    assert Render(e) == before + e.template + after;
    ContainsInfix(before, e.template, after);
  }

  /** Whatever the document, a successful dependency pass always passes the
      readiness check: every line it logs names the imported template. */
  lemma ReadinessAlwaysPasses(root: Element, name: string)
    requires Literal(name)
    requires StripDependencies(root, name).Ok?
    ensures AllMention(LogLines(StripDependencies(root, name).value.log), name)
  {
    var log := StripDependencies(root, name).value.log;
    forall i | 0 <= i < |log|
      ensures Contains(LogLines(log)[i], name)
    {
      EntryFacts(root, name, log[i]);
      RenderMentionsTemplate(log[i]);
    }
  }
}
