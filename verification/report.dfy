/**
  What the dependency log of the trigger pass holds: entries appear in
  document order, one for each examined dependency whose expression does not
  name the template being imported, and the pass crashes exactly when some
  trigger lacks a name or some examined dependency lacks an expression.
 */
module Report {
  import opened Wrappers
  import opened Xml
  import opened Text
  import opened Triggers

  /** The trigger `t` yields the entry `e` through one of its examined dependencies. */
  predicate LoggedBy(t: Element, name: string, e: LogEntry)
  {
    TriggerName(t) == Ok(e.trigger) && exists v :: v in Checked(t) && Logged(v, name, e.trigger, e)
  }

  /** The trigger `t` makes the script raise. */
  predicate Fails(t: Element)
  {
    TriggerName(t).Err? || exists v :: v in Checked(t) && Broken(v)
  }

  lemma ThenUnit(a: Result<seq<LogEntry>, Crash>)
    ensures Then(a, Ok([])) == a
  {
    if a.Ok? {
      assert a.value + [] == a.value;
    }
  }

  lemma ThenAssoc(a: Result<seq<LogEntry>, Crash>, b: Result<seq<LogEntry>, Crash>, c: Result<seq<LogEntry>, Crash>)
    ensures Then(Then(a, b), c) == Then(a, Then(b, c))
  {
    if a.Ok? && b.Ok? && c.Ok? {
      assert (a.value + b.value) + c.value == a.value + (b.value + c.value);
    }
  }

  lemma ThenMembers(a: Result<seq<LogEntry>, Crash>, b: Result<seq<LogEntry>, Crash>, e: LogEntry)
    ensures Then(a, b).Err? <==> a.Err? || b.Err?
    ensures Then(a, b).Err? ==> Then(a, b).error == if a.Err? then a.error else b.error
    ensures Then(a, b).Ok? ==> (e in Then(a, b).value <==> e in a.value || e in b.value)
  {
  }

  lemma DependencyLogSnoc(init: seq<Element>, v: Element, name: string, trigger: string)
    requires Literal(name)
    ensures DependencyLog(init + [v], name, trigger) == Then(DependencyLog(init, name, trigger), DependencyEntry(v, name, trigger))
  {
    assert (init + [v])[..|init|] == init;
  }

  lemma CollectLogSnoc(init: seq<Element>, t: Element, name: string)
    requires Literal(name)
    ensures CollectLog(init + [t], name) == Then(CollectLog(init, name), TriggerLog(t, name))
  {
    assert (init + [t])[..|init|] == init;
  }

  /** Logging the dependencies `a + b` logs those of `a`, then those of `b`. */
  lemma {:induction false} DependencyLogAppend(a: seq<Element>, b: seq<Element>, name: string, trigger: string)
    requires Literal(name)
    ensures DependencyLog(a + b, name, trigger) == Then(DependencyLog(a, name, trigger), DependencyLog(b, name, trigger))
    decreases |b|
  {
    if b == [] {
      assert a + b == a;
      ThenUnit(DependencyLog(a, name, trigger));
    } else {
      var init, last := b[..|b| - 1], b[|b| - 1];
      assert b == init + [last];
      assert a + b == (a + init) + [last];
      DependencyLogSnoc(a + init, last, name, trigger);
      DependencyLogSnoc(init, last, name, trigger);
      DependencyLogAppend(a, init, name, trigger);
      ThenAssoc(DependencyLog(a, name, trigger), DependencyLog(init, name, trigger), DependencyEntry(last, name, trigger));
    }
  }

  /** Logging the triggers `a + b` logs those of `a`, then those of `b`. */
  lemma {:induction false} CollectLogAppend(a: seq<Element>, b: seq<Element>, name: string)
    requires Literal(name)
    ensures CollectLog(a + b, name) == Then(CollectLog(a, name), CollectLog(b, name))
    decreases |b|
  {
    if b == [] {
      assert a + b == a;
      ThenUnit(CollectLog(a, name));
    } else {
      var init, last := b[..|b| - 1], b[|b| - 1];
      assert b == init + [last];
      assert a + b == (a + init) + [last];
      CollectLogSnoc(a + init, last, name);
      CollectLogSnoc(init, last, name);
      CollectLogAppend(a, init, name);
      ThenAssoc(CollectLog(a, name), CollectLog(init, name), TriggerLog(last, name));
    }
  }

  /** One dependency logs at most one entry, exactly when it is `Logged`. */
  lemma EntryMembers(v: Element, name: string, trigger: string, e: LogEntry)
    requires Literal(name)
    ensures DependencyEntry(v, name, trigger).Err? <==> Broken(v)
    ensures DependencyEntry(v, name, trigger).Ok? ==> |DependencyEntry(v, name, trigger).value| <= 1
    ensures DependencyEntry(v, name, trigger).Ok? ==> (e in DependencyEntry(v, name, trigger).value <==> Logged(v, name, trigger, e))
  {
    LiteralWithColon(name);
  }

  /** The entries for the dependencies `vs` are those of the `Logged` ones. */
  lemma {:induction false} DependencyLogMembers(vs: seq<Element>, name: string, trigger: string, e: LogEntry)
    requires Literal(name)
    ensures DependencyLog(vs, name, trigger).Ok? ==>
              (e in DependencyLog(vs, name, trigger).value <==> exists v :: v in vs && Logged(v, name, trigger, e))
    decreases |vs|
  {
    if vs != [] {
      var init := vs[..|vs| - 1];
      var last := vs[|vs| - 1];
      ThenMembers(DependencyLog(init, name, trigger), DependencyEntry(last, name, trigger), e);
      DependencyLogMembers(init, name, trigger, e);
      EntryMembers(last, name, trigger, e);
      InitOrLast(vs);
    }
  }

  /** The members of a non-empty sequence are those of its front and its last. */
  lemma InitOrLast(vs: seq<Element>)
    requires vs != []
    ensures forall v :: v in vs <==> v in vs[..|vs| - 1] || v == vs[|vs| - 1]
  {
    assert vs == vs[..|vs| - 1] + [vs[|vs| - 1]];
  }

  /** The pass crashes on the dependencies `vs` exactly when one is broken. */
  lemma {:induction false} DependencyLogCrash(vs: seq<Element>, name: string, trigger: string)
    requires Literal(name)
    ensures DependencyLog(vs, name, trigger).Err? <==> exists v :: v in vs && Broken(v)
    decreases |vs|
  {
    if vs != [] {
      var init := vs[..|vs| - 1];
      var last := vs[|vs| - 1];
      ThenMembers(DependencyLog(init, name, trigger), DependencyEntry(last, name, trigger), LogEntry("", "", "", ""));
      DependencyLogCrash(init, name, trigger);
      EntryMembers(last, name, trigger, LogEntry("", "", "", ""));
      InitOrLast(vs);
    }
  }

  /** The first broken dependency decides the crash: whatever follows it. */
  lemma DependencyLogFirstCrash(a: seq<Element>, v: Element, b: seq<Element>, name: string, trigger: string)
    requires Literal(name)
    requires forall u :: u in a ==> !Broken(u)
    requires Broken(v)
    ensures DependencyEntry(v, name, trigger).Err? && DependencyLog(a + [v] + b, name, trigger) == DependencyEntry(v, name, trigger)
  {
    DependencyLogAppend(a + [v], b, name, trigger);
    DependencyLogAppend(a, [v], name, trigger);
    DependencyLogCrash(a, name, trigger);
    var e := LogEntry("", "", "", "");
    EntryMembers(v, name, trigger, e);
    assert [v][..0] == [];
    ThenMembers(Ok([]), DependencyEntry(v, name, trigger), e);
    ThenMembers(DependencyLog(a, name, trigger), DependencyLog([v], name, trigger), e);
    ThenMembers(DependencyLog(a + [v], name, trigger), DependencyLog(b, name, trigger), e);
  }

  /** One trigger: its entries are those `LoggedBy` it, and it crashes
      exactly when it `Fails`. */
  lemma TriggerMembers(t: Element, name: string, e: LogEntry)
    requires Literal(name)
    ensures TriggerLog(t, name).Err? <==> Fails(t)
    ensures TriggerLog(t, name).Ok? ==> (e in TriggerLog(t, name).value <==> LoggedBy(t, name, e))
  {
    if TriggerName(t).Ok? {
      var trigger := TriggerName(t).value;
      var vs := Checked(t);
      DependencyLogCrash(vs, name, trigger);
      if DependencyLog(vs, name, trigger).Ok? {
        DependencyLogMembers(vs, name, trigger, e);
      }
    }
  }

  /** The entries for the triggers `ts` are exactly those some trigger of `ts`
      yields. */
  lemma {:induction false} CollectLogMembers(ts: seq<Element>, name: string, e: LogEntry)
    requires Literal(name)
    requires CollectLog(ts, name).Ok?
    ensures e in CollectLog(ts, name).value <==> exists t :: t in ts && LoggedBy(t, name, e)
    decreases |ts|
  {
    if ts != [] {
      var init := ts[..|ts| - 1];
      var last := ts[|ts| - 1];
      ThenMembers(CollectLog(init, name), TriggerLog(last, name), e);
      CollectLogMembers(init, name, e);
      TriggerMembers(last, name, e);
      InitOrLast(ts);
    }
  }

  /** The pass crashes on the triggers `ts` exactly when one of them fails. */
  lemma {:induction false} CollectLogCrash(ts: seq<Element>, name: string)
    requires Literal(name)
    ensures CollectLog(ts, name).Err? <==> exists t :: t in ts && Fails(t)
    decreases |ts|
  {
    if ts != [] {
      var init := ts[..|ts| - 1];
      var last := ts[|ts| - 1];
      ThenMembers(CollectLog(init, name), TriggerLog(last, name), LogEntry("", "", "", ""));
      CollectLogCrash(init, name);
      TriggerMembers(last, name, LogEntry("", "", "", ""));
      InitOrLast(ts);
    }
  }

  /** The first failing trigger decides the crash: whatever follows it. */
  lemma CollectLogFirstCrash(a: seq<Element>, t: Element, b: seq<Element>, name: string)
    requires Literal(name)
    requires forall u :: u in a ==> !Fails(u)
    requires Fails(t)
    ensures TriggerLog(t, name).Err? && CollectLog(a + [t] + b, name) == TriggerLog(t, name)
  {
    assert CollectLog(a, name).Ok? by {
      CollectLogCrash(a, name);
    }
    assert TriggerLog(t, name).Err? by {
      TriggerMembers(t, name, LogEntry("", "", "", ""));
    }
    CrashAfterSuccess(a, t, b, name);
  }

  lemma CrashAfterSuccess(a: seq<Element>, t: Element, b: seq<Element>, name: string)
    requires Literal(name)
    requires CollectLog(a, name).Ok? && TriggerLog(t, name).Err?
    ensures CollectLog(a + [t] + b, name) == TriggerLog(t, name)
  {
    CollectLogAppend(a + [t], b, name);
    CollectLogAppend(a, [t], name);
    assert [t][..0] == [];
  }

  /** Every entry of a successful pass names the imported template, carries a
      non-empty expression that does not mention it, a dependent template
      without `:` or `{`, and comes from a trigger of the document. */
  lemma EntryFacts(root: Element, name: string, e: LogEntry)
    requires Literal(name)
    requires StripDependencies(root, name).Ok?
    requires e in StripDependencies(root, name).value.log
    ensures e.template == name
    ensures e.expression != "" && !Contains(e.expression, name + ":")
    ensures e.dependentTemplate == DependentTemplate(e.expression)
    ensures ':' !in e.dependentTemplate && '{' !in e.dependentTemplate
    ensures exists t :: t in FindAll(root, TriggerTag) && LoggedBy(t, name, e)
  {
    CollectLogMembers(FindAll(root, TriggerTag), name, e);
  }

  /** The whole pass: it succeeds exactly when no trigger fails, and its log is
      exactly the entries the triggers yield. */
  lemma PassLog(root: Element, name: string, e: LogEntry)
    requires Literal(name)
    ensures StripDependencies(root, name).Err? <==> exists t :: t in FindAll(root, TriggerTag) && Fails(t)
    ensures StripDependencies(root, name).Ok? ==>
              (e in StripDependencies(root, name).value.log <==> exists t :: t in FindAll(root, TriggerTag) && LoggedBy(t, name, e))
  {
    var ts := FindAll(root, TriggerTag);
    CollectLogCrash(ts, name);
    if CollectLog(ts, name).Ok? {
      CollectLogMembers(ts, name, e);
    }
  }
}
