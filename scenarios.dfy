/**
 * Scenarios: a "Work" context holding extensions "a" and "b" and an empty
 * "Home" context, classified against three listings, and a client that builds
 * them through the manager's operations alone.
 */
module Scenarios {
  import opened Contexts
  import opened Statuses
  import opened Manager

  function Work(): Context { Context("Work", "work.png", None, [ExtensionRef("a"), ExtensionRef("b")]) }
  function Home(): Context { Context("Home", "home.png", None, []) }

  /** With only "a" enabled, Work is partial and Home enabled. */
  lemma OnlyAEnabled()
    ensures StatusOf(Work(), ActiveIds([ExtensionInfo("a", true), ExtensionInfo("b", false)])) == Partial
    ensures StatusOf(Home(), ActiveIds([ExtensionInfo("a", true), ExtensionInfo("b", false)])) == Enabled
  {
  }

  /** With "a" and "b" enabled, both contexts are enabled. */
  lemma BothEnabled()
    ensures StatusOf(Work(), ActiveIds([ExtensionInfo("a", true), ExtensionInfo("b", true)])) == Enabled
    ensures StatusOf(Home(), ActiveIds([ExtensionInfo("a", true), ExtensionInfo("b", true)])) == Enabled
  {
  }

  /** With nothing enabled, Work is disabled and Home still enabled. */
  lemma NothingEnabled()
    ensures StatusOf(Work(), ActiveIds([ExtensionInfo("a", false), ExtensionInfo("b", false)])) == Disabled
    ensures StatusOf(Home(), ActiveIds([ExtensionInfo("a", false), ExtensionInfo("b", false)])) == Enabled
  {
  }

  /** Adding a missing id to the only context of a list appends it to that context. */
  lemma AddToOnlyContext(c: Context, id: string)
    requires forall j :: 0 <= j < |c.extensions| ==> c.extensions[j].id != id
    ensures WithExtensionAdded([c], c.name, id) == [c.(extensions := c.extensions + [ExtensionRef(id)])]
  {
  }

  /** Builds Work and Home through the manager and checks lookups, saves and statuses. */
  method Client()
  {
    var m := new ContextsManager(None);
    var found := m.ContextExists("Work");
    assert !found;

    m.NewContext("Work", "work.png");
    assert |m.saves| == 1;
    var work := m.GetContext("Work");
    assert work == Some(EmptyContext("Work", "work.png"));

    ghost var e := EmptyContext("Work", "work.png");
    assert m.contextsList == [e];
    AddToOnlyContext(e, "a");
    assert e.extensions + [ExtensionRef("a")] == [ExtensionRef("a")];
    m.AddExtensionToContext(Named("Work"), "a");
    assert m.contextsList == [e.(extensions := [ExtensionRef("a")])];
    AddToOnlyContext(e.(extensions := [ExtensionRef("a")]), "b");
    assert e.(extensions := [ExtensionRef("a")] + [ExtensionRef("b")]) == Work();
    m.AddExtensionToContext(Named("Work"), "b");
    assert m.contextsList == [Work()];
    AddIdempotent([e.(extensions := [ExtensionRef("a")])], "Work", "b");
    m.AddExtensionToContext(Named("Work"), "b");
    assert m.contextsList == [Work()];
    m.NewContext("Home", "home.png");
    assert m.contextsList == [Work(), Home()];
    assert |m.saves| == 2;
    ReportAndRemove(m);
  }

  /** Reports the statuses of Work and Home, then removes "a" from Work. */
  method ReportAndRemove(m: ContextsManager)
    requires m.contextsList == [Work(), Home()]
    modifies m
  {
    Report(m);
    RemoveFromWork(m);
  }

  /** With only "a" enabled, the report gives Work as partial and Home as enabled. */
  method Report(m: ContextsManager)
    requires m.contextsList == [Work(), Home()]
  {
    var listing := [ExtensionInfo("a", true), ExtensionInfo("b", false)];
    var statuses := m.GetContextsListWithStatuses(listing);
    OnlyAEnabled();
    assert statuses[0].status == Partial && statuses[1].status == Enabled;
  }

  /** Removing "a" from Work leaves it out of Work; an unknown name holds nothing. */
  method RemoveFromWork(m: ContextsManager)
    requires m.contextsList == [Work(), Home()]
    modifies m
  {
    m.RemoveExtensionFromContext(Given(Work()), "a");
    var stillThere := m.IsInContext(Named("Work"), "a");
    assert !stillThere;
    var unknown := m.IsInContext(Named("Play"), "a");
    assert !unknown;
  }
}
