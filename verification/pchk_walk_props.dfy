/** What the directory walk promises: which entries it looks at, what it
    prints for them, and the exit status it leaves behind. */
module WalkProperties {
  import opened FilenameRules
  import opened DirectoryWalk

  /** Whether some visited entry in `vs` is bad. */
  lemma SomeBadAppend(a: seq<Visit>, b: seq<Visit>)
    requires NamesOk(a) && NamesOk(b)
    ensures SomeBad(a + b) <==> SomeBad(a) || SomeBad(b)
  {
    var ab := a + b;
    if SomeBad(ab) {
      var i :| 0 <= i < |ab| && Bad(ab[i]);
      if i >= |a| {
        assert b[i - |a|] == ab[i];
      }
    }
    if SomeBad(b) {
      var i :| 0 <= i < |b| && Bad(b[i]);
      assert ab[|a| + i] == b[i];
    }
    if SomeBad(a) {
      var i :| 0 <= i < |a| && Bad(a[i]);
      assert ab[i] == a[i];
    }
  }

  /** The exit status the walk leaves is 1 iff some visited entry is bad,
      and is otherwise the status it was handed: it only ever moves to 1. */
  lemma {:induction false} RecurSpec(dir: string, es: seq<Entry>, retval: int)
    requires EntriesOk(es)
    ensures Recur(dir, es, retval) == if SomeBad(Visited(dir, es)) then 1 else retval
    decreases es
  {
    if |es| > 0 {
      assert es[0] in es;
      assert forall e | e in es[1..] :: e in es;
      RecurEntrySpec(dir, es[0], retval);
      var rv1 := RecurEntry(dir, es[0], retval);
      RecurSpec(dir, es[1..], rv1);
      SomeBadAppend(VisitedEntry(dir, es[0]), Visited(dir, es[1..]));
    }
  }

  lemma {:induction false} RecurEntrySpec(dir: string, e: Entry, retval: int)
    requires EntryOk(e)
    ensures RecurEntry(dir, e, retval) == if SomeBad(VisitedEntry(dir, e)) then 1 else retval
    decreases e
  {
    if !Hidden(e.name) {
      var here := [Visit(dir, e)];
      assert SomeBad(here) <==> Bad(Visit(dir, e)) by {
        assert here[0] == Visit(dir, e);
      }
      match e.node
      case Dir(cs) =>
        var child := JoinPath(dir, e.name);
        RecurSpec(child, cs, retval);
        SomeBadAppend(Visited(child, cs), here);
      case Reg =>
        assert VisitedEntry(dir, e) == here;
      case Other =>
        assert VisitedEntry(dir, e) == here;
    }
  }

  /** What the walk prints for one visited entry. */
  function VisitReports(v: Visit): seq<Report>
    requires ValidName(v.entry.name)
  {
    (if v.entry.node.Other? then [Anomaly(v.entry.name)] else []) +
    NameReports(v.dir, v.entry.name)
  }

  /** The concatenation of a sequence of sequences. */
  function Flatten<T>(xss: seq<seq<T>>): seq<T>
    decreases |xss|
  {
    if |xss| == 0 then [] else xss[0] + Flatten(xss[1..])
  }

  lemma {:induction false} FlattenAppend<T>(a: seq<seq<T>>, b: seq<seq<T>>)
    ensures Flatten(a + b) == Flatten(a) + Flatten(b)
    decreases |a|
  {
    if |a| > 0 {
      assert (a + b)[1..] == a[1..] + b;
      FlattenAppend(a[1..], b);
    } else {
      assert a + b == b;
    }
  }

  lemma {:induction false} FlattenEmptyIff<T>(xss: seq<seq<T>>)
    ensures Flatten(xss) == [] <==> forall i :: 0 <= i < |xss| ==> xss[i] == []
    decreases |xss|
  {
    if |xss| > 0 {
      FlattenEmptyIff(xss[1..]);
      assert forall i :: 1 <= i < |xss| ==> xss[i] == xss[1..][i - 1];
    }
  }

  /** What the walk prints for each of the visits `vs`. */
  function PerVisit(vs: seq<Visit>): (rs: seq<seq<Report>>)
    requires NamesOk(vs)
    ensures |rs| == |vs|
    ensures forall i :: 0 <= i < |vs| ==> rs[i] == VisitReports(vs[i])
  {
    seq(|vs|, i requires 0 <= i < |vs| => VisitReports(vs[i]))
  }

  lemma PerVisitAppend(a: seq<Visit>, b: seq<Visit>)
    requires NamesOk(a) && NamesOk(b)
    ensures NamesOk(a + b)
    ensures PerVisit(a + b) == PerVisit(a) + PerVisit(b)
  {
  }

  /** What the walk prints for the visits `vs`, one visit after the other. */
  function ReportsOf(vs: seq<Visit>): seq<Report>
    requires NamesOk(vs)
  {
    Flatten(PerVisit(vs))
  }

  lemma ReportsOfAppend(a: seq<Visit>, b: seq<Visit>)
    requires NamesOk(a) && NamesOk(b)
    ensures NamesOk(a + b)
    ensures ReportsOf(a + b) == ReportsOf(a) + ReportsOf(b)
  {
    PerVisitAppend(a, b);
    FlattenAppend(PerVisit(a), PerVisit(b));
  }

  /** What is printed for a single visit. */
  lemma ReportsOfSingle(v: Visit)
    requires ValidName(v.entry.name)
    ensures NamesOk([v]) && ReportsOf([v]) == VisitReports(v)
  {
    var pv := PerVisit([v]);
    assert pv == [VisitReports(v)];
    assert pv[1..] == [];
    assert Flatten(pv) == pv[0] + Flatten(pv[1..]);
  }

  /** The walk prints, visit by visit in visiting order, an anomaly line for
      an entry of another kind and one line per rule its name breaks. */
  lemma {:induction false} WalkIsPerVisit(dir: string, es: seq<Entry>)
    requires EntriesOk(es)
    ensures Walk(dir, es) == ReportsOf(Visited(dir, es))
    decreases es
  {
    if |es| > 0 {
      assert es[0] in es;
      assert forall e | e in es[1..] :: e in es;
      WalkEntryIsPerVisit(dir, es[0]);
      WalkIsPerVisit(dir, es[1..]);
      ReportsOfAppend(VisitedEntry(dir, es[0]), Visited(dir, es[1..]));
    }
  }

  lemma {:induction false} WalkEntryIsPerVisit(dir: string, e: Entry)
    requires EntryOk(e)
    ensures WalkEntry(dir, e) == ReportsOf(VisitedEntry(dir, e))
    decreases e
  {
    if !Hidden(e.name) {
      var here := [Visit(dir, e)];
      ReportsOfSingle(Visit(dir, e));
      match e.node
      case Dir(cs) =>
        var child := JoinPath(dir, e.name);
        WalkIsPerVisit(child, cs);
        ReportsOfAppend(Visited(child, cs), here);
      case Reg =>
        assert VisitedEntry(dir, e) == here;
      case Other =>
        assert VisitedEntry(dir, e) == here;
    }
  }

  /** Nothing is printed for visits none of which is bad, and something is
      printed as soon as one is. */
  lemma ReportsOfEmptyIff(vs: seq<Visit>)
    requires NamesOk(vs)
    ensures ReportsOf(vs) == [] <==> !SomeBad(vs)
  {
    FlattenEmptyIff(PerVisit(vs));
    forall i | 0 <= i < |vs|
      ensures VisitReports(vs[i]) == [] <==> !Bad(vs[i])
    {
      assert vs[i] in vs;
    }
  }

  /** The walk prints something iff it leaves exit status 1 behind. */
  lemma PrintsIffFails(dir: string, es: seq<Entry>)
    requires EntriesOk(es)
    ensures Walk(dir, es) != [] <==> Recur(dir, es, 0) == 1
    ensures Recur(dir, es, 0) == 0 || Recur(dir, es, 0) == 1
  {
    WalkIsPerVisit(dir, es);
    ReportsOfEmptyIff(Visited(dir, es));
    RecurSpec(dir, es, 0);
  }

  /** Every entry whose name does not start with a period is visited, and
      so is everything the walk visits inside it. */
  lemma {:induction false} VisitedComplete(dir: string, es: seq<Entry>, i: nat)
    requires EntriesOk(es) && i < |es| && !Hidden(es[i].name)
    ensures Visit(dir, es[i]) in Visited(dir, es)
    ensures es[i].node.Dir? ==>
              assert es[i] in es && EntryOk(es[i]);
              forall v :: v in Visited(JoinPath(dir, es[i].name), es[i].node.entries) ==>
                v in Visited(dir, es)
    decreases es
  {
    assert es[0] in es;
    assert forall e | e in es[1..] :: e in es;
    assert es[i] in es;
    if i == 0 {
      assert VisitedEntry(dir, es[0]) <= Visited(dir, es);
    } else {
      assert es[1..][i - 1] == es[i];
      VisitedComplete(dir, es[1..], i - 1);
    }
  }

  /** An entry whose name starts with a period is neither checked nor
      descended into, however it is made. */
  lemma HiddenSkipped(dir: string, e: Entry, retval: int)
    requires EntryOk(e) && Hidden(e.name)
    ensures WalkEntry(dir, e) == [] && VisitedEntry(dir, e) == []
    ensures RecurEntry(dir, e, retval) == retval
  {
  }
}
