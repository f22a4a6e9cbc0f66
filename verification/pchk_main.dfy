/** The filename scanner's loop over its directory operands. */
module PathCheck {
  import opened DirectoryWalk
  import opened WalkProperties

  /** A directory operand: the path as given and the entries below it. The
      operand's own name is never checked, only what it contains. */
  datatype Root = Root(path: string, entries: seq<Entry>)

  predicate RootsOk(roots: seq<Root>) {
    forall j :: 0 <= j < |roots| ==> EntriesOk(roots[j].entries)
  }

  /** Some operand holds a bad entry somewhere the walk looks. */
  predicate AnyBad(roots: seq<Root>, n: nat)
    requires RootsOk(roots) && n <= |roots|
  {
    exists j :: 0 <= j < n && SomeBad(Visited(roots[j].path, roots[j].entries))
  }

  /** Everything printed for the operands, one walk after the other. */
  function AllWalks(roots: seq<Root>): seq<Report>
    requires RootsOk(roots)
    decreases |roots|
  {
    if |roots| == 0 then []
    else
      var last := roots[|roots| - 1];
      AllWalks(roots[..|roots| - 1]) + Walk(last.path, last.entries)
  }

  /** Walk every operand with one shared exit status that starts at 0 and
      is only ever set to 1; it ends as 1 iff some operand holds an entry of
      another kind or a non-portable name where the walk looks. */
  method CheckTrees(roots: seq<Root>) returns (retval: int, out: seq<Report>)
    requires RootsOk(roots)
    ensures retval == 0 || retval == 1
    ensures retval == 1 <==> AnyBad(roots, |roots|)
    ensures out == AllWalks(roots)
  {
    retval := 0;
    out := [];
    for i := 0 to |roots|
      invariant retval == 0 || retval == 1
      invariant retval == 1 <==> AnyBad(roots, i)
      invariant out == AllWalks(roots[..i])
    {
      var r := roots[i];
      RecurSpec(r.path, r.entries, retval);
      retval := Recur(r.path, r.entries, retval);
      assert roots[..i + 1][..i] == roots[..i];
      out := out + Walk(r.path, r.entries);
      assert AnyBad(roots, i + 1) <==> AnyBad(roots, i) || SomeBad(Visited(r.path, r.entries)) by {
        if AnyBad(roots, i + 1) && !SomeBad(Visited(r.path, r.entries)) {
          var j :| 0 <= j < i + 1 && SomeBad(Visited(roots[j].path, roots[j].entries));
          assert j < i;
        }
      }
    }
    assert roots[..|roots|] == roots;
  }
}
