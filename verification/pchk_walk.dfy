/** The recursive walk over a directory tree, over an in-memory tree in
    place of `opendir`/`readdir_r`. */
module DirectoryWalk {
  import opened FilenameRules

  /** What `d_type` says an entry is: a directory with its entries, a regular
      file, or anything else (symbolic link, socket, device, ...). */
  datatype Node = Dir(entries: seq<Entry>) | Reg | Other

  /** One directory entry: its name and what it is. */
  datatype Entry = Entry(name: string, node: Node)

  /** Every name in the tree is one `readdir` could return. */
  predicate EntriesOk(es: seq<Entry>)
    decreases es
  {
    forall e | e in es :: EntryOk(e)
  }

  predicate EntryOk(e: Entry)
    decreases e
  {
    ValidName(e.name) && (e.node.Dir? ==> EntriesOk(e.node.entries))
  }

  /** Entries whose name starts with a period are skipped: `.`, `..` and
      every other dot-file or dot-directory. */
  predicate Hidden(name: string) {
    |name| > 0 && name[0] == '.'
  }

  /** The path of a subdirectory: parent, "/", name. */
  function JoinPath(dir: string, name: string): string {
    dir + "/" + name
  }

  /** One line the walk prints to standard error: an entry that is neither a
      regular file nor a directory (printed with its bare name), or one rule
      broken by an entry's name (printed with its directory). */
  datatype Report =
    | Anomaly(name: string)
    | NameReport(dir: string, name: string, v: Violation)

  function NameReports(dir: string, name: string): (rs: seq<Report>)
    requires ValidName(name)
    ensures |rs| == |Violations(name)|
    ensures forall k :: 0 <= k < |rs| ==> rs[k] == NameReport(dir, name, Violations(name)[k])
  {
    var vs := Violations(name);
    seq(|vs|, k requires 0 <= k < |vs| => NameReport(dir, name, vs[k]))
  }

  /** What the walk prints for the entries `es` of directory `dir`, in
      order. A subdirectory is descended into before its own name is
      checked. */
  function Walk(dir: string, es: seq<Entry>): seq<Report>
    requires EntriesOk(es)
    decreases es
  {
    if |es| == 0 then []
    else WalkEntry(dir, es[0]) + Walk(dir, es[1..])
  }

  function WalkEntry(dir: string, e: Entry): seq<Report>
    requires EntryOk(e)
    decreases e
  {
    if Hidden(e.name) then []
    else
      var own := match e.node
        case Dir(cs) => Walk(JoinPath(dir, e.name), cs)
        case Reg => []
        case Other => [Anomaly(e.name)];
      own + NameReports(dir, e.name)
  }

  /** The exit status the walk leaves in `retval`, threaded through the
      entries as the source does: only ever set to 1, for an entry of another
      kind or a name the rule engine reports on. */
  function Recur(dir: string, es: seq<Entry>, retval: int): int
    requires EntriesOk(es)
    decreases es
  {
    if |es| == 0 then retval
    else Recur(dir, es[1..], RecurEntry(dir, es[0], retval))
  }

  function RecurEntry(dir: string, e: Entry, retval: int): int
    requires EntryOk(e)
    decreases e
  {
    if Hidden(e.name) then retval
    else
      var afterKind := match e.node
        case Dir(cs) => Recur(JoinPath(dir, e.name), cs, retval)
        case Reg => retval
        case Other => 1;
      if Violations(e.name) != [] then 1 else afterKind
  }

  /** An entry the walk looks at, with the directory it was found in. */
  datatype Visit = Visit(dir: string, entry: Entry)

  /** A directory `d` at or below `dir`. */
  predicate AtOrBelow(d: string, dir: string) {
    d == dir || (|d| > |dir| + 1 && d[..|dir| + 1] == dir + "/")
  }

  /** An independent account of which entries the walk looks at, in the
      order it looks at them: every entry not hidden, subdirectories'
      contents first. */
  function Visited(dir: string, es: seq<Entry>): (vs: seq<Visit>)
    requires EntriesOk(es)
    ensures NamesOk(vs)
    ensures forall v :: v in vs ==> !Hidden(v.entry.name)
    ensures forall v :: v in vs ==> AtOrBelow(v.dir, dir)
    decreases es
  {
    if |es| == 0 then []
    else VisitedEntry(dir, es[0]) + Visited(dir, es[1..])
  }

  function VisitedEntry(dir: string, e: Entry): (vs: seq<Visit>)
    requires EntryOk(e)
    ensures NamesOk(vs)
    ensures forall v :: v in vs ==> !Hidden(v.entry.name)
    ensures forall v :: v in vs ==> AtOrBelow(v.dir, dir)
    decreases e
  {
    if Hidden(e.name) then []
    else
      var inside := match e.node
        case Dir(cs) => Visited(JoinPath(dir, e.name), cs)
        case _ => [];
      inside + [Visit(dir, e)]
  }

  /** Every visit carries a name `readdir` could return. */
  predicate NamesOk(vs: seq<Visit>) {
    forall v :: v in vs ==> ValidName(v.entry.name)
  }

  /** A visited entry the walk complains about. */
  predicate Bad(v: Visit)
    requires ValidName(v.entry.name)
  {
    v.entry.node.Other? || Violations(v.entry.name) != []
  }

  predicate SomeBad(vs: seq<Visit>)
    requires NamesOk(vs)
  {
    exists i :: 0 <= i < |vs| && Bad(vs[i])
  }
}
