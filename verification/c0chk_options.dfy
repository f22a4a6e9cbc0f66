/** The content scanner's options: the tab policy, how the command-line
    flags settle it, and the per-file Makefile exception. */
module Options {

  /** How horizontal tabs are treated (`enum e_allow_ht`). */
  datatype TabPolicy =
    | Never       // the default: every tab is an offense
    | OneLeading  // -m on a Makefile: a tab only at the very start of a line
    | Leading     // -t: any run of tabs at the start of a line
    | All         // -T: tabs are never an offense

  datatype Option<T> = None | Some(value: T)

  /** The settings the flags leave behind: `-a`, `-c`, `-m`, `-n` and the tab
      policy that `-t` and `-T` select. */
  datatype Flags = Flags(
    asciiOnly: bool,        // -a
    continueAll: bool,      // -c
    makefileTabs: bool,     // -m
    noFinalNewline: bool,   // -n
    tabs: TabPolicy)        // -t / -T

  /** The settings before any flag is read. */
  const NoFlags: Flags := Flags(false, false, false, false, Never)

  /** The flag letters the scanner accepts besides `-h`. */
  const FlagLetters: string := "acmnTt"

  /** Every letter is one the option switch accepts. */
  predicate Accepted(flags: string) {
    forall i :: 0 <= i < |flags| ==> flags[i] in FlagLetters
  }

  /** One pass of the option switch: each accepted letter sets its setting,
      `-T` sets All, `-t` sets Leading unless All is already set; `-h` and
      any other letter end in the usage message (None). */
  function ApplyFlag(f: Flags, ch: char): Option<Flags> {
    match ch
    case 'a' => Some(f.(asciiOnly := true))
    case 'c' => Some(f.(continueAll := true))
    case 'm' => Some(f.(makefileTabs := true))
    case 'n' => Some(f.(noFinalNewline := true))
    case 'T' => Some(f.(tabs := All))
    case 't' => Some(if f.tabs != All then f.(tabs := Leading) else f)
    case _ => None
  }

  /** The option loop over the letters `getopt` hands over, in order. It
      reaches the end iff every letter is accepted; each boolean setting is
      on iff its letter occurs, and the tab policy is decided by which of
      `-T` and `-t` occur, wherever they stand. */
  function ParseFlags(flags: string): (r: Option<Flags>)
    ensures r.Some? <==> Accepted(flags)
    ensures r.Some? ==> r.value.asciiOnly == ('a' in flags)
    ensures r.Some? ==> r.value.continueAll == ('c' in flags)
    ensures r.Some? ==> r.value.makefileTabs == ('m' in flags)
    ensures r.Some? ==> r.value.noFinalNewline == ('n' in flags)
    ensures r.Some? ==> (r.value.tabs == All <==> 'T' in flags)
    ensures r.Some? ==> (r.value.tabs == Leading <==> 'T' !in flags && 't' in flags)
    ensures r.Some? ==> (r.value.tabs == Never <==> 'T' !in flags && 't' !in flags)
    decreases |flags|
  {
    if |flags| == 0 then Some(NoFlags)
    else
      var p := flags[..|flags| - 1];
      var ch := flags[|flags| - 1];
      AcceptedStep(flags);
      OccursStep(flags, 'a');
      OccursStep(flags, 'c');
      OccursStep(flags, 'm');
      OccursStep(flags, 'n');
      OccursStep(flags, 'T');
      OccursStep(flags, 't');
      match ParseFlags(p)
      case None => None
      case Some(f) => ApplyFlag(f, ch)
  }

  /** Options the flags can produce: no flag selects OneLeading, which only
      the Makefile exception sets, for one file at a time. */
  predicate FromFlags(opts: Flags) {
    opts.tabs != OneLeading
  }

  /** The basenames the -m exception applies to, compared case-sensitively. */
  const MakefileNames: seq<string> := ["GNUmakefile", "makefile", "Makefile"]

  predicate IsMakefileName(basename: string) {
    basename in MakefileNames
  }

  /** The tab policy in force while one file is scanned: OneLeading when -m
      is given, no -t or -T was, and the file's basename is a Makefile
      name; the flags' own policy otherwise. */
  function EffectivePolicy(opts: Flags, basename: string): (p: TabPolicy)
    requires FromFlags(opts)
    ensures p == OneLeading <==>
              opts.makefileTabs && opts.tabs == Never && IsMakefileName(basename)
    ensures p != OneLeading ==> p == opts.tabs
  {
    if opts.makefileTabs && opts.tabs == Never && IsMakefileName(basename)
    then OneLeading
    else opts.tabs
  }

  /** The flags are all accepted iff those before the last are and the
      last is. */
  lemma AcceptedStep(flags: string)
    requires |flags| > 0
    ensures Accepted(flags) <==>
              Accepted(flags[..|flags| - 1]) && flags[|flags| - 1] in FlagLetters
  {
    assert forall i :: 0 <= i < |flags| - 1 ==> flags[..|flags| - 1][i] == flags[i];
  }

  /** A letter occurs in the flags iff it occurs before the last one or is
      the last one. */
  lemma OccursStep(flags: string, x: char)
    requires |flags| > 0
    ensures x in flags <==> x in flags[..|flags| - 1] || x == flags[|flags| - 1]
  {
    assert flags == flags[..|flags| - 1] + [flags[|flags| - 1]];
  }

  /** -T wins over -t in either order, and every parse the flags can reach
      is one FromFlags admits. */
  lemma CapitalTWins(before: string, after: string)
    ensures ParseFlags(before + "T" + after).Some? ==>
              ParseFlags(before + "T" + after).value.tabs == All
    ensures ParseFlags(before + "t" + after).Some? ==>
              (ParseFlags(before + "t" + after).value.tabs == All <==> 'T' in before + after)
  {
    assert 'T' in before + "T" + after by {
      assert (before + "T" + after)[|before|] == 'T';
    }
    assert 't' in before + "t" + after by {
      assert (before + "t" + after)[|before|] == 't';
    }
    assert 'T' in before + "t" + after <==> 'T' in before + after by {
      assert 'T' in before + "t" + after <==> 'T' in before || 'T' in after;
    }
  }

  /** The option loop never selects OneLeading: that policy is set only by
      the Makefile exception, for one file at a time. */
  lemma ParsedFromFlags(flags: string)
    ensures ParseFlags(flags).Some? ==> FromFlags(ParseFlags(flags).value)
  {
  }

  /** Only the three exact basenames qualify. */
  lemma MakefileNameExamples()
    ensures IsMakefileName("Makefile") && IsMakefileName("makefile")
    ensures IsMakefileName("GNUmakefile")
    ensures !IsMakefileName("MAKEFILE") && !IsMakefileName("Makefile.am")
    ensures !IsMakefileName("gnumakefile")
  {
  }
}
