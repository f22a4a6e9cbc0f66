/** The content scanner's loop over files: the Makefile exception settled
    per file, the short-circuit scan used without -c and the collecting scan
    used with -c. */
module ContentCheck {
  import opened Bytes
  import opened Options
  import opened Scanner

  /** One file operand: its path as given, the basename of that path, and
      the bytes `getc` would deliver. */
  datatype InputFile = InputFile(path: string, basename: string, content: seq<Byte>)

  /** A diagnostic with the file it was printed for. */
  datatype Located = Located(path: string, diag: Diagnostic)

  function Locate(path: string, ds: seq<Diagnostic>): (ls: seq<Located>)
    ensures |ls| == |ds|
    ensures forall k :: 0 <= k < |ls| ==> ls[k] == Located(path, ds[k])
  {
    seq(|ds|, k requires 0 <= k < |ds| => Located(path, ds[k]))
  }

  /** What one file reports under the options, with its own effective tab
      policy. */
  function ReportOf(opts: Flags, f: InputFile): seq<Diagnostic>
    requires FromFlags(opts)
  {
    FileReport(EffectivePolicy(opts, f.basename), opts.asciiOnly, opts.noFinalNewline, f.content)
  }

  /** Everything printed under -c for the files, in order. */
  function AllReports(opts: Flags, files: seq<InputFile>): seq<Located>
    requires FromFlags(opts)
    decreases |files|
  {
    if |files| == 0 then []
    else
      var f := files[|files| - 1];
      AllReports(opts, files[..|files| - 1]) + Locate(f.path, ReportOf(opts, f))
  }

  lemma AllReportsStep(opts: Flags, files: seq<InputFile>, i: nat)
    requires FromFlags(opts) && i < |files|
    ensures AllReports(opts, files[..i + 1]) ==
              AllReports(opts, files[..i]) + Locate(files[i].path, ReportOf(opts, files[i]))
  {
    assert files[..i + 1][..i] == files[..i];
  }

  /** A file fails when it reports anything at all. */
  predicate Fails(opts: Flags, f: InputFile)
    requires FromFlags(opts)
  {
    ReportOf(opts, f) != []
  }

  /** Some file among the first `n` fails. */
  predicate SomeFails(opts: Flags, files: seq<InputFile>, n: nat)
    requires FromFlags(opts) && n <= |files|
  {
    exists j :: 0 <= j < n && Fails(opts, files[j])
  }

  lemma SomeFailsStep(opts: Flags, files: seq<InputFile>, i: nat)
    requires FromFlags(opts) && i < |files|
    ensures SomeFails(opts, files, i + 1) <==> SomeFails(opts, files, i) || Fails(opts, files[i])
  {
    if SomeFails(opts, files, i + 1) && !Fails(opts, files[i]) {
      var j :| 0 <= j < i + 1 && Fails(opts, files[j]);
      assert j < i;
    }
  }

  lemma SomeFailsWitness(opts: Flags, files: seq<InputFile>, i: nat)
    requires FromFlags(opts) && i < |files| && Fails(opts, files[i])
    ensures SomeFails(opts, files, |files|)
  {
  }

  /** The scan without -c: stop at the first offending byte. The verdict is
      the one the collecting scan of the same file would give. */
  method ScanToFirstOffense(policy: TabPolicy, asciiOnly: bool, allowNoNewline: bool, s: seq<Byte>)
    returns (failed: bool)
    ensures failed <==> FileReport(policy, asciiOnly, allowNoNewline, s) != []
  {
    var c := Start();
    var i := 0;
    while i < |s|
      invariant 0 <= i <= |s|
      invariant c == Run(s[..i])
      invariant Diags(policy, asciiOnly, s[..i]) == []
    {
      assert s[..i + 1][..i] == s[..i];
      if Classify(policy, asciiOnly, c, s[i]) != NoOffense {
        assert Diags(policy, asciiOnly, s[..i + 1]) != [];
        DiagsOfPrefix(policy, asciiOnly, s, i + 1);
        return true;
      }
      c := Advance(c, s[i]);
      i := i + 1;
    }
    assert s[..i] == s;
    failed := c.lastChar != LF && !allowNoNewline;
  }

  /** The scan with -c: read the whole file and collect every diagnostic.
      The return value only ever moves from 0 to 1. */
  method ScanCollecting(policy: TabPolicy, asciiOnly: bool, allowNoNewline: bool, s: seq<Byte>, rvIn: int)
    returns (rv: int, out: seq<Diagnostic>)
    ensures out == FileReport(policy, asciiOnly, allowNoNewline, s)
    ensures rv == (if out != [] then 1 else rvIn)
  {
    var c := Start();
    var i := 0;
    rv := rvIn;
    out := [];
    while i < |s|
      invariant 0 <= i <= |s|
      invariant c == Run(s[..i])
      invariant out == Diags(policy, asciiOnly, s[..i])
      invariant rv == (if out != [] then 1 else rvIn)
    {
      assert s[..i + 1][..i] == s[..i];
      var o := Classify(policy, asciiOnly, c, s[i]);
      if o != NoOffense {
        out := out + Report(c, s[i], o);
        rv := 1;
      }
      c := Advance(c, s[i]);
      i := i + 1;
    }
    assert s[..i] == s;
    if c.lastChar != LF && !allowNoNewline {
      rv := 1;
      out := out + [NoFinalNewline(c.line, c.pos)];
    }
  }

  /** One pass of the loop over file operands. Under -m, with no -t or -T,
      a Makefile switches the tab policy to OneLeading for this file only;
      the switch is undone afterwards. Without -c an offense ends the run
      (`stop`); with -c the diagnostics are collected. */
  method CheckOneFile(opts: Flags, allowHtIn: TabPolicy, f: InputFile, rvIn: int)
    returns (allowHt: TabPolicy, rv: int, ds: seq<Diagnostic>, stop: bool)
    requires FromFlags(opts) && allowHtIn == opts.tabs
    ensures !stop ==> allowHt == opts.tabs
    ensures opts.continueAll ==>
              !stop && ds == ReportOf(opts, f) && rv == (if ds != [] then 1 else rvIn)
    ensures !opts.continueAll ==> ds == [] && rv == rvIn && (stop <==> Fails(opts, f))
  {
    allowHt := allowHtIn;
    if opts.makefileTabs && allowHt == Never {
      if IsMakefileName(f.basename) {
        allowHt := OneLeading;
      }
    }
    assert allowHt == EffectivePolicy(opts, f.basename);
    rv, ds, stop := rvIn, [], false;
    if opts.continueAll {
      rv, ds := ScanCollecting(allowHt, opts.asciiOnly, opts.noFinalNewline, f.content, rvIn);
    } else {
      stop := ScanToFirstOffense(allowHt, opts.asciiOnly, opts.noFinalNewline, f.content);
      if stop {
        return;
      }
    }
    if opts.makefileTabs && allowHt == OneLeading {
      allowHt := Never;
    }
  }

  /** The loop over file operands. Every file starts from the flags' own
      tab policy. Without -c the run ends at the first failing file; with
      -c every file is scanned and every diagnostic printed. Either way the
      exit status is 1 iff some file fails. */
  method CheckFiles(opts: Flags, files: seq<InputFile>) returns (rv: int, out: seq<Located>)
    requires FromFlags(opts)
    ensures rv == 0 || rv == 1
    ensures rv == 1 <==> SomeFails(opts, files, |files|)
    ensures opts.continueAll ==> out == AllReports(opts, files)
    ensures !opts.continueAll ==> out == []
  {
    var allowHt := opts.tabs;
    rv := 0;
    out := [];
    for i := 0 to |files|
      invariant allowHt == opts.tabs
      invariant rv == 0 || rv == 1
      invariant rv == 1 <==> SomeFails(opts, files, i)
      invariant opts.continueAll ==> out == AllReports(opts, files[..i])
      invariant !opts.continueAll ==> out == [] && rv == 0
    {
      SomeFailsStep(opts, files, i);
      var ds, stop;
      allowHt, rv, ds, stop := CheckOneFile(opts, allowHt, files[i], rv);
      if stop {
        SomeFailsWitness(opts, files, i);
        return 1, [];
      }
      if opts.continueAll {
        AllReportsStep(opts, files, i);
        out := out + Locate(files[i].path, ds);
      }
    }
    assert files[..|files|] == files;
  }
}
