/** Worked examples of the content scanner on small files. */
module ScanExamples {
  import opened Bytes
  import opened Options
  import opened Scanner

  /** "\tfoo\n" as bytes. */
  const FirstLineBytes: seq<Byte> := [9, 102, 111, 111, 10]

  /** "\tfoo\n\t\t" as bytes. */
  const UpToSecondTab: seq<Byte> := [9, 102, 111, 111, 10, 9, 9]

  /** "\tfoo\n\t\tbar\n" as bytes. */
  const MakefileLike: seq<Byte> := [9, 102, 111, 111, 10, 9, 9, 98, 97, 114, 10]

  /** The tab reported on the second line of MakefileLike. */
  const SecondTabReport: Diagnostic := Control(2, 8, HT, "Horizontal Tabulation (HT)")

  /** Reading one more byte of a file. */
  lemma Append(policy: TabPolicy, asciiOnly: bool, p: seq<Byte>, b: Byte)
    ensures Run(p + [b]) == Advance(Run(p), b)
    ensures Diags(policy, asciiOnly, p + [b]) ==
              Diags(policy, asciiOnly, p) +
              Report(Run(p), b, Classify(policy, asciiOnly, Run(p), b))
  {
    assert (p + [b])[..|p|] == p;
  }

  /** The first line, "\tfoo\n": its leading tab passes. */
  lemma FirstLine()
    ensures Run(FirstLineBytes) == Cursor(2, 1, true, LF)
    ensures Diags(OneLeading, false, FirstLineBytes) == []
  {
    var p0: seq<Byte> := [];
    var p1 := p0 + [9];
    Append(OneLeading, false, p0, 9);
    assert Run(p1) == Cursor(1, 8, true, HT) && Diags(OneLeading, false, p1) == [];
    var p2 := p1 + [102];
    Append(OneLeading, false, p1, 102);
    assert Run(p2) == Cursor(1, 9, false, 102) && Diags(OneLeading, false, p2) == [];
    var p3 := p2 + [111];
    Append(OneLeading, false, p2, 111);
    assert Run(p3) == Cursor(1, 10, false, 111) && Diags(OneLeading, false, p3) == [];
    var p4 := p3 + [111];
    Append(OneLeading, false, p3, 111);
    assert Run(p4) == Cursor(1, 11, false, 111) && Diags(OneLeading, false, p4) == [];
    var p5 := p4 + [10];
    Append(OneLeading, false, p4, 10);
    assert p5 == FirstLineBytes;
  }

  /** The two tabs of the second line: the first passes and moves to column
      8, the second is reported there. */
  lemma SecondLineTabs()
    ensures Run(UpToSecondTab) == Cursor(2, 16, true, HT)
    ensures Diags(OneLeading, false, UpToSecondTab) == [SecondTabReport]
  {
    FirstLine();
    var p5 := FirstLineBytes;
    var p6 := p5 + [9];
    Append(OneLeading, false, p5, 9);
    assert Run(p6) == Cursor(2, 8, true, HT) && Diags(OneLeading, false, p6) == [];
    var p7 := p6 + [9];
    Append(OneLeading, false, p6, 9);
    assert p7 == UpToSecondTab;
  }

  /** Under OneLeading the first tab of each line passes and the second tab
      on line 2 is reported at column 8, where the first tab left the
      cursor; the file ends in a newline. */
  lemma OneLeadingExample()
    ensures FileReport(OneLeading, false, false, MakefileLike) == [SecondTabReport]
  {
    SecondLineTabs();
    var d := [SecondTabReport];
    var p7 := UpToSecondTab;
    var p8 := p7 + [98];
    Append(OneLeading, false, p7, 98);
    assert Run(p8) == Cursor(2, 17, false, 98) && Diags(OneLeading, false, p8) == d;
    var p9 := p8 + [97];
    Append(OneLeading, false, p8, 97);
    assert Run(p9) == Cursor(2, 18, false, 97) && Diags(OneLeading, false, p9) == d;
    var p10 := p9 + [114];
    Append(OneLeading, false, p9, 114);
    assert Run(p10) == Cursor(2, 19, false, 114) && Diags(OneLeading, false, p10) == d;
    var p11 := p10 + [10];
    Append(OneLeading, false, p10, 10);
    assert Run(p11).lastChar == LF && Diags(OneLeading, false, p11) == d;
    assert p11 == MakefileLike;
  }
}
