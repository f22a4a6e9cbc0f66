/** The content scanner's per-byte state machine: how one byte is classified,
    how the cursor advances, and what a whole file reports. */
module Scanner {
  import opened Bytes
  import opened ControlNames
  import opened Options

  /** The class a byte falls in (`enum e_offense`). */
  datatype Offense = NoOffense | C0 | EightBit

  /** What the scanner remembers between bytes of one file. `pos` is the
      1-based column, tab-stop aware; `leadingTabOk` holds while the current
      line has shown nothing but tabs. */
  datatype Cursor = Cursor(line: nat, pos: nat, leadingTabOk: bool, lastChar: Byte)

  /** One printed diagnostic, without the file name. */
  datatype Diagnostic =
    | Control(line: nat, pos: nat, ch: Byte, name: string)
    | NotAscii(line: nat, pos: nat, ch: Byte)
    | NoFinalNewline(line: nat, pos: nat)

  /** The cursor at the start of every file. `lastChar` starts as a newline
      so that an empty file counts as ending in one. */
  function Start(): Cursor {
    Cursor(1, 1, true, LF)
  }

  /** Where a tab moves the column: the smallest multiple of 8 strictly
      beyond it (so a tab at column 1 lands on 8, one at 8 on 16). */
  function NextTabStop(pos: nat): (next: nat)
    ensures pos < next <= pos + 8
    ensures next % 8 == 0
  {
    pos + (8 - pos % 8)
  }

  /** Whether a tab read at cursor `c` is an offense under `policy`. */
  predicate TabOffends(policy: TabPolicy, c: Cursor) {
    match policy
    case Never => true
    case OneLeading => c.pos != 1
    case Leading => !c.leadingTabOk
    case All => false
  }

  /** The classification of one byte, tried in the source's order: tab, then
      newline, then the other controls, then 8-bit bytes. */
  function Classify(policy: TabPolicy, asciiOnly: bool, c: Cursor, ch: Byte): (o: Offense)
    ensures ch == LF ==> o == NoOffense
    ensures IsControl(ch) && ch != HT && ch != LF ==> o == C0
    ensures IsPrintable(ch) ==> o == NoOffense
    ensures IsEightBit(ch) ==> o != C0 && (o == EightBit <==> asciiOnly)
    ensures ch == HT ==> o != EightBit && (o == C0 <==> TabOffends(policy, c))
  {
    if ch == HT then
      if TabOffends(policy, c) then C0 else NoOffense
    else if ch == LF then
      NoOffense
    else if ch <= 31 || ch == 127 then
      C0
    else if asciiOnly && !(0 <= ch <= 127) then
      EightBit
    else
      NoOffense
  }

  /** The cursor after reading `ch`: a tab jumps to the next tab stop, a
      newline starts the next line, anything else moves one column on and
      ends the run of leading tabs. */
  function Advance(c: Cursor, ch: Byte): Cursor {
    if ch == HT then
      c.(pos := NextTabStop(c.pos), lastChar := ch)
    else if ch == LF then
      Cursor(c.line + 1, 1, true, ch)
    else
      c.(pos := c.pos + 1, leadingTabOk := false, lastChar := ch)
  }

  /** The cursor after reading all of `s` from the start of a file. */
  function Run(s: seq<Byte>): Cursor
    decreases |s|
  {
    if |s| == 0 then Start() else Advance(Run(s[..|s| - 1]), s[|s| - 1])
  }

  /** The bytes of `s` after its last newline: the line being read. */
  function CurrentLine(s: seq<Byte>): (t: seq<Byte>)
    ensures |t| <= |s| && t == s[|s| - |t|..]
    ensures LF !in t
    ensures |t| < |s| ==> s[|s| - |t| - 1] == LF
    decreases |s|
  {
    if |s| == 0 then []
    else if s[|s| - 1] == LF then []
    else
      var p := s[..|s| - 1];
      var r := CurrentLine(p);
      assert s[|s| - |r| - 1..] == p[|p| - |r|..] + [s[|s| - 1]];
      assert |r| < |p| ==> s[|s| - |r| - 2] == p[|p| - |r| - 1];
      r + [s[|s| - 1]]
  }

  /** The tab-stop aware column reached after reading the newline-free
      line `t` from column 1. */
  function Column(t: seq<Byte>): (col: nat)
    ensures col >= 1
    ensures col == 1 <==> |t| == 0
    decreases |t|
  {
    if |t| == 0 then 1
    else
      var before := Column(t[..|t| - 1]);
      if t[|t| - 1] == HT then NextTabStop(before) else before + 1
  }

  /** The line number is one more than the newlines read so far. */
  lemma {:induction false} LineCountsNewlines(s: seq<Byte>)
    ensures Run(s).line == 1 + multiset(s)[LF]
    decreases |s|
  {
    if |s| > 0 {
      var p := s[..|s| - 1];
      assert s == p + [s[|s| - 1]];
      LineCountsNewlines(p);
      var before: multiset<Byte> := multiset(p);
      assert multiset(s) == before + multiset{s[|s| - 1]};
    }
  }

  /** The column depends on the current line alone. */
  lemma {:induction false} PosIsColumnOfCurrentLine(s: seq<Byte>)
    ensures Run(s).pos == Column(CurrentLine(s))
    decreases |s|
  {
    if |s| > 0 {
      var p := s[..|s| - 1];
      var ch := s[|s| - 1];
      assert Run(s) == Advance(Run(p), ch);
      if ch != LF {
        PosIsColumnOfCurrentLine(p);
        ColumnStep(CurrentLine(p), ch);
        assert CurrentLine(s) == CurrentLine(p) + [ch];
      }
    }
  }

  /** Reading one more non-newline byte moves the column as a tab or as an
      ordinary byte does. */
  lemma ColumnStep(t: seq<Byte>, ch: Byte)
    ensures Column(t + [ch]) ==
              if ch == HT then NextTabStop(Column(t)) else Column(t) + 1
  {
    assert (t + [ch])[..|t|] == t;
  }

  /** A stretch of bytes made of tabs only. */
  predicate OnlyTabs(t: seq<Byte>) {
    forall i :: 0 <= i < |t| ==> t[i] == HT
  }

  lemma OnlyTabsAppend(t: seq<Byte>, ch: Byte)
    ensures OnlyTabs(t + [ch]) <==> OnlyTabs(t) && ch == HT
  {
    assert (t + [ch])[|t|] == ch;
    assert forall i :: 0 <= i < |t| ==> (t + [ch])[i] == t[i];
  }

  /** Leading tabs stay allowed exactly while the current line holds only
      tabs. */
  lemma {:induction false} LeadingTabOkIffOnlyTabs(s: seq<Byte>)
    ensures Run(s).leadingTabOk <==> OnlyTabs(CurrentLine(s))
    decreases |s|
  {
    if |s| > 0 && s[|s| - 1] != LF {
      var p := s[..|s| - 1];
      LeadingTabOkIffOnlyTabs(p);
      OnlyTabsAppend(CurrentLine(p), s[|s| - 1]);
    }
  }

  /** The cursor's meaning after any prefix of a file: the line is one more
      than the newlines read, the column is that of the current line alone
      (so it is 1 exactly at a line start), leading tabs are still allowed
      exactly while the current line holds only tabs, and the last byte is
      remembered (a newline before anything is read). */
  lemma {:induction false} CursorInvariant(s: seq<Byte>)
    ensures Run(s).line == 1 + multiset(s)[LF]
    ensures Run(s).pos == Column(CurrentLine(s))
    ensures Run(s).pos >= 1
    ensures Run(s).pos == 1 <==> |s| == 0 || s[|s| - 1] == LF
    ensures Run(s).leadingTabOk <==> OnlyTabs(CurrentLine(s))
    ensures Run(s).lastChar == if |s| == 0 then LF else s[|s| - 1]
  {
    LineCountsNewlines(s);
    PosIsColumnOfCurrentLine(s);
    LeadingTabOkIffOnlyTabs(s);
    if |s| > 0 {
      var p := s[..|s| - 1];
      assert Run(s) == Advance(Run(p), s[|s| - 1]);
      if s[|s| - 1] != LF {
        assert CurrentLine(s) == CurrentLine(p) + [s[|s| - 1]];
      }
    }
  }

  /** An independent statement of when a byte is an offense, phrased over
      the bytes read before it rather than over the cursor. */
  predicate Disallowed(policy: TabPolicy, asciiOnly: bool, before: seq<Byte>, ch: Byte) {
    if ch == HT then
      match policy
      case Never => true
      case OneLeading => |before| > 0 && before[|before| - 1] != LF
      case Leading => !OnlyTabs(CurrentLine(before))
      case All => false
    else
      (IsControl(ch) && ch != LF) || (IsEightBit(ch) && asciiOnly)
  }

  /** The state machine flags a byte exactly when the reference says it is
      disallowed: a tab under OneLeading iff it is not the first byte of its
      line, under Leading iff a non-tab, non-newline byte already appeared
      on its line. */
  lemma ClassifyMatchesReference(policy: TabPolicy, asciiOnly: bool, before: seq<Byte>, ch: Byte)
    ensures Classify(policy, asciiOnly, Run(before), ch) != NoOffense <==>
              Disallowed(policy, asciiOnly, before, ch)
  {
    CursorInvariant(before);
  }

  /** The diagnostic for an offending byte `ch` read at cursor `c`. */
  function Report(c: Cursor, ch: Byte, o: Offense): seq<Diagnostic> {
    match o
    case NoOffense => []
    case C0 => [Control(c.line, c.pos, ch, Xlat(ch))]
    case EightBit => [NotAscii(c.line, c.pos, ch)]
  }

  /** The diagnostics for the bytes of `s`, in order, as printed under -c. */
  function Diags(policy: TabPolicy, asciiOnly: bool, s: seq<Byte>): seq<Diagnostic>
    decreases |s|
  {
    if |s| == 0 then []
    else
      var p := s[..|s| - 1];
      var c := Run(p);
      Diags(policy, asciiOnly, p) + Report(c, s[|s| - 1], Classify(policy, asciiOnly, c, s[|s| - 1]))
  }

  /** The end-of-file check: unless -n was given, the last byte read must be
      a newline; a failure is reported at the final cursor position. */
  function EndCheck(allowNoNewline: bool, c: Cursor): seq<Diagnostic> {
    if c.lastChar != LF && !allowNoNewline then [NoFinalNewline(c.line, c.pos)] else []
  }

  /** Everything the scanner reports for one file under -c. */
  function FileReport(policy: TabPolicy, asciiOnly: bool, allowNoNewline: bool, s: seq<Byte>): seq<Diagnostic> {
    Diags(policy, asciiOnly, s) + EndCheck(allowNoNewline, Run(s))
  }

  /** The positions of `s` holding a disallowed byte, in increasing order. */
  function OffendingIndices(policy: TabPolicy, asciiOnly: bool, s: seq<Byte>): (idx: seq<nat>)
    ensures forall k :: 0 <= k < |idx| ==> idx[k] < |s|
    ensures forall k, l :: 0 <= k < l < |idx| ==> idx[k] < idx[l]
    ensures forall i :: 0 <= i < |s| ==>
              (i in idx <==> Disallowed(policy, asciiOnly, s[..i], s[i]))
    decreases |s|
  {
    if |s| == 0 then []
    else
      var p := s[..|s| - 1];
      var rest := OffendingIndices(policy, asciiOnly, p);
      assert forall i :: 0 <= i < |p| ==> p[..i] == s[..i] && p[i] == s[i];
      if Disallowed(policy, asciiOnly, p, s[|s| - 1]) then rest + [|s| - 1] else rest
  }

  /** The diagnostic the byte at position `i` gets if it offends: the cursor
      is the one held BEFORE that byte is read. */
  function DiagAt(s: seq<Byte>, i: nat): Diagnostic
    requires i < |s|
  {
    var c := Run(s[..i]);
    if IsEightBit(s[i]) then NotAscii(c.line, c.pos, s[i])
    else Control(c.line, c.pos, s[i], Xlat(s[i]))
  }

  /** One step of -c reporting: the last byte adds its diagnostic exactly
      when the reference calls it disallowed. */
  lemma DiagsStep(policy: TabPolicy, asciiOnly: bool, s: seq<Byte>)
    requires |s| > 0
    ensures Diags(policy, asciiOnly, s) ==
              Diags(policy, asciiOnly, s[..|s| - 1]) +
              (if Disallowed(policy, asciiOnly, s[..|s| - 1], s[|s| - 1])
               then [DiagAt(s, |s| - 1)] else [])
  {
    ClassifyMatchesReference(policy, asciiOnly, s[..|s| - 1], s[|s| - 1]);
  }

  /** The diagnostic a byte would get does not depend on what follows it. */
  lemma DiagAtOfPrefix(s: seq<Byte>, i: nat)
    requires i < |s| - 1
    ensures DiagAt(s[..|s| - 1], i) == DiagAt(s, i)
  {
    assert s[..|s| - 1][..i] == s[..i];
  }

  /** `ds` lists the diagnostics for the positions `idx` of `s`, in order. */
  predicate ReportsAt(ds: seq<Diagnostic>, idx: seq<nat>, s: seq<Byte>) {
    |ds| == |idx| &&
    forall k :: 0 <= k < |ds| ==> idx[k] < |s| && ds[k] == DiagAt(s, idx[k])
  }

  /** Reports about a prefix stay true of the whole file. */
  lemma ReportsAtExtend(ds: seq<Diagnostic>, idx: seq<nat>, s: seq<Byte>)
    requires |s| > 0
    requires ReportsAt(ds, idx, s[..|s| - 1])
    ensures ReportsAt(ds, idx, s)
  {
    forall k | 0 <= k < |ds|
      ensures ds[k] == DiagAt(s, idx[k])
    {
      DiagAtOfPrefix(s, idx[k]);
    }
  }

  /** Under -c the scanner reports exactly one diagnostic per disallowed
      byte, in stream order, each at the position held before that byte. */
  lemma {:induction false} DiagsMatchReference(policy: TabPolicy, asciiOnly: bool, s: seq<Byte>)
    ensures ReportsAt(Diags(policy, asciiOnly, s), OffendingIndices(policy, asciiOnly, s), s)
    decreases |s|
  {
    if |s| > 0 {
      var p := s[..|s| - 1];
      DiagsMatchReference(policy, asciiOnly, p);
      DiagsStep(policy, asciiOnly, s);
      OffendingIndicesStep(policy, asciiOnly, s);
      ReportsAtStep(Diags(policy, asciiOnly, p), OffendingIndices(policy, asciiOnly, p), s,
                    Disallowed(policy, asciiOnly, p, s[|s| - 1]));
    }
  }

  /** One step of the reference: the last position joins the offending
      indices exactly when its byte is disallowed. */
  lemma OffendingIndicesStep(policy: TabPolicy, asciiOnly: bool, s: seq<Byte>)
    requires |s| > 0
    ensures OffendingIndices(policy, asciiOnly, s) ==
              OffendingIndices(policy, asciiOnly, s[..|s| - 1]) +
              (if Disallowed(policy, asciiOnly, s[..|s| - 1], s[|s| - 1]) then [|s| - 1] else [])
  {
  }

  /** Reports about a prefix, extended by the last byte's report if it has
      one, are reports about the whole file. */
  lemma ReportsAtStep(ds: seq<Diagnostic>, idx: seq<nat>, s: seq<Byte>, b: bool)
    requires |s| > 0
    requires ReportsAt(ds, idx, s[..|s| - 1])
    ensures ReportsAt(ds + (if b then [DiagAt(s, |s| - 1)] else []),
                      idx + (if b then [|s| - 1] else []), s)
  {
    ReportsAtExtend(ds, idx, s);
    if b {
      ReportsAtAppend(ds, idx, s, |s| - 1);
    } else {
      assert ds + [] == ds && idx + [] == idx;
    }
  }

  lemma ReportsAtAppend(ds: seq<Diagnostic>, idx: seq<nat>, s: seq<Byte>, i: nat)
    requires ReportsAt(ds, idx, s) && i < |s|
    ensures ReportsAt(ds + [DiagAt(s, i)], idx + [i], s)
  {
    var ds' := ds + [DiagAt(s, i)];
    var idx' := idx + [i];
    forall k | 0 <= k < |ds'|
      ensures idx'[k] < |s| && ds'[k] == DiagAt(s, idx'[k])
    {
      if k < |ds| {
        assert ds'[k] == ds[k] && idx'[k] == idx[k];
      }
    }
  }

  /** A file is clean under -c iff none of its bytes is disallowed. */
  lemma CleanIffNoDisallowedByte(policy: TabPolicy, asciiOnly: bool, s: seq<Byte>)
    ensures Diags(policy, asciiOnly, s) == [] <==>
              forall i :: 0 <= i < |s| ==> !Disallowed(policy, asciiOnly, s[..i], s[i])
  {
    DiagsMatchReference(policy, asciiOnly, s);
    var idx := OffendingIndices(policy, asciiOnly, s);
    if |idx| > 0 {
      assert idx[0] in idx;
    }
  }

  /** The diagnostics of a prefix are a prefix of the file's diagnostics:
      once an offense is reported, it stays reported. */
  lemma {:induction false} DiagsOfPrefix(policy: TabPolicy, asciiOnly: bool, s: seq<Byte>, i: nat)
    requires i <= |s|
    ensures Diags(policy, asciiOnly, s[..i]) <= Diags(policy, asciiOnly, s)
    decreases |s|
  {
    if i < |s| {
      var p := s[..|s| - 1];
      assert p[..i] == s[..i];
      DiagsOfPrefix(policy, asciiOnly, p, i);
    } else {
      assert s[..i] == s;
    }
  }

  /** Every control diagnostic names a real control, never "not a c0
      control"; no byte-level diagnostic is a trailing-newline one. */
  lemma {:induction false} ControlDiagsAreNamed(policy: TabPolicy, asciiOnly: bool, s: seq<Byte>)
    ensures forall d :: d in Diags(policy, asciiOnly, s) ==>
              !d.NoFinalNewline? &&
              (d.Control? ==> IsControl(d.ch) && d.name == Xlat(d.ch) && d.name != NotAControl) &&
              (d.NotAscii? ==> IsEightBit(d.ch) && asciiOnly)
    decreases |s|
  {
    if |s| > 0 {
      ControlDiagsAreNamed(policy, asciiOnly, s[..|s| - 1]);
    }
  }

  /** A newline is never an offense, whatever the options and wherever it
      stands; it starts the next line at column 1 with leading tabs allowed. */
  lemma NewlineNeverOffends(policy: TabPolicy, asciiOnly: bool, before: seq<Byte>)
    ensures !Disallowed(policy, asciiOnly, before, LF)
    ensures Run(before + [LF]).pos == 1
    ensures Run(before + [LF]).line == Run(before).line + 1
    ensures Run(before + [LF]).leadingTabOk
  {
    assert (before + [LF])[..|before|] == before;
  }

  /** The trailing-newline check: an empty file always passes; a non-empty
      one fails iff -n is absent and its last byte is not a newline, and the
      failure is placed at the final line and column. */
  lemma EndCheckSpec(allowNoNewline: bool, s: seq<Byte>)
    ensures |s| == 0 ==> EndCheck(allowNoNewline, Run(s)) == []
    ensures EndCheck(allowNoNewline, Run(s)) != [] <==>
              |s| > 0 && s[|s| - 1] != LF && !allowNoNewline
    ensures EndCheck(allowNoNewline, Run(s)) != [] ==>
              EndCheck(allowNoNewline, Run(s)) ==
                [NoFinalNewline(1 + multiset(s)[LF], Column(CurrentLine(s)))]
  {
    CursorInvariant(s);
  }

  /** Tab stops at work: columns 1 and 7 go to 8, column 8 goes to 16. */
  lemma TabStopExamples()
    ensures NextTabStop(1) == 8 && NextTabStop(7) == 8
    ensures NextTabStop(8) == 16 && NextTabStop(9) == 16
  {
  }
}
