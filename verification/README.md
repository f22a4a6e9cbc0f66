# c0chk and pchk, modelled in Dafny

Two small checkers for portable source trees.

**c0chk** reads files byte by byte and rejects C0 control characters: the bytes 0..31 and 127, except the line feed. It also rejects files that do not end in a newline.

- `-a` also rejects 8-bit bytes.
- `-t` allows leading tabs, `-T` allows all tabs, and `-T` beats `-t`.
- `-m` allows exactly one tab at the start of a line, in files whose basename is `GNUmakefile`, `makefile` or `Makefile`. It applies only when neither `-t` nor `-T` was given.
- `-n` allows a missing final newline.
- `-c` keeps going and prints every offense with its line and tab-aware column. Without `-c` the program exits with status 1 at the first offense.

**pchk** walks directory trees and reports names that are not portable:

- characters outside `[A-Za-z0-9._-]`;
- a leading hyphen;
- a trailing period;
- Windows device names (CON, PRN, AUX, NUL, CLOCK$, COM*n*, LPT*n*), alone or before a period;
- entries that are neither regular files nor directories.

Names starting with a period are skipped. The exit status is 1 when anything was reported.

## Modules

- `Bytes`, `ControlNames`, `Options` hold the byte classes, the name table (`xlat`), the flags (the `Flags` record, filled in by a fold of the option switch over the flag letters), and the tab policy (`enum e_allow_ht`), including the per-file Makefile switch.
- `Scanner` holds the per-byte state machine: classification (`enum e_offense`), the cursor (line, column, leading-tab flag, last byte), the `-c` diagnostics and the end-of-file newline check. It also has an independent reference predicate, `Disallowed`, stated over the bytes read so far rather than over the cursor, and the lemmas that tie the two together.
- `ContentCheck` holds the loop over files: the short-circuit scan, the collecting scan, and the Makefile policy set and reset per file.
- `FilenameRules` is `is_filename_portable`. `ReservedNames` gives an independent definition of the reserved device names (the stem before the first period, lower-cased, is a device stem) and proves the source's prefix tests equal to it.
- `DirectoryWalk` is `recur` over an in-memory tree, `Node = Dir(entries) | Reg | Other`. `WalkProperties` relates the walk's output and exit status to an independent list of visited entries.
- `PathCheck` is the loop over directory operands.
- `ScanExamples` and the examples in `FilenameProperties` are worked cases.

A file's content is a `seq<Byte>` with `Byte = 0..255`, which is what `getc` delivers. The state after a prefix is defined by recursion on the last byte, so the loops' invariants read `c == Run(s[..i])`.

A file name is its bytes, one character per byte, as `readdir` returns it: every character of a `ValidName` is below 256. A multi-byte UTF-8 character is therefore several characters here, and each one outside the portable set gets its own diagnostic ("é" is the two bytes 0xC3 0xA9 and gets two, `FilenameProperties.Utf8NameExample`).

## Behaviour worth noting

- **Tab stops.** The column advance is `pos + (8 - pos % 8)`. A tab read at column 1 lands on column 8, and one at column 8 lands on 16: the stops are the multiples of 8. `Scanner.TabStopExamples` pins this.
- **"-con."** gets exactly two diagnostics, the leading hyphen and the trailing period. The device tests compare from the first character of the name, which here is the hyphen.
- **COM0 and LPT0.** The numbered-device test accepts any digit 0..9 (pchk.c:133-139), so `COM0` and `LPT0` are reserved, while the comment at pchk.c:117 ("COM[1-9], LPT[1-9]") and the message texts at pchk.c:123, 129 and 136 ("com1-9, lpt1-9") allow only 1..9. The model follows the code.
- **One reserved-name diagnostic.** The three device tests can never fire together (`FilenameRules.ReservedTestsExclusive`), so a name gets at most one reserved-name diagnostic.
- **OneLeading** checks that the column is 1. That is the same as "first byte of its line", because the column is 1 exactly at a line start (`Scanner.CursorInvariant`).

## Model

| member | source | states |
|---|---|---|
| Options.CapitalTWins | c0chk.c:153-161 | `-T` overrides `-t` whichever order they are given in; a `-t` gives All only when a `-T` is also present |
| Options.ParseFlags | c0chk.c:136-165 | The option loop, one switch case per letter in order: it reaches the end iff every letter is one of a, c, m, n, T, t (any other letter is the usage exit, None). At the end each of -a, -c, -m, -n is on iff its letter occurs; the tab policy is All iff `-T` occurs, Leading iff `-t` occurs and `-T` does not, Never iff neither does, so never the Makefile-only OneLeading |
| Options.EffectivePolicy | c0chk.c:177-189 | The policy for one file is OneLeading exactly when -m was given, neither -t nor -T was, and the basename equals one of the three Makefile names; otherwise it is the flags' own policy |
| Options.MakefileNameExamples | c0chk.c:31-34 | The Makefile test is an exact, case-sensitive comparison: "Makefile", "makefile" and "GNUmakefile" qualify; "MAKEFILE", "gnumakefile" and "Makefile.am" do not |
| ControlNames.Xlat | c0chk.c:57-97 | Every byte gets a non-empty name, and the fallback "not a c0 control" is returned exactly for the bytes that are not 0..31 or 127 |
| Scanner.NextTabStop | c0chk.c:255-259 | A tab moves the column strictly forward, by at most 8, onto a multiple of 8 |
| Scanner.TabStopExamples | c0chk.c:258 | Columns 1 and 7 advance to 8; columns 8 and 9 advance to 16 |
| Scanner.Classify | c0chk.c:197-233 | A newline or printable byte never offends; any other control (not tab, not newline) is a C0 offense; an 8-bit byte is an 8-bit offense iff -a, never a C0 one; a tab is a C0 offense exactly when the tab policy forbids it at the cursor |
| Scanner.LineCountsNewlines | c0chk.c:260-264 | The line number after any prefix is one more than the number of newlines in it |
| Scanner.PosIsColumnOfCurrentLine | c0chk.c:255-268 | The column after any prefix is determined by the bytes since the last newline alone |
| Scanner.LeadingTabOkIffOnlyTabs | c0chk.c:255-268 | Leading tabs remain allowed exactly while the current line has shown nothing but tabs |
| Scanner.CursorInvariant | c0chk.c:191-269 | Run, the loop folding Advance (the per-byte cursor update at c0chk.c:255-268: tab stop, newline, any other byte) from the start state (line 1, column 1, leading tabs allowed, last byte a newline). The cursor after any prefix has: line = 1 + newlines read; column = that of the current line; column >= 1, and column = 1 exactly at the file or a line start; the leading-tab flag iff the line holds only tabs; and the last byte (a newline for an empty prefix) |
| Scanner.ClassifyMatchesReference | c0chk.c:199-233 | The state machine offends exactly when the reference says the byte is disallowed. For a tab that means: always under Never; under OneLeading iff it is not the first byte of its line; under Leading iff a non-tab byte came earlier on its line; never under All. For any other byte it goes by class |
| Scanner.DiagsStep | c0chk.c:235-253 | Report and Diags: each byte adds exactly one diagnostic, built from the cursor before it, when the reference says it is disallowed, and none otherwise |
| Scanner.DiagsMatchReference | c0chk.c:235-253 | Under -c exactly one diagnostic is printed per disallowed byte, in stream order. Each carries the line and column held before that byte, plus the byte and either its control name or the not-ascii form |
| Scanner.CleanIffNoDisallowedByte | c0chk.c:235-253 | No byte diagnostic is printed iff no byte of the file is disallowed |
| Scanner.DiagsOfPrefix | c0chk.c:235-253 | The diagnostics for a prefix are a prefix of the file's diagnostics: an offense, once found, stays found, which is why stopping at the first one gives the same verdict |
| Scanner.ControlDiagsAreNamed | c0chk.c:244-249 | A control diagnostic is for a real control and names it (never "not a c0 control"); an 8-bit diagnostic occurs only under -a and only for an 8-bit byte; no byte diagnostic is a missing-newline one |
| Scanner.NewlineNeverOffends | c0chk.c:221-264 | A newline is never an offense under any options; after it, the line number is one higher, the column is 1 and leading tabs are allowed again |
| Scanner.EndCheckSpec | c0chk.c:283-290 | EndCheck, the test after the loop: an empty file always passes the end check. A file fails it iff it is non-empty, its last byte is not a newline and -n is absent; the failure is reported at line 1 + newlines and at the column of the last line |
| ScanExamples.OneLeadingExample | c0chk.c:205-209 | Under the Makefile policy, "\tfoo\n\t\tbar\n" produces exactly one diagnostic: the second tab of line 2, at column 8, where the first tab left the cursor |
| ContentCheck.ScanToFirstOffense | c0chk.c:195-290 | The scan without -c, which stops at the first offense, fails exactly when the collecting scan of the same file would report anything |
| ContentCheck.ScanCollecting | c0chk.c:195-290 | The scan with -c collects exactly the file's diagnostics, the trailing-newline one last. Its status becomes 1 iff anything was reported and is otherwise left as handed in |
| ContentCheck.CheckOneFile | c0chk.c:177-295 | With -c: the file's full report under its effective policy, and the status set iff it reported anything. Without -c: it stops iff the file fails. When it goes on, the tab policy is restored to the flags' own |
| ContentCheck.CheckFiles | c0chk.c:169-300 | The exit status is 0 or 1, and it is 1 iff some file fails under its effective policy. With -c, every file's diagnostics are printed, file by file in order. Without -c nothing is printed |
| FilenameRules.CheckFilename | pchk.c:89-142 | The character loop then the five name tests produce exactly the name's violations (per-character ones in order, then hyphen, period, reserved); the result is 1 iff any was printed |
| FilenameRules.ReservedTestsExclusive | pchk.c:117-139 | At most one of the three reserved-name tests fires for any name |
| FilenameRules.IllegalChars | pchk.c:96-103 | The character loop reports only characters outside the portable set, each as a character diagnostic |
| FilenameProperties.IllegalCharsCounted | pchk.c:96-103 | Each occurrence of a non-portable character gets its own diagnostic; portable characters get none |
| FilenameProperties.IllegalCharsEmptyIff | pchk.c:96-103 | There is no character diagnostic iff every character is in `[A-Za-z0-9._-]` |
| FilenameProperties.NameRulesSpec | pchk.c:105-139 | Considering only the name-level diagnostics: a hyphen diagnostic iff the name starts with '-'; a period diagnostic iff it ends with '.'; a reserved diagnostic iff the stem before the first period is a device name in any case. Each appears at most once and none is a character diagnostic |
| FilenameProperties.ViolationsSpec | pchk.c:89-142 | The name's diagnostics are its character diagnostics (one per non-portable occurrence) followed by its name-level ones |
| FilenameProperties.PortableIff | pchk.c:89-142 | A name gets no diagnostic iff all its characters are portable, it does not start with '-', does not end with '.', and is not a reserved device name |
| FilenameProperties.CleanNameExample | pchk.c:89-142 | "valid-name_1.0.txt" gets no diagnostic |
| FilenameProperties.HyphenConPeriodExample | pchk.c:105-126 | "-con." gets exactly the hyphen and the period diagnostics, in that order |
| FilenameProperties.ReservedExamples | pchk.c:117-132 | "con", "Aux.txt" and "clock$" are reserved, in any letter case and before a period |
| FilenameProperties.NumberedExamples | pchk.c:133-139 | "com0" and "LPT9.x" are reserved: one digit, 0 included, after COM or LPT |
| FilenameProperties.ConsoleNotReserved | pchk.c:118-126 | "console" is not reserved: a device name must be followed by a period or the end |
| FilenameProperties.TwoDigitComNotReserved | pchk.c:133-139 | "com10.txt" is not reserved: exactly one digit may follow COM |
| FilenameProperties.BareComNotReserved | pchk.c:133-139 | "com" is not reserved: COM needs a digit |
| FilenameProperties.PortableIsValid | pchk.c:96-103 | A non-empty name whose character loop reports nothing is made of bytes other than NUL |
| FilenameProperties.Utf8NameExample | pchk.c:96-103 | The UTF-8 "é", the bytes 0xC3 and 0xA9, gets one character diagnostic per byte, in order, and nothing else |
| ReservedNames.StemMatches | pchk.c:117-139 | For any stem, a caseless prefix match followed by '.' or the terminator is the same as the lower-cased part before the first period equalling the lower-cased stem |
| ReservedNames.PlainOrClockIsStem | pchk.c:117-132 | ReservedPlain and ReservedClock, the first two device tests: together they fire iff the lower-cased part before the first period is con, prn, aux, nul or clock$ |
| ReservedNames.NumberedIsStem | pchk.c:133-139 | ReservedNumbered, the COM/LPT test: it fires iff the lower-cased stem is "com" or "lpt" followed by one digit |
| ReservedNames.ReservedMatchesReference | pchk.c:117-139 | The source's three prefix tests together fire iff the lower-cased stem is con, prn, aux, nul, clock$, or com/lpt plus one digit |
| DirectoryWalk.Visited | pchk.c:48-83 | Each entry the walk looks at has a readable name, never starts with a period, and sits in the starting directory or below it |
| WalkProperties.RecurSpec | pchk.c:34-86 | Recur, the status `recur` returns for a directory's entries: after walking a directory, the status is 1 iff some visited entry is neither regular nor a directory or has a name with a diagnostic; otherwise it is the status handed in |
| WalkProperties.RecurEntrySpec | pchk.c:57-81 | RecurEntry, the same for one entry: for a subdirectory its contents count, as does its own name |
| WalkProperties.WalkIsPerVisit | pchk.c:34-86 | Walk, what `recur` prints for a directory's entries: visit by visit in visiting order (a subdirectory's contents before its own name), an anomaly line for an entry of another kind and one line per rule its name breaks |
| WalkProperties.WalkEntryIsPerVisit | pchk.c:57-81 | WalkEntry, the loop body for one entry: it prints exactly the reports of the visits it makes (its subdirectory's first, then its own) |
| WalkProperties.ReportsOfEmptyIff | pchk.c:74-81 | Nothing is printed for a list of visits iff none of them is bad |
| WalkProperties.PrintsIffFails | pchk.c:34-86 | Starting from status 0, the walk prints something iff it ends with status 1, and the status is always 0 or 1 |
| WalkProperties.VisitedComplete | pchk.c:48-70 | Every entry not starting with a period is looked at, and so is everything looked at inside it when it is a directory |
| WalkProperties.HiddenSkipped | pchk.c:57-59 | An entry whose name starts with a period prints nothing, is not descended into and leaves the status alone, whatever kind it is |
| PathCheck.CheckTrees | pchk.c:178-183 | The exit status is 0 or 1, and it is 1 iff some operand holds a bad entry where the walk looks. The output is the operands' walks, one after the other |

## Left out

- Command-line parsing is reduced to a string of flag letters, folded by `ParseFlags` through the same switch as the source's `getopt` loop. The `argv` shuffling by `optind`, the usage text and the `exit(1)` after it are not modelled; usage is the `None` result.
- `fopen`, `getc`, `ferror`, `fclose` and `basename` are I/O. A file is its path, its basename and its bytes, and the exit status 2 on their failure is not modelled.
- The "something strange happened" message is not modelled. It follows a read that stops before end of file, which cannot happen when the content is a finite byte sequence.
- Output is a sequence of diagnostic values, not text: the `printf`/`fprintf` formats (hex byte, messages) and the split between stdout and stderr are not modelled.
- `line` and `pos` are C `int`s; the model uses unbounded integers and ignores overflow on files with more than 2^31 lines or columns.
- `opendir`, `readdir_r`, `asprintf`, `closedir` and their exit status 2 are replaced by an in-memory tree. `readdir` order is the order of the entry sequence, and `d_type` is `Dir`, `Reg` or `Other` (every other type, including DT_UNKNOWN, takes the default branch).
- pchk's own `-h`/usage handling is not modelled; the operands are given as roots.
- Names are non-empty, contain no NUL and are made of bytes (`ValidName`), as `readdir` guarantees. The source reads `name[name_len-1]`, which an empty name would take out of bounds.
- ControlNames.Xlat: that the 33 names are pairwise distinct is not stated.
- ContentCheck.CheckOneFile: when it stops early, its contract does not state the restored tab policy, because the run ends there and the policy is never used again.
