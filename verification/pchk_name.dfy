/** The filename portability rules applied to one directory entry name. */
module FilenameRules {

  /** A name as `readdir` delivers it: a non-empty C string of bytes, one
      character per byte (so a multi-byte UTF-8 character is several
      characters here), holding no NUL byte. */
  predicate ValidName(name: string) {
    |name| > 0 && '\0' !in name && forall i :: 0 <= i < |name| ==> name[i] as int < 256
  }

  /** The character at index `i` of the C string, the terminating NUL when
      `i` is at (or past) its end. */
  function At(name: string, i: nat): char {
    if i < |name| then name[i] else '\0'
  }

  /** A character of the POSIX portable filename character set
      `[A-Za-z0-9._-]`. Anything else, including every non-ASCII character,
      is illegal. */
  predicate IsPortableChar(c: char) {
    ('A' <= c <= 'Z') || ('a' <= c <= 'z') || ('0' <= c <= '9') ||
    c == '.' || c == '_' || c == '-'
  }

  /** ASCII lower-casing as `strncasecmp` applies it in the C locale. */
  function Lower(c: char): char {
    if 'A' <= c <= 'Z' then (c as int + 32) as char else c
  }

  /** `strncasecmp(stem, name, |stem|) == 0`: the first |stem| characters of
      `name` equal `stem` up to ASCII case. A shorter name fails, since its
      terminator cannot match a character of the stem. */
  predicate StartsCaseless(stem: string, name: string) {
    |name| >= |stem| && forall i :: 0 <= i < |stem| ==> Lower(name[i]) == Lower(stem[i])
  }

  /** One diagnostic of the rule engine. The three reserved-name checks print
      the same message, so they share one constructor. */
  datatype Violation =
    | IllegalChar(c: char)
    | LeadingHyphen
    | TrailingPeriod
    | ReservedName

  /** One IllegalChar per character outside the portable set, in order, with
      no deduplication. */
  function IllegalChars(name: string): (vs: seq<Violation>)
    ensures forall v :: v in vs ==> v.IllegalChar? && !IsPortableChar(v.c)
    decreases |name|
  {
    if |name| == 0 then []
    else
      var c := name[|name| - 1];
      IllegalChars(name[..|name| - 1]) + (if IsPortableChar(c) then [] else [IllegalChar(c)])
  }

  /** CON, PRN, AUX or NUL, alone or followed by a period. */
  predicate ReservedPlain(name: string) {
    (StartsCaseless("CON", name) || StartsCaseless("PRN", name) ||
     StartsCaseless("AUX", name) || StartsCaseless("NUL", name)) &&
    (At(name, 3) == '.' || At(name, 3) == '\0')
  }

  /** CLOCK$, alone or followed by a period. */
  predicate ReservedClock(name: string) {
    StartsCaseless("CLOCK$", name) && (At(name, 6) == '.' || At(name, 6) == '\0')
  }

  /** COM or LPT, then exactly one digit 0-9, alone or followed by a period. */
  predicate ReservedNumbered(name: string) {
    (StartsCaseless("COM", name) || StartsCaseless("LPT", name)) &&
    '0' <= At(name, 3) <= '9' && (At(name, 4) == '.' || At(name, 4) == '\0')
  }

  function Flag(b: bool, v: Violation): seq<Violation> {
    if b then [v] else []
  }

  /** The diagnostics of the whole-name rules, in the order they are tried:
      leading hyphen, trailing period, then the reserved-name tests (of
      which at most one fires, see ReservedTestsExclusive). */
  function NameRules(name: string): seq<Violation>
    requires ValidName(name)
  {
    Flag(name[0] == '-', LeadingHyphen) +
    Flag(name[|name| - 1] == '.', TrailingPeriod) +
    Flag(ReservedTest(name), ReservedName)
  }

  /** Some reserved-name test fires. */
  predicate ReservedTest(name: string) {
    ReservedPlain(name) || ReservedClock(name) || ReservedNumbered(name)
  }

  /** The three reserved-name tests look at different stems, so at most one
      of them fires and a name gets at most one reserved-name diagnostic. */
  lemma ReservedTestsExclusive(name: string)
    requires ValidName(name)
    ensures !(ReservedPlain(name) && ReservedClock(name))
    ensures !(ReservedPlain(name) && ReservedNumbered(name))
    ensures !(ReservedClock(name) && ReservedNumbered(name))
  {
  }

  /** Every diagnostic for `name`: the per-character rule, then the
      whole-name rules; no rule stops the others. */
  function Violations(name: string): seq<Violation>
    requires ValidName(name)
  {
    IllegalChars(name) + NameRules(name)
  }

  /** The rule engine as the source runs it: a loop over the characters,
      then the name-level rules. Returns 1 iff some diagnostic was issued. */
  method CheckFilename(name: string) returns (rv: int, out: seq<Violation>)
    requires ValidName(name)
    ensures out == Violations(name)
    ensures rv == (if out == [] then 0 else 1)
  {
    rv := 0;
    out := [];
    var i := 0;
    while i < |name|
      invariant 0 <= i <= |name|
      invariant out == IllegalChars(name[..i])
      invariant rv == (if out == [] then 0 else 1)
    {
      assert name[..i + 1][..i] == name[..i];
      if !IsPortableChar(name[i]) {
        out := out + [IllegalChar(name[i])];
        rv := 1;
      }
      i := i + 1;
    }
    assert name[..i] == name;
    if name[0] == '-' {
      out := out + [LeadingHyphen];
      rv := 1;
    }
    assert out == IllegalChars(name) + Flag(name[0] == '-', LeadingHyphen);
    if name[|name| - 1] == '.' {
      out := out + [TrailingPeriod];
      rv := 1;
    }
    assert out == IllegalChars(name) + Flag(name[0] == '-', LeadingHyphen) +
                  Flag(name[|name| - 1] == '.', TrailingPeriod);
    ghost var early := out;
    if ReservedPlain(name) {
      out := out + [ReservedName];
      rv := 1;
    }
    ghost var plain := out;
    if ReservedClock(name) {
      out := out + [ReservedName];
      rv := 1;
    }
    ghost var clock := out;
    if ReservedNumbered(name) {
      out := out + [ReservedName];
      rv := 1;
    }
    ReservedFlagsCollapse(name, early, plain, clock, out);
    AppendedRulesAreViolations(name, early, out);
  }

  /** The source's three reserved-name ifs, of which at most one fires,
      add exactly the one reserved-name diagnostic of NameRules. */
  lemma ReservedFlagsCollapse(name: string, early: seq<Violation>, plain: seq<Violation>,
                              clock: seq<Violation>, out: seq<Violation>)
    requires ValidName(name)
    requires plain == early + Flag(ReservedPlain(name), ReservedName)
    requires clock == plain + Flag(ReservedClock(name), ReservedName)
    requires out == clock + Flag(ReservedNumbered(name), ReservedName)
    ensures out == early + Flag(ReservedTest(name), ReservedName)
  {
    ReservedTestsExclusive(name);
    assert early + [] == early;
  }

  /** The name-level diagnostics appended one rule at a time are NameRules
      after the per-character ones. */
  lemma AppendedRulesAreViolations(name: string, early: seq<Violation>, out: seq<Violation>)
    requires ValidName(name)
    requires early == IllegalChars(name) + Flag(name[0] == '-', LeadingHyphen) +
                      Flag(name[|name| - 1] == '.', TrailingPeriod)
    requires out == early + Flag(ReservedTest(name), ReservedName)
    ensures out == Violations(name)
  {
    var a := IllegalChars(name);
    var h := Flag(name[0] == '-', LeadingHyphen);
    var p := Flag(name[|name| - 1] == '.', TrailingPeriod);
    var r := Flag(ReservedTest(name), ReservedName);
    assert NameRules(name) == h + p + r;
    ConcatAssoc(a, h, p, r);
  }

  lemma ConcatAssoc(a: seq<Violation>, b: seq<Violation>, c: seq<Violation>, d: seq<Violation>)
    ensures a + b + c + d == a + (b + c + d)
  {
  }
}
