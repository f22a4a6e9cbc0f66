/** What the filename rule engine promises about one name. */
module FilenameProperties {
  import opened FilenameRules
  import opened ReservedNames

  /** Exactly one IllegalChar per occurrence of a character outside the
      portable set, and none for portable characters. */
  lemma {:induction false} IllegalCharsCounted(name: string, c: char)
    ensures multiset(IllegalChars(name))[IllegalChar(c)] ==
              if IsPortableChar(c) then 0 else multiset(name)[c]
    decreases |name|
  {
    if |name| > 0 {
      var p := name[..|name| - 1];
      var last := name[|name| - 1];
      assert name == p + [last];
      IllegalCharsCounted(p, c);
      var before: multiset<char> := multiset(p);
      assert multiset(name) == before + multiset{last};
    }
  }

  /** No character diagnostic at all iff every character is portable. */
  lemma IllegalCharsEmptyIff(name: string)
    ensures IllegalChars(name) == [] <==> forall i :: 0 <= i < |name| ==> IsPortableChar(name[i])
  {
    var ill := IllegalChars(name);
    if ill == [] {
      forall i | 0 <= i < |name|
        ensures IsPortableChar(name[i])
      {
        IllegalCharsCounted(name, name[i]);
        assert name[i] in multiset(name);
      }
    } else {
      var x := ill[0];
      IllegalCharsCounted(name, x.c);
      assert x in multiset(ill);
      assert x.c in multiset(name);
    }
  }

  function Count(b: bool): nat {
    if b then 1 else 0
  }

  /** The whole-name rules, each stated on its own: a hyphen diagnostic iff
      the name starts with one, a period diagnostic iff it ends with one,
      a reserved-name diagnostic iff the part before the first period is a
      Windows device name, each at most once, and never a character one. */
  lemma NameRulesSpec(name: string)
    requires ValidName(name)
    ensures LeadingHyphen in NameRules(name) <==> name[0] == '-'
    ensures TrailingPeriod in NameRules(name) <==> name[|name| - 1] == '.'
    ensures ReservedName in NameRules(name) <==> IsReservedDevice(name)
    ensures forall v :: v in NameRules(name) ==> !v.IllegalChar?
    ensures |NameRules(name)| ==
              Count(name[0] == '-') + Count(name[|name| - 1] == '.') + Count(IsReservedDevice(name))
  {
    ReservedMatchesReference(name);
  }

  /** All the rules together: every illegal character reported once per
      occurrence, and the whole-name diagnostics after them. */
  lemma ViolationsSpec(name: string, c: char)
    requires ValidName(name)
    ensures multiset(Violations(name))[IllegalChar(c)] ==
              if IsPortableChar(c) then 0 else multiset(name)[c]
    ensures Violations(name)[..|IllegalChars(name)|] == IllegalChars(name)
    ensures Violations(name)[|IllegalChars(name)|..] == NameRules(name)
  {
    IllegalCharsCounted(name, c);
    NameRulesSpec(name);
    assert multiset(Violations(name)) == multiset(IllegalChars(name)) + multiset(NameRules(name));
    assert IllegalChar(c) !in NameRules(name);
  }

  /** A name is portable (no diagnostic at all) iff every character is
      portable, it does not start with a hyphen, does not end with a period
      and is not a reserved device name. */
  lemma PortableIff(name: string)
    requires ValidName(name)
    ensures Violations(name) == [] <==>
              (forall i :: 0 <= i < |name| ==> IsPortableChar(name[i])) &&
              name[0] != '-' && name[|name| - 1] != '.' && !IsReservedDevice(name)
  {
    IllegalCharsEmptyIff(name);
    NameRulesSpec(name);
  }

  /** A non-empty name of portable characters only is one `readdir` can
      return. */
  lemma PortableIsValid(name: string)
    requires |name| > 0 && IllegalChars(name) == []
    ensures ValidName(name)
  {
    IllegalCharsEmptyIff(name);
    assert forall i :: 0 <= i < |name| ==> IsPortableChar(name[i]);
  }

  const CleanName: string := "valid-name_1.0.txt"

  lemma CleanNameChars()
    ensures IllegalChars(CleanName) == []
  {
    assert forall i :: 0 <= i < |CleanName| ==> IsPortableChar(CleanName[i]);
    IllegalCharsEmptyIff(CleanName);
  }

  lemma CleanNameNotReserved()
    ensures !ReservedTest(CleanName)
  {
    var n := CleanName;
    assert Lower(n[0]) != Lower("CON"[0]) && Lower(n[0]) != Lower("PRN"[0]);
    assert Lower(n[0]) != Lower("AUX"[0]) && Lower(n[0]) != Lower("NUL"[0]);
    assert Lower(n[0]) != Lower("CLOCK$"[0]);
    assert Lower(n[0]) != Lower("COM"[0]) && Lower(n[0]) != Lower("LPT"[0]);
  }

  lemma CleanNameRules()
    ensures ValidName(CleanName) && NameRules(CleanName) == []
  {
    CleanNameChars();
    PortableIsValid(CleanName);
    CleanNameNotReserved();
    assert CleanName[0] == 'v' && CleanName[|CleanName| - 1] == 't';
  }

  /** A clean name gets no diagnostic. */
  lemma CleanNameExample()
    ensures Violations("valid-name_1.0.txt") == []
  {
    CleanNameChars();
    CleanNameRules();
  }

  lemma HyphenConNotReserved()
    ensures !ReservedTest("-con.")
  {
    var n := "-con.";
    assert Lower(n[0]) != Lower("CON"[0]) && Lower(n[0]) != Lower("PRN"[0]);
    assert Lower(n[0]) != Lower("AUX"[0]) && Lower(n[0]) != Lower("NUL"[0]);
    assert Lower(n[0]) != Lower("CLOCK$"[0]);
    assert Lower(n[0]) != Lower("COM"[0]) && Lower(n[0]) != Lower("LPT"[0]);
  }

  lemma HyphenConRules()
    ensures ValidName("-con.") && NameRules("-con.") == [LeadingHyphen, TrailingPeriod]
  {
    HyphenConChars();
    PortableIsValid("-con.");
    HyphenConNotReserved();
    var n := "-con.";
    assert n[0] == '-' && n[|n| - 1] == '.';
  }

  lemma HyphenConChars()
    ensures IllegalChars("-con.") == []
  {
    var n := "-con.";
    assert forall i :: 0 <= i < |n| ==> IsPortableChar(n[i]);
    IllegalCharsEmptyIff(n);
  }

  /** "-con." breaks the hyphen and the period rule but is not reserved:
      the device test is anchored at the first character. */
  lemma HyphenConPeriodExample()
    ensures Violations("-con.") == [LeadingHyphen, TrailingPeriod]
  {
    HyphenConChars();
    HyphenConRules();
  }

  /** Reserved in any letter case, alone or before a period. */
  lemma ReservedExamples()
    ensures ReservedTest("con") && ReservedTest("Aux.txt") && ReservedTest("clock$")
  {
    assert StartsCaseless("CON", "con");
    assert StartsCaseless("AUX", "Aux.txt");
    assert StartsCaseless("CLOCK$", "clock$");
  }

  /** Exactly one digit, 0 included, after COM or LPT. */
  lemma NumberedExamples()
    ensures ReservedTest("com0") && ReservedTest("LPT9.x")
  {
    Com0Reserved();
    Lpt9Reserved();
  }

  lemma Com0Reserved()
    ensures ReservedNumbered("com0")
  {
    assert StartsCaseless("COM", "com0");
  }

  lemma Lpt9Reserved()
    ensures ReservedNumbered("LPT9.x")
  {
    assert StartsCaseless("LPT", "LPT9.x");
  }

  /** Not reserved: a longer stem. */
  lemma ConsoleNotReserved()
    ensures !ReservedTest("console")
  {
    var n := "console";
    assert At(n, 3) == 's';
    assert Lower(n[1]) != Lower("CLOCK$"[1]);
    assert Lower(n[2]) != Lower("COM"[2]);
    assert Lower(n[0]) != Lower("LPT"[0]);
  }

  /** Not reserved: two digits after COM. */
  lemma TwoDigitComNotReserved()
    ensures !ReservedTest("com10.txt")
  {
    var n := "com10.txt";
    assert At(n, 3) == '1' && At(n, 4) == '0';
    assert Lower(n[1]) != Lower("CLOCK$"[1]);
    assert Lower(n[2]) != Lower("CON"[2]);
    assert Lower(n[0]) != Lower("PRN"[0]) && Lower(n[0]) != Lower("AUX"[0]);
    assert Lower(n[0]) != Lower("NUL"[0]);
  }

  /** Not reserved: COM with no digit. */
  lemma BareComNotReserved()
    ensures !ReservedTest("com")
  {
    var n := "com";
    assert At(n, 3) == '\0';
    assert !StartsCaseless("CLOCK$", n);
    assert Lower(n[2]) != Lower("CON"[2]);
    assert Lower(n[0]) != Lower("PRN"[0]) && Lower(n[0]) != Lower("AUX"[0]);
    assert Lower(n[0]) != Lower("NUL"[0]);
  }

  /** "é" in UTF-8 is the two bytes 0xC3 0xA9, and each gets its own
      character diagnostic. */
  lemma Utf8NameExample()
    ensures Violations("\U{C3}\U{A9}") == [IllegalChar('\U{C3}'), IllegalChar('\U{A9}')]
  {
    var n := "\U{C3}\U{A9}";
    assert !IsPortableChar(n[0]) && !IsPortableChar(n[1]);
    assert IllegalChars(n[..1]) == [IllegalChar('\U{C3}')] by {
      assert n[..1][..0] == [];
    }
    assert IllegalChars(n) == [IllegalChar('\U{C3}'), IllegalChar('\U{A9}')];
    assert Lower(n[0]) != Lower("CON"[0]) && Lower(n[0]) != Lower("PRN"[0]);
    assert Lower(n[0]) != Lower("AUX"[0]) && Lower(n[0]) != Lower("NUL"[0]);
    assert Lower(n[0]) != Lower("CLOCK$"[0]);
    assert Lower(n[0]) != Lower("COM"[0]) && Lower(n[0]) != Lower("LPT"[0]);
  }
}
