/** An independent statement of the Windows reserved-device rule, and its
    agreement with the character-by-character test the scanner performs. */
module ReservedNames {
  import opened FilenameRules

  /** The part of a name before its first period (all of it if it has none). */
  function Stem(name: string): (t: string)
    ensures |t| <= |name| && t == name[..|t|]
    ensures '.' !in t
    ensures |t| == |name| || name[|t|] == '.'
    decreases |name|
  {
    if |name| == 0 || name[0] == '.' then []
    else
      var rest := Stem(name[1..]);
      assert name[1..][..|rest|] == name[1..|rest| + 1];
      [name[0]] + rest
  }

  /** ASCII lower-casing of a whole string. */
  function LowerStr(s: string): (t: string)
    ensures |t| == |s|
    ensures forall i :: 0 <= i < |s| ==> t[i] == Lower(s[i])
  {
    seq(|s|, i requires 0 <= i < |s| => Lower(s[i]))
  }

  /** The device stems Windows reserves, in lower case: CON, PRN, AUX, NUL,
      CLOCK$, and COM or LPT followed by one digit (0 included). */
  predicate IsDeviceStem(t: string) {
    t in {"con", "prn", "aux", "nul", "clock$"} || IsNumberedStem(t)
  }

  /** A name is reserved when the part before its first period is a device
      stem, in any letter case. */
  predicate IsReservedDevice(name: string) {
    IsDeviceStem(LowerStr(Stem(name)))
  }

  /** Matching a stem by prefix comparison and a look at the following
      character is the same as comparing the part before the first period. */
  lemma StemMatches(name: string, stem: string)
    requires ValidName(name) && '.' !in stem
    ensures LowerStr(Stem(name)) == LowerStr(stem) <==>
              StartsCaseless(stem, name) && (At(name, |stem|) == '.' || At(name, |stem|) == '\0')
  {
    var st := Stem(name);
    if LowerStr(st) == LowerStr(stem) {
      assert |st| == |stem|;
      forall i | 0 <= i < |stem|
        ensures Lower(name[i]) == Lower(stem[i])
      {
        assert name[i] == st[i];
        assert LowerStr(st)[i] == LowerStr(stem)[i];
      }
      if |stem| < |name| {
        assert At(name, |stem|) == '.';
      }
    }
    if StartsCaseless(stem, name) && (At(name, |stem|) == '.' || At(name, |stem|) == '\0') {
      forall i | 0 <= i < |stem|
        ensures name[i] != '.'
      {
        assert Lower(name[i]) == Lower(stem[i]);
        assert stem[i] != '.';
      }
      if |stem| < |name| {
        assert name[|stem|] == '.';
      } else {
        assert |stem| == |name|;
      }
      assert |st| == |stem|;
      forall i | 0 <= i < |st|
        ensures LowerStr(st)[i] == LowerStr(stem)[i]
      {
        assert st[i] == name[i];
      }
    }
  }

  /** The first two reserved tests of the scanner recognise exactly the
      device stems without a digit. */
  lemma PlainOrClockIsStem(name: string)
    requires ValidName(name)
    ensures ReservedPlain(name) || ReservedClock(name) <==>
              LowerStr(Stem(name)) in {"con", "prn", "aux", "nul", "clock$"}
  {
    assert LowerStr("CON") == "con";
    assert LowerStr("PRN") == "prn";
    assert LowerStr("AUX") == "aux";
    assert LowerStr("NUL") == "nul";
    assert LowerStr("CLOCK$") == "clock$";
    StemMatches(name, "CON");
    StemMatches(name, "PRN");
    StemMatches(name, "AUX");
    StemMatches(name, "NUL");
    StemMatches(name, "CLOCK$");
  }

  /** COM or LPT followed by one digit, in lower case. */
  predicate IsNumberedStem(t: string) {
    |t| == 4 && (t[..3] == "com" || t[..3] == "lpt") && '0' <= t[3] <= '9'
  }

  lemma NumberedGivesStem(name: string)
    requires ValidName(name) && ReservedNumbered(name)
    ensures IsNumberedStem(LowerStr(Stem(name)))
  {
    var upper := if StartsCaseless("COM", name) then "COM" else "LPT";
    var stem := upper + [name[3]];
    assert StartsCaseless(stem, name) by {
      forall i | 0 <= i < 4
        ensures Lower(name[i]) == Lower(stem[i])
      {
        if i < 3 {
          assert stem[i] == upper[i];
        }
      }
    }
    StemMatches(name, stem);
    var t := LowerStr(Stem(name));
    assert t == LowerStr(stem);
    assert t[..3] == LowerStr(upper);
  }

  lemma StemGivesNumbered(name: string)
    requires ValidName(name) && IsNumberedStem(LowerStr(Stem(name)))
    ensures ReservedNumbered(name)
  {
    var st := Stem(name);
    var t := LowerStr(st);
    StemMatches(name, st);
    assert StartsCaseless(st, name);
    assert Lower(name[3]) == t[3];
    if t[..3] == "com" {
      assert StartsCaseless("COM", name) by {
        assert forall i :: 0 <= i < 3 ==> Lower(name[i]) == t[i];
      }
    } else {
      assert StartsCaseless("LPT", name) by {
        assert forall i :: 0 <= i < 3 ==> Lower(name[i]) == t[i];
      }
    }
  }

  /** The COM/LPT test of the scanner recognises exactly COM or LPT with one
      digit as the stem. */
  lemma NumberedIsStem(name: string)
    requires ValidName(name)
    ensures ReservedNumbered(name) <==> IsNumberedStem(LowerStr(Stem(name)))
  {
    if ReservedNumbered(name) {
      NumberedGivesStem(name);
    }
    if IsNumberedStem(LowerStr(Stem(name))) {
      StemGivesNumbered(name);
    }
  }

  /** The scanner's reserved-name tests agree with the reference rule. */
  lemma ReservedMatchesReference(name: string)
    requires ValidName(name)
    ensures ReservedPlain(name) || ReservedClock(name) || ReservedNumbered(name) <==>
              IsReservedDevice(name)
  {
    PlainOrClockIsStem(name);
    NumberedIsStem(name);
  }
}
