/** The anonymisation rules of a Dicom wrapper (dicomsort/dicomsorter.py,
    Dicom.SetAnonRules and is_anonymous): the birth-date shift that keeps the
    patient's age, how the rules are installed, and how they are merged into
    the override map. */
module Anonymise {
  import opened Values
  import opened PyText
  import Fields

  /** Where Python's s[:4] and s[4:] split a string. */
  function YearEnd(s: string): (k: nat)
    ensures k <= |s|
  {
    if |s| < 4 then |s| else 4
  }

  /** The replacement birth date of SetAnonRules: January 1 of the birth
      year when the study's month and day (the text after the year, read as
      an integer) are not before the birthday's, otherwise January 1 of the
      next year, so that the age in whole years stays the same. Dates that
      do not read as integers are a ValueError (BadValue), as is a value
      that is not a string. */
  function ShiftedBirthDate(birth: Value, study: Value): (r: Result<string>)
    ensures r.Ok? ==> |r.value| >= 4 && r.value[|r.value| - 4..] == "0101"
  {
    if !birth.Text? || !study.Text? then Err(BadValue)
    else
      var b, s := birth.s, study.s;
      var birthDay, studyDay := ParseInt(b[YearEnd(b)..]), ParseInt(s[YearEnd(s)..]);
      if birthDay.None? || studyDay.None? then Err(BadValue)
      else if studyDay.value >= birthDay.value then Ok(b[..YearEnd(b)] + "0101")
      else NextYear(ParseInt(b[..YearEnd(b)]))
  }

  /** '%d0101' % (int(year) + 1). */
  function NextYear(year: Option<int>): (r: Result<string>)
    ensures r.Ok? ==> |r.value| >= 4 && r.value[|r.value| - 4..] == "0101"
  {
    match year
    case Some(y) => Ok(FormatInt(y + 1) + "0101")
    case None => Err(BadValue)
  }

  /** The rule map after lines 155-178 of SetAnonRules: an empty
      PatientBirthDate rule asks for the shifted birth date, which replaces
      it when the record has a non-empty birth date and a study date; every
      other rule map is left as it is. Reading a missing birth date is an
      AttributeError. */
  function InstallRules(rules: map<string, string>, rec: Record): Result<map<string, string>> {
    if PatientBirthDate !in rules || rules[PatientBirthDate] != "" then Ok(rules)
    else if PatientBirthDate !in rec then Err(NoAttribute(PatientBirthDate))
    else if rec[PatientBirthDate] == Text("") || StudyDate !in rec then Ok(rules)
    else
      match ShiftedBirthDate(rec[PatientBirthDate], rec[StudyDate])
      case Ok(d) => Ok(rules[PatientBirthDate := d])
      case Err(f) => Err(f)
  }

  /** dict(default_overrides, **anondict): every rule becomes a constant
      override, and a rule wins over a built-in computation of the same
      name. */
  function MergeOverrides(rules: map<string, string>): (r: map<string, Override>)
    ensures r.Keys == Fields.DefaultOverrides().Keys + rules.Keys
    ensures forall k :: k in rules ==> r[k] == Constant(Text(rules[k]))
    ensures forall k :: k in Fields.DefaultOverrides() && k !in rules ==> r[k] == Fields.DefaultOverrides()[k]
  {
    Fields.DefaultOverrides() + map k | k in rules :: Constant(Text(rules[k]))
  }

  /** is_anonymous: the merged overrides differ from the defaults exactly
      when there is at least one rule. */
  lemma AnonymousIffRules(rules: map<string, string>)
    ensures MergeOverrides(rules) != Fields.DefaultOverrides() <==> rules != map[]
  {
    var d := Fields.DefaultOverrides();
    if rules == map[] {
      assert MergeOverrides(rules) == d;
    } else {
      var k :| k in rules;
      assert MergeOverrides(rules)[k] == Constant(Text(rules[k]));
      assert k in d ==> d[k].Computed?;
    }
  }

  /** Installing touches at most the PatientBirthDate rule, only when that
      rule is empty, and then writes a date ending in 0101 whenever the
      record has a non-empty birth date and a study date; an error can only
      come from that request. Once the rule is non-empty, installing is the
      identity for every record, so a map that holds a shifted date keeps it
      for all later records. */
  lemma InstalledRules(rules: map<string, string>, rec: Record, other: Record)
    ensures InstallRules(rules, rec).Err? ==> PatientBirthDate in rules && rules[PatientBirthDate] == ""
    ensures PatientBirthDate in rules && rules[PatientBirthDate] == "" && PatientBirthDate !in rec
            ==> InstallRules(rules, rec) == Err(NoAttribute(PatientBirthDate))
    ensures InstallRules(rules, rec).Ok? ==>
      var r := InstallRules(rules, rec).value;
      && r.Keys == rules.Keys
      && (forall k :: k in rules && k != PatientBirthDate ==> r[k] == rules[k])
      && (PatientBirthDate in r && r[PatientBirthDate] != rules[PatientBirthDate] ==>
            rules[PatientBirthDate] == "" && r[PatientBirthDate] != "")
      && ((PatientBirthDate in rules && rules[PatientBirthDate] == "" && rec[PatientBirthDate] != Text("") && StudyDate in rec)
          ==> |r[PatientBirthDate]| >= 4 && r[PatientBirthDate][|r[PatientBirthDate]| - 4..] == "0101")
    ensures PatientBirthDate !in rules || rules[PatientBirthDate] != "" ==> InstallRules(rules, other) == Ok(rules)
    ensures PatientBirthDate in rules && rules[PatientBirthDate] == "" && PatientBirthDate in rec
            && (rec[PatientBirthDate] == Text("") || StudyDate !in rec)
            ==> InstallRules(rules, rec) == Ok(rules)
    ensures PatientBirthDate in rules && rules[PatientBirthDate] == "" && PatientBirthDate in rec
            && rec[PatientBirthDate] != Text("") && StudyDate in rec
            ==> var d := ShiftedBirthDate(rec[PatientBirthDate], rec[StudyDate]);
                && (d.Ok? ==> InstallRules(rules, rec) == Ok(rules[PatientBirthDate := d.value]))
                && (d.Err? ==> InstallRules(rules, rec) == Err(d.fault))
  {
    if InstallRules(rules, rec).Ok? && PatientBirthDate in rules && rules[PatientBirthDate] == "" {
      if rec[PatientBirthDate] != Text("") && StudyDate in rec {
        var d := ShiftedBirthDate(rec[PatientBirthDate], rec[StudyDate]);
        assert d.Ok? && |d.value| >= 4;
        assert InstallRules(rules, rec).value == rules[PatientBirthDate := d.value];
      }
    }
  }

  /** The rule SetAnonRules installs keeps the patient's age: for a record
      without an age, with eight-digit birth and study dates and a study
      month-day of at least 0101, an empty PatientBirthDate rule becomes the
      shifted date, and the record with that date written in has the age the
      original record has. */
  lemma InstalledRuleKeepsAge(rules: map<string, string>, rec: Record, birth: string, study: string)
    requires PatientBirthDate in rules && rules[PatientBirthDate] == ""
    requires PatientAge !in rec
    requires PatientBirthDate in rec && rec[PatientBirthDate] == Text(birth)
    requires StudyDate in rec && rec[StudyDate] == Text(study)
    requires |birth| == 8 && AllDigits(birth) && |study| == 8 && AllDigits(study)
    requires ParseDigits(study[4..]) >= 101
    ensures InstallRules(rules, rec).Ok?
    ensures var installed := InstallRules(rules, rec).value;
            && installed == rules[PatientBirthDate := installed[PatientBirthDate]]
            && Fields.PatientAgeOf(rec[PatientBirthDate := Text(installed[PatientBirthDate])]) == Fields.PatientAgeOf(rec)
  {
    ShiftPreservesAge(rec, birth, study);
    var d := ShiftedBirthDate(Text(birth), Text(study)).value;
    assert birth != "";
    assert InstallRules(rules, rec) == Ok(rules[PatientBirthDate := d]);
  }

  // ---------------------------------------------------------------------
  // Date arithmetic

  lemma {:induction false} ParseDigitsBound(s: string)
    requires AllDigits(s)
    ensures ParseDigits(s) < Pow10(|s|)
  {
    if s != [] {
      ParseDigitsBound(s[..|s| - 1]);
    }
  }

  /** A YYYYMMDD string splits after the year, its month and day read as
      a number below 10000, and the whole reads as year * 10000 + month-day. */
  lemma EightDigitDate(d: string)
    requires |d| == 8 && AllDigits(d)
    ensures YearEnd(d) == 4
    ensures ParseDigits(d[4..]) < 10000
    ensures ParseInt(d) == Some(ParseDigits(d[..4]) * 10000 + ParseDigits(d[4..]))
  {
    var y, md := d[..4], d[4..];
    assert AllDigits(y) && AllDigits(md);
    assert ParseDigits(md) < 10000 by {
      ParseDigitsBound(md);
      Pow10Four();
    }
    assert ParseDigits(d) == ParseDigits(y) * 10000 + ParseDigits(md) by {
      assert d == y + md;
      ParseDigitsAppend(y, md);
      Pow10Four();
    }
    ParseIntOfDigits(d);
  }

  /** Both halves of a YYYYMMDD string read as the numbers they spell. */
  lemma DateHalves(d: string)
    requires |d| == 8 && AllDigits(d)
    ensures ParseInt(d[..4]) == Some(ParseDigits(d[..4]) as int)
    ensures ParseInt(d[4..]) == Some(ParseDigits(d[4..]) as int)
  {
    assert AllDigits(d[..4]) && AllDigits(d[4..]);
    ParseIntOfDigits(d[..4]);
    ParseIntOfDigits(d[4..]);
  }

  lemma Read0101()
    ensures AllDigits("0101") && ParseDigits("0101") == 101
  {
    assert "0101"[..3] == "010";
    assert "010"[..2] == "01";
    assert "01"[..1] == "0";
    assert "0"[..0] == "";
  }

  lemma Pow10Four()
    ensures Pow10(4) == 10000
  {
    assert Pow10(1) == 10;
    assert Pow10(2) == 100;
    assert Pow10(3) == 1000;
  }

  /** A year's digits followed by 0101 read as year * 10000 + 101. */
  lemma JanuaryFirst(p: string)
    requires p != [] && AllDigits(p)
    ensures ParseInt(p + "0101") == Some(ParseDigits(p) * 10000 + 101)
  {
    JanuaryFirstDigits(p, p + "0101");
    ParseIntOfDigits(p + "0101");
  }

  lemma JanuaryFirstDigits(p: string, x: string)
    requires AllDigits(p) && x == p + "0101"
    ensures AllDigits(x) && x != []
    ensures ParseDigits(x) == ParseDigits(p) * 10000 + 101
  {
    Read0101();
    ParseDigitsAppend(p, "0101");
    Pow10Four();
  }

  /** Once the birth year and both month-days have been read, the shifted
      date is January 1 of the birth year, or of the next one when the
      study's month and day come before the birthday's. */
  lemma ShiftedText(birth: string, study: string, y: int, bd: int, sd: int)
    requires |birth| >= 4 && |study| >= 4
    requires ParseInt(birth[..4]) == Some(y)
    requires ParseInt(birth[4..]) == Some(bd) && ParseInt(study[4..]) == Some(sd)
    ensures ShiftedBirthDate(Text(birth), Text(study)) ==
      Ok(if sd >= bd then birth[..4] + "0101" else FormatInt(y + 1) + "0101")
  {
    assert YearEnd(birth) == 4 && YearEnd(study) == 4;
  }

  /** Once the halves of the dates have been read, the shifted date reads
      as the shifted year * 10000 + 101. */
  lemma ShiftedValue(birth: string, study: string, y: nat, bd: int, sd: int, y': int)
    requires |birth| >= 4 && |study| >= 4
    requires AllDigits(birth[..4]) && ParseDigits(birth[..4]) == y
    requires ParseInt(birth[4..]) == Some(bd) && ParseInt(study[4..]) == Some(sd)
    requires y' == y + (if sd < bd then 1 else 0)
    ensures ShiftedBirthDate(Text(birth), Text(study)).Ok?
    ensures ParseInt(ShiftedBirthDate(Text(birth), Text(study)).value) == Some(y' * 10000 + 101)
  {
    ParseIntOfDigits(birth[..4]);
    if sd >= bd {
      SameYearValue(birth, study, y, bd, sd, y');
    } else {
      NextYearValue(birth, study, y, bd, sd, y');
    }
  }

  lemma SameYearValue(birth: string, study: string, y: nat, bd: int, sd: int, y': int)
    requires |birth| >= 4 && |study| >= 4 && sd >= bd && y' == y
    requires AllDigits(birth[..4]) && ParseDigits(birth[..4]) == y && ParseInt(birth[..4]) == Some(y)
    requires ParseInt(birth[4..]) == Some(bd) && ParseInt(study[4..]) == Some(sd)
    ensures ShiftedBirthDate(Text(birth), Text(study)).Ok?
    ensures ParseInt(ShiftedBirthDate(Text(birth), Text(study)).value) == Some(y' * 10000 + 101)
  {
    var text := birth[..4] + "0101";
    ShiftedText(birth, study, y, bd, sd);
    assert ShiftedBirthDate(Text(birth), Text(study)) == Ok(text);
    JanuaryFirst(birth[..4]);
  }

  lemma NextYearValue(birth: string, study: string, y: nat, bd: int, sd: int, y': int)
    requires |birth| >= 4 && |study| >= 4 && sd < bd && y' == y + 1
    requires ParseInt(birth[..4]) == Some(y)
    requires ParseInt(birth[4..]) == Some(bd) && ParseInt(study[4..]) == Some(sd)
    ensures ShiftedBirthDate(Text(birth), Text(study)).Ok?
    ensures ParseInt(ShiftedBirthDate(Text(birth), Text(study)).value) == Some(y' * 10000 + 101)
  {
    var text := FormatInt(y') + "0101";
    ShiftedText(birth, study, y, bd, sd);
    assert ShiftedBirthDate(Text(birth), Text(study)) == Ok(text);
    NextJanuaryFirst(y');
  }

  /** '%d0101' % next reads back as next * 10000 + 101. */
  lemma NextJanuaryFirst(next: int)
    requires next >= 1
    ensures ParseInt(FormatInt(next) + "0101") == Some(next * 10000 + 101)
  {
    assert FormatInt(next) == Digits(next);
    DigitsRoundTrip(next);
    JanuaryFirst(Digits(next));
  }

  /** The point of the shift: for eight-digit dates and a study month-day of
      at least 0101, a record whose birth date is replaced by the shifted one
      has the same computed age as the original. */
  lemma ShiftPreservesAge(rec: Record, birth: string, study: string)
    requires PatientAge !in rec
    requires PatientBirthDate in rec && rec[PatientBirthDate] == Text(birth)
    requires StudyDate in rec && rec[StudyDate] == Text(study)
    requires |birth| == 8 && AllDigits(birth) && |study| == 8 && AllDigits(study)
    requires ParseDigits(study[4..]) >= 101
    ensures ShiftedBirthDate(Text(birth), Text(study)).Ok?
    ensures Fields.PatientAgeOf(rec[PatientBirthDate := Text(ShiftedBirthDate(Text(birth), Text(study)).value)])
            == Fields.PatientAgeOf(rec)
  {
    var y, r := ParseDigits(birth[..4]), ParseDigits(birth[4..]);
    var s, q := ParseDigits(study[..4]), ParseDigits(study[4..]);
    assert IntOf(Text(birth)) == Some(y * 10000 + r) && r < 10000 by { EightDigitDate(birth); }
    assert IntOf(Text(study)) == Some(s * 10000 + q) && q < 10000 by { EightDigitDate(study); }
    var y' := y + (if q < r then 1 else 0);
    assert AllDigits(birth[..4]);
    DateHalves(birth);
    DateHalves(study);
    ShiftedValue(birth, study, y, r, q, y');
    var shifted := ShiftedBirthDate(Text(birth), Text(study)).value;
    AgeKept(rec, shifted, y, r, s, q, y');
  }

  /** The age arithmetic behind the shift: moving the birth date to January
      1 of the year that leaves the same number of completed years. */
  lemma AgeKept(rec: Record, shifted: string, y: int, r: int, s: int, q: int, y': int)
    requires PatientAge !in rec && PatientBirthDate in rec && StudyDate in rec
    requires rec[PatientBirthDate] != Text("")
    requires 0 <= r < 10000 && 101 <= q < 10000
    requires IntOf(rec[PatientBirthDate]) == Some(y * 10000 + r)
    requires IntOf(rec[StudyDate]) == Some(s * 10000 + q)
    requires y' == y + (if q < r then 1 else 0) && ParseInt(shifted) == Some(y' * 10000 + 101)
    ensures Fields.PatientAgeOf(rec[PatientBirthDate := Text(shifted)]) == Fields.PatientAgeOf(rec)
  {
    Fields.AgeInCompletedYears(rec, y, r, s, q);
    AgeAfterShift(rec, shifted, y', s, q);
    assert s - y' == s - y - (if q < r then 1 else 0);
  }

  /** With the birth date on January 1 of year y', the age is the plain
      difference of the years. */
  lemma AgeAfterShift(rec: Record, shifted: string, y': int, s: int, q: int)
    requires PatientAge !in rec && StudyDate in rec
    requires 101 <= q < 10000
    requires IntOf(rec[StudyDate]) == Some(s * 10000 + q)
    requires ParseInt(shifted) == Some(y' * 10000 + 101)
    ensures Fields.PatientAgeOf(rec[PatientBirthDate := Text(shifted)]) == Ok(Text(FormatPadded(s - y', 3) + "Y"))
  {
    var rec' := rec[PatientBirthDate := Text(shifted)];
    ReadIsNotEmpty(shifted);
    ShiftedRecord(rec, rec', shifted);
    Fields.AgeInCompletedYears(rec', y', 101, s, q);
  }

  /** Writing a birth date leaves the other elements as they were. */
  lemma ShiftedRecord(rec: Record, rec': Record, shifted: string)
    requires rec' == rec[PatientBirthDate := Text(shifted)]
    ensures PatientBirthDate in rec' && rec'[PatientBirthDate] == Text(shifted)
    ensures PatientAge in rec' <==> PatientAge in rec
    ensures StudyDate in rec' <==> StudyDate in rec
    ensures StudyDate in rec ==> rec'[StudyDate] == rec[StudyDate]
  {
  }

  /** Text that int() reads is not empty. */
  lemma ReadIsNotEmpty(t: string)
    requires ParseInt(t).Some?
    ensures t != ""
  {
    assert ParseInt("") == None;
  }

  /** 1990-03-10 becomes 1990-01-01 for a study on 2020-06-15. */
  lemma ShiftKeepsBirthYear(b: string, s: string)
    requires b == "19900310" && s == "20200615"
    ensures ShiftedBirthDate(Text(b), Text(s)) == Ok("19900101")
  {
    assert b[..4] == "1990" && b[4..] == "0310" && s[4..] == "0615";
    assert ParseInt("1990") == Some(1990) by { Read1990(); }
    assert ParseInt("0310") == Some(310) by { Read0310(); }
    assert ParseInt("0615") == Some(615) by { Read0615(); }
    ShiftedText(b, s, 1990, 310, 615);
    JanuaryTexts();
  }

  /** 1990-03-10 becomes 1991-01-01 for a study on 2020-02-15. */
  lemma ShiftMovesToNextYear(b: string, s: string)
    requires b == "19900310" && s == "20200215"
    ensures ShiftedBirthDate(Text(b), Text(s)) == Ok("19910101")
  {
    assert b[..4] == "1990" && b[4..] == "0310" && s[4..] == "0215";
    assert ParseInt("1990") == Some(1990) by { Read1990(); }
    assert ParseInt("0310") == Some(310) by { Read0310(); }
    assert ParseInt("0215") == Some(215) by { Read0215(); }
    ShiftedText(b, s, 1990, 310, 215);
    assert FormatInt(1991) == "1991" by { Format1991(); }
    JanuaryTexts();
  }

  lemma JanuaryTexts()
    ensures "1990" + "0101" == "19900101"
    ensures "1991" + "0101" == "19910101"
    ensures "1975" + "0101" == "19750101"
  {
  }

  lemma Read1990()
    ensures ParseInt("1990") == Some(1990)
  {
    assert "1990"[..3] == "199" && "199"[..2] == "19" && "19"[..1] == "1" && "1"[..0] == "";
    ParseIntOfDigits("1990");
  }

  lemma Read0310()
    ensures ParseInt("0310") == Some(310)
  {
    assert "0310"[..3] == "031" && "031"[..2] == "03" && "03"[..1] == "0" && "0"[..0] == "";
    ParseIntOfDigits("0310");
  }

  lemma Read0615()
    ensures ParseInt("0615") == Some(615)
  {
    assert "0615"[..3] == "061" && "061"[..2] == "06" && "06"[..1] == "0" && "0"[..0] == "";
    ParseIntOfDigits("0615");
  }

  lemma Read0215()
    ensures ParseInt("0215") == Some(215)
  {
    assert "0215"[..3] == "021" && "021"[..2] == "02" && "02"[..1] == "0" && "0"[..0] == "";
    ParseIntOfDigits("0215");
  }

  lemma Read1975()
    ensures ParseInt("1975") == Some(1975)
  {
    assert "1975"[..3] == "197" && "197"[..2] == "19" && "19"[..1] == "1" && "1"[..0] == "";
    ParseIntOfDigits("1975");
  }

  lemma Read0320()
    ensures ParseInt("0320") == Some(320)
  {
    assert "0320"[..3] == "032" && "032"[..2] == "03" && "03"[..1] == "0" && "0"[..0] == "";
    ParseIntOfDigits("0320");
  }

  lemma Format1991()
    ensures FormatInt(1991) == "1991"
  {
    assert Digits(1) == "1";
    assert Digits(19) == "19";
    assert Digits(199) == "199";
    assert Digits(1991) == "1991";
  }

  // ---------------------------------------------------------------------
  // The shared rule map

  /** Two records sorted one after the other with the same rule map: the
      first installs its own shifted birth date d1 into the map, and the
      second then keeps d1, whereas a fresh request would have given it its
      own shifted date d2. */
  lemma SharedRulesCarryFirstShift(first: Record, second: Record, d1: string, d2: string)
    requires PatientBirthDate in first && first[PatientBirthDate] != Text("") && StudyDate in first
    requires PatientBirthDate in second && second[PatientBirthDate] != Text("") && StudyDate in second
    requires ShiftedBirthDate(first[PatientBirthDate], first[StudyDate]) == Ok(d1)
    requires ShiftedBirthDate(second[PatientBirthDate], second[StudyDate]) == Ok(d2)
    ensures var requested := map[PatientBirthDate := ""];
      && InstallRules(requested, first) == Ok(map[PatientBirthDate := d1])
      && InstallRules(map[PatientBirthDate := d1], second) == Ok(map[PatientBirthDate := d1])
      && InstallRules(requested, second) == Ok(map[PatientBirthDate := d2])
  {
    var requested := map[PatientBirthDate := ""];
    assert requested[PatientBirthDate := d1] == map[PatientBirthDate := d1];
    assert requested[PatientBirthDate := d2] == map[PatientBirthDate := d2];
    assert d1 != "" by {
      assert |d1| >= 4;
    }
  }

  /** With the two records 1990-03-10 and 1975-03-20, both studied on
      2020-06-15, the second record's rule says 19900101 where its own shift
      is 19750101. */
  lemma SharedRulesExample()
    ensures var first := map[PatientBirthDate := Text("19900310"), StudyDate := Text("20200615")];
      var second := map[PatientBirthDate := Text("19750320"), StudyDate := Text("20200615")];
      InstallRules(map[PatientBirthDate := "19900101"], second) == Ok(map[PatientBirthDate := "19900101"])
      && InstallRules(map[PatientBirthDate := ""], first) == Ok(map[PatientBirthDate := "19900101"])
      && InstallRules(map[PatientBirthDate := ""], second) == Ok(map[PatientBirthDate := "19750101"])
  {
    var first := map[PatientBirthDate := Text("19900310"), StudyDate := Text("20200615")];
    var second := map[PatientBirthDate := Text("19750320"), StudyDate := Text("20200615")];
    ShiftKeepsBirthYear("19900310", "20200615");
    SecondPatientShift("19750320", "20200615");
    SharedRulesCarryFirstShift(first, second, "19900101", "19750101");
  }

  /** 1975-03-20 becomes 1975-01-01 for a study on 2020-06-15. */
  lemma SecondPatientShift(b: string, s: string)
    requires b == "19750320" && s == "20200615"
    ensures ShiftedBirthDate(Text(b), Text(s)) == Ok("19750101")
  {
    assert b[..4] == "1975" && b[4..] == "0320" && s[4..] == "0615";
    assert ParseInt("1975") == Some(1975) by { Read1975(); }
    assert ParseInt("0320") == Some(320) by { Read0320(); }
    assert ParseInt("0615") == Some(615) by { Read0615(); }
    ShiftedText(b, s, 1975, 320, 615);
    JanuaryTexts();
  }
}
