/** The fields a Dicom wrapper computes instead of reading them from the
    record, and the lookup that puts the override map in front of the
    record (dicomsort/dicomsorter.py, class Dicom). */
module Fields {
  import opened Values
  import opened PyText
  import PosixPath

  /** create_default_overrides: the three computed fields every wrapper
      starts with. */
  function DefaultOverrides(): map<string, Override> {
    map[ImageType := Computed(ImageTypeOf),
        FileExtension := Computed(FileExtensionOf),
        SeriesDescription := Computed(SeriesDescriptionOf)]
  }

  // ---------------------------------------------------------------------
  // SeriesDescription

  /** _get_series_description: "Series%04d" alone, or joined with the
      description by '_' in the order seriesFirst asks for, then stripped. */
  function SeriesLabel(rec: Record, seriesFirst: bool): Result<string> {
    if SeriesNumber !in rec then Err(NoAttribute(SeriesNumber))
    else if !rec[SeriesNumber].Number? then Err(BadValue)
    else
      var number := FormatPadded(rec[SeriesNumber].n, 4);
      var out :=
        if SeriesDescription !in rec then "Series" + number
        else if seriesFirst then "Series" + number + "_" + Str(rec[SeriesDescription])
        else Str(rec[SeriesDescription]) + "_Series" + number;
      Ok(Strip(out))
  }

  /** The series tag has no whitespace at either end. */
  lemma SeriesTagShape(n: int)
    ensures var tag := "Series" + FormatPadded(n, 4);
      tag[0] == 'S' && IsDigit(tag[|tag| - 1]) && NoOuterSpace(tag)
  {
    FormatPaddedShape(n, 4);
  }

  /** Description first: only the description's leading whitespace goes. */
  lemma StripBeforeTag(desc: string, back: string, x: string)
    requires back != [] && !IsSpace(back[0]) && !IsSpace(back[|back| - 1])
    requires x == desc + back
    ensures Strip(x) == LStrip(desc) + back
  {
    LStripAppend(desc, back);
    var l := LStrip(desc) + back;
    assert l[|l| - 1] == back[|back| - 1];
    NothingToRStrip(l);
  }

  /** Series number first: only the description's trailing whitespace goes. */
  lemma StripAfterTag(front: string, desc: string, x: string)
    requires front != [] && !IsSpace(front[0]) && !IsSpace(front[|front| - 1])
    requires x == front + desc
    ensures Strip(x) == front + RStrip(desc)
  {
    assert x[0] == front[0];
    NothingToLStrip(x);
    RStripPrepend(front, desc);
  }

  /** What the label is: the zero-padded series tag alone, or tag and
      description around one '_', with whitespace trimmed only off the
      description's outer end; it never has whitespace at either end, and
      it fails exactly when the series number is missing or not a number. */
  lemma SeriesLabelShape(rec: Record, seriesFirst: bool)
    ensures SeriesLabel(rec, seriesFirst).Ok? <==> SeriesNumber in rec && rec[SeriesNumber].Number?
    ensures SeriesNumber !in rec ==> SeriesLabel(rec, seriesFirst) == Err(NoAttribute(SeriesNumber))
    ensures SeriesLabel(rec, seriesFirst).Ok? ==>
      var num := FormatPadded(rec[SeriesNumber].n, 4);
      && NoOuterSpace(SeriesLabel(rec, seriesFirst).value)
      && SeriesLabel(rec, seriesFirst).value ==
           if SeriesDescription !in rec then "Series" + num
           else if seriesFirst then "Series" + num + "_" + RStrip(Str(rec[SeriesDescription]))
           else LStrip(Str(rec[SeriesDescription])) + "_Series" + num
  {
    if SeriesNumber in rec && rec[SeriesNumber].Number? {
      var n := rec[SeriesNumber].n;
      SeriesTagShape(n);
      FormatPaddedShape(n, 4);
      if SeriesDescription !in rec {
        assert SeriesLabel(rec, seriesFirst) == Ok(Strip("Series" + FormatPadded(n, 4)));
      } else if seriesFirst {
        LabelSeriesFirst(Str(rec[SeriesDescription]), FormatPadded(n, 4));
      } else {
        LabelDescriptionFirst(Str(rec[SeriesDescription]), FormatPadded(n, 4));
      }
    }
  }

  /** The two orders of SeriesLabel, for any series number text ending in a
      digit. */
  lemma LabelSeriesFirst(desc: string, num: string)
    requires num != [] && IsDigit(num[|num| - 1])
    ensures Strip("Series" + num + "_" + desc) == "Series" + num + "_" + RStrip(desc)
  {
    var front := "Series" + num + "_";
    assert front[0] == 'S' && front[|front| - 1] == '_';
    StripAfterTag(front, desc, front + desc);
  }

  lemma LabelDescriptionFirst(desc: string, num: string)
    requires num != [] && IsDigit(num[|num| - 1])
    ensures Strip(desc + "_Series" + num) == LStrip(desc) + "_Series" + num
  {
    var back := "_Series" + num;
    assert back[0] == '_' && back[|back| - 1] == num[|num| - 1];
    assert desc + "_Series" + num == desc + back;
    StripBeforeTag(desc, back, desc + back);
    AppendRegroup(LStrip(desc), "_Series", num);
  }

  /** Series 4 described as "T1" is labelled T1_Series0004. */
  lemma SeriesLabelExample(rec: Record)
    requires rec == map[SeriesNumber := Number(4), SeriesDescription := Text("T1")]
    ensures SeriesLabel(rec, false) == Ok("T1_Series0004")
  {
    SeriesLabelShape(rec, false);
    var desc, num := Str(rec[SeriesDescription]), FormatPadded(rec[SeriesNumber].n, 4);
    ExampleParts(rec, desc, num);
    LabelText(desc, num);
  }

  /** ... and Series0004_T1 when the series number goes first. */
  lemma SeriesFirstLabelExample(rec: Record)
    requires rec == map[SeriesNumber := Number(4), SeriesDescription := Text("T1")]
    ensures SeriesLabel(rec, true) == Ok("Series0004_T1")
  {
    SeriesLabelShape(rec, true);
    var desc, num := Str(rec[SeriesDescription]), FormatPadded(rec[SeriesNumber].n, 4);
    ExampleParts(rec, desc, num);
    LabelText(desc, num);
  }

  lemma ExampleParts(rec: Record, desc: string, num: string)
    requires rec == map[SeriesNumber := Number(4), SeriesDescription := Text("T1")]
    requires SeriesNumber in rec && rec[SeriesNumber].Number? && SeriesDescription in rec
    requires desc == Str(rec[SeriesDescription]) && num == FormatPadded(rec[SeriesNumber].n, 4)
    ensures desc == "T1" && num == "0004" && LStrip(desc) == desc && RStrip(desc) == desc
  {
    Padded0004(rec[SeriesNumber].n);
    NothingToLStrip(desc);
    NothingToRStrip(desc);
  }

  lemma LabelText(desc: string, num: string)
    requires desc == "T1" && num == "0004"
    ensures desc + "_Series" + num == "T1_Series0004"
    ensures "Series" + num + "_" + desc == "Series0004_T1"
  {
  }

  lemma Padded0004(n: int)
    requires n == 4
    ensures FormatPadded(n, 4) == "0004"
  {
    assert Digits(n) == "4";
    assert Zeros(3) == "000";
  }

  // ---------------------------------------------------------------------
  // PatientAge

  /** _get_patient_age: an existing age as it is, '' without a birth date,
      otherwise whole years between the two dates read as integers. The
      source divides with Python 2's '/', which floors; Dafny's '/' by a
      positive divisor floors too. */
  function PatientAgeOf(rec: Record): Result<Value> {
    if PatientAge in rec then Ok(rec[PatientAge])
    else if PatientBirthDate !in rec || rec[PatientBirthDate] == Text("") then Ok(Text(""))
    else if StudyDate !in rec then Err(NoAttribute(StudyDate))
    else
      match (IntOf(rec[StudyDate]), IntOf(rec[PatientBirthDate]))
      case (Some(study), Some(birth)) => Ok(Text(FormatPadded((study - birth) / 10000, 3) + "Y"))
      case _ => Err(BadValue)
  }

  /** Whole years from a YYYYMMDD-shaped number y*10000+r to one s*10000+q:
      the year difference, less one if the month and day have not come
      round yet. */
  lemma YearsBetween(y: int, r: int, s: int, q: int)
    requires 0 <= r < 10000 && 0 <= q < 10000
    ensures ((s * 10000 + q) - (y * 10000 + r)) / 10000 == s - y - (if q < r then 1 else 0)
  {
    var k := s - y - (if q < r then 1 else 0);
    var x := (s * 10000 + q) - (y * 10000 + r);
    assert x == (s - y) * 10000 + (q - r);
    assert k * 10000 <= x < k * 10000 + 10000;
  }

  /** The computed age is the patient's age in completed years at the study
      date, whenever both dates read as integers of the form year*10000 +
      month-and-day. */
  lemma AgeInCompletedYears(rec: Record, y: int, r: int, s: int, q: int)
    requires PatientAge !in rec && PatientBirthDate in rec && StudyDate in rec
    requires rec[PatientBirthDate] != Text("")
    requires 0 <= r < 10000 && 0 <= q < 10000
    requires IntOf(rec[PatientBirthDate]) == Some(y * 10000 + r)
    requires IntOf(rec[StudyDate]) == Some(s * 10000 + q)
    ensures PatientAgeOf(rec) == Ok(Text(FormatPadded(s - y - (if q < r then 1 else 0), 3) + "Y"))
  {
    YearsBetween(y, r, s, q);
  }

  /** An age the record already carries wins; no birth date gives ''. */
  lemma AgeWithoutComputation(rec: Record)
    ensures PatientAge in rec ==> PatientAgeOf(rec) == Ok(rec[PatientAge])
    ensures PatientAge !in rec && (PatientBirthDate !in rec || rec[PatientBirthDate] == Text(""))
            ==> PatientAgeOf(rec) == Ok(Text(""))
  {
  }

  // ---------------------------------------------------------------------
  // ImageType

  /** The classification table of _get_image_type, tried in this order: a
      rule applies when all of its tags are among the record's tags. */
  const ImageTypeRules: seq<(string, set<string>)> :=
    [("Phase", {"P"}), ("3DRecon", {"CSA 3D EDITOR"}), ("Phoenix", {"CSA REPORT"}), ("Mag", {"FFE", "M"})]

  /** Python's set() of the ImageType value: the items of a multi-valued
      element, the single characters of a plain string; a number is not
      iterable. */
  function TagSet(v: Value): Option<set<string>> {
    match v
    case Tags(items) => Some(set i | 0 <= i < |items| :: items[i])
    case Text(s) => Some(set i | 0 <= i < |s| :: [s[i]])
    case Number(_) => None
  }

  function FirstMatch(rules: seq<(string, set<string>)>, tags: set<string>): string
    decreases |rules|
  {
    if rules == [] then "Image"
    else if rules[0].1 <= tags then rules[0].0
    else FirstMatch(rules[1..], tags)
  }

  /** The name _get_image_type returns: 'Unknown' without an ImageType, the
      first rule that applies, or 'Image'. */
  function ImageTypeName(rec: Record): Result<string> {
    if ImageType !in rec then Ok("Unknown")
    else
      match TagSet(rec[ImageType])
      case None => Err(BadValue)
      case Some(tags) => Ok(FirstMatch(ImageTypeRules, tags))
  }

  /** When exactly one rule applies, its name is the answer, whatever order
      the rules are tried in. */
  lemma {:induction false} FirstMatchUnique(rules: seq<(string, set<string>)>, tags: set<string>, i: nat)
    requires i < |rules| && rules[i].1 <= tags
    requires forall j :: 0 <= j < |rules| && j != i ==> !(rules[j].1 <= tags)
    ensures FirstMatch(rules, tags) == rules[i].0
    decreases |rules|
  {
    if i > 0 {
      assert !(rules[0].1 <= tags);
      forall j | 0 <= j < |rules| - 1 && j != i - 1
        ensures !(rules[1..][j].1 <= tags)
      {
        assert rules[1..][j] == rules[j + 1];
      }
      FirstMatchUnique(rules[1..], tags, i - 1);
    }
  }

  /** When no rule applies the answer is 'Image'. */
  lemma {:induction false} FirstMatchNone(rules: seq<(string, set<string>)>, tags: set<string>)
    requires forall j :: 0 <= j < |rules| ==> !(rules[j].1 <= tags)
    ensures FirstMatch(rules, tags) == "Image"
    decreases |rules|
  {
    if rules != [] {
      assert !(rules[0].1 <= tags);
      forall j | 0 <= j < |rules| - 1 ensures !(rules[1..][j].1 <= tags) {
        assert rules[1..][j] == rules[j + 1];
      }
      FirstMatchNone(rules[1..], tags);
    }
  }

  /** Classification: no ImageType gives 'Unknown'; a tag set that only
      one rule applies to gets that rule's name; a tag set no rule applies
      to, the empty one included, gets 'Image'. */
  lemma ImageTypeClassifies(rec: Record, i: nat)
    requires i < |ImageTypeRules|
    ensures ImageType !in rec ==> ImageTypeName(rec) == Ok("Unknown")
    ensures ImageType in rec && TagSet(rec[ImageType]).Some? ==>
      var tags := TagSet(rec[ImageType]).value;
      && (ImageTypeRules[i].1 <= tags && (forall j :: 0 <= j < |ImageTypeRules| && j != i ==> !(ImageTypeRules[j].1 <= tags))
          ==> ImageTypeName(rec) == Ok(ImageTypeRules[i].0))
      && ((forall j :: 0 <= j < |ImageTypeRules| ==> !(ImageTypeRules[j].1 <= tags))
          ==> ImageTypeName(rec) == Ok("Image"))
  {
    if ImageType in rec && TagSet(rec[ImageType]).Some? {
      var tags := TagSet(rec[ImageType]).value;
      if ImageTypeRules[i].1 <= tags && (forall j :: 0 <= j < |ImageTypeRules| && j != i ==> !(ImageTypeRules[j].1 <= tags)) {
        FirstMatchUnique(ImageTypeRules, tags, i);
      }
      if forall j :: 0 <= j < |ImageTypeRules| ==> !(ImageTypeRules[j].1 <= tags) {
        FirstMatchNone(ImageTypeRules, tags);
      }
    }
  }

  /** {M, FFE} is 'Mag', {CSA REPORT} is 'Phoenix', no tags is 'Image'. */
  lemma ImageTypeExamples()
    ensures ImageTypeName(map[ImageType := Tags(["ORIGINAL", "M", "FFE"])]) == Ok("Mag")
    ensures ImageTypeName(map[ImageType := Tags(["CSA REPORT"])]) == Ok("Phoenix")
    ensures ImageTypeName(map[ImageType := Tags([])]) == Ok("Image")
    ensures ImageTypeName(map[SeriesNumber := Number(1)]) == Ok("Unknown")
  {
    var mag := Tags(["ORIGINAL", "M", "FFE"]);
    assert TagSet(mag).value == {"ORIGINAL", "M", "FFE"} by {
      var t := TagSet(mag).value;
      assert mag.items[0] in t && mag.items[1] in t && mag.items[2] in t;
    }
    assert "P" != "ORIGINAL" && "CSA 3D EDITOR" != "ORIGINAL" && "CSA REPORT" != "ORIGINAL";
    var phoenix := Tags(["CSA REPORT"]);
    assert TagSet(phoenix).value == {"CSA REPORT"} by {
      assert phoenix.items[0] in TagSet(phoenix).value;
    }
    assert TagSet(Tags([])).value == {};
  }

  /** _get_image_type with its side effect: the '3DRecon' answer also sets
      InstanceNumber to SeriesNumber (and fails if there is none). */
  function ImageTypeField(rec: Record): Result<(Value, Record)> {
    match ImageTypeName(rec)
    case Err(f) => Err(f)
    case Ok(name) =>
      if name == "3DRecon" then
        if SeriesNumber in rec then Ok((Text(name), rec[InstanceNumber := rec[SeriesNumber]]))
        else Err(NoAttribute(SeriesNumber))
      else Ok((Text(name), rec))
  }

  /** Only the '3DRecon' answer changes the record, and then only
      InstanceNumber, which becomes SeriesNumber; asking again afterwards
      gives the same answer and changes nothing more. */
  lemma ImageTypeSideEffect(rec: Record)
    ensures ImageTypeField(rec).Ok? ==>
      var (v, after) := ImageTypeField(rec).value;
      && (v != Text("3DRecon") ==> after == rec)
      && (v == Text("3DRecon") ==>
            && after.Keys == rec.Keys + {InstanceNumber}
            && after[InstanceNumber] == rec[SeriesNumber]
            && forall k :: k in rec && k != InstanceNumber ==> after[k] == rec[k])
      && ImageTypeField(after) == Ok((v, after))
  {
    if ImageTypeField(rec).Ok? {
      var (v, after) := ImageTypeField(rec).value;
      assert ImageType != InstanceNumber;
      assert ImageType in after <==> ImageType in rec;
      assert ImageType in rec ==> after[ImageType] == rec[ImageType];
      assert ImageTypeName(after) == ImageTypeName(rec);
      if v == Text("3DRecon") {
        assert after[InstanceNumber := after[SeriesNumber]] == after;
      }
    }
  }

  // ---------------------------------------------------------------------
  // Lookup

  /** Runs one of the built-in computations: its value and the record
      afterwards. */
  function Compute(kind: Computation, rec: Record, filename: string, seriesFirst: bool): Result<(Value, Record)> {
    match kind
    case ImageTypeOf => ImageTypeField(rec)
    case FileExtensionOf => Ok((Text(PosixPath.Extension(filename)), rec))
    case SeriesDescriptionOf =>
      match SeriesLabel(rec, seriesFirst)
      case Ok(s) => Ok((Text(s), rec))
      case Err(f) => Err(f)
  }

  /** Dicom.__getitem__: the override if there is one (a constant as it is,
      a computation run now), otherwise the record's own element; neither
      is an AttributeError. Also returns the record as the lookup leaves it. */
  function Resolve(overrides: map<string, Override>, rec: Record, filename: string, seriesFirst: bool, name: string)
    : Result<(Value, Record)>
  {
    if name in overrides then
      match overrides[name]
      case Constant(v) => Ok((v, rec))
      case Computed(kind) => Compute(kind, rec, filename, seriesFirst)
    else if name in rec then Ok((rec[name], rec))
    else Err(NoAttribute(name))
  }

  /** What a template filled in through the wrapper sees: for each name,
      the value __getitem__ gives. The change to the record that a 3DRecon
      answer makes is not passed on. */
  function View(overrides: map<string, Override>, rec: Record, filename: string, seriesFirst: bool): Lookup {
    name =>
      match Resolve(overrides, rec, filename, seriesFirst, name)
      case Ok(found) => Ok(found.0)
      case Err(f) => Err(f)
  }

  /** The view for each state of the record, for a loop that changes the
      record as it goes. */
  function Viewer(overrides: map<string, Override>, filename: string, seriesFirst: bool): Record -> Lookup {
    rec => View(overrides, rec, filename, seriesFirst)
  }

  /** Precedence: a constant override is the answer whatever the record
      holds under that name, and a computed one is whatever its computation
      gives, never the record's own element; a name without an override is
      the record's element, and missing from both it is an AttributeError.
      Only the ImageType computation can change the record. */
  lemma OverridePrecedence(overrides: map<string, Override>, rec: Record, filename: string, seriesFirst: bool,
                           name: string, raw: Value)
    ensures name in overrides && overrides[name].Constant? ==>
      && Resolve(overrides, rec, filename, seriesFirst, name) == Ok((overrides[name].v, rec))
      && Resolve(overrides, rec[name := raw], filename, seriesFirst, name).Ok?
      && Resolve(overrides, rec[name := raw], filename, seriesFirst, name).value.0 == overrides[name].v
    ensures name in overrides && overrides[name].Computed? ==>
      Resolve(overrides, rec, filename, seriesFirst, name) == Compute(overrides[name].kind, rec, filename, seriesFirst)
    ensures name !in overrides ==>
      && (Resolve(overrides, rec, filename, seriesFirst, name).Ok? <==> name in rec)
      && (name in rec ==> Resolve(overrides, rec, filename, seriesFirst, name) == Ok((rec[name], rec)))
      && (name !in rec ==> Resolve(overrides, rec, filename, seriesFirst, name) == Err(NoAttribute(name)))
    ensures Resolve(overrides, rec, filename, seriesFirst, name).Ok?
            && !(name in overrides && overrides[name] == Computed(ImageTypeOf))
            ==> Resolve(overrides, rec, filename, seriesFirst, name).value.1 == rec
  {
  }
}
