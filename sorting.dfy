/** The stateful objects of dicomsort/dicomsorter.py: the rule dictionary
    shared by reference, the Dicom wrapper (its override map, rule
    installation, lookup, destination and sort), the per-file step of a
    Sorter, and the DicomSorter settings. */
module Sorting {
  import opened Values
  import PosixPath
  import Fields
  import Anonymise
  import opened Destinations

  /** THREAD_COUNT: at most this many Sorter workers run at once. */
  const ThreadCount: nat := 2

  /** The default file name template of a DicomSorter. */
  const DefaultFileFormat := "%(ImageType)s (%(InstanceNumber)04d)%(FileExtension)s"

  /** A Python dictionary of anonymisation rules; whoever holds a reference
      to it sees every change made through another. */
  class RuleDict {
    var rules: map<string, string>

    constructor (m: map<string, string>)
      ensures rules == m
    {
      rules := m;
    }
  }

  /** What SetAnonRules is given: a dictionary, or any other value. */
  datatype AnonArg = Rules(dict: RuleDict) | NotADict

  /** What sort does with the file once its destination is known: print it
      (test mode), save the anonymised record there (and remove the
      original unless it is kept), or copy or move the file there. */
  datatype Action =
    | Printed(path: string)
    | SavedAnonymised(path: string, removeOriginal: bool)
    | Copied(path: string)
    | Moved(path: string)

  /** min(THREAD_COUNT, number_of_files): never more workers than the
      thread limit or than files, and at least one when there is a file. */
  function WorkerCount(files: nat): (r: nat)
    ensures r <= ThreadCount && r <= files
    ensures r == ThreadCount || r == files
    ensures files > 0 ==> r > 0
  {
    if files < ThreadCount then files else ThreadCount
  }

  class Dicom {
    const filename: string
    var record: Record
    var seriesFirst: bool
    var overrides: map<string, Override>
    var anondict: RuleDict?

    /** Overrides other than the defaults only ever come from a rule
        dictionary, which the wrapper then holds. */
    predicate Valid()
      reads this
    {
      overrides != Fields.DefaultOverrides() ==> anondict != null
    }

    /** Dicom(filename, dcm) for an already parsed record. */
    constructor (filename: string, dcm: Record)
      ensures this.filename == filename && record == dcm && !seriesFirst
      ensures overrides == Fields.DefaultOverrides() && anondict == null
      ensures Valid()
    {
      this.filename := filename;
      record := dcm;
      seriesFirst := false;
      overrides := Fields.DefaultOverrides();
      anondict := null;
    }

    /** is_anonymous. */
    predicate IsAnonymous()
      reads this
    {
      overrides != Fields.DefaultOverrides()
    }

    /** __getitem__: the value Resolve gives; only a computation that
        succeeds can change the record. */
    method Get(name: string) returns (r: Result<Value>)
      modifies this`record
      ensures var res := Fields.Resolve(overrides, old(record), filename, seriesFirst, name);
        && (res.Ok? ==> r == Ok(res.value.0) && record == res.value.1)
        && (res.Err? ==> r == Err(res.fault) && record == old(record))
    {
      var res := Fields.Resolve(overrides, record, filename, seriesFirst, name);
      match res
      case Ok(pair) =>
        record := pair.1;
        r := Ok(pair.0);
      case Err(f) =>
        r := Err(f);
    }

    /** SetAnonRules as written: a non-dictionary is rejected and changes
        nothing; otherwise the wrapper keeps a reference to the caller's
        dictionary, installs the shifted birth date into that very
        dictionary, and takes the defaults overridden by its rules. An
        error during installation leaves both maps as they were. The
        wrapper is anonymous exactly when there is at least one rule. */
    method SetAnonRules(anon: AnonArg) returns (o: Outcome)
      requires Valid()
      modifies this`anondict, this`overrides, if anon.Rules? then {anon.dict} else {}
      ensures Valid()
      ensures anon.NotADict? ==> o == Fail(InvalidRules) && anondict == old(anondict) && overrides == old(overrides)
      ensures anon.Rules? ==>
        && anondict == anon.dict
        && match Anonymise.InstallRules(old(anon.dict.rules), record)
           case Ok(m) =>
             && o == Pass && anon.dict.rules == m && overrides == Anonymise.MergeOverrides(m)
             && (IsAnonymous() <==> m != map[])
           case Err(f) =>
             o == Fail(f) && anon.dict.rules == old(anon.dict.rules) && overrides == old(overrides)
    {
      if anon.NotADict? {
        return Fail(InvalidRules);
      }
      anondict := anon.dict;
      match Anonymise.InstallRules(anon.dict.rules, record)
      case Err(f) =>
        o := Fail(f);
      case Ok(m) =>
        anon.dict.rules := m;
        overrides := Anonymise.MergeOverrides(m);
        Anonymise.AnonymousIffRules(m);
        o := Pass;
    }

    /** SetAnonRules as evidently intended: the same outcome for this
        wrapper, but the shifted birth date goes into a private copy of the
        rules, so the caller's dictionary, and every other record sorted
        with it, is unaffected. */
    method SetAnonRulesOnCopy(anon: AnonArg) returns (o: Outcome)
      requires Valid()
      modifies this`anondict, this`overrides
      ensures Valid()
      ensures anon.NotADict? ==> o == Fail(InvalidRules) && anondict == old(anondict) && overrides == old(overrides)
      ensures anon.Rules? ==>
        && anon.dict.rules == old(anon.dict.rules)
        && anondict != null && fresh(anondict)
        && match Anonymise.InstallRules(anon.dict.rules, record)
           case Ok(m) =>
             && o == Pass && anondict.rules == m && overrides == Anonymise.MergeOverrides(m)
             && (IsAnonymous() <==> m != map[])
           case Err(f) =>
             o == Fail(f) && anondict.rules == anon.dict.rules && overrides == old(overrides)
    {
      if anon.NotADict? {
        return Fail(InvalidRules);
      }
      var copy := new RuleDict(anon.dict.rules);
      anondict := copy;
      match Anonymise.InstallRules(copy.rules, record)
      case Err(f) =>
        o := Fail(f);
      case Ok(m) =>
        copy.rules := m;
        overrides := Anonymise.MergeOverrides(m);
        Anonymise.AnonymousIffRules(m);
        o := Pass;
    }

    /** get_destination: one folder per template, then the file name. */
    method GetDestination(root: string, dirFormat: seq<string>, fileFormat: string,
                          dirRender: Render, fileRender: Render) returns (out: string)
      ensures out == Destination(root, dirFormat, fileFormat, dirRender, fileRender,
                                 Fields.View(overrides, record, filename, seriesFirst), filename)
    {
      var view := Fields.View(overrides, record, filename, seriesFirst);
      var directory := root;
      for i := 0 to |dirFormat|
        invariant directory == PosixPath.JoinAll(root, Segments(dirRender, view, dirFormat[..i]))
      {
        var subdir := match dirRender(view, dirFormat[i]) case Some(s) => s case None => "UNKNOWN";
        assert dirFormat[..i + 1][..i] == dirFormat[..i];
        directory := PosixPath.Join(directory, subdir);
      }
      assert dirFormat[..|dirFormat|] == dirFormat;
      var name := match fileRender(view, fileFormat) case Some(f) => f case None => PosixPath.Basename(filename);
      out := PosixPath.Join(directory, name);
    }

    /** The loop of sort that writes the rules into the record, in the
        order the dictionary hands out its keys (returned as order): the
        record becomes what WriteRules gives for that order, and the loop
        reaches every key unless a rule value cannot be filled in. */
    method WriteAnonymised(fill: Render) returns (o: Outcome, ghost order: seq<string>)
      requires anondict != null
      modifies this`record
      ensures KeysOnce(order, anondict.rules)
      ensures o.Pass? ==> Covers(order, anondict.rules)
      ensures (record, o) == WriteRules(anondict.rules, order, old(record), fill, Fields.Viewer(overrides, filename, seriesFirst))
    {
      var rules := anondict.rules;
      var keys := rules.Keys;
      var see := Fields.Viewer(overrides, filename, seriesFirst);
      order := [];
      o := Pass;
      while keys != {}
        invariant keys <= rules.Keys
        invariant KeysOnce(order, rules)
        invariant forall k :: k in order ==> k !in keys
        invariant forall k :: k in rules ==> k in order || k in keys
        invariant (record, o) == WriteRules(rules, order, old(record), fill, see)
        invariant o == Pass
        decreases keys
      {
        var k :| k in keys;
        var replacement := fill(see(record), rules[k]);
        WriteAppend(rules, order, k, old(record), fill, see);
        order := order + [k];
        keys := keys - {k};
        if replacement.None? {
          o := Fail(FormatFailed);
          return;
        }
        if k in record {
          record := record[k := Text(replacement.value)];
        }
      }
    }

    /** sort: the destination is the mirrored path (dirFields None) or the
        one get_destination builds; test mode only reports it. Otherwise
        '.copy' is appended as often as CopiesNeeded says, and an anonymous
        wrapper writes its rules into the record and saves it there, while
        any other copies or moves the file there. */
    method Sort(root: string, dirFields: Option<seq<string>>, fnameString: string, test: bool,
                rootdir: seq<string>, keepOriginal: bool, existing: set<string>,
                dirRender: Render, fileRender: Render, fill: Render)
      returns (r: Result<Action>, ghost order: seq<string>)
      requires Valid()
      modifies this`record
      ensures var dest := if dirFields.None? then MirrorDestination(root, filename, rootdir)
                          else Ok(Destination(root, dirFields.value, fnameString, dirRender, fileRender,
                                                  Fields.View(overrides, old(record), filename, seriesFirst), filename));
        && (dest.Err? ==> r == Err(dest.fault) && record == old(record))
        && (dest.Ok? && test ==> r == Ok(Printed(dest.value)) && record == old(record))
        && (dest.Ok? && !test ==>
              var final := dest.value + Copies(CopiesNeeded(dest.value, existing));
              if IsAnonymous() then
                && KeysOnce(order, anondict.rules)
                && var written := WriteRules(anondict.rules, order, old(record), fill, Fields.Viewer(overrides, filename, seriesFirst));
                && (written.1.Pass? ==> Covers(order, anondict.rules))
                && record == written.0
                && r == (if written.1.Pass? then Ok(SavedAnonymised(final, !keepOriginal)) else Err(written.1.fault))
              else
                record == old(record) && r == Ok(if keepOriginal then Copied(final) else Moved(final)))
    {
      order := [];
      var dest: string;
      if dirFields.None? {
        var mirrored := MirrorDestination(root, filename, rootdir);
        if mirrored.Err? {
          return Err(mirrored.fault), order;
        }
        dest := mirrored.value;
      } else {
        dest := GetDestination(root, dirFields.value, fnameString, dirRender, fileRender);
      }
      if test {
        return Ok(Printed(dest)), order;
      }
      var final := AvoidCollision(dest, existing);
      if IsAnonymous() {
        var o;
        o, order := WriteAnonymised(fill);
        if o.Fail? {
          return Err(o.fault), order;
        }
        r := Ok(SavedAnonymised(final, !keepOriginal));
      } else {
        r := Ok(if keepOriginal then Copied(final) else Moved(final));
      }
    }
  }

  /** Sorter.sort_image as written: a file that is not DICOM is skipped; a
      record installs its rules into the dictionary every Sorter shares, so
      after the first record with a birth date and a study date the shared
      dictionary holds that record's shifted date. */
  method SortImage(filename: string, dcm: Option<Record>, shared: RuleDict, seriesFirst: bool, keepFilename: bool,
                   outDir: string, dirFormat: Option<seq<string>>, fileFormat: string, test: bool,
                   root: seq<string>, keepOriginal: bool, existing: set<string>,
                   dirRender: Render, fileRender: Render, fill: Render)
    returns (r: Result<Option<Action>>)
    modifies shared
    ensures dcm.None? ==> r == Ok(None) && shared.rules == old(shared.rules)
    ensures dcm.Some? ==>
      match Anonymise.InstallRules(old(shared.rules), dcm.value)
      case Err(f) => r == Err(f) && shared.rules == old(shared.rules)
      case Ok(m) => shared.rules == m
  {
    if dcm.None? {
      return Ok(None);
    }
    var d := new Dicom(filename, dcm.value);
    var o := d.SetAnonRules(Rules(shared));
    if o.Fail? {
      return Err(o.fault);
    }
    ghost var installed := shared.rules;
    assert Anonymise.InstallRules(old(shared.rules), dcm.value) == Ok(installed);
    d.seriesFirst := seriesFirst;
    var outputName := if keepFilename then PosixPath.Basename(filename) else fileFormat;
    var action, _ := d.Sort(outDir, dirFormat, outputName, test, root, keepOriginal, existing, dirRender, fileRender, fill);
    assert shared.rules == installed;
    r := match action case Ok(a) => Ok(Some(a)) case Err(f) => Err(f);
  }

  /** Sorter.sort_image with the rules installed on a copy: the shared
      dictionary is never changed, so every record is anonymised with its
      own shifted birth date. */
  method SortImageOnCopy(filename: string, dcm: Option<Record>, shared: RuleDict, seriesFirst: bool, keepFilename: bool,
                         outDir: string, dirFormat: Option<seq<string>>, fileFormat: string, test: bool,
                         root: seq<string>, keepOriginal: bool, existing: set<string>,
                         dirRender: Render, fileRender: Render, fill: Render)
    returns (r: Result<Option<Action>>)
    ensures shared.rules == old(shared.rules)
    ensures dcm.None? ==> r == Ok(None)
    ensures dcm.Some? && Anonymise.InstallRules(shared.rules, dcm.value).Err? ==>
      r == Err(Anonymise.InstallRules(shared.rules, dcm.value).fault)
  {
    if dcm.None? {
      return Ok(None);
    }
    var d := new Dicom(filename, dcm.value);
    var o := d.SetAnonRulesOnCopy(Rules(shared));
    if o.Fail? {
      return Err(o.fault);
    }
    d.seriesFirst := seriesFirst;
    var outputName := if keepFilename then PosixPath.Basename(filename) else fileFormat;
    var action, _ := d.Sort(outDir, dirFormat, outputName, test, root, keepOriginal, existing, dirRender, fileRender, fill);
    r := match action case Ok(a) => Ok(Some(a)) case Err(f) => Err(f);
  }

  /** What DicomSorter is given as its path: nothing, one path, or a list. */
  datatype PathArg = NoPath | OnePath(path: string) | PathList(paths: seq<string>)

  class DicomSorter {
    var pathname: seq<string>
    var folders: Option<seq<string>>
    var filename: string
    var anondict: RuleDict
    var keepFilename: bool
    var seriesFirst: bool
    var keepOriginal: bool

    /** DicomSorter(pathname): a missing or empty path means the current
        directory, a single path becomes a one-element list, so there is
        always a first input directory for the mirror branch of sort. */
    constructor (pathArg: PathArg, cwd: string)
      ensures pathname == match pathArg
        case NoPath => [cwd]
        case OnePath(p) => if p == "" then [cwd] else [p]
        case PathList(ps) => if ps == [] then [cwd] else ps
      ensures pathname != []
      ensures folders == Some([]) && filename == DefaultFileFormat
      ensures fresh(anondict) && anondict.rules == map[]
      ensures !keepFilename && !seriesFirst && keepOriginal
    {
      pathname := match pathArg
        case NoPath => [cwd]
        case OnePath(p) => if p == "" then [cwd] else [p]
        case PathList(ps) => if ps == [] then [cwd] else ps;
      folders := Some([]);
      filename := DefaultFileFormat;
      anondict := new RuleDict(map[]);
      keepFilename := false;
      seriesFirst := false;
      keepOriginal := true;
    }

    /** DicomSorter.SetAnonRules: a non-dictionary is rejected; otherwise
        the sorter keeps a reference to the caller's dictionary itself. */
    method SetAnonRules(anon: AnonArg) returns (o: Outcome)
      modifies this`anondict
      ensures anon.NotADict? ==> o == Fail(InvalidRules) && anondict == old(anondict)
      ensures anon.Rules? ==> o == Pass && anondict == anon.dict
    {
      if anon.NotADict? {
        return Fail(InvalidRules);
      }
      anondict := anon.dict;
      o := Pass;
    }

    /** GetFolderFormat: None when the input tree is to be mirrored,
        otherwise the folder templates (a copy, which a sequence value
        always is). */
    function GetFolderFormat(): (r: Option<seq<string>>)
      reads this
      ensures r.None? <==> folders.None?
      ensures r.Some? ==> r.value == folders.value
    {
      folders
    }
  }
}
