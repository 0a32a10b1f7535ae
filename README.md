# dicomsort: the per-record sorting logic, in Dafny

dicomsort sorts DICOM files into a folder tree whose names come from the
files' own data elements. An optional set of anonymisation rules replaces
chosen elements on the way. This project models what happens to a single
record in `dicomsort/dicomsorter.py`:

- the `Dicom` wrapper's field lookup, where overrides win over the record;
- the built-in computed fields: series description, image type, patient
  age and file extension;
- the installation of the anonymisation rules, including the birth-date
  shift that keeps the patient's age;
- the destination path: built from templates, or mirrored from the input
  tree;
- the `.copy` suffixes that avoid existing files;
- the write of the rules into the record;
- the `DicomSorter` settings and the number of workers.

Modules, one per file:

- `Values` (values.dfy): element values, records (maps from keyword to
  value), faults, and override entries.
- `PyText` (pytext.dfy): the Python 2 string operations the code relies
  on, namely `str.strip`, `int()`, `%d`, `%0Nd` and `%s`. It proves that
  `%0Nd` and `int()` are inverse.
- `PosixPath` (posixpath.dfy): `os.path.join`, `basename`, `splitext` and
  `relpath`, with their effect on the list of path components.
- `Fields` (fields.dfy): the computed fields and `__getitem__`.
- `Anonymise` (anonymise.dfy): the birth-date shift, rule installation,
  and the merge of rules into overrides.
- `Destinations` (destination.dfy): the destination and mirror paths, the
  collision count, and the anonymised write, all as functions with their
  lemmas.
- `Sorting` (sorting.dfy): the classes `RuleDict` (a Python dictionary
  shared by reference), `Dicom` and `DicomSorter`. Each method's loops are
  proved against the `Destinations` functions. This module also holds
  `Sorter.sort_image`.

Things the model takes as parameters:

- Template filling and cleaning (`utils.recursive_replace_tokens`,
  `clean_directory_name`, `clean_path`) and `rule % self` are functions
  `(Lookup, string) -> Option<string>`. The `Lookup` they are given is the
  wrapper's own `__getitem__` (`Fields.View`): overrides, computed fields,
  then the record. `None` stands for the exception they raise. `utils` is
  not part of this model.
- The filesystem is the set of paths that already exist.
- `utils.isdicom` is an `Option<Record>`.
- The current directory is a string.

Two points of the code that are easy to misread:

- **Patient age before the shift.** Lines 161-162 reassign `PatientAge`
  only when the record already has one (and a `StudyDate`), and `_get_patient_age` then
  returns that same value. The record is therefore unchanged, and the
  model does not change it.
- **Age arithmetic.** Python 2's `/` on integers floors, and Dafny's `/`
  floors too for a positive divisor, so the age is written with `/ 10000`
  directly. Flooring and truncating differ only when the study date comes
  before the birth date.

## Model

| member | source | states |
|---|---|---|
| PyText.Strip | dicomsort/dicomsorter.py:78 | str.strip(): no whitespace at either end, never longer, and text with none is unchanged |
| PyText.LStrip | dicomsort/dicomsorter.py:78 | str.lstrip(): a suffix of the text, not starting with whitespace |
| PyText.LStripSkipsSpace | dicomsort/dicomsorter.py:78 | everything lstrip removes is whitespace |
| PyText.RStrip | dicomsort/dicomsorter.py:78 | str.rstrip(): a prefix of the text, not ending with whitespace |
| PyText.RStripSkipsSpace | dicomsort/dicomsorter.py:78 | everything rstrip removes is whitespace |
| PyText.ParseIntIgnoresSpace | dicomsort/dicomsorter.py:167-168 | dropping a leading or a trailing whitespace character never changes what int() reads |
| PyText.ParseIntSpaceAfterSign | dicomsort/dicomsorter.py:167-168 | int() accepts whitespace between the sign and the digits: '- 5' reads as -5 |
| PyText.ReadFour | dicomsort/dicomsorter.py:173-176 | four digits, such as a birth year, read as the number they spell; the general form of the literal `Anonymise.Read*` facts, which are proved one by one because applying this lemma to literal text makes the verifier unfold `ParseInt` on it |
| PyText.FormatPaddedRoundTrip | dicomsort/dicomsorter.py:68 | '%0Nd' and int() are inverse, and the padded text is exactly max(N, length of '%d') long, the sign included |
| PyText.FormatPaddedShape | dicomsort/dicomsorter.py:68 | '%0Nd' text begins with a sign or digit and ends with a digit |
| PyText.FormatIntRoundTrip | dicomsort/dicomsorter.py:176 | '%d' and int() are inverse |
| PyText.ParseIntOfDigits | dicomsort/dicomsorter.py:167-168 | a non-empty digit string reads as the number it denotes |
| PosixPath.Basename | dicomsort/dicomsorter.py:143 | the part after the last '/': a suffix of the path, with no '/', preceded by '/' if shorter |
| PosixPath.Join | dicomsort/dicomsorter.py:133 | os.path.join of two parts: the definition; its effect on components is JoinComponents |
| PosixPath.Extension | dicomsort/dicomsorter.py:63 | splitext's suffix: empty, or a '.' and then no '.' or '/', with some non-dot before it in the last component; and it is non-empty whenever the last component has a '.' after a non-dot |
| PosixPath.JoinComponents | dicomsort/dicomsorter.py:133 | joining a relative path appends its components |
| PosixPath.JoinAllComponents | dicomsort/dicomsorter.py:126-133 | joining single names one by one adds exactly one component per name |
| PosixPath.RelPath | dicomsort/dicomsorter.py:190 | os.path.relpath on normalised paths: one '..' per component of start past the common prefix, then the rest of the path |
| PosixPath.RelPathBelowStart | dicomsort/dicomsorter.py:190 | relpath of a path below start is relative and consists of the path's components below start |
| PosixPath.RelPathOutsideStart | dicomsort/dicomsorter.py:190 | relpath of a path not below start climbs out with '..' once per component of start past the common prefix, then goes down to the path |
| PosixPath.JoinRelPathOutside | dicomsort/dicomsorter.py:190-191 | joining a root with such a relative path keeps the '..' components after the root's |
| Fields.SeriesLabel | dicomsort/dicomsorter.py:66-78 | _get_series_description: the definition; its shape is SeriesLabelShape |
| Fields.SeriesLabelShape | dicomsort/dicomsorter.py:66-78 | 'Series%04d' alone, 'Series%04d_<desc>' or '<desc>_Series%04d' by seriesFirst, trimmed only at the description's outer end; never with outer whitespace; fails exactly when SeriesNumber is missing or not a number |
| Fields.SeriesLabelExample | dicomsort/dicomsorter.py:74-75 | series 4 with description T1 gives T1_Series0004 |
| Fields.SeriesFirstLabelExample | dicomsort/dicomsorter.py:71-72 | with seriesFirst, series 4 with description T1 gives Series0004_T1 |
| Fields.PatientAgeOf | dicomsort/dicomsorter.py:80-93 | _get_patient_age: the definition; its meaning is AgeInCompletedYears and AgeWithoutComputation |
| Fields.AgeInCompletedYears | dicomsort/dicomsorter.py:80-93 | with YYYYMMDD-shaped dates the age is the completed years at the study date, as '%03dY' |
| Fields.AgeWithoutComputation | dicomsort/dicomsorter.py:84-87 | an existing PatientAge is returned as it is; no or an empty birth date gives '' |
| Fields.ImageTypeName | dicomsort/dicomsorter.py:95-119 | the name _get_image_type returns: the definition; its meaning is ImageTypeClassifies |
| Fields.ImageTypeClassifies | dicomsort/dicomsorter.py:95-119 | no ImageType gives Unknown; a tag set that exactly one rule applies to gets that rule's name whatever the rule order; one no rule applies to gets Image |
| Fields.ImageTypeExamples | dicomsort/dicomsorter.py:100-105 | {ORIGINAL, M, FFE} is Mag, {CSA REPORT} is Phoenix, no tags is Image, no ImageType is Unknown |
| Fields.ImageTypeField | dicomsort/dicomsorter.py:95-119 | _get_image_type with its assignment to InstanceNumber: the definition; its meaning is ImageTypeSideEffect |
| Fields.ImageTypeSideEffect | dicomsort/dicomsorter.py:113-116 | only 3DRecon changes the record, and only InstanceNumber, set to SeriesNumber; asking again changes nothing |
| Fields.DefaultOverrides | dicomsort/dicomsorter.py:52-60 | the three computed fields ImageType, FileExtension and SeriesDescription |
| Fields.Resolve | dicomsort/dicomsorter.py:39-50 | __getitem__: the definition; its meaning is OverridePrecedence |
| Fields.OverridePrecedence | dicomsort/dicomsorter.py:39-50 | a constant override wins whatever the record holds; a computed override gives what its computation gives; without an override the record's element is returned, and missing from both it is an AttributeError; only ImageType's computation changes the record |
| Fields.View | dicomsort/dicomsorter.py:39-50 | the value __getitem__ gives for each name, the lookup templates and rule values are filled in against (lines 128, 138, 209) |
| Anonymise.ShiftedBirthDate | dicomsort/dicomsorter.py:164-176 | the replacement birth date always ends in 0101 |
| Anonymise.ShiftPreservesAge | dicomsort/dicomsorter.py:164-178 | for YYYYMMDD dates, the record with the shifted birth date has the same computed age as the original |
| Anonymise.ShiftKeepsBirthYear | dicomsort/dicomsorter.py:171-173 | 19900310 with a study on 20200615 becomes 19900101 |
| Anonymise.ShiftMovesToNextYear | dicomsort/dicomsorter.py:174-176 | 19900310 with a study on 20200215 becomes 19910101 |
| Anonymise.InstallRules | dicomsort/dicomsorter.py:155-178 | the rule map SetAnonRules leaves: the definition; its meaning is InstalledRules |
| Anonymise.InstalledRules | dicomsort/dicomsorter.py:155-178 | only an empty PatientBirthDate rule is replaced; it stays as given when the record's birth date is empty or there is no StudyDate; otherwise it becomes the shifted birth date, and a failed shift is that failure; a missing birth date is an AttributeError; a non-empty rule installs as itself for every record |
| Anonymise.InstalledRuleKeepsAge | dicomsort/dicomsorter.py:155-178 | for eight-digit dates, an empty PatientBirthDate rule is installed as a date that, written into the record, leaves the computed age as it was |
| Anonymise.MergeOverrides | dicomsort/dicomsorter.py:181 | the defaults overridden by the rules: the keys of both, a rule's value wins, and the other defaults are kept |
| Anonymise.AnonymousIffRules | dicomsort/dicomsorter.py:183-184 | the merged overrides differ from the defaults exactly when there is at least one rule |
| Anonymise.SharedRulesCarryFirstShift | dicomsort/dicomsorter.py:178 | one rule map used for two records: the second keeps the first record's shifted date instead of its own |
| Anonymise.SharedRulesExample | dicomsort/dicomsorter.py:262 | births 19900310 and 19750320, both studied 20200615: the second record gets 19900101 instead of 19750101 |
| Destinations.SegmentsAt | dicomsort/dicomsorter.py:126-133 | folder i is template i filled in, or UNKNOWN |
| Destinations.Destination | dicomsort/dicomsorter.py:121-146 | get_destination as a function of the wrapper's lookup: the definition; its shape is DestinationShape |
| Destinations.DestinationShape | dicomsort/dicomsorter.py:121-146 | the destination is root, one component per folder template (UNKNOWN when it fails), then the file name |
| Destinations.MirrorDestination | dicomsort/dicomsorter.py:189-191 | the mirrored destination, relative to the first input directory: the definition; its meaning is MirrorShape and MirrorEscapesRoot |
| Destinations.MirrorShape | dicomsort/dicomsorter.py:189-191 | a file below the first input directory lands at the same place below the output root |
| Destinations.MirrorEscapesRoot | dicomsort/dicomsorter.py:190-191 | a file not below the first input directory gets a destination that climbs out of the output root with '..' |
| Destinations.MirrorEscapeExample | dicomsort/dicomsorter.py:190-191 | inputs /in/a and /in/b, output /out: /in/b/x.dcm goes to /out/../b/x.dcm |
| Destinations.MirrorDestinationWithin | dicomsort/dicomsorter.py:189-191 | the mirror relative to the first input directory that holds the file |
| Destinations.MirrorWithinShape | dicomsort/dicomsorter.py:189-191 | with that correction, a file below any input directory lands below the output root, at its place below that directory |
| Destinations.MirrorWithinAgrees | dicomsort/dicomsorter.py:189-191 | the correction changes nothing for a file below the first input directory |
| Destinations.CopiesNeeded | dicomsort/dicomsorter.py:202-203 | the number of '.copy' suffixes the loop appends: the definition; its meaning is CopiesNeededLeast |
| Destinations.CopiesNeededLeast | dicomsort/dicomsorter.py:202-203 | the number of '.copy' suffixes is the least one giving a free path, and a free path gets none |
| Destinations.CopiesNeededUnique | dicomsort/dicomsorter.py:202-203 | the least count is the only count with both properties |
| Destinations.AvoidCollision | dicomsort/dicomsorter.py:202-203 | the loop ends on the initial path plus the least number of '.copy' suffixes, which does not exist |
| Destinations.WriteRules | dicomsort/dicomsorter.py:208-213 | the write loop over the keys in a given order, stopping at the first value that cannot be filled in: the definition; its meaning is WriteOnlyExisting and WriteFillsRuleValue |
| Destinations.WriteOnlyExisting | dicomsort/dicomsorter.py:208-213 | the write keeps the record's keys, changes only elements that have a rule, turns each reached one into text, and fails only when a rule value cannot be filled in |
| Destinations.WriteFillsRuleValue | dicomsort/dicomsorter.py:208-213 | when the write completes, each element it reached holds that key's rule value filled in against the wrapper as the write had left it |
| Destinations.WriteStep | dicomsort/dicomsorter.py:208-213 | the last step of a complete write changes only the last key's element |
| Sorting.WorkerCount | dicomsort/dicomsorter.py:370 | at most THREAD_COUNT and at most the number of files, one of the two, and at least one when there is a file |
| Sorting.Dicom.constructor | dicomsort/dicomsorter.py:18-35 | a new wrapper holds the record, the default overrides and no rules |
| Sorting.Dicom.IsAnonymous | dicomsort/dicomsorter.py:183-184 | is_anonymous: the overrides differ from the defaults; AnonymousIffRules gives its meaning |
| Sorting.Dicom.Get | dicomsort/dicomsorter.py:39-50 | the lookup returns what Resolve gives, and the record changes only on a successful computation |
| Sorting.Dicom.SetAnonRules | dicomsort/dicomsorter.py:148-181 | a non-dictionary is rejected and nothing changes; otherwise the caller's own dictionary receives the installed rules, the overrides become the merge, and the wrapper is anonymous exactly when there is a rule; on an error both maps are unchanged |
| Sorting.Dicom.SetAnonRulesOnCopy | dicomsort/dicomsorter.py:148-181 | the same outcome for the wrapper, with the caller's dictionary left unchanged |
| Sorting.Dicom.GetDestination | dicomsort/dicomsorter.py:121-146 | the loop builds exactly Destination, with templates filled in through the wrapper's lookup |
| Sorting.Dicom.WriteAnonymised | dicomsort/dicomsorter.py:208-213 | the record becomes WriteRules over the order the keys were handed out, each rule value filled in through the wrapper's lookup; each key is reached at most once, and every key is reached unless a value cannot be filled in |
| Sorting.Dicom.Sort | dicomsort/dicomsorter.py:186-224 | the mirrored or built destination, only printed in test mode; otherwise made free with '.copy' suffixes, then the record is written and saved if the wrapper is anonymous, or the file is copied or moved |
| Sorting.SortImage | dicomsort/dicomsorter.py:255-278 | a non-DICOM file is skipped; otherwise the dictionary shared by all Sorters ends up holding the installed rules of this record |
| Sorting.SortImageOnCopy | dicomsort/dicomsorter.py:255-278 | the shared dictionary is never changed |
| Sorting.DicomSorter.constructor | dicomsort/dicomsorter.py:304-326 | the input paths default to the current directory, a single path becomes a list, so there is always a first input directory; the other settings get their defaults |
| Sorting.DicomSorter.SetAnonRules | dicomsort/dicomsorter.py:335-344 | a non-dictionary is rejected; otherwise the sorter holds the caller's dictionary itself |
| Sorting.DicomSorter.GetFolderFormat | dicomsort/dicomsorter.py:346-354 | None exactly when the input tree is mirrored, otherwise the folder templates |

## Left out

- pydicom: reading and parsing a file (`read_file`, `utils.isdicom`), `data_element` and `save_as`. A record is a map from keyword to value, and saving is the `SavedAnonymised` action.
- Filesystem effects: `os.walk` enumeration, `utils.mkdir`, `shutil.copy` and `move`, `os.remove`, and `os.path.exists`. Existing paths are a fixed set, and sort returns the action it would take.
- The `print` in test mode: it is the `Printed` action.
- The `Sorter` thread, its queue draining, `IsSorting`, `DicomSorter.Sort`'s file enumeration and worker start, the shared progress counter, and the GUI events. These are about concurrency and presentation. Only the worker count and `sort_image` are modelled.
- `GetAvailableFields`: a directory scan and a parse.
- The internals of `utils.recursive_replace_tokens`, `clean_directory_name` and `clean_path`, and Python's `%` formatting of rule values against the wrapper. These are parameters.
- Side effects of lookups made while a template is filled in: an ImageType lookup that answers 3DRecon would set InstanceNumber. A template is filled in through `Fields.View` of the record as it stands when filling starts.
- The `.encode()` calls on the file name and on rule values. They leave ASCII text unchanged.
- The file extension is taken from the file name the wrapper is given, where line 63 reads `self.dicom.filename`. `sort_image` (lines 256-261) reads the file and wraps it under that same name, so the two agree up to the `.encode()` above.
- `os.path.abspath`, which relpath applies first: paths are taken as already absolute (or relative to the same directory) and normalised, with no `.` or `..`.
- The order in which a Python 2 dictionary yields its items: the ImageType rules are tried in the order they are written. A tag set that several rules apply to (for example {P, FFE, M}) is given no guaranteed answer.
- How Python shows a multi-valued element under '%s': the model writes it as a quoted list.
- Anonymisation keys that are not DICOM keywords. `data_element` returns None for them, and assigning to it raises AttributeError. In the model such a key is skipped like any other key the record lacks.
- The unordered iteration of `types.iteritems()` and `anondict.keys()` is an order the model is given, not one it computes.
- Exceptions other than the ones named by `Fault`. A template that cannot be filled in is a single `None`.
- Sorting.SortImage and Sorting.SortImageOnCopy: state only what happens to the shared dictionary and the installation error, not the resulting action, which Sorting.Dicom.Sort states.
- Anonymise.ShiftPreservesAge: proved for eight-digit dates whose study month and day are at least 0101. Other shapes are covered only by the case-by-case definition of the shift.

## Findings

`Sorting.Dicom.Sort` and `Sorting.SortImage` follow the code as written; the corrected members stand beside them.

| source | as written | input that shows it | evidently intended | confidence | as-written member | corrected member |
|---|---|---|---|---|---|---|
| dicomsort/dicomsorter.py:178 | SetAnonRules writes the shifted birth date into the caller's rule dictionary. sort_image (line 262) passes every record the one dictionary shared by all Sorters, so after the first record the rule is no longer empty, and every later record gets the first patient's shifted date | rule {PatientBirthDate: ''}; first record born 19900310, second born 19750320, both studied 20200615: the second record gets 19900101 instead of its own 19750101 | each record gets the shift of its own birth date, with the caller's dictionary left as given | high; not executed | Anonymise.SharedRulesCarryFirstShift | Sorting.Dicom.SetAnonRulesOnCopy |
| dicomsort/dicomsorter.py:190 | the mirror is taken relative to the first input directory, while the files come from every input directory (line 374 passes all of them) | input directories /in/a and /in/b, output root /out, file /in/b/x.dcm: the destination is /out/../b/x.dcm, outside the output root | each file mirrored relative to the input directory it was found under | medium; not executed | Destinations.MirrorEscapeExample | Destinations.MirrorWithinShape |
