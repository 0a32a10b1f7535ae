/** Where Dicom.sort puts a file (dicomsort/dicomsorter.py, get_destination
    and sort): the path built from the folder and file templates, the
    mirror of the input tree, the '.copy' suffixes that avoid existing
    files, and the write of the anonymisation rules into the record. */
module Destinations {
  import opened Values
  import PosixPath

  /** A template filled in through the wrapper's lookup and cleaned for use
      in a path (utils.recursive_replace_tokens followed by
      clean_directory_name or clean_path), or a rule value formatted with
      '%' against the wrapper. The lookup is Dicom.__getitem__, so the
      template sees anonymised constants and computed fields. None is the
      error a missing field raises. */
  type Render = (Lookup, string) -> Option<string>

  // ---------------------------------------------------------------------
  // get_destination

  /** One folder: the filled-in template, or UNKNOWN when it cannot be
      filled in. */
  function Segment(render: Render, view: Lookup, item: string): string {
    match render(view, item)
    case Some(s) => s
    case None => "UNKNOWN"
  }

  function Segments(render: Render, view: Lookup, items: seq<string>): (r: seq<string>)
    ensures |r| == |items|
    decreases |items|
  {
    if items == [] then []
    else Segments(render, view, items[..|items| - 1]) + [Segment(render, view, items[|items| - 1])]
  }

  /** The file name: the filled-in template, or the basename of the file
      being sorted when it cannot be filled in. */
  function FileName(render: Render, view: Lookup, fileFormat: string, filename: string): string {
    match render(view, fileFormat)
    case Some(f) => f
    case None => PosixPath.Basename(filename)
  }

  /** The path get_destination returns. */
  function Destination(root: string, dirFormat: seq<string>, fileFormat: string,
                       dirRender: Render, fileRender: Render, view: Lookup, filename: string): string
  {
    PosixPath.Join(PosixPath.JoinAll(root, Segments(dirRender, view, dirFormat)),
                   FileName(fileRender, view, fileFormat, filename))
  }

  /** Segment i is folder template i filled in, or UNKNOWN. */
  lemma {:induction false} SegmentsAt(render: Render, view: Lookup, items: seq<string>, i: nat)
    requires i < |items|
    ensures Segments(render, view, items)[i] == Segment(render, view, items[i])
    decreases |items|
  {
    if i < |items| - 1 {
      SegmentsAt(render, view, items[..|items| - 1], i);
    }
  }

  /** When every filled-in folder name is a single non-empty name, the
      destination is root, then exactly one component per folder template
      (UNKNOWN for those that cannot be filled in), then the file name. */
  lemma DestinationShape(root: string, dirFormat: seq<string>, fileFormat: string,
                         dirRender: Render, fileRender: Render, view: Lookup, filename: string)
    requires forall i :: 0 <= i < |dirFormat| && dirRender(view, dirFormat[i]).Some? ==>
               dirRender(view, dirFormat[i]).value != [] && '/' !in dirRender(view, dirFormat[i]).value
    requires var f := FileName(fileRender, view, fileFormat, filename); f == [] || f[0] != '/'
    ensures var segs := Segments(dirRender, view, dirFormat);
      && |segs| == |dirFormat|
      && (forall i :: 0 <= i < |dirFormat| ==>
            segs[i] == if dirRender(view, dirFormat[i]).Some? then dirRender(view, dirFormat[i]).value else "UNKNOWN")
      && PosixPath.Components(Destination(root, dirFormat, fileFormat, dirRender, fileRender, view, filename))
         == PosixPath.Components(root) + segs + PosixPath.Components(FileName(fileRender, view, fileFormat, filename))
  {
    var segs := Segments(dirRender, view, dirFormat);
    forall i | 0 <= i < |dirFormat|
      ensures segs[i] == if dirRender(view, dirFormat[i]).Some? then dirRender(view, dirFormat[i]).value else "UNKNOWN"
      ensures segs[i] != [] && '/' !in segs[i]
    {
      SegmentsAt(dirRender, view, dirFormat, i);
    }
    PosixPath.JoinAllComponents(root, segs);
    PosixPath.JoinComponents(PosixPath.JoinAll(root, segs), FileName(fileRender, view, fileFormat, filename));
  }

  // ---------------------------------------------------------------------
  // The mirror branch of sort

  /** os.path.join(root, os.path.relpath(filename, rootdir[0])): no first
      input directory is an error (IndexError), and so is an empty file
      name (relpath's ValueError). */
  function MirrorDestination(root: string, filename: string, rootdir: seq<string>): Result<string> {
    if rootdir == [] || filename == [] then Err(BadValue)
    else Ok(PosixPath.Join(root, PosixPath.RelPath(filename, rootdir[0])))
  }

  /** A file below the first input directory lands at the same place below
      root: root's components followed by the file's components below the
      input directory. */
  lemma MirrorShape(root: string, filename: string, rootdir: seq<string>)
    requires rootdir != [] && filename != []
    requires var s, p := PosixPath.Components(rootdir[0]), PosixPath.Components(filename);
      |s| < |p| && p[..|s|] == s
    ensures MirrorDestination(root, filename, rootdir).Ok?
    ensures PosixPath.Components(MirrorDestination(root, filename, rootdir).value)
            == PosixPath.Components(root) + PosixPath.Components(filename)[|PosixPath.Components(rootdir[0])|..]
  {
    var rel := PosixPath.RelPath(filename, rootdir[0]);
    PosixPath.RelPathBelowStart(filename, rootdir[0]);
    PosixPath.JoinComponents(root, rel);
  }

  /** As written, the mirror is taken relative to the first input directory
      only, although every input directory is searched: a file under
      another input directory that is not inside the first climbs out of
      the output root, with one '..' per component of the first directory
      below what the two paths share. */
  lemma MirrorEscapesRoot(root: string, filename: string, rootdir: seq<string>)
    requires rootdir != [] && filename != []
    requires PosixPath.CommonPrefixLength(PosixPath.Components(rootdir[0]), PosixPath.Components(filename))
             < |PosixPath.Components(rootdir[0])|
    ensures MirrorDestination(root, filename, rootdir).Ok?
    ensures var s, p := PosixPath.Components(rootdir[0]), PosixPath.Components(filename);
      var i := PosixPath.CommonPrefixLength(s, p);
      PosixPath.Components(MirrorDestination(root, filename, rootdir).value)
      == PosixPath.Components(root) + (PosixPath.Climb(|s| - i) + p[i..])
  {
    var start := rootdir[0];
    assert MirrorDestination(root, filename, rootdir) == Ok(PosixPath.Join(root, PosixPath.RelPath(filename, start)));
    PosixPath.JoinRelPathOutside(root, filename, start);
  }

  /** With input directories /in/a and /in/b and output root /out, the file
      /in/b/x.dcm is sent to /out/../b/x.dcm, outside the output root. */
  lemma MirrorEscapeExample(root: string, filename: string, rootdir: seq<string>)
    requires root == "/out" && filename == "/in/b/x.dcm" && rootdir == ["/in/a", "/in/b"]
    ensures MirrorDestination(root, filename, rootdir) == Ok("/out/../b/x.dcm")
  {
    var start := rootdir[0];
    var rel := PosixPath.RelPath(filename, start);
    assert rel == "../b/x.dcm" by { RelPathExample(filename, start); }
    assert MirrorDestination(root, filename, rootdir) == Ok(PosixPath.Join(root, rel));
    JoinExample(root, rel);
  }

  lemma JoinExample(root: string, rel: string)
    requires root == "/out" && rel == "../b/x.dcm"
    ensures PosixPath.Join(root, rel) == "/out/../b/x.dcm"
  {
  }

  lemma RelPathExample(path: string, start: string)
    requires path == "/in/b/x.dcm" && start == "/in/a"
    ensures PosixPath.RelPath(path, start) == "../b/x.dcm"
  {
    ComponentsOfTwo("in", "a", start);
    ExampleFileComponents(path);
    RelPathOfExample(path, start, PosixPath.Components(start), PosixPath.Components(path));
    JoinAllExample();
  }

  lemma ExampleFileComponents(path: string)
    requires path == "/in/b/x.dcm"
    ensures PosixPath.Components(path) == ["in", "b", "x.dcm"]
  {
    var dir := path[..5];
    ComponentsOfTwo("in", "b", dir);
    ComponentsAfter(dir, "x.dcm", path);
  }

  lemma RelPathOfExample(path: string, start: string, s: seq<string>, p: seq<string>)
    requires path != []
    requires s == PosixPath.Components(start) && s == ["in", "a"]
    requires p == PosixPath.Components(path) && p == ["in", "b", "x.dcm"]
    ensures PosixPath.RelPath(path, start) == PosixPath.JoinAll("..", ["b", "x.dcm"])
  {
    assert PosixPath.CommonPrefixLength(s, p) == 1 by {
      assert s[1..] == ["a"] && p[1..] == ["b", "x.dcm"];
    }
    var rel := PosixPath.Climb(1) + p[1..];
    assert rel == ["..", "b", "x.dcm"];
    assert rel[0] == ".." && rel[1..] == ["b", "x.dcm"];
  }

  lemma JoinAllExample()
    ensures PosixPath.JoinAll("..", ["b", "x.dcm"]) == "../b/x.dcm"
  {
    assert ["b", "x.dcm"][..1] == ["b"] && ["b"][..0] == [];
    assert PosixPath.JoinAll("..", ["b"]) == PosixPath.Join("..", "b");
    assert PosixPath.Join("..", "b") == "../b";
    assert PosixPath.Join("../b", "x.dcm") == "../b/x.dcm";
  }

  /** /a/b has the two components a and b. */
  lemma ComponentsOfTwo(a: string, b: string, p: string)
    requires a != [] && '/' !in a && b != [] && '/' !in b
    requires p == "/" + a + "/" + b
    ensures PosixPath.Components(p) == [a, b]
  {
    assert "/" + a == "" + "/" + a;
    PosixPath.ComponentsAround("", a);
    PosixPath.NameIsOneComponent(a);
    assert PosixPath.Components("") == [];
    PosixPath.ComponentsAround("/" + a, b);
    PosixPath.NameIsOneComponent(b);
  }

  /** A name put after a path adds that one component. */
  lemma ComponentsAfter(d: string, name: string, p: string)
    requires name != [] && '/' !in name && p == d + "/" + name
    ensures PosixPath.Components(p) == PosixPath.Components(d) + [name]
  {
    PosixPath.ComponentsAround(d, name);
    PosixPath.NameIsOneComponent(name);
  }

  /** Whether a path lies strictly below a directory, component by
      component. */
  predicate Below(path: string, dir: string) {
    var s, p := PosixPath.Components(dir), PosixPath.Components(path);
    |s| < |p| && p[..|s|] == s
  }

  /** The first input directory, from index from on, that path lies below,
      or |rootdir| when there is none. */
  function FirstContaining(path: string, rootdir: seq<string>, from: nat): (k: nat)
    requires from <= |rootdir|
    ensures from <= k <= |rootdir|
    ensures k < |rootdir| ==> Below(path, rootdir[k])
    ensures forall j :: from <= j < k ==> !Below(path, rootdir[j])
    decreases |rootdir| - from
  {
    if from == |rootdir| then from
    else if Below(path, rootdir[from]) then from
    else FirstContaining(path, rootdir, from + 1)
  }

  /** The mirror as evidently intended: relative to the input directory the
      file was found under (the first one that holds it), and relative to
      the first input directory, as written, for a file under none. */
  function MirrorDestinationWithin(root: string, filename: string, rootdir: seq<string>): Result<string> {
    if rootdir == [] || filename == [] then Err(BadValue)
    else
      var k := FirstContaining(filename, rootdir, 0);
      var start := if k < |rootdir| then rootdir[k] else rootdir[0];
      Ok(PosixPath.Join(root, PosixPath.RelPath(filename, start)))
  }

  /** A file below any input directory lands below the output root, at its
      place below the first input directory that holds it. */
  lemma MirrorWithinShape(root: string, filename: string, rootdir: seq<string>, k: nat)
    requires filename != [] && k < |rootdir| && Below(filename, rootdir[k])
    ensures MirrorDestinationWithin(root, filename, rootdir).Ok?
    ensures var j := FirstContaining(filename, rootdir, 0);
      && j <= k && Below(filename, rootdir[j])
      && PosixPath.Components(MirrorDestinationWithin(root, filename, rootdir).value)
         == PosixPath.Components(root) + PosixPath.Components(filename)[|PosixPath.Components(rootdir[j])|..]
  {
    var j := FirstContaining(filename, rootdir, 0);
    PosixPath.RelPathBelowStart(filename, rootdir[j]);
    PosixPath.JoinComponents(root, PosixPath.RelPath(filename, rootdir[j]));
  }

  /** Where the first input directory holds the file, the correction
      changes nothing. */
  lemma MirrorWithinAgrees(root: string, filename: string, rootdir: seq<string>)
    requires rootdir != [] && Below(filename, rootdir[0])
    ensures MirrorDestinationWithin(root, filename, rootdir) == MirrorDestination(root, filename, rootdir)
  {
  }

  // ---------------------------------------------------------------------
  // Collision avoidance

  /** k copies of the '.copy' suffix. */
  function Copies(k: nat): (r: string)
    ensures |r| == 5 * k
  {
    if k == 0 then "" else ".copy" + Copies(k - 1)
  }

  lemma {:induction false} CopiesStep(k: nat)
    ensures Copies(k) + ".copy" == ".copy" + Copies(k)
  {
    if k > 0 {
      CopiesStep(k - 1);
      assert Copies(k) + ".copy" == ".copy" + (Copies(k - 1) + ".copy");
    }
  }

  /** The existing paths at least n characters long. */
  function LongerPaths(existing: set<string>, n: nat): set<string> {
    set q | q in existing && |q| >= n
  }

  lemma LongerPathsShrink(existing: set<string>, p: string)
    requires p in existing
    ensures |LongerPaths(existing, |p| + 5)| < |LongerPaths(existing, |p|)|
  {
    var a, b := LongerPaths(existing, |p| + 5), LongerPaths(existing, |p|);
    assert p !in a && a + {p} <= b;
    SubsetSize(a + {p}, b);
  }

  lemma {:induction false} SubsetSize<T>(a: set<T>, b: set<T>)
    requires a <= b
    ensures |a| <= |b|
    decreases |a|
  {
    if a != {} {
      var x :| x in a;
      SubsetSize(a - {x}, b - {x});
    }
  }

  /** How many '.copy' suffixes the while loop of sort appends. */
  function CopiesNeeded(p: string, existing: set<string>): nat
    decreases |LongerPaths(existing, |p|)|
  {
    if p !in existing then 0
    else
      LongerPathsShrink(existing, p);
      1 + CopiesNeeded(p + ".copy", existing)
  }

  /** It is the least count that leads to a path that does not exist: the
      result is free, every shorter suffixing exists, and a free path gets
      no suffix. */
  lemma {:induction false} CopiesNeededLeast(p: string, existing: set<string>)
    ensures p + Copies(CopiesNeeded(p, existing)) !in existing
    ensures forall j :: 0 <= j < CopiesNeeded(p, existing) ==> p + Copies(j) in existing
    ensures p !in existing ==> CopiesNeeded(p, existing) == 0
    decreases |LongerPaths(existing, |p|)|
  {
    if p !in existing {
      assert p + Copies(0) == p;
    } else {
      LongerPathsShrink(existing, p);
      var q := p + ".copy";
      var k := CopiesNeeded(q, existing);
      CopiesNeededLeast(q, existing);
      assert p + Copies(k + 1) == q + Copies(k) by { SuffixSplit(p, k); }
      forall j | 0 <= j < k + 1 ensures p + Copies(j) in existing {
        if j == 0 {
          assert p + Copies(0) == p;
        } else {
          SuffixSplit(p, j - 1);
        }
      }
    }
  }

  lemma SuffixSplit(p: string, k: nat)
    ensures p + Copies(k + 1) == (p + ".copy") + Copies(k)
  {
    assert Copies(k + 1) == ".copy" + Copies(k);
  }

  /** The least count is the only count with both properties. */
  lemma CopiesNeededUnique(p: string, existing: set<string>, k: nat)
    requires p + Copies(k) !in existing
    requires forall j :: 0 <= j < k ==> p + Copies(j) in existing
    ensures CopiesNeeded(p, existing) == k
  {
    CopiesNeededLeast(p, existing);
  }

  /** The while loop of sort: '.copy' is appended while the path exists. */
  method AvoidCollision(dest: string, existing: set<string>) returns (final: string)
    ensures final == dest + Copies(CopiesNeeded(dest, existing))
    ensures final !in existing
  {
    final := dest;
    ghost var k: nat := 0;
    while final in existing
      invariant final == dest + Copies(k)
      invariant forall j :: 0 <= j < k ==> dest + Copies(j) in existing
      decreases |LongerPaths(existing, |final|)|
    {
      LongerPathsShrink(existing, final);
      CopiesStep(k);
      assert final + ".copy" == dest + Copies(k + 1);
      final := final + ".copy";
      k := k + 1;
    }
    CopiesNeededUnique(dest, existing, k);
  }

  // ---------------------------------------------------------------------
  // The anonymised write

  /** Keys of a rule dictionary, each at most once, in the order the loop
      of sort reached them. */
  predicate KeysOnce(order: seq<string>, rules: map<string, string>) {
    && (forall k :: k in order ==> k in rules)
    && (forall i, j :: 0 <= i < j < |order| ==> order[i] != order[j])
  }

  /** Every key of the dictionary was reached. */
  predicate Covers(order: seq<string>, rules: map<string, string>) {
    forall k :: k in rules ==> k in order
  }

  /** One step of the loop of sort: the rule value is formatted against the
      wrapper as its record now stands (a failure ends the loop), and
      written only when the record already has that element (the KeyError
      is skipped). see gives the wrapper's lookup for a state of its
      record. */
  function WriteOne(rules: map<string, string>, key: string, rec: Record, fill: Render, see: Record -> Lookup)
    : (res: (Record, Outcome))
    requires key in rules
  {
    match fill(see(rec), rules[key])
    case None => (rec, Fail(FormatFailed))
    case Some(v) => (if key in rec then rec[key := Text(v)] else rec, Pass)
  }

  /** The loop over the keys in the given order, stopping at the first
      failure. */
  function WriteRules(rules: map<string, string>, order: seq<string>, rec: Record, fill: Render, see: Record -> Lookup)
    : (res: (Record, Outcome))
    requires forall k :: k in order ==> k in rules
    decreases |order|
  {
    if order == [] then (rec, Pass)
    else
      var (r, o) := WriteRules(rules, order[..|order| - 1], rec, fill, see);
      if o.Fail? then (r, o) else WriteOne(rules, order[|order| - 1], r, fill, see)
  }

  /** Reaching one more key is one more step of the loop. */
  lemma WriteAppend(rules: map<string, string>, order: seq<string>, key: string, rec: Record,
                    fill: Render, see: Record -> Lookup)
    requires (forall k :: k in order ==> k in rules) && key in rules
    ensures var prev := WriteRules(rules, order, rec, fill, see);
      WriteRules(rules, order + [key], rec, fill, see)
      == if prev.1.Fail? then prev else WriteOne(rules, key, prev.0, fill, see)
  {
    assert (order + [key])[..|order|] == order;
  }

  /** The write changes only elements the record already has and that have
      a rule; each of them that is reached becomes text; it fails only when
      a rule value cannot be filled in. */
  lemma {:induction false} WriteOnlyExisting(rules: map<string, string>, order: seq<string>, rec: Record,
                                             fill: Render, see: Record -> Lookup)
    requires forall k :: k in order ==> k in rules
    ensures var (r, o) := WriteRules(rules, order, rec, fill, see);
      && r.Keys == rec.Keys
      && (forall k :: k in rec && k !in order ==> r[k] == rec[k])
      && (o.Pass? ==> forall k :: k in rec && k in order ==> r[k].Text?)
      && ((forall x, t :: fill(x, t).Some?) ==> o.Pass?)
    decreases |order|
  {
    if order != [] {
      var init, last := order[..|order| - 1], order[|order| - 1];
      WriteOnlyExisting(rules, init, rec, fill, see);
      assert forall k :: k in order <==> k in init || k == last;
    }
  }

  /** What each element ends up holding: when the write completes, the
      element of the i-th key reached is that key's rule value formatted
      against the wrapper as the write had left it just before. */
  lemma {:induction false} WriteFillsRuleValue(rules: map<string, string>, order: seq<string>, rec: Record,
                                               fill: Render, see: Record -> Lookup, i: nat)
    requires KeysOnce(order, rules)
    requires i < |order| && order[i] in rec
    requires WriteRules(rules, order, rec, fill, see).1.Pass?
    ensures var before := WriteRules(rules, order[..i], rec, fill, see).0;
      && fill(see(before), rules[order[i]]).Some?
      && var after := WriteRules(rules, order, rec, fill, see).0;
      && order[i] in after
      && after[order[i]] == Text(fill(see(before), rules[order[i]]).value)
    decreases |order|
  {
    var init, last := order[..|order| - 1], order[|order| - 1];
    var before := WriteRules(rules, init, rec, fill, see);
    WriteOnlyExisting(rules, init, rec, fill, see);
    WriteStep(rules, order, rec, fill, see);
    if i == |order| - 1 {
      assert order[..i] == init;
    } else {
      assert init[..i] == order[..i] && init[i] == order[i];
      assert KeysOnce(init, rules);
      WriteFillsRuleValue(rules, init, rec, fill, see, i);
      assert last != order[i];
    }
  }

  /** The last step of a complete write: everything before it completed
      too, the last value could be formatted, and the last key is the only
      element that step changes. */
  lemma WriteStep(rules: map<string, string>, order: seq<string>, rec: Record, fill: Render, see: Record -> Lookup)
    requires order != [] && forall k :: k in order ==> k in rules
    requires WriteRules(rules, order, rec, fill, see).1.Pass?
    ensures var init, last := order[..|order| - 1], order[|order| - 1];
      var before := WriteRules(rules, init, rec, fill, see);
      var after := WriteRules(rules, order, rec, fill, see).0;
      && before.1.Pass?
      && fill(see(before.0), rules[last]).Some?
      && (last in before.0 ==> last in after && after[last] == Text(fill(see(before.0), rules[last]).value))
      && (forall k :: k in before.0 && k != last ==> k in after && after[k] == before.0[k])
  {
  }
}
