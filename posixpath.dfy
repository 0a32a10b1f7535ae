/** The POSIX path operations the sorter uses: join, basename (the second
    half of split), splitext and relpath, on '/'-separated strings. */
module PosixPath {

  /** str.rfind for one character: the last index holding c, or -1. */
  function RFind(s: string, c: char): (i: int)
    ensures -1 <= i < |s|
    ensures i >= 0 ==> s[i] == c
    ensures forall j :: i < j < |s| ==> s[j] != c
    decreases |s|
  {
    if s == [] then -1
    else if s[|s| - 1] == c then |s| - 1
    else RFind(s[..|s| - 1], c)
  }

  lemma {:induction false} RFindAppend(a: string, b: string, c: char)
    ensures c in b ==> RFind(a + b, c) == |a| + RFind(b, c)
    ensures c !in b ==> RFind(a + b, c) == RFind(a, c)
    decreases |b|
  {
    if b == [] {
      assert a + b == a;
    } else if b[|b| - 1] != c {
      var b' := b[..|b| - 1];
      assert (a + b)[..|a + b| - 1] == a + b';
      assert c in b <==> c in b' by {
        assert b == b' + [b[|b| - 1]];
      }
      RFindAppend(a, b', c);
    }
  }

  /** os.path.join(a, b): an absolute b replaces a; otherwise a '/' is put
      between them unless a is empty or already ends with one. */
  function Join(a: string, b: string): string {
    if b != [] && b[0] == '/' then b
    else if a == [] || a[|a| - 1] == '/' then a + b
    else a + "/" + b
  }

  /** os.path.join(base, parts[0], parts[1], ...). */
  function JoinAll(base: string, parts: seq<string>): string
    decreases |parts|
  {
    if parts == [] then base
    else Join(JoinAll(base, parts[..|parts| - 1]), parts[|parts| - 1])
  }

  /** os.path.basename, the same as os.path.split(p)[1]: everything after
      the last '/'. */
  function Basename(p: string): (r: string)
    ensures '/' !in r
    ensures |r| <= |p| && r == p[|p| - |r|..]
    ensures |r| < |p| ==> p[|p| - |r| - 1] == '/'
  {
    p[RFind(p, '/') + 1..]
  }

  /** The extension os.path.splitext splits off: from the last '.' of the
      last component, provided that component has something other than
      dots before it; otherwise nothing. */
  function Extension(p: string): (ext: string)
    ensures |ext| <= |p| && ext == p[|p| - |ext|..]
    ensures ext != [] ==> ext[0] == '.' && forall i :: 1 <= i < |ext| ==> ext[i] != '.' && ext[i] != '/'
    ensures ext != [] ==> exists j :: |p| - |Basename(p)| <= j < |p| - |ext| && p[j] != '.'
    ensures (exists i, j :: |p| - |Basename(p)| <= i < j < |p| && p[i] != '.' && p[j] == '.') ==> ext != []
  {
    var sep := RFind(p, '/');
    var dot := RFind(p, '.');
    if dot > sep && exists j :: sep + 1 <= j < dot && p[j] != '.' then p[dot..] else ""
  }

  /** The names between the '/' separators of a path, empty ones dropped:
      the list os.path.relpath compares. */
  function Components(p: string): (r: seq<string>)
    ensures forall i :: 0 <= i < |r| ==> r[i] != [] && '/' !in r[i]
    decreases |p|
  {
    var k := RFind(p, '/');
    if k < 0 then (if p == [] then [] else [p])
    else Components(p[..k]) + (if k == |p| - 1 then [] else [p[k + 1..]])
  }

  /** Splitting at a separator splits the component list there. */
  lemma {:induction false} ComponentsAround(x: string, y: string)
    ensures Components(x + "/" + y) == Components(x) + Components(y)
    decreases |y|
  {
    if '/' !in y {
      ComponentsLastName(x, y);
    } else {
      var j := RFind(y, '/');
      ComponentsInnerSeparator(x, y, j);
      ComponentsAround(x, y[..j]);
    }
  }

  /** When y has no separator, the one put before it is the last one. */
  lemma ComponentsLastName(x: string, y: string)
    requires '/' !in y
    ensures Components(x + "/" + y) == Components(x) + Components(y)
  {
    var p := x + "/" + y;
    assert RFind(p, '/') == |x| by {
      RFindAppend(x + "/", y, '/');
      RFindAppend(x, "/", '/');
      assert RFind("/", '/') == 0;
    }
    assert p[..|x|] == x;
    assert RFind(y, '/') == -1;
    if y != [] {
      assert p[|x| + 1..] == y;
    }
  }

  /** When y has a separator, its last one is the last one of x/y too, and
      the names after it are the same. */
  lemma ComponentsInnerSeparator(x: string, y: string, j: int)
    requires '/' in y && j == RFind(y, '/')
    ensures 0 <= j < |y|
    ensures var tail := if j == |y| - 1 then [] else [y[j + 1..]];
      && Components(x + "/" + y) == Components(x + "/" + y[..j]) + tail
      && Components(y) == Components(y[..j]) + tail
  {
    var p := x + "/" + y;
    RFindAppend(x + "/", y, '/');
    var k := RFind(p, '/');
    assert k == |x| + 1 + j;
    assert p[..k] == x + "/" + y[..j];
    assert k == |p| - 1 <==> j == |y| - 1;
    assert k < |p| - 1 ==> p[k + 1..] == y[j + 1..];
    ComponentsAtLast(p, k);
    ComponentsAtLast(y, j);
  }

  /** The definition of Components at the last separator. */
  lemma ComponentsAtLast(p: string, k: int)
    requires 0 <= k && k == RFind(p, '/')
    ensures Components(p) == Components(p[..k]) + (if k == |p| - 1 then [] else [p[k + 1..]])
  {
  }

  /** A name without separators is a single component. */
  lemma NameIsOneComponent(s: string)
    requires s != [] && '/' !in s
    ensures Components(s) == [s]
  {
    assert RFind(s, '/') < 0;
  }

  /** Joining a relative path appends its components. */
  lemma {:induction false} JoinComponents(a: string, b: string)
    requires b == [] || b[0] != '/'
    ensures Components(Join(a, b)) == Components(a) + Components(b)
  {
    if a == [] {
      assert Join(a, b) == b;
      assert Components(a) == [];
    } else if a[|a| - 1] == '/' {
      var a' := a[..|a| - 1];
      assert a == a' + "/" + "";
      assert Components("") == [];
      ComponentsAround(a', "");
      assert Components(a) == Components(a');
      assert Join(a, b) == a' + "/" + b;
      ComponentsAround(a', b);
    } else {
      ComponentsAround(a, b);
    }
  }

  /** Joining names one by one gives one component per name. */
  lemma {:induction false} JoinAllComponents(base: string, parts: seq<string>)
    requires forall i :: 0 <= i < |parts| ==> parts[i] != [] && '/' !in parts[i]
    ensures Components(JoinAll(base, parts)) == Components(base) + parts
    decreases |parts|
  {
    if parts != [] {
      var init, last := parts[..|parts| - 1], parts[|parts| - 1];
      assert forall i :: 0 <= i < |init| ==> init[i] == parts[i];
      var prefix := JoinAll(base, init);
      assert JoinAll(base, parts) == Join(prefix, last);
      JoinAllComponents(base, init);
      NameIsOneComponent(last);
      JoinComponents(prefix, last);
      assert parts == init + [last];
    }
  }

  /** The length of the longest common prefix of two lists. */
  function CommonPrefixLength(a: seq<string>, b: seq<string>): (n: nat)
    ensures n <= |a| && n <= |b| && a[..n] == b[..n]
    ensures n < |a| && n < |b| ==> a[n] != b[n]
    decreases |a|
  {
    if a == [] || b == [] || a[0] != b[0] then 0
    else 1 + CommonPrefixLength(a[1..], b[1..])
  }

  /** n steps up: n times '..'. */
  function Climb(n: nat): (r: seq<string>)
    ensures |r| == n && forall k :: 0 <= k < n ==> r[k] == ".."
  {
    seq(n, _ => "..")
  }

  /** os.path.relpath(path, start) for two paths that are both absolute (or
      both relative to the same directory) and already normalised: one '..'
      per component of start below the common prefix, then the rest of
      path; '.' when nothing is left. */
  function RelPath(path: string, start: string): string
    requires path != []
  {
    var s := Components(start);
    var p := Components(path);
    var i := CommonPrefixLength(s, p);
    var rel := Climb(|s| - i) + p[i..];
    if rel == [] then "." else JoinAll(rel[0], rel[1..])
  }

  /** A path below start is expressed by its components below start. */
  lemma RelPathBelowStart(path: string, start: string)
    requires path != []
    requires |Components(start)| < |Components(path)|
    requires Components(path)[..|Components(start)|] == Components(start)
    ensures Components(RelPath(path, start)) == Components(path)[|Components(start)|..]
    ensures RelPath(path, start)[0] != '/'
  {
    var rel := Components(path)[|Components(start)|..];
    RelPathBelowIsJoin(path, start);
    JoinAllOfNames(rel);
  }

  /** Below start, relpath joins the remaining components and no '..'. */
  lemma RelPathBelowIsJoin(path: string, start: string)
    requires path != []
    requires |Components(start)| < |Components(path)|
    requires Components(path)[..|Components(start)|] == Components(start)
    ensures var rel := Components(path)[|Components(start)|..];
      RelPath(path, start) == JoinAll(rel[0], rel[1..])
  {
    var s, p := Components(start), Components(path);
    assert CommonPrefixLength(s, p) == |s|;
    assert Climb(|s| - |s|) + p[|s|..] == p[|s|..];
  }

  /** Joining a non-empty list of names from its first one gives back that
      list, as a relative path. */
  lemma JoinAllOfNames(rel: seq<string>)
    requires rel != []
    requires forall i :: 0 <= i < |rel| ==> rel[i] != [] && '/' !in rel[i]
    ensures Components(JoinAll(rel[0], rel[1..])) == rel
    ensures JoinAll(rel[0], rel[1..])[0] != '/'
  {
    var rest := rel[1..];
    assert forall i :: 0 <= i < |rest| ==> rest[i] == rel[i + 1];
    JoinAllComponents(rel[0], rest);
    NameIsOneComponent(rel[0]);
    assert [rel[0]] + rest == rel;
    JoinAllFirst(rel[0], rest);
  }

  /** A path outside start climbs out of start with one '..' per component
      of start below the common prefix, then goes down to path. */
  lemma RelPathOutsideStart(path: string, start: string)
    requires path != []
    requires CommonPrefixLength(Components(start), Components(path)) < |Components(start)|
    ensures var s, p := Components(start), Components(path);
      var i := CommonPrefixLength(s, p);
      Components(RelPath(path, start)) == Climb(|s| - i) + p[i..]
    ensures RelPath(path, start)[0] != '/'
  {
    var s, p := Components(start), Components(path);
    var i := CommonPrefixLength(s, p);
    var rel := Climb(|s| - i) + p[i..];
    assert rel[0] == "..";
    forall k | 0 <= k < |rel| ensures rel[k] != [] && '/' !in rel[k] {
      if k >= |s| - i {
        assert rel[k] == p[i + k - (|s| - i)];
      }
    }
    JoinAllOfNames(rel);
  }

  /** Joining root with the relative path of a path outside start. */
  lemma JoinRelPathOutside(root: string, path: string, start: string)
    requires path != []
    requires CommonPrefixLength(Components(start), Components(path)) < |Components(start)|
    ensures var s, p := Components(start), Components(path);
      var i := CommonPrefixLength(s, p);
      Components(Join(root, RelPath(path, start))) == Components(root) + (Climb(|s| - i) + p[i..])
  {
    var s, p := Components(start), Components(path);
    var i := CommonPrefixLength(s, p);
    var rel := RelPath(path, start);
    RelPathOutsideStart(path, start);
    JoinComponents(root, rel);
  }

  /** A join that starts from a relative name stays relative. */
  lemma {:induction false} JoinAllFirst(base: string, parts: seq<string>)
    requires base != [] && base[0] != '/'
    requires forall i :: 0 <= i < |parts| ==> parts[i] != [] && '/' !in parts[i]
    ensures JoinAll(base, parts) != [] && JoinAll(base, parts)[0] == base[0]
    decreases |parts|
  {
    if parts != [] {
      JoinAllFirst(base, parts[..|parts| - 1]);
    }
  }
}
