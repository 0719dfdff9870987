/**
 * The directory tree the server reads, and the path machinery it uses on it:
 * pathlib's parsing and `/` operator, `Path.resolve()`, the operating system's
 * lookup of an unresolved path, and directory enumeration.
 *
 * The tree is an immutable map from absolute paths (lists of names below "/")
 * to nodes. It holds no symbolic links: every lookup and every resolution below
 * assumes that no component is a link.
 */
module FileTree {
  import opened Wrappers
  import opened Strings
  import opened Sorting

  type Path = seq<string>

  datatype Node = File(content: string) | Dir

  type FileSystem = map<Path, Node>

  /** `iterdir()` on an existing path that is not a directory raises NotADirectoryError. */
  datatype OsError = NotADirectory(path: Path)

  /** A name a directory entry can have. */
  predicate ValidName(n: string)
  {
    n != "" && n != "." && n != ".." && '/' !in n
  }

  /** No part is empty, "." or "..": what `resolve()` leaves. */
  predicate Resolved(p: Path)
  {
    forall i :: 0 <= i < |p| ==> p[i] != "" && p[i] != "." && p[i] != ".."
  }

  /** Every part is a name an entry can have. */
  predicate Clean(p: Path)
  {
    forall i :: 0 <= i < |p| ==> ValidName(p[i])
  }

  lemma ResolvedSnoc(p: Path, n: string)
    requires Resolved(p) && ValidName(n)
    ensures Resolved(p + [n])
  {
    assert forall i :: 0 <= i < |p| ==> (p + [n])[i] == p[i];
  }

  function Parent(p: Path): (q: Path)
  {
    if p == [] then [] else p[..|p| - 1]
  }

  /**
   * A real directory tree: "/" is a directory, every entry has a valid name
   * and sits in a directory that is itself an entry.
   */
  predicate Valid(fs: FileSystem)
  {
    && [] in fs && fs[[]].Dir?
    && forall p :: p in fs ==> Clean(p) && (p != [] ==> Parent(p) in fs && fs[Parent(p)].Dir?)
  }

  /** The parts pathlib keeps when it parses `s`: split at '/', drop empty and "." parts, keep "..". */
  function Parts(s: string): (ps: seq<string>)
    ensures forall k :: 0 <= k < |ps| ==> ps[k] != "" && ps[k] != "." && '/' !in ps[k]
    decreases |s|
  {
    var i := FirstSlash(s);
    var head := s[..i];
    assert '/' !in head by {
      forall k | 0 <= k < |head| ensures head[k] != '/' {
        assert head[k] == s[k];
      }
    }
    var tail := if i < |s| then Parts(s[i + 1..]) else [];
    if head == "" || head == "." then tail else [head] + tail
  }

  /** One step of `Parts`: a first part that is a real name is kept. */
  lemma PartsHead(s: string, i: nat)
    requires i <= |s| && FirstSlash(s) == i
    requires s[..i] != "" && s[..i] != "."
    ensures Parts(s) == [s[..i]] + (if i < |s| then Parts(s[i + 1..]) else [])
  {
    var head := s[..i];
    var tail := if i < |s| then Parts(s[i + 1..]) else [];
    assert Parts(s) == if head == "" || head == "." then tail else [head] + tail;
  }

  /** pathlib's `base / s`: an absolute `s` replaces `base`, a relative one extends it. */
  function Append(base: Path, s: string): Path
  {
    if |s| > 0 && s[0] == '/' then Parts(s) else base + Parts(s)
  }

  lemma AppendName(base: Path, n: string)
    requires ValidName(n)
    ensures Append(base, n) == base + [n]
  {
    assert FirstSlash(n) == |n|;
    assert n[..|n|] == n;
  }

  /** `str(path)` of an absolute path. */
  function ShowPath(p: Path): string
  {
    "/" + JoinWith("/", p)
  }

  /** One step of `resolve()`: ".." goes up (and stays at "/"), "." and "" stay. */
  function Step(acc: Path, part: string): Path
  {
    if part == ".." then Parent(acc)
    else if part == "." || part == "" then acc
    else acc + [part]
  }

  /** `Path.resolve()` of an absolute path without links: lexical removal of "." and "..". */
  function Normalize(p: Path): (r: Path)
    ensures Resolved(r)
    ensures forall k :: 0 <= k < |r| ==> r[k] in p
    decreases |p|
  {
    if p == [] then []
    else
      var acc := Normalize(p[..|p| - 1]);
      assert forall k :: 0 <= k < |acc| ==> acc[k] in p by {
        forall k | 0 <= k < |acc| ensures acc[k] in p {
          var j :| 0 <= j < |p| - 1 && p[..|p| - 1][j] == acc[k];
          assert p[j] == acc[k];
        }
      }
      Step(acc, p[|p| - 1])
  }

  /** Resolving a path that has nothing to resolve changes nothing. */
  lemma {:induction false} NormalizeResolved(p: Path)
    requires Resolved(p)
    ensures Normalize(p) == p
    decreases |p|
  {
    if p != [] {
      NormalizeResolved(p[..|p| - 1]);
    }
  }

  /** Resolution is idempotent. */
  lemma NormalizeIdempotent(p: Path)
    ensures Normalize(Normalize(p)) == Normalize(p)
  {
    NormalizeResolved(Normalize(p));
  }

  /** Resolved parts appended after any path come through resolution unchanged. */
  lemma {:induction false} NormalizeAppendResolved(a: Path, b: Path)
    requires Resolved(b)
    ensures Normalize(a + b) == Normalize(a) + b
    decreases |b|
  {
    if b == [] {
      assert a + b == a;
    } else {
      var b' := b[..|b| - 1];
      assert (a + b)[..|a + b| - 1] == a + b';
      NormalizeAppendResolved(a, b');
    }
  }

  /** `n` copies of "..". */
  function Dots(n: nat): (r: Path)
    ensures |r| == n && forall k :: 0 <= k < n ==> r[k] == ".."
  {
    seq(n, _ => "..")
  }

  /** Climbing `n` levels from a resolved path drops its last `n` parts, and stops at "/". */
  lemma {:induction false} NormalizeClimb(a: Path, n: nat)
    requires Resolved(a)
    ensures Normalize(a + Dots(n)) == a[..if n <= |a| then |a| - n else 0]
  {
    if n == 0 {
      assert a + Dots(0) == a;
      NormalizeResolved(a);
    } else {
      assert (a + Dots(n))[..|a| + n - 1] == a + Dots(n - 1);
      NormalizeClimb(a, n - 1);
    }
  }

  /**
   * The operating system's lookup of an unresolved path, component by component
   * from `cur`: ".." moves to the parent of the directory actually reached, and
   * every component before the last must be an existing directory. The result is
   * the entry reached.
   */
  function Walk(fs: FileSystem, cur: Path, rest: seq<string>): (r: Option<Path>)
    ensures r.Some? ==> r.value in fs
    decreases |rest|
  {
    if rest == [] then (if cur in fs then Some(cur) else None)
    else if cur !in fs || !fs[cur].Dir? then None
    else Walk(fs, Step(cur, rest[0]), rest[1..])
  }

  /** What `exists()`, `is_file()`, `is_dir()` and `read_text()` find at an absolute path. */
  function Stat(fs: FileSystem, p: Path): Option<Path>
  {
    Walk(fs, [], p)
  }

  /** Looking up a path with no "." or ".." either fails or finds exactly that path. */
  lemma {:induction false} WalkResolved(fs: FileSystem, cur: Path, rest: Path)
    requires Resolved(rest)
    ensures Walk(fs, cur, rest) == None || Walk(fs, cur, rest) == Some(cur + rest)
    decreases |rest|
  {
    if rest == [] {
      assert cur + rest == cur;
    } else if cur in fs && fs[cur].Dir? {
      WalkResolved(fs, cur + [rest[0]], rest[1..]);
      assert cur + [rest[0]] + rest[1..] == cur + rest;
    }
  }

  /** In a real tree every proper ancestor of an entry is a directory entry. */
  lemma {:induction false} ValidAncestor(fs: FileSystem, p: Path, q: Path)
    requires Valid(fs) && q < p
    ensures p in fs ==> q in fs && fs[q].Dir?
    decreases |p|
  {
    if p in fs && q != Parent(p) {
      assert q < Parent(p);
      ValidAncestor(fs, Parent(p), q);
    }
  }

  /** In a real tree, looking up a resolved path finds it exactly when it is an entry. */
  lemma {:induction false} WalkResolvedValid(fs: FileSystem, cur: Path, rest: Path)
    requires Valid(fs) && Resolved(rest) && cur in fs && fs[cur].Dir?
    ensures Walk(fs, cur, rest) == if cur + rest in fs then Some(cur + rest) else None
    decreases |rest|
  {
    if rest == [] {
      assert cur + rest == cur;
    } else {
      var next := cur + [rest[0]];
      assert Step(cur, rest[0]) == next;
      assert next + rest[1..] == cur + rest;
      if next in fs && fs[next].Dir? {
        WalkResolvedValid(fs, next, rest[1..]);
      } else if rest[1..] == [] {
        assert cur + rest == next;
      } else {
        ValidAncestor(fs, cur + rest, next);
      }
    }
  }

  lemma StatResolved(fs: FileSystem, p: Path)
    requires Valid(fs) && Resolved(p)
    ensures Stat(fs, p) == if p in fs then Some(p) else None
  {
    WalkResolvedValid(fs, [], p);
    assert [] + p == p;
  }

  /** The entries `iterdir()` yields for directory `d`. */
  function Children(fs: FileSystem, d: Path): set<Path>
  {
    set p | p in fs && |p| == |d| + 1 && d < p
  }

  /** The entries `rglob("*")` yields under directory `d`, at every depth. */
  function Descendants(fs: FileSystem, d: Path): set<Path>
  {
    set p | p in fs && d < p
  }

  /** Names of the regular files directly inside `d`. */
  function FileNames(fs: FileSystem, d: Path): set<string>
  {
    set p | p in fs && |p| == |d| + 1 && d < p && fs[p].File? :: p[|d|]
  }

  /** Names of the subdirectories of `d` that do not start with a dot. */
  function VisibleSubdirNames(fs: FileSystem, d: Path): set<string>
  {
    set p | p in fs && |p| == |d| + 1 && d < p && fs[p].Dir? && !IsHidden(p[|d|]) :: p[|d|]
  }

  lemma ChildIsNamed(d: Path, p: Path)
    requires |p| == |d| + 1 && d < p
    ensures p == d + [p[|d|]]
  {
  }

  lemma FileNamesMembership(fs: FileSystem, d: Path, n: string)
    ensures n in FileNames(fs, d) <==> d + [n] in fs && fs[d + [n]].File?
  {
    if n in FileNames(fs, d) {
      var p :| p in fs && |p| == |d| + 1 && d < p && fs[p].File? && p[|d|] == n;
      ChildIsNamed(d, p);
    }
    if d + [n] in fs && fs[d + [n]].File? {
      assert (d + [n])[|d|] == n;
    }
  }

  lemma VisibleSubdirNamesMembership(fs: FileSystem, d: Path, n: string)
    ensures n in VisibleSubdirNames(fs, d) <==> d + [n] in fs && fs[d + [n]].Dir? && !IsHidden(n)
  {
    if n in VisibleSubdirNames(fs, d) {
      var p :| p in fs && |p| == |d| + 1 && d < p && fs[p].Dir? && !IsHidden(p[|d|]) && p[|d|] == n;
      ChildIsNamed(d, p);
    }
    if d + [n] in fs && fs[d + [n]].Dir? && !IsHidden(n) {
      assert (d + [n])[|d|] == n;
    }
  }

  /**
   * The elements of `s` in an order the model leaves open, as `iterdir()` and
   * `rglob()` yield directory entries in whatever order the operating system
   * gives.
   */
  method Enumerate<T(==,!new)>(s: set<T>) returns (xs: seq<T>)
    ensures Distinct(xs)
    ensures forall x :: x in xs <==> x in s
  {
    xs := [];
    var rest := s;
    while rest != {}
      invariant rest <= s
      invariant Distinct(xs)
      invariant forall x :: x in xs <==> x in s && x !in rest
      decreases rest
    {
      var x :| x in rest;
      xs := xs + [x];
      rest := rest - {x};
    }
  }

  /**
   * `[f.name for f in d.iterdir() if keep(f)]`: the names of the entries
   * directly inside `d` that `keep` accepts, in `iterdir` order.
   */
  method NamesWhere(fs: FileSystem, d: Path, keep: Path -> bool) returns (names: seq<string>)
    ensures Distinct(names)
    ensures forall n :: n in names <==> d + [n] in fs && keep(d + [n])
  {
    var entries := Enumerate(Children(fs, d));
    names := [];
    var i := 0;
    while i < |entries|
      invariant 0 <= i <= |entries|
      invariant Distinct(names)
      invariant forall n :: n in names <==> d + [n] in entries[..i] && keep(d + [n])
    {
      var e := entries[i];
      assert e in entries;
      ChildIsNamed(d, e);
      var n := e[|d|];
      if keep(e) {
        DistinctSnoc(names, n);
        names := names + [n];
      }
      assert entries[..i + 1] == entries[..i] + [e];
      i := i + 1;
    }
    assert entries[..i] == entries;
    forall n | d + [n] in fs
      ensures d + [n] in entries
    {
      assert d + [n] in Children(fs, d);
    }
  }

  /** `[d.name for d in dir.iterdir() if d.is_dir() and not d.name.startswith(".")]`. */
  method VisibleSubdirs(fs: FileSystem, d: Path) returns (names: seq<string>)
    ensures Distinct(names)
    ensures forall n :: n in names <==> n in VisibleSubdirNames(fs, d)
  {
    names := NamesWhere(fs, d, p => p in fs && fs[p].Dir? && |p| > 0 && !IsHidden(p[|p| - 1]));
    forall n ensures n in names <==> n in VisibleSubdirNames(fs, d) {
      VisibleSubdirNamesMembership(fs, d, n);
      assert (d + [n])[|d + [n]| - 1] == n;
    }
  }

  /** `[f.name for f in dir.iterdir() if f.is_file()]`. */
  method RegularFiles(fs: FileSystem, d: Path) returns (names: seq<string>)
    ensures Distinct(names)
    ensures forall n :: n in names <==> n in FileNames(fs, d)
  {
    names := NamesWhere(fs, d, p => p in fs && fs[p].File?);
    forall n ensures n in names <==> n in FileNames(fs, d) {
      FileNamesMembership(fs, d, n);
    }
  }
}
