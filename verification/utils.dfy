/**
 * mcp_server/utils.py: the containment guard, the guarded reader, the
 * recursive directory listing and the substring search. The repository root
 * is a parameter (its discovery from the environment is not part of this
 * model).
 */
module Utils {
  import opened Wrappers
  import opened Strings
  import opened Sorting
  import opened FileTree

  /**
   * What `read_file_safe` raises, each naming the path as the caller gave it.
   * Python raises ValueError for AccessDenied and NotAFile and
   * FileNotFoundError for NotFound.
   */
  datatype ReadError = AccessDenied(path: Path) | NotFound(path: Path) | NotAFile(path: Path)

  predicate IsValueError(e: ReadError)
  {
    e.AccessDenied? || e.NotAFile?
  }

  /** `str(e)` for each error. */
  function Message(e: ReadError): (r: string)
    ensures Contains(r, ShowPath(e.path))
  {
    var s := ShowPath(e.path);
    var (pre, post) := match e
      case AccessDenied(_) => ("Access denied: path '", "' is outside repository")
      case NotFound(_) => ("File not found: ", "")
      case NotAFile(_) => ("Not a file: ", "");
    assert OccursAt(pre + s + post, s, |pre|) by {
      assert (pre + s + post)[|pre|..|pre| + |s|] == s;
    }
    pre + s + post
  }

  /**
   * `ensure_path_in_repo`: resolve the path and accept it only when the
   * resolved root is a component-wise prefix of it (`relative_to`).
   */
  function EnsurePathInRepo(filePath: Path, repoRoot: Path): (r: Result<Path, ReadError>)
    ensures r.Ok? <==> Normalize(repoRoot) <= Normalize(filePath)
    ensures r.Ok? ==> r.value == Normalize(filePath) && Resolved(r.value)
    ensures r.Err? ==> r.error == AccessDenied(filePath)
  {
    var resolved := Normalize(filePath);
    if Normalize(repoRoot) <= resolved then Ok(resolved) else Err(AccessDenied(filePath))
  }

  /** The root itself passes the guard. */
  lemma GuardAcceptsRoot(repoRoot: Path)
    ensures EnsurePathInRepo(repoRoot, repoRoot) == Ok(Normalize(repoRoot))
  {
  }

  /** A path the guard returned passes the guard again, unchanged. */
  lemma GuardStable(filePath: Path, repoRoot: Path)
    requires EnsurePathInRepo(filePath, repoRoot).Ok?
    ensures var v := EnsurePathInRepo(filePath, repoRoot).value;
      EnsurePathInRepo(v, repoRoot) == Ok(v)
  {
    NormalizeResolved(Normalize(filePath));
  }

  /** A relative path without ".." below a resolved root is accepted as the root extended by its parts. */
  lemma GuardAcceptsInside(repoRoot: Path, s: string)
    requires Resolved(repoRoot)
    requires |s| == 0 || s[0] != '/'
    requires ".." !in Parts(s)
    ensures EnsurePathInRepo(Append(repoRoot, s), repoRoot) == Ok(repoRoot + Parts(s))
  {
    NormalizeResolved(repoRoot);
    NormalizeAppendResolved(repoRoot, Parts(s));
  }

  /**
   * Climbing from a resolved `base` with at least as many ".." as it has
   * components, then descending anywhere not below the root, is denied.
   */
  lemma GuardRejectsClimbOut(repoRoot: Path, base: Path, n: nat, target: Path)
    requires Resolved(repoRoot) && Resolved(base) && Resolved(target)
    requires |base| <= n
    requires !(repoRoot <= target)
    ensures var p := base + Dots(n) + target;
      && Normalize(p) == target
      && EnsurePathInRepo(p, repoRoot) == Err(AccessDenied(p))
  {
    NormalizeResolved(repoRoot);
    NormalizeClimb(base, n);
    NormalizeAppendResolved(base + Dots(n), target);
  }

  /**
   * Containment is by components, not by characters: "/repo2/x" starts with
   * the characters of "/repo" but is not inside it.
   */
  lemma GuardIsComponentWise()
    ensures ShowPath(["repo"]) <= ShowPath(["repo2", "x"])
    ensures EnsurePathInRepo(["repo2", "x"], ["repo"]) == Err(AccessDenied(["repo2", "x"]))
    ensures EnsurePathInRepo(["repo", "x"], ["repo"]) == Ok(["repo", "x"])
  {
    assert JoinWith("/", ["repo2", "x"]) == "repo2/x";
    NormalizeResolved(["repo2", "x"]);
    NormalizeResolved(["repo", "x"]);
    NormalizeResolved(["repo"]);
  }

  /**
   * `read_file_safe`: the guard first, then existence, then regularity;
   * only then the contents.
   */
  function ReadFileSafe(fs: FileSystem, filePath: Path, repoRoot: Path): (r: Result<string, ReadError>)
    ensures r.Ok? ==>
      var q := Normalize(filePath);
      Normalize(repoRoot) <= q && q in fs && fs[q] == File(r.value)
    ensures r.Err? ==> r.error.path == filePath
    ensures r == Err(AccessDenied(filePath)) <==> !(Normalize(repoRoot) <= Normalize(filePath))
  {
    match EnsurePathInRepo(filePath, repoRoot)
    case Err(e) => Err(e)
    case Ok(resolved) =>
      WalkResolved(fs, [], resolved);
      assert [] + resolved == resolved;
      match Stat(fs, resolved)
      case None => Err(NotFound(filePath))
      case Some(q) => if fs[q].File? then Ok(fs[q].content) else Err(NotAFile(filePath))
  }

  /** On a real tree the outcome of `read_file_safe` is decided in this order. */
  lemma ReadFileSafeCases(fs: FileSystem, filePath: Path, repoRoot: Path)
    requires Valid(fs)
    ensures var q, r := Normalize(filePath), ReadFileSafe(fs, filePath, repoRoot);
      && (!(Normalize(repoRoot) <= q) ==> r == Err(AccessDenied(filePath)))
      && (Normalize(repoRoot) <= q && q !in fs ==> r == Err(NotFound(filePath)))
      && (Normalize(repoRoot) <= q && q in fs && fs[q].Dir? ==> r == Err(NotAFile(filePath)))
      && (Normalize(repoRoot) <= q && q in fs && fs[q].File? ==> r == Ok(fs[q].content))
  {
    StatResolved(fs, Normalize(filePath));
  }

  /**
   * Below a resolved root, a relative path without ".." is read from the
   * place it names: its contents, or why not.
   */
  lemma ReadFileSafeInside(fs: FileSystem, repoRoot: Path, s: string)
    requires Valid(fs) && Resolved(repoRoot)
    requires |s| == 0 || s[0] != '/'
    requires ".." !in Parts(s)
    ensures var fp, p := Append(repoRoot, s), repoRoot + Parts(s);
      ReadFileSafe(fs, fp, repoRoot) ==
        if p !in fs then Err(NotFound(fp)) else if fs[p].Dir? then Err(NotAFile(fp)) else Ok(fs[p].content)
  {
    var fp := Append(repoRoot, s);
    assert Normalize(fp) == repoRoot + Parts(s) && Normalize(repoRoot) == repoRoot by {
      GuardAcceptsInside(repoRoot, s);
      NormalizeResolved(repoRoot);
    }
    ReadFileSafeCases(fs, fp, repoRoot);
  }

  /** A path that climbs out of the repository is denied before the tree is consulted. */
  lemma ReadFileSafeDeniesClimbOut(fs: FileSystem, repoRoot: Path, base: Path, n: nat, target: Path)
    requires Resolved(repoRoot) && Resolved(base) && Resolved(target)
    requires |base| <= n
    requires !(repoRoot <= target)
    ensures var p := base + Dots(n) + target;
      ReadFileSafe(fs, p, repoRoot) == Err(AccessDenied(p))
  {
    GuardRejectsClimbOut(repoRoot, base, n, target);
  }

  /**
   * `search_in_file`: read the file directly and test for the query; any
   * failure to read (missing, a directory) counts as not found.
   */
  function SearchInFile(fs: FileSystem, filePath: Path, query: string, caseSensitive: bool): (r: bool)
    ensures r ==> Stat(fs, filePath).Some? && fs[Stat(fs, filePath).value].File?
    ensures query == "" ==> (r <==> Stat(fs, filePath).Some? && fs[Stat(fs, filePath).value].File?)
  {
    match Stat(fs, filePath)
    case None => false
    case Some(p) =>
      match fs[p]
      case Dir => false
      case File(content) =>
        if caseSensitive then Contains(content, query) else Contains(Lower(content), Lower(query))
  }

  /** A hit means a readable regular file in which the query occurs at some position. */
  lemma SearchInFileMeaning(fs: FileSystem, filePath: Path, query: string, caseSensitive: bool)
    ensures SearchInFile(fs, filePath, query, caseSensitive) <==>
      && Stat(fs, filePath).Some?
      && fs[Stat(fs, filePath).value].File?
      && var content := fs[Stat(fs, filePath).value].content;
         if caseSensitive then exists i :: OccursAt(content, query, i)
         else exists i :: OccursAt(Lower(content), Lower(query), i)
  {
    match Stat(fs, filePath)
    case None =>
    case Some(p) =>
      match fs[p]
      case Dir =>
      case File(content) =>
        if caseSensitive {
          assert Contains(content, query) <==> exists i :: OccursAt(content, query, i);
        } else {
          assert Contains(Lower(content), Lower(query)) <==> exists i :: OccursAt(Lower(content), Lower(query), i);
        }
  }

  /** Without case sensitivity the case of the query does not matter. */
  lemma SearchIgnoresQueryCase(fs: FileSystem, filePath: Path, q1: string, q2: string)
    requires SameUpToCase(q1, q2)
    ensures SearchInFile(fs, filePath, q1, false) == SearchInFile(fs, filePath, q2, false)
  {
    LowerOfSameUpToCase(q1, q2);
  }

  /** Every case-sensitive hit is also a case-insensitive hit. */
  lemma SearchSensitiveImpliesInsensitive(fs: FileSystem, filePath: Path, query: string)
    requires SearchInFile(fs, filePath, query, true)
    ensures SearchInFile(fs, filePath, query, false)
  {
    var p := Stat(fs, filePath).value;
    ContainsLower(fs[p].content, query);
  }

  /** The paths, relative to `d` and rendered with "/", of the regular files below `d`. */
  function RelativeFiles(fs: FileSystem, d: Path): set<string>
  {
    set p | p in fs && d < p && fs[p].File? :: JoinWith("/", p[|d|..])
  }

  /**
   * What `list_directory_files(directory)` returns: nothing for a missing path
   * or a non-directory, otherwise the files below it, relative, sorted.
   */
  function DirectoryListing(fs: FileSystem, directory: Path): (r: seq<string>)
    ensures StrictlySorted(r)
    ensures Stat(fs, directory).None? || !fs[Stat(fs, directory).value].Dir? ==> r == []
    ensures Stat(fs, directory).Some? && fs[Stat(fs, directory).value].Dir? ==>
      var d := Stat(fs, directory).value;
      forall s :: s in r <==> exists p :: p in fs && d < p && fs[p].File? && s == JoinWith("/", p[|d|..])
  {
    match Stat(fs, directory)
    case None => []
    case Some(d) => if fs[d].Dir? then SortedSet(RelativeFiles(fs, d)) else []
  }

  /** pathlib reads back what `"/".join` wrote, for names and "..". */
  lemma {:induction false} PartsOfJoin(ns: seq<string>)
    requires |ns| > 0
    requires forall i :: 0 <= i < |ns| ==> ns[i] == ".." || ValidName(ns[i])
    ensures Parts(JoinWith("/", ns)) == ns
    decreases |ns|
  {
    var s := JoinWith("/", ns);
    JoinWithSlashHead(ns);
    PartsHead(s, |ns[0]|);
    if |ns| > 1 {
      PartsOfJoin(ns[1..]);
      assert ns == [ns[0]] + ns[1..];
    }
  }

  /** A relative path made of `n` ".." and then the names of `target`, as pathlib reads it. */
  lemma ClimbingPathParts(n: nat, target: Path)
    requires n > 0 && Clean(target)
    ensures var s := JoinWith("/", Dots(n) + target);
      |s| > 0 && s[0] == '.' && Parts(s) == Dots(n) + target
  {
    var ns := Dots(n) + target;
    PartsOfJoin(ns);
    JoinWithSlashHead(ns);
    var s := JoinWith("/", ns);
    assert s[..2] == ns[0] == "..";
    assert s[0] == s[..2][0];
  }

  /** Joining such a relative path to `base` climbs from `base`. */
  lemma AppendClimbing(base: Path, n: nat, target: Path)
    requires n > 0 && Clean(target)
    ensures Append(base, JoinWith("/", Dots(n) + target)) == base + Dots(n) + target
  {
    ClimbingPathParts(n, target);
    assert base + (Dots(n) + target) == base + Dots(n) + target;
  }

  lemma Regroup(a: Path, b: Path, c: Path)
    ensures a + (b + c) == a + b + c
  {
  }

  lemma SnocRegroup(a: Path, b: Path, c: Path, x: string)
    ensures a + b + c + [x] == a + b + (c + [x])
  {
  }

  /** In a real tree, every listed name leads back, from the listed directory, to a regular file. */
  lemma ListedEntriesAreFiles(fs: FileSystem, directory: Path, s: string)
    requires Valid(fs)
    requires s in DirectoryListing(fs, directory)
    ensures Stat(fs, directory).Some?
    ensures var d := Stat(fs, directory).value;
      var q := Stat(fs, Append(d, s));
      q.Some? && d < q.value && fs[q.value].File?
  {
    var d := Stat(fs, directory).value;
    var p :| p in fs && d < p && fs[p].File? && s == JoinWith("/", p[|d|..]);
    assert Clean(p);
    AppendRelative(d, p);
    StatResolved(fs, p);
  }

  /** A listed name, appended to the listed directory, leads back to the file it names. */
  lemma AppendRelative(d: Path, p: Path)
    requires Clean(p) && d < p
    ensures Append(d, JoinWith("/", p[|d|..])) == p
  {
    var rel := p[|d|..];
    assert forall i :: 0 <= i < |rel| ==> rel[i] == p[|d| + i];
    PartsOfJoin(rel);
    var s := JoinWith("/", rel);
    assert s[0] == rel[0][0] by {
      JoinWithSlashHead(rel);
    }
    assert d + rel == p;
  }

  /**
   * `list_directory_files`: collect the regular files `rglob("*")` yields, in
   * whatever order it yields them, then sort.
   */
  method ListDirectoryFiles(fs: FileSystem, directory: Path) returns (files: seq<string>)
    requires Valid(fs)
    ensures files == DirectoryListing(fs, directory)
  {
    var st := Stat(fs, directory);
    if st.None? || !fs[st.value].Dir? {
      return [];
    }
    var d := st.value;
    var found := Enumerate(Descendants(fs, d));
    assert forall k :: 0 <= k < |found| ==> found[k] in Descendants(fs, d);
    var collected: seq<string> := [];
    var i := 0;
    while i < |found|
      invariant 0 <= i <= |found|
      invariant forall k :: 0 <= k < |found| ==> found[k] in fs && d < found[k]
      invariant Distinct(collected)
      invariant forall s :: s in collected <==>
        exists k :: 0 <= k < i && fs[found[k]].File? && s == JoinWith("/", found[k][|d|..])
    {
      var p := found[i];
      if fs[p].File? {
        var s := JoinWith("/", p[|d|..]);
        forall k | 0 <= k < i && fs[found[k]].File?
          ensures s != JoinWith("/", found[k][|d|..])
        {
          RelativeNamesDiffer(fs, d, p, found[k]);
        }
        DistinctCons(s, collected);
        collected := collected + [s];
        assert Distinct(collected) by {
          DistinctSnoc(collected[..|collected| - 1], s);
        }
      }
      i := i + 1;
    }
    forall s | s in RelativeFiles(fs, d)
      ensures s in collected
    {
      var p :| p in fs && d < p && fs[p].File? && s == JoinWith("/", p[|d|..]);
      assert p in found;
    }
    assert (set s | s in collected) == RelativeFiles(fs, d);
    SortDistinctIsSortedSet(collected);
    files := SortBy(collected, Id);
  }

  /** Two different entries below `d` have different relative names. */
  lemma RelativeNamesDiffer(fs: FileSystem, d: Path, p: Path, q: Path)
    requires Valid(fs) && p in fs && q in fs && d < p && d < q && p != q
    ensures JoinWith("/", p[|d|..]) != JoinWith("/", q[|d|..])
  {
    assert Clean(p) && Clean(q);
    var a, b := p[|d|..], q[|d|..];
    assert forall i :: 0 <= i < |a| ==> a[i] == p[|d| + i];
    assert forall i :: 0 <= i < |b| ==> b[i] == q[|d| + i];
    assert p == d + a && q == d + b;
    if JoinWith("/", a) == JoinWith("/", b) {
      JoinWithSlashInjective(a, b);
    }
  }

  /**
   * `repo_root / "templates" / "devcontainers"`: where the tools and the
   * resources look for devcontainer configurations. Joining a plain name
   * appends it (FileTree.AppendName).
   */
  function DevcontainersDir(repoRoot: Path): (d: Path)
    ensures |d| == |repoRoot| + 2 && repoRoot < d
  {
    repoRoot + ["templates", "devcontainers"]
  }

  lemma DevcontainersDirResolved(repoRoot: Path)
    requires Resolved(repoRoot)
    ensures Resolved(DevcontainersDir(repoRoot))
  {
    ResolvedSnoc(repoRoot, "templates");
    ResolvedSnoc(repoRoot + ["templates"], "devcontainers");
    assert repoRoot + ["templates"] + ["devcontainers"] == DevcontainersDir(repoRoot);
  }
}
