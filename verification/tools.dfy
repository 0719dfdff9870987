/**
 * mcp_server/tools.py: the four tools the server registers. Each takes the
 * repository root and the file tree as parameters.
 */
module Tools {
  import opened Wrappers
  import opened Strings
  import opened Sorting
  import opened FileTree
  import opened Utils

  /** One entry of the list `search_preferences` returns. */
  datatype Match =
    | DevcontainerMatch(name: string, file: string, path: string)
    | GuideMatch(name: string, path: string)

  /** The guides `search_preferences` looks at, in this order. */
  const SearchedGuides: seq<string> := ["CLAUDE.md", "README.md"]

  predicate SearchesDevcontainers(category: string)
  {
    category == "all" || category == "devcontainer"
  }

  predicate SearchesGuides(category: string)
  {
    category == "all" || category == "guide"
  }

  /**
   * A file `p` below the devcontainers directory `d` that the search reports:
   * it lies under a visible sub-directory of `d`, is a regular file and
   * contains the query, ignoring case.
   */
  predicate IsHit(fs: FileSystem, d: Path, p: Path, query: string)
  {
    && p in fs && |p| >= |d| + 2 && p[..|d|] == d
    && p[..|d| + 1] in fs && fs[p[..|d| + 1]].Dir? && !IsHidden(p[|d|])
    && fs[p].File?
    && SearchInFile(fs, p, query, false)
  }

  /**
   * The match reported for hit `p`: the configuration's name, the file's
   * name, and the path relative to the repository root.
   */
  function MatchAt(d: Path, p: Path): (r: Match)
    requires |p| >= |d| + 2
    ensures r.DevcontainerMatch? && r.name == p[|d|] && r.file == p[|p| - 1]
    ensures |r.file| <= |r.path| && r.path[|r.path| - |r.file|..] == r.file
  {
    var parts := ["templates", "devcontainers"] + p[|d|..];
    JoinWithEndsWithLast("/", parts);
    assert parts[|parts| - 1] == p[|p| - 1];
    DevcontainerMatch(p[|d|], p[|p| - 1], JoinWith("/", parts))
  }

  /** Everything the devcontainer half of the search reports, as a set. */
  function DevcontainerHits(fs: FileSystem, d: Path, query: string): set<Match>
  {
    set p | p in fs && IsHit(fs, d, p, query) :: MatchAt(d, p)
  }

  /** The guide half of the search, for the guides `gs`, in their order. */
  function GuideHits(fs: FileSystem, repoRoot: Path, gs: seq<string>, query: string): (r: seq<Match>)
    ensures |r| <= |gs|
    ensures forall m :: m in r ==> m.GuideMatch? && m.name == m.path && m.name in gs
  {
    if gs == [] then []
    else
      var g := gs[|gs| - 1];
      GuideHits(fs, repoRoot, gs[..|gs| - 1], query)
      + (if SearchInFile(fs, repoRoot + [g], query, false) then [GuideMatch(g, g)] else [])
  }

  /** A guide is reported, once, exactly when it is a regular file that contains the query. */
  lemma {:induction false} GuideHitsMembership(fs: FileSystem, repoRoot: Path, gs: seq<string>, query: string, g: string)
    requires Distinct(gs)
    ensures GuideMatch(g, g) in GuideHits(fs, repoRoot, gs, query) <==>
      g in gs && SearchInFile(fs, repoRoot + [g], query, false)
    ensures Distinct(GuideHits(fs, repoRoot, gs, query))
    decreases |gs|
  {
    if gs != [] {
      var init := gs[..|gs| - 1];
      var last := gs[|gs| - 1];
      assert Distinct(init);
      assert last !in init;
      GuideHitsMembership(fs, repoRoot, init, query, g);
      GuideHitsMembership(fs, repoRoot, init, query, last);
      assert g in gs <==> g in init || g == last by {
        assert gs == init + [last];
      }
      var h := GuideHits(fs, repoRoot, init, query);
      if SearchInFile(fs, repoRoot + [last], query, false) {
        DistinctSnoc(h, GuideMatch(last, last));
      }
    }
  }

  /**
   * The match's path is the file's path relative to the repository root:
   * joined back onto the root, it leads to the file that was found.
   */
  lemma MatchPathLeadsBack(repoRoot: Path, p: Path)
    requires Clean(p) && DevcontainersDir(repoRoot) < p && |p| >= |repoRoot| + 4
    ensures Append(repoRoot, MatchAt(DevcontainersDir(repoRoot), p).path) == p
  {
    assert p[|repoRoot|..] == ["templates", "devcontainers"] + p[|DevcontainersDir(repoRoot)|..];
    AppendRelative(repoRoot, p);
  }

  /** Two different hits are reported with different paths. */
  lemma MatchAtInjective(fs: FileSystem, d: Path, p: Path, q: Path)
    requires Valid(fs) && p in fs && q in fs
    requires |p| >= |d| + 2 && |q| >= |d| + 2 && p[..|d|] == d && q[..|d|] == d
    requires MatchAt(d, p) == MatchAt(d, q)
    ensures p == q
  {
    assert Clean(p) && Clean(q);
    var a := ["templates", "devcontainers"] + p[|d|..];
    var b := ["templates", "devcontainers"] + q[|d|..];
    assert forall i :: 2 <= i < |a| ==> a[i] == p[|d| + i - 2];
    assert forall i :: 2 <= i < |b| ==> b[i] == q[|d| + i - 2];
    JoinWithSlashInjective(a, b);
    assert p[|d|..] == a[2..] && q[|d|..] == b[2..];
    assert p == p[..|d|] + p[|d|..] && q == q[..|d|] + q[|d|..];
  }

  /** `f.is_file() and search_in_file(f, query, False)` for an entry `f` that `rglob` yielded. */
  predicate Selected(fs: FileSystem, p: Path, query: string)
  {
    p in fs && fs[p].File? && SearchInFile(fs, p, query, false)
  }

  /** Below a visible configuration `c`, the hits are the selected descendants. */
  lemma HitsBelow(fs: FileSystem, d: Path, c: Path, query: string)
    requires |c| == |d| + 1 && c[..|d|] == d && c in fs && fs[c].Dir? && !IsHidden(c[|d|])
    ensures forall p :: IsHit(fs, d, p, query) && p[..|d| + 1] == c <==> p in Descendants(fs, c) && Selected(fs, p, query)
  {
    forall p | p in Descendants(fs, c)
      ensures p[..|d| + 1] == c && |p| >= |d| + 2 && p[..|d|] == d
    {
    }
  }

  /**
   * The inner walk of the search: every regular file `rglob` yields below
   * the configuration `c` that contains the query. `ps` are the hits'
   * paths, in the order reported.
   */
  method SearchConfiguration(fs: FileSystem, d: Path, c: Path, query: string)
    returns (ms: seq<Match>, ghost ps: seq<Path>)
    requires |c| == |d| + 1 && c[..|d|] == d && c in fs && fs[c].Dir? && !IsHidden(c[|d|])
    ensures |ms| == |ps| && Distinct(ps)
    ensures forall k :: 0 <= k < |ps| ==> IsHit(fs, d, ps[k], query) && ms[k] == MatchAt(d, ps[k])
    ensures forall p :: p in ps <==> IsHit(fs, d, p, query) && p[..|d| + 1] == c
  {
    var found := Enumerate(Descendants(fs, c));
    ms, ps := [], [];
    var j := 0;
    while j < |found|
      invariant 0 <= j <= |found|
      invariant |ms| == |ps| && Distinct(ps)
      invariant forall k :: 0 <= k < |ps| ==> ps[k] in found && |ps[k]| >= |d| + 2 && ms[k] == MatchAt(d, ps[k])
      invariant forall p :: p in ps <==> p in found[..j] && Selected(fs, p, query)
    {
      var p := found[j];
      assert p in Descendants(fs, c);
      SelectStep(fs, query, found, j, ps);
      if Selected(fs, p, query) {
        assert p !in found[..j];
        DistinctSnoc(ps, p);
        ps := ps + [p];
        ms := ms + [MatchAt(d, p)];
      }
      j := j + 1;
    }
    assert found[..j] == found;
    HitsBelow(fs, d, c, query);
  }

  /** Looking at one more entry `found[j]` keeps the inner loop's invariant. */
  lemma SelectStep(fs: FileSystem, query: string, found: seq<Path>, j: nat, ps: seq<Path>)
    requires j < |found|
    requires forall p :: p in ps <==> p in found[..j] && Selected(fs, p, query)
    ensures var next := if Selected(fs, found[j], query) then ps + [found[j]] else ps;
      forall p :: p in next <==> p in found[..j + 1] && Selected(fs, p, query)
  {
    assert found[..j + 1] == found[..j] + [found[j]];
  }

  /** Adding the hits of one more configuration `c` keeps the outer loop's invariant. */
  lemma ExtendHits(fs: FileSystem, d: Path, query: string, done: seq<Path>, c: Path,
                   hits: seq<Path>, ps: seq<Path>, dcs: seq<Match>, ms: seq<Match>)
    requires c !in done
    requires |dcs| == |hits| && Distinct(hits) && |ms| == |ps| && Distinct(ps)
    requires forall k :: 0 <= k < |hits| ==> IsHit(fs, d, hits[k], query) && dcs[k] == MatchAt(d, hits[k])
    requires forall k :: 0 <= k < |ps| ==> IsHit(fs, d, ps[k], query) && ms[k] == MatchAt(d, ps[k])
    requires forall p :: p in hits <==> IsHit(fs, d, p, query) && p[..|d| + 1] in done
    requires forall p :: p in ps <==> IsHit(fs, d, p, query) && p[..|d| + 1] == c
    ensures |dcs + ms| == |hits + ps| && Distinct(hits + ps)
    ensures forall k :: 0 <= k < |hits + ps| ==> IsHit(fs, d, (hits + ps)[k], query) && (dcs + ms)[k] == MatchAt(d, (hits + ps)[k])
    ensures forall p :: p in hits + ps <==> IsHit(fs, d, p, query) && p[..|d| + 1] in done + [c]
  {
    DistinctAppend(hits, ps);
    forall k | 0 <= k < |hits + ps|
      ensures IsHit(fs, d, (hits + ps)[k], query) && (dcs + ms)[k] == MatchAt(d, (hits + ps)[k])
    {
      if k >= |hits| {
        assert (hits + ps)[k] == ps[k - |hits|] && (dcs + ms)[k] == ms[k - |hits|];
      }
    }
  }

  /** A configuration that is not a visible directory contributes no hits. */
  lemma SkipConfiguration(fs: FileSystem, d: Path, query: string, done: seq<Path>, c: Path, hits: seq<Path>)
    requires |c| == |d| + 1
    requires !(c in fs && fs[c].Dir? && !IsHidden(c[|d|]))
    requires forall p :: p in hits <==> IsHit(fs, d, p, query) && p[..|d| + 1] in done
    ensures forall p :: p in hits <==> IsHit(fs, d, p, query) && p[..|d| + 1] in done + [c]
  {
  }

  /** Hits gathered configuration by configuration, over all of them, are all the hits. */
  lemma HitsComplete(fs: FileSystem, d: Path, query: string, subdirs: seq<Path>, hits: seq<Path>)
    requires forall x :: x in subdirs <==> x in Children(fs, d)
    requires forall p :: p in hits <==> IsHit(fs, d, p, query) && p[..|d| + 1] in subdirs
    ensures forall p :: p in hits <==> IsHit(fs, d, p, query)
  {
    forall p | IsHit(fs, d, p, query)
      ensures p[..|d| + 1] in subdirs
    {
      assert p[..|d| + 1] in Children(fs, d);
    }
  }

  /** The matches of distinct hits are distinct, and are exactly the devcontainer hits. */
  lemma MatchesOfHits(fs: FileSystem, d: Path, query: string, hits: seq<Path>, dcs: seq<Match>)
    requires Valid(fs)
    requires |dcs| == |hits| && Distinct(hits)
    requires forall k :: 0 <= k < |hits| ==> IsHit(fs, d, hits[k], query) && dcs[k] == MatchAt(d, hits[k])
    requires forall p :: p in hits <==> IsHit(fs, d, p, query)
    ensures Distinct(dcs)
    ensures forall m :: m in dcs <==> m in DevcontainerHits(fs, d, query)
  {
    forall k1, k2 | 0 <= k1 < k2 < |dcs|
      ensures dcs[k1] != dcs[k2]
    {
      if dcs[k1] == dcs[k2] {
        MatchAtInjective(fs, d, hits[k1], hits[k2]);
      }
    }
    forall m | m in DevcontainerHits(fs, d, query)
      ensures m in dcs
    {
      var p :| p in fs && IsHit(fs, d, p, query) && m == MatchAt(d, p);
      var k :| 0 <= k < |hits| && hits[k] == p;
    }
  }

  /**
   * The devcontainer half of `search_preferences`: for each visible
   * sub-directory `iterdir` yields, the hits below it.
   */
  method SearchDevcontainers(fs: FileSystem, d: Path, query: string) returns (dcs: seq<Match>)
    requires Valid(fs)
    ensures Distinct(dcs)
    ensures forall m :: m in dcs <==> m in DevcontainerHits(fs, d, query)
  {
    var subdirs := Enumerate(Children(fs, d));
    dcs := [];
    ghost var hits: seq<Path> := [];
    var i := 0;
    while i < |subdirs|
      invariant 0 <= i <= |subdirs|
      invariant |dcs| == |hits| && Distinct(hits)
      invariant forall k :: 0 <= k < |hits| ==> IsHit(fs, d, hits[k], query) && dcs[k] == MatchAt(d, hits[k])
      invariant forall p :: p in hits <==> IsHit(fs, d, p, query) && p[..|d| + 1] in subdirs[..i]
    {
      var c := subdirs[i];
      assert c in Children(fs, d);
      assert subdirs[..i + 1] == subdirs[..i] + [c];
      if fs[c].Dir? && !IsHidden(c[|d|]) {
        var ms, ps := SearchConfiguration(fs, d, c, query);
        ghost var done := subdirs[..i];
        assert c !in done;
        ExtendHits(fs, d, query, done, c, hits, ps, dcs, ms);
        hits := hits + ps;
        dcs := dcs + ms;
      } else {
        SkipConfiguration(fs, d, query, subdirs[..i], c, hits);
      }
      i := i + 1;
    }
    assert subdirs[..i] == subdirs;
    HitsComplete(fs, d, query, subdirs, hits);
    MatchesOfHits(fs, d, query, hits, dcs);
  }

  /**
   * `search_preferences(query, category)`: devcontainer matches first, in
   * the order the directory walk yields them, then guide matches in the
   * order CLAUDE.md, README.md. An unknown category matches nothing; a
   * devcontainers path that is a file makes `iterdir` raise.
   */
  method SearchPreferences(fs: FileSystem, repoRoot: Path, query: string, category: string)
    returns (r: Result<seq<Match>, OsError>)
    requires Valid(fs)
    ensures var st := Stat(fs, DevcontainersDir(repoRoot));
      r.Err? <==> SearchesDevcontainers(category) && st.Some? && fs[st.value].File?
    ensures r.Err? ==> r.error == NotADirectory(DevcontainersDir(repoRoot))
    ensures r.Ok? ==>
      var guides := if SearchesGuides(category) then GuideHits(fs, repoRoot, SearchedGuides, query) else [];
      var st := Stat(fs, DevcontainersDir(repoRoot));
      var expected := if SearchesDevcontainers(category) && st.Some? then DevcontainerHits(fs, st.value, query) else {};
      && |guides| <= |r.value|
      && r.value[|r.value| - |guides|..] == guides
      && Distinct(r.value[..|r.value| - |guides|])
      && forall m :: m in r.value[..|r.value| - |guides|] <==> m in expected
  {
    var dcs: seq<Match> := [];
    if SearchesDevcontainers(category) {
      var dir := DevcontainersDir(repoRoot);
      var st := Stat(fs, dir);
      if st.Some? {
        if fs[st.value].File? {
          return Err(NotADirectory(dir));
        }
        dcs := SearchDevcontainers(fs, st.value, query);
      }
    }
    var guides: seq<Match> := [];
    if SearchesGuides(category) {
      var i := 0;
      while i < |SearchedGuides|
        invariant 0 <= i <= |SearchedGuides|
        invariant guides == GuideHits(fs, repoRoot, SearchedGuides[..i], query)
      {
        var g := SearchedGuides[i];
        assert SearchedGuides[..i + 1][..i] == SearchedGuides[..i];
        if SearchInFile(fs, repoRoot + [g], query, false) {
          guides := guides + [GuideMatch(g, g)];
        }
        i := i + 1;
      }
      assert SearchedGuides[..i] == SearchedGuides;
    }
    r := Ok(dcs + guides);
    assert r.value[..|dcs|] == dcs && r.value[|dcs|..] == guides;
  }

  /** A guide is reported exactly when it is a regular file at the root containing the query. */
  lemma SearchReportsGuide(fs: FileSystem, repoRoot: Path, query: string, g: string)
    ensures GuideMatch(g, g) in GuideHits(fs, repoRoot, SearchedGuides, query) <==>
      (g == "CLAUDE.md" || g == "README.md") && SearchInFile(fs, repoRoot + [g], query, false)
  {
    GuideHitsMembership(fs, repoRoot, SearchedGuides, query, g);
  }

  /**
   * `list_devcontainer_files(name)` (the tool): the recursive listing of
   * `templates/devcontainers/<name>`, empty when that is missing or not a
   * directory.
   */
  method ListDevcontainerFiles(fs: FileSystem, repoRoot: Path, name: string) returns (files: seq<string>)
    requires Valid(fs)
    ensures files == DirectoryListing(fs, Append(DevcontainersDir(repoRoot), name))
  {
    var dcPath := Append(DevcontainersDir(repoRoot), name);
    var st := Stat(fs, dcPath);
    if st.None? || !fs[st.value].Dir? {
      return [];
    }
    files := ListDirectoryFiles(fs, dcPath);
  }

  /**
   * The tool does not confine `name` to the devcontainers directory: an
   * absolute name replaces the base, so the tool lists any directory.
   */
  lemma AbsoluteNameEscapes(repoRoot: Path, t: Path)
    requires |t| > 0 && Clean(t)
    ensures Append(DevcontainersDir(repoRoot), ShowPath(t)) == t
  {
    var s := ShowPath(t);
    PartsOfJoin(t);
    assert FirstSlash(s) == 0;
    assert s[1..] == JoinWith("/", t);
  }

  /** The regular files directly inside `dir`, or none when it is missing or not a directory. */
  function FilesIn(fs: FileSystem, dir: Path): set<string>
  {
    match Stat(fs, dir)
    case None => {}
    case Some(d) => if fs[d].Dir? then FileNames(fs, d) else {}
  }

  /** The top-level files of the configuration `name`. */
  function ConfigFiles(fs: FileSystem, repoRoot: Path, name: string): set<string>
  {
    FilesIn(fs, Append(DevcontainersDir(repoRoot), name))
  }

  /** The dictionary `compare_devcontainers` returns. */
  datatype Comparison = Comparison(
    name1: string, name2: string,
    files1: seq<string>, files2: seq<string>,
    commonFiles: seq<string>, uniqueTo1: seq<string>, uniqueTo2: seq<string>)

  /** `[f.name for f in dir.iterdir() if f.is_file()]` when `dir` is a directory, else `[]`. */
  method FileNamesOf(fs: FileSystem, dir: Path) returns (names: seq<string>)
    ensures Distinct(names)
    ensures forall n :: n in names <==> n in FilesIn(fs, dir)
  {
    var st := Stat(fs, dir);
    if st.None? || !fs[st.value].Dir? {
      return [];
    }
    names := RegularFiles(fs, st.value);
  }

  /** `sorted(list(s))` for a set of names: whatever order the set yields, then sorted. */
  method SortedNames(s: set<string>) returns (r: seq<string>)
    ensures r == SortedSet(s)
  {
    var xs := Enumerate(s);
    SortDistinctIsSortedSet(xs);
    assert (set x | x in xs) == s;
    r := SortBy(xs, Id);
  }

  /**
   * `compare_devcontainers(name1, name2)`: the top-level files of each
   * configuration, and the sorted intersection and differences of the two.
   */
  method CompareDevcontainers(fs: FileSystem, repoRoot: Path, name1: string, name2: string)
    returns (r: Comparison)
    ensures r.name1 == name1 && r.name2 == name2
    ensures Distinct(r.files1) && forall n :: n in r.files1 <==> n in ConfigFiles(fs, repoRoot, name1)
    ensures Distinct(r.files2) && forall n :: n in r.files2 <==> n in ConfigFiles(fs, repoRoot, name2)
    ensures var f1, f2 := ConfigFiles(fs, repoRoot, name1), ConfigFiles(fs, repoRoot, name2);
      && r.commonFiles == SortedSet(f1 * f2)
      && r.uniqueTo1 == SortedSet(f1 - f2)
      && r.uniqueTo2 == SortedSet(f2 - f1)
  {
    var files1 := FileNamesOf(fs, Append(DevcontainersDir(repoRoot), name1));
    var files2 := FileNamesOf(fs, Append(DevcontainersDir(repoRoot), name2));
    var set1 := set n | n in files1;
    var set2 := set n | n in files2;
    assert set1 == ConfigFiles(fs, repoRoot, name1);
    assert set2 == ConfigFiles(fs, repoRoot, name2);
    var common := SortedNames(set1 * set2);
    var unique1 := SortedNames(set1 - set2);
    var unique2 := SortedNames(set2 - set1);
    r := Comparison(name1, name2, files1, files2, common, unique1, unique2);
  }

  /**
   * The comparison splits each side's files, without loss or repetition,
   * into the common ones and the ones unique to that side.
   */
  lemma ComparisonPartitions(f1: set<string>, f2: set<string>)
    ensures |SortedSet(f1 * f2)| + |SortedSet(f1 - f2)| == |f1|
    ensures |SortedSet(f1 * f2)| + |SortedSet(f2 - f1)| == |f2|
  {
    SortedSetLength(f1 * f2);
    SortedSetLength(f1 - f2);
    SortedSetLength(f2 - f1);
    SplitSize(f1, f2);
    SplitSize(f2, f1);
  }

  lemma SplitSize(a: set<string>, b: set<string>)
    ensures |a * b| + |a - b| == |a|
  {
    assert a == (a * b) + (a - b);
  }

  /** One entry of `list_all_preferences`: a configuration and its sorted top-level files. */
  datatype Entry = Entry(name: string, files: seq<string>)

  function EntryName(e: Entry): string
  {
    e.name
  }

  /** The entry for the sub-directory `n` of `d`. */
  function EntryFor(fs: FileSystem, d: Path, n: string): Entry
  {
    Entry(n, SortedSet(FileNames(fs, d + [n])))
  }

  /** The catalogue of visible sub-directories of `d`, sorted by name. */
  function Catalogue(fs: FileSystem, d: Path): (r: seq<Entry>)
    ensures StrictlySortedBy(r, EntryName)
    ensures forall e :: e in r <==> e.name in VisibleSubdirNames(fs, d) && e == EntryFor(fs, d, e.name)
  {
    var ns := SortedSet(VisibleSubdirNames(fs, d));
    var r := seq(|ns|, k requires 0 <= k < |ns| => EntryFor(fs, d, ns[k]));
    assert forall e :: e in r <==> e.name in ns && e == EntryFor(fs, d, e.name) by {
      forall e: Entry | e.name in ns && e == EntryFor(fs, d, e.name) ensures e in r {
        var k :| 0 <= k < |ns| && ns[k] == e.name;
        assert r[k] == e;
      }
    }
    r
  }

  /**
   * `list_all_preferences()`: every visible sub-directory of `.devcontainer`
   * with its sorted top-level files, sorted by name; nothing when
   * `.devcontainer` is missing; `iterdir` raises when it is a file.
   */
  method ListAllPreferences(fs: FileSystem, repoRoot: Path) returns (r: Result<seq<Entry>, OsError>)
    requires Valid(fs)
    ensures var dir := repoRoot + [".devcontainer"];
      r == match Stat(fs, dir)
        case None => Ok([])
        case Some(d) => if fs[d].Dir? then Ok(Catalogue(fs, d)) else Err(NotADirectory(dir))
  {
    var dir := repoRoot + [".devcontainer"];
    var st := Stat(fs, dir);
    if st.None? {
      return Ok([]);
    }
    var d := st.value;
    if !fs[d].Dir? {
      return Err(NotADirectory(dir));
    }
    var subdirs := VisibleSubdirs(fs, d);
    var entries: seq<Entry> := [];
    var i := 0;
    while i < |subdirs|
      invariant 0 <= i <= |subdirs|
      invariant |entries| == i
      invariant forall k :: 0 <= k < i ==> entries[k] == EntryFor(fs, d, subdirs[k])
    {
      var e := EntryOf(fs, d, subdirs[i]);
      entries := entries + [e];
      i := i + 1;
    }
    var sorted := SortBy(entries, EntryName);
    CatalogueIsSortedEntries(fs, d, subdirs, entries);
    r := Ok(sorted);
  }

  /** `{"name": n, "files": sorted(files)}` for the sub-directory `n` of `d`. */
  method EntryOf(fs: FileSystem, d: Path, n: string) returns (e: Entry)
    ensures e == EntryFor(fs, d, n)
  {
    var files := RegularFiles(fs, d + [n]);
    assert (set f | f in files) == FileNames(fs, d + [n]);
    SortDistinctIsSortedSet(files);
    e := Entry(n, SortBy(files, Id));
  }

  /** Sorting the entries built in `iterdir` order gives the catalogue. */
  lemma CatalogueIsSortedEntries(fs: FileSystem, d: Path, subdirs: seq<string>, entries: seq<Entry>)
    requires Distinct(subdirs)
    requires forall n :: n in subdirs <==> n in VisibleSubdirNames(fs, d)
    requires |entries| == |subdirs|
    requires forall k :: 0 <= k < |subdirs| ==> entries[k] == EntryFor(fs, d, subdirs[k])
    ensures SortBy(entries, EntryName) == Catalogue(fs, d)
  {
    assert Distinct(entries) by {
      forall i, j | 0 <= i < j < |entries| ensures entries[i] != entries[j] {
        assert entries[i].name == subdirs[i] && entries[j].name == subdirs[j];
      }
    }
    assert KeyInjective(entries, EntryName);
    SortByStrict(entries, EntryName);
    EntriesMembership(fs, d, subdirs, entries);
    StrictlySortedUnique(SortBy(entries, EntryName), Catalogue(fs, d), EntryName);
  }

  lemma EntriesMembership(fs: FileSystem, d: Path, subdirs: seq<string>, entries: seq<Entry>)
    requires |entries| == |subdirs|
    requires forall k :: 0 <= k < |subdirs| ==> entries[k] == EntryFor(fs, d, subdirs[k])
    ensures forall e :: e in entries <==> e.name in subdirs && e == EntryFor(fs, d, e.name)
  {
    forall e: Entry | e.name in subdirs && e == EntryFor(fs, d, e.name)
      ensures e in entries
    {
      var k :| 0 <= k < |subdirs| && subdirs[k] == e.name;
      assert entries[k] == e;
    }
  }
}
