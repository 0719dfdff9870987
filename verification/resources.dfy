/**
 * mcp_server/resources.py: the five read-only resources the server
 * registers. A handler either returns its value, raises ResourceError, or
 * lets an exception of the guarded reader through.
 */
module Resources {
  import opened Wrappers
  import opened Strings
  import opened Sorting
  import opened FileTree
  import opened Utils

  /** How a resource handler fails. */
  datatype Failure =
    | ResourceError(message: string)
    | Raised(error: ReadError)   // a reader exception the handler does not catch

  // The messages of the ResourceErrors the handlers raise.

  function InvalidFileTypeMessage(file: string): string
  {
    "Invalid file type '" + file + "'. Valid types: config, dockerfile, compose, caddyfile"
  }

  function MissingConfigFileMessage(fname: string, name: string): string
  {
    "File '" + fname + "' not found in devcontainer '" + name + "'"
  }

  function InvalidGuideMessage(name: string): string
  {
    "Invalid guide '" + name + "'. Valid guides: claude, readme, style"
  }

  function MissingGuideMessage(name: string): string
  {
    "Guide '" + name + "' not found"
  }

  function MissingConfigMessage(name: string): string
  {
    "Devcontainer '" + name + "' not found"
  }

  function MissingFileMessage(filepath: string): string
  {
    "File '" + filepath + "' not found"
  }

  /** The dictionary `preferences://catalog` returns. */
  datatype Catalog = Catalog(devcontainers: seq<string>, guides: seq<string>, repository: string)

  /** The guides the catalogue always advertises, present or not. */
  const AdvertisedGuides: seq<string> := ["CLAUDE.md", "README.md", "STYLE.md"]

  /** The catalogue for a repository whose devcontainers directory has the visible sub-directories `names`. */
  function CatalogOf(repoRoot: Path, names: set<string>): Catalog
  {
    Catalog(SortedSet(names), AdvertisedGuides, ShowPath(repoRoot))
  }

  /**
   * `list_preferences` (`preferences://catalog`): the sorted visible
   * sub-directories of `templates/devcontainers`, none when it is missing;
   * `iterdir` raises when it is a file.
   */
  method ListPreferences(fs: FileSystem, repoRoot: Path) returns (r: Result<Catalog, OsError>)
    ensures var dir := DevcontainersDir(repoRoot);
      r == match Stat(fs, dir)
        case None => Ok(CatalogOf(repoRoot, {}))
        case Some(d) => if fs[d].Dir? then Ok(CatalogOf(repoRoot, VisibleSubdirNames(fs, d))) else Err(NotADirectory(dir))
  {
    var dir := DevcontainersDir(repoRoot);
    var devcontainers: seq<string> := [];
    var st := Stat(fs, dir);
    if st.Some? {
      var d := st.value;
      if !fs[d].Dir? {
        return Err(NotADirectory(dir));
      }
      devcontainers := VisibleSubdirs(fs, d);
      assert (set n | n in devcontainers) == VisibleSubdirNames(fs, d);
    }
    SortDistinctIsSortedSet(devcontainers);
    r := Ok(Catalog(SortBy(devcontainers, Id), AdvertisedGuides, ShowPath(repoRoot)));
  }

  /** The catalogue names each configuration once, in order, and nothing else. */
  lemma CatalogListsConfigurations(repoRoot: Path, names: set<string>)
    ensures StrictlySorted(CatalogOf(repoRoot, names).devcontainers)
    ensures |CatalogOf(repoRoot, names).devcontainers| == |names|
    ensures forall n :: n in CatalogOf(repoRoot, names).devcontainers <==> n in names
  {
    SortedSetLength(names);
  }

  /** The file each alias of `preferences://devcontainer/{name}/{file}` stands for. */
  function DevcontainerFileName(file: string): (r: Option<string>)
    ensures r.Some? <==> file in {"config", "dockerfile", "compose", "caddyfile"}
    ensures r.Some? ==> ValidName(r.value)
  {
    if file == "config" then Some("devcontainer.json")
    else if file == "dockerfile" then Some("Dockerfile")
    else if file == "compose" then Some("docker-compose.yml")
    else if file == "caddyfile" then Some("Caddyfile")
    else None
  }

  /** Distinct aliases name distinct files. */
  lemma DevcontainerFileNameInjective(f1: string, f2: string)
    requires DevcontainerFileName(f1).Some? && DevcontainerFileName(f1) == DevcontainerFileName(f2)
    ensures f1 == f2
  {
  }

  /**
   * `get_devcontainer_file(name, file)`: an unknown alias is refused; a
   * missing file becomes a ResourceError naming file and configuration; a
   * path that escapes the repository or is not a file raises.
   */
  function GetDevcontainerFile(fs: FileSystem, repoRoot: Path, name: string, file: string): (r: Result<string, Failure>)
    ensures DevcontainerFileName(file).None? ==>
      r == Err(ResourceError(InvalidFileTypeMessage(file)))
    ensures r.Err? && r.error.Raised? ==> IsValueError(r.error.error)
    ensures r.Ok? ==> (DevcontainerFileName(file).Some? &&
      var q := Normalize(Append(DevcontainersDir(repoRoot), name) + [DevcontainerFileName(file).value]);
      Normalize(repoRoot) <= q && q in fs && fs[q] == File(r.value))
  {
    match DevcontainerFileName(file)
    case None =>
      Err(ResourceError(InvalidFileTypeMessage(file)))
    case Some(fname) =>
      var filePath := Append(DevcontainersDir(repoRoot), name) + [fname];
      match ReadFileSafe(fs, filePath, repoRoot)
      case Ok(content) => Ok(content)
      case Err(NotFound(_)) => Err(ResourceError(MissingConfigFileMessage(fname, name)))
      case Err(e) => Err(Raised(e))
  }

  /**
   * For a plain configuration name in a real tree below a resolved root, the
   * handler returns the file's contents, reports a missing file, or raises
   * for a directory.
   */
  lemma GetDevcontainerFileReads(fs: FileSystem, repoRoot: Path, name: string, file: string)
    requires Valid(fs) && Resolved(repoRoot) && ValidName(name)
    requires DevcontainerFileName(file).Some?
    ensures var fname := DevcontainerFileName(file).value;
      var p := repoRoot + ["templates", "devcontainers", name, fname];
      var r := GetDevcontainerFile(fs, repoRoot, name, file);
      && (p !in fs ==> r == Err(ResourceError(MissingConfigFileMessage(fname, name))))
      && (p in fs && fs[p].Dir? ==> r == Err(Raised(NotAFile(p))))
      && (p in fs && fs[p].File? ==> r == Ok(fs[p].content))
  {
    var fname := DevcontainerFileName(file).value;
    var p := repoRoot + ["templates", "devcontainers", name, fname];
    AppendName(DevcontainersDir(repoRoot), name);
    assert DevcontainersDir(repoRoot) + [name] + [fname] == p;
    NormalizeResolved(repoRoot);
    NormalizeResolved(p);
    ReadFileSafeCases(fs, p, repoRoot);
  }

  /**
   * A configuration name that climbs out of the repository is stopped by the
   * guard: the handler lets the access-denied error through.
   */
  lemma GetDevcontainerFileClimbOut(fs: FileSystem, repoRoot: Path, name: string, n: nat, target: Path, file: string)
    requires Resolved(repoRoot) && |repoRoot| + 2 <= n && Resolved(target)
    requires |name| > 0 && name[0] != '/' && Parts(name) == Dots(n) + target
    requires DevcontainerFileName(file).Some?
    requires !(repoRoot <= target + [DevcontainerFileName(file).value])
    ensures var p := DevcontainersDir(repoRoot) + Dots(n) + target + [DevcontainerFileName(file).value];
      GetDevcontainerFile(fs, repoRoot, name, file) == Err(Raised(AccessDenied(p)))
  {
    var fname := DevcontainerFileName(file).value;
    var base := DevcontainersDir(repoRoot);
    var p := base + Dots(n) + target + [fname];
    assert Append(base, name) + [fname] == p by {
      Regroup(base, Dots(n), target);
    }
    assert ReadFileSafe(fs, p, repoRoot) == Err(AccessDenied(p)) by {
      SnocRegroup(base, Dots(n), target, fname);
      ResolvedSnoc(target, fname);
      DevcontainersDirResolved(repoRoot);
      ReadFileSafeDeniesClimbOut(fs, repoRoot, base, n, target + [fname]);
    }
    GetDevcontainerFileRaises(fs, repoRoot, name, file, AccessDenied(p));
  }

  /** Whatever the reader raises other than a missing file goes through the handler. */
  lemma GetDevcontainerFileRaises(fs: FileSystem, repoRoot: Path, name: string, file: string, e: ReadError)
    requires DevcontainerFileName(file).Some? && !e.NotFound?
    requires ReadFileSafe(fs, Append(DevcontainersDir(repoRoot), name) + [DevcontainerFileName(file).value], repoRoot) == Err(e)
    ensures GetDevcontainerFile(fs, repoRoot, name, file) == Err(Raised(e))
  {
  }

  /** The file each guide alias of `preferences://guide/{name}` stands for. */
  function GuideFileName(name: string): (r: Option<string>)
    ensures r.Some? <==> name in {"claude", "readme", "style"}
    ensures r.Some? ==> ValidName(r.value) && r.value in AdvertisedGuides
  {
    if name == "claude" then Some("CLAUDE.md")
    else if name == "readme" then Some("README.md")
    else if name == "style" then Some("STYLE.md")
    else None
  }

  /**
   * `get_guide(name)`: an unknown alias is refused; a missing guide becomes
   * a ResourceError; anything else the reader raises goes through.
   */
  function GetGuide(fs: FileSystem, repoRoot: Path, name: string): (r: Result<string, Failure>)
    ensures GuideFileName(name).None? ==>
      r == Err(ResourceError(InvalidGuideMessage(name)))
    ensures r.Err? && r.error.Raised? ==> IsValueError(r.error.error)
    ensures r.Ok? ==> (GuideFileName(name).Some? &&
      var q := Normalize(repoRoot + [GuideFileName(name).value]);
      Normalize(repoRoot) <= q && q in fs && fs[q] == File(r.value))
  {
    match GuideFileName(name)
    case None => Err(ResourceError(InvalidGuideMessage(name)))
    case Some(g) =>
      match ReadFileSafe(fs, repoRoot + [g], repoRoot)
      case Ok(content) => Ok(content)
      case Err(NotFound(_)) => Err(ResourceError(MissingGuideMessage(name)))
      case Err(e) => Err(Raised(e))
  }

  /**
   * Below a resolved root a guide is never denied: the handler returns the
   * guide's contents, reports it missing, or raises because it is a
   * directory.
   */
  lemma GetGuideReads(fs: FileSystem, repoRoot: Path, name: string)
    requires Valid(fs) && Resolved(repoRoot)
    requires GuideFileName(name).Some?
    ensures var p := repoRoot + [GuideFileName(name).value];
      var r := GetGuide(fs, repoRoot, name);
      && (p !in fs ==> r == Err(ResourceError(MissingGuideMessage(name))))
      && (p in fs && fs[p].Dir? ==> r == Err(Raised(NotAFile(p))))
      && (p in fs && fs[p].File? ==> r == Ok(fs[p].content))
  {
    var p := repoRoot + [GuideFileName(name).value];
    NormalizeResolved(repoRoot);
    NormalizeResolved(p);
    ReadFileSafeCases(fs, p, repoRoot);
  }

  /** The dictionary `preferences://devcontainer/{name}/list` returns. */
  datatype Listing = Listing(devcontainer: string, files: seq<string>, count: nat)

  /**
   * `list_devcontainer_files(name)` (the resource): a ResourceError when the
   * configuration does not exist, otherwise its recursive listing and the
   * listing's length.
   */
  method ListDevcontainerFiles(fs: FileSystem, repoRoot: Path, name: string) returns (r: Result<Listing, Failure>)
    requires Valid(fs)
    ensures var dcPath := Append(DevcontainersDir(repoRoot), name);
      r.Err? <==> Stat(fs, dcPath).None?
    ensures r.Err? ==> r.error == ResourceError(MissingConfigMessage(name))
    ensures r.Ok? ==>
      && r.value.devcontainer == name
      && r.value.files == DirectoryListing(fs, Append(DevcontainersDir(repoRoot), name))
      && r.value.count == |r.value.files|
  {
    var dcPath := Append(DevcontainersDir(repoRoot), name);
    if Stat(fs, dcPath).None? {
      return Err(ResourceError(MissingConfigMessage(name)));
    }
    var files := ListDirectoryFiles(fs, dcPath);
    r := Ok(Listing(name, files, |files|));
  }

  /**
   * `get_file_content(filepath)` (`preferences://files/{filepath*}`): the
   * guarded read of `repo_root / filepath`; every failure becomes a
   * ResourceError.
   */
  function GetFileContent(fs: FileSystem, repoRoot: Path, filepath: string): (r: Result<string, Failure>)
    ensures r.Err? ==> r.error.ResourceError?
    ensures r.Ok? ==>
      var q := Normalize(Append(repoRoot, filepath));
      Normalize(repoRoot) <= q && q in fs && fs[q] == File(r.value)
  {
    match ReadFileSafe(fs, Append(repoRoot, filepath), repoRoot)
    case Ok(content) => Ok(content)
    case Err(NotFound(_)) => Err(ResourceError(MissingFileMessage(filepath)))
    case Err(e) => Err(ResourceError(Message(e)))
  }

  /**
   * A relative path without ".." below a resolved root reads the file it
   * names, reports it missing, or reports that it is not a file.
   */
  lemma GetFileContentReads(fs: FileSystem, repoRoot: Path, filepath: string)
    requires Valid(fs) && Resolved(repoRoot)
    requires |filepath| == 0 || filepath[0] != '/'
    requires ".." !in Parts(filepath)
    ensures var p := repoRoot + Parts(filepath);
      var r := GetFileContent(fs, repoRoot, filepath);
      && (p !in fs ==> r == Err(ResourceError(MissingFileMessage(filepath))))
      && (p in fs && fs[p].Dir? ==> r == Err(ResourceError(Message(NotAFile(Append(repoRoot, filepath))))))
      && (p in fs && fs[p].File? ==> r == Ok(fs[p].content))
  {
    ReadFileSafeInside(fs, repoRoot, filepath);
  }

  /**
   * A path that climbs out of the repository with enough ".." and then names
   * something outside it is denied, whatever the tree holds.
   */
  lemma GetFileContentClimbOut(fs: FileSystem, repoRoot: Path, filepath: string, n: nat, target: Path)
    requires Resolved(repoRoot) && |repoRoot| <= n && Resolved(target)
    requires |filepath| > 0 && filepath[0] != '/' && Parts(filepath) == Dots(n) + target
    requires !(repoRoot <= target)
    ensures GetFileContent(fs, repoRoot, filepath) == Err(ResourceError(Message(AccessDenied(repoRoot + Dots(n) + target))))
  {
    Regroup(repoRoot, Dots(n), target);
    ReadFileSafeDeniesClimbOut(fs, repoRoot, repoRoot, n, target);
  }

  /** The classic traversal: from "/repo", "../../etc/passwd" is refused with the reader's message. */
  lemma EtcPasswdIsDenied(fs: FileSystem, repoRoot: Path, filepath: string)
    requires repoRoot == ["repo"] && filepath == JoinWith("/", ["..", "..", "etc", "passwd"])
    ensures GetFileContent(fs, repoRoot, filepath) ==
      Err(ResourceError(Message(AccessDenied(repoRoot + ["..", "..", "etc", "passwd"]))))
  {
    var ns := ["..", "..", "etc", "passwd"];
    assert Dots(2) + ["etc", "passwd"] == ns;
    ClimbingPathParts(2, ["etc", "passwd"]);
    GetFileContentClimbOut(fs, repoRoot, filepath, 2, ["etc", "passwd"]);
    Regroup(repoRoot, Dots(2), ["etc", "passwd"]);
  }

  /** The strings of the traversal: the requested path, and the path the denial names. */
  lemma EtcPasswdStrings()
    ensures JoinWith("/", ["..", "..", "etc", "passwd"]) == "../../etc/passwd"
    ensures ShowPath(["repo", "..", "..", "etc", "passwd"]) == "/repo/../../etc/passwd"
  {
  }
}
