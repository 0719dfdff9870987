# Preferences MCP server, modelled in Dafny

The server exposes a repository of development preferences (devcontainer
configurations under `templates/devcontainers/` and `.devcontainer/`, and
the guides `CLAUDE.md`, `README.md`, `STYLE.md`) to MCP clients as tools and
resources. This project models its core:

- the helpers of `mcp_server/utils.py`:
  - the containment guard `ensure_path_in_repo`;
  - the guarded reader `read_file_safe`;
  - the recursive listing `list_directory_files`;
  - the substring test `search_in_file`;
- the four tools of `mcp_server/tools.py`;
- the five resources of `mcp_server/resources.py`.

It also proves what these promise:

- only files inside the repository are read, and paths that climb out are denied;
- listings are sorted, free of repetition, and hold exactly the files they should;
- searches report exactly the files containing the query, ignoring case;
- each handler fails in the way the code says.

The files:

- `tree.dfy` (module `FileTree`) models the file tree and `pathlib`:
  - a tree is a map from paths (sequences of names) to regular files or directories;
  - `Valid` says the map is a real tree;
  - `Append` models `base / s`, and `Normalize` models `resolve()`;
  - `Stat` models the physical lookup behind `exists()` / `is_dir()` / `read_text()`;
  - `Enumerate` gives the unspecified order of `iterdir` / `rglob` and of set iteration;
  - `NamesWhere` models the list comprehensions over `iterdir`.
- `strings.dfy` (module `Strings`) models Python's string order, `in` on strings, `lower()` and `"/".join`.
- `sorting.dfy` (module `Sorting`) models `sorted` and `list.sort(key=...)` as insertion sort, and proves that a strictly sorted sequence is determined by its elements.
- `utils.dfy`, `tools.dfy` and `resources.dfy` (modules `Utils`, `Tools`, `Resources`) follow the three Python files.

In the model:

- The repository root and the tree are parameters of every operation.
- Exceptions become values:
  - the reader's exceptions are `Utils.ReadError`;
  - `iterdir` on a file is `FileTree.NotADirectory`;
  - a resource handler's failure is `Resources.Failure`. It is either a `ResourceError` with its message, or `Raised` for a reader exception the handler lets through.

## Model

| member | source | states |
|---|---|---|
| Utils.EnsurePathInRepo | mcp_server/utils.py:23-41 | a path is accepted exactly when its resolution lies component-wise below the resolved root, and then comes back as the resolution of the path as given; a refused one is AccessDenied naming the path as given |
| Utils.Message | mcp_server/utils.py:41-86 | each of the three messages the guard and the reader raise (lines 41, 83 and 86) names the path as given |
| Utils.GuardAcceptsRoot | mcp_server/utils.py:36-39 | the root itself passes the guard, resolved |
| Utils.GuardStable | mcp_server/utils.py:36-39 | what the guard returns passes the guard again unchanged |
| Utils.GuardAcceptsInside | mcp_server/utils.py:36-39 | below a resolved root, a relative path without ".." is accepted as the root extended by its parts |
| Utils.GuardRejectsClimbOut | mcp_server/utils.py:36-41 | climbing out of a resolved base with enough ".." and then naming a place outside the root resolves to that place and is denied |
| Utils.GuardIsComponentWise | mcp_server/utils.py:38 | containment is by path components: "/repo2/x" starts with the characters "/repo" but is denied, while "/repo/x" is accepted |
| Utils.ReadFileSafe | mcp_server/utils.py:65-88 | contents are returned only for a regular file below the root; every error names the path as given; AccessDenied happens exactly when the resolved path is outside the root |
| Utils.ReadFileSafeCases | mcp_server/utils.py:79-88 | in a real tree the outcome is decided in order: outside the root, then missing, then a directory, then the contents |
| Utils.ReadFileSafeInside | mcp_server/utils.py:65-88 | a relative path without ".." below a resolved root is read from the place it names: missing, not a file, or its contents |
| Utils.ReadFileSafeDeniesClimbOut | mcp_server/utils.py:79-80 | a path climbing out of the repository is denied whatever the tree holds |
| Utils.SearchInFile | mcp_server/utils.py:91-109 | a hit needs a path that leads to a regular file; the empty query is found in every regular file and in nothing else |
| Utils.SearchInFileMeaning | mcp_server/utils.py:91-109 | true exactly when the path leads to a regular file in which the query occurs at some position, after lower-casing both unless the search is case-sensitive; false for a missing path or a directory |
| Utils.SearchIgnoresQueryCase | mcp_server/utils.py:106-107 | two queries that differ only in case give the same answer to the case-insensitive search |
| Utils.SearchSensitiveImpliesInsensitive | mcp_server/utils.py:104-107 | every case-sensitive hit is a case-insensitive hit |
| Utils.DirectoryListing | mcp_server/utils.py:44-62 | strictly sorted; empty for a missing path or a non-directory; otherwise holds exactly the "/"-joined relative paths of the regular files at any depth below the directory |
| Utils.ListDirectoryFiles | mcp_server/utils.py:44-62 | the loop over the `rglob` walk, in any order, returns the listing above |
| Utils.ListedEntriesAreFiles | mcp_server/utils.py:58-60 | every listed name, joined back onto the directory, leads to a regular file below it |
| Utils.RelativeNamesDiffer | mcp_server/utils.py:58-60 | different entries below the directory get different relative names, so the listing repeats nothing |
| Utils.PartsOfJoin | mcp_server/utils.py:60 | a "/"-joined relative path made of names and ".." parses back into exactly those parts |
| Utils.ClimbingPathParts | mcp_server/utils.py:36 | a string made of ".." parts and then names parses into exactly those parts and is relative |
| Utils.AppendClimbing | mcp_server/utils.py:36 | joining such a string onto a base climbs from that base |
| Tools.SearchPreferences | mcp_server/tools.py:20-68 | fails exactly when devcontainers are searched and the devcontainers path is a file; otherwise the devcontainer matches (each once, exactly the hits) come first, then the guide matches |
| Tools.SearchDevcontainers | mcp_server/tools.py:43-54 | the walk over every visible configuration reports each hit once, and nothing else |
| Tools.SearchConfiguration | mcp_server/tools.py:46-54 | inside one configuration: exactly the regular files below it that contain the query, each once, with their matches |
| Tools.MatchAt | mcp_server/tools.py:49-54 | the match names the configuration and the file, and its path ends with the file's name |
| Tools.MatchPathLeadsBack | mcp_server/tools.py:53 | the match's path is the file's path relative to the repository root: joined back onto the root it leads to the file found |
| Tools.MatchAtInjective | mcp_server/tools.py:49-54 | two different hits produce different matches, through their relative paths |
| Tools.GuideHits | mcp_server/tools.py:57-66 | at most one match per guide looked at, each a guide match for one of those guides with name equal to path |
| Tools.GuideHitsMembership | mcp_server/tools.py:57-66 | a guide is reported once, exactly when it is a regular file that contains the query |
| Tools.SearchReportsGuide | mcp_server/tools.py:58-66 | only CLAUDE.md and README.md are searched, and each is reported exactly when it contains the query |
| Tools.ListDevcontainerFiles | mcp_server/tools.py:70-85 | the tool returns the recursive listing of `templates/devcontainers/<name>`, empty when that is missing or not a directory |
| Tools.AbsoluteNameEscapes | mcp_server/tools.py:80 | an absolute `name` replaces the devcontainers base, so the tool lists any directory of the tree |
| Tools.FileNamesOf | mcp_server/tools.py:120-128 | the names of the regular files directly in a configuration, each once; none when it is missing or not a directory |
| Tools.SortedNames | mcp_server/tools.py:134-136 | turning a set into a list and sorting it gives the one strictly sorted sequence of its elements |
| Tools.CompareDevcontainers | mcp_server/tools.py:87-138 | echoes both names; each file list holds the configuration's top-level files once each; common and unique lists are the sorted intersection and the two sorted differences |
| Tools.ComparisonPartitions | mcp_server/tools.py:131-136 | the common and unique lists split each side's files without loss or repetition |
| Tools.Catalogue | mcp_server/tools.py:156-166 | strictly sorted by name; holds exactly one entry per visible sub-directory, carrying that sub-directory's sorted top-level files |
| Tools.EntryOf | mcp_server/tools.py:159-164 | the entry built for one sub-directory lists its regular files, sorted |
| Tools.ListAllPreferences | mcp_server/tools.py:140-166 | empty when `.devcontainer` is missing; fails when it is a file; otherwise the catalogue |
| Tools.CatalogueIsSortedEntries | mcp_server/tools.py:157-164 | sorting the entries built in `iterdir` order by name gives the catalogue, whatever that order |
| Resources.ListPreferences | mcp_server/resources.py:21-43 | the catalog lists the sorted visible configurations (none when the directory is missing), the three advertised guides and the root; fails when the directory is a file |
| Resources.CatalogListsConfigurations | mcp_server/resources.py:39-43 | the catalog names each configuration once, in strictly increasing order, and nothing else |
| Resources.DevcontainerFileName | mcp_server/resources.py:59-70 | exactly the four aliases are accepted, and each stands for a plain file name |
| Resources.DevcontainerFileNameInjective | mcp_server/resources.py:59-64 | different aliases stand for different files |
| Resources.GetDevcontainerFile | mcp_server/resources.py:45-79 | an unknown alias is refused with the list of valid ones; only value errors go through uncaught; contents come only from a regular file below the root |
| Resources.GetDevcontainerFileReads | mcp_server/resources.py:72-79 | for a plain name below a resolved root: a missing file gives the "not found in devcontainer" error, a directory raises, a file gives its contents |
| Resources.GetDevcontainerFileRaises | mcp_server/resources.py:74-79 | any reader error other than a missing file goes through the handler unchanged |
| Resources.GetDevcontainerFileClimbOut | mcp_server/resources.py:72-75 | a configuration name that climbs out of the repository makes the reader's access-denied error go through |
| Resources.GuideFileName | mcp_server/resources.py:94-104 | exactly the three aliases are accepted, each for one of the advertised guides |
| Resources.GetGuide | mcp_server/resources.py:81-111 | an unknown alias is refused with the list of valid ones; only value errors go through uncaught; contents come only from a regular file below the root |
| Resources.GetGuideReads | mcp_server/resources.py:106-111 | below a resolved root a guide is never denied: it is missing, a directory, or read |
| Resources.ListDevcontainerFiles | mcp_server/resources.py:113-137 | fails exactly when the configuration does not exist; otherwise returns the name, the recursive listing and its length |
| Resources.GetFileContent | mcp_server/resources.py:139-162 | every failure becomes a ResourceError; contents come only from a regular file below the root |
| Resources.GetFileContentReads | mcp_server/resources.py:155-162 | a relative path without ".." is missing, not a file (with the reader's message), or read |
| Resources.GetFileContentClimbOut | mcp_server/resources.py:155-160 | a path that climbs out with enough ".." is refused with the reader's access-denied message |
| Resources.EtcPasswdIsDenied | mcp_server/resources.py:155-160 | from the root "/repo", "../../etc/passwd" is refused |
| Resources.EtcPasswdStrings | mcp_server/resources.py:155-160 | the strings of that case: the requested path, and the path the denial names |
| FileTree.NamesWhere | mcp_server/tools.py:121-123 | a filtered comprehension over `iterdir` yields each accepted child's name once, and only those |
| FileTree.VisibleSubdirs | mcp_server/resources.py:33-37 | the names of the sub-directories not starting with a dot, each once |
| FileTree.RegularFiles | mcp_server/tools.py:121-123 | the names of the regular files directly in a directory, each once |
| FileTree.NormalizeIdempotent | mcp_server/utils.py:36 | resolving twice is resolving once |
| FileTree.NormalizeResolved | mcp_server/utils.py:36 | resolving a path without "." or ".." changes nothing |
| FileTree.NormalizeAppendResolved | mcp_server/utils.py:36 | plain names after any path come through resolution unchanged |
| FileTree.NormalizeClimb | mcp_server/utils.py:36 | each ".." after a resolved path drops one part, and climbing stops at "/" |
| FileTree.StatResolved | mcp_server/utils.py:82-88 | in a real tree, looking up a resolved path finds it exactly when it is in the tree |

## Left out

- Symbolic links are not modelled: a tree holds only regular files and directories, and `Normalize` (for `resolve()`) is lexical, so it is exact only on a tree without links. `Valid(fs)` is the assumption that the map is a real tree.
- File contents are strings. UTF-8 decoding in `read_text()` and its decoding errors are left out.
- `lower()` is modelled on ASCII letters only. Unicode case mapping, where the lower-cased text can change length or depends on context (a capital sigma at the end of a word becomes a final sigma), is not captured.
- Utils.SearchSensitiveImpliesInsensitive: holds for ASCII `lower()` only. With Python's context-dependent final sigma, a case-sensitive hit such as "ΑΣ" in "ΑΣΑ" is not a case-insensitive one.
- Utils.SearchIgnoresQueryCase: holds for ASCII `lower()` only, for the same reason.
- `list_directory_files` is only ever called with its default pattern `"*"`, so the pattern parameter is not modelled.
- `get_repo_root` (`mcp_server/utils.py:7-20`) reads the environment. It is not part of this model, and the root is a parameter instead. The root-level lemmas assume a resolved root, which is what `get_repo_root` returns.
- The server entry point, the prompts, and the FastMCP registration and URI-template matching are not part of this model. Resource arguments are taken to be any string, including strings with "/".
- Tools.SearchPreferences: the devcontainer matches are stated as a set, each reported once, and not in their order. That order is the order `iterdir` and `rglob` yield entries, which the operating system does not fix.
- Tools.ListDevcontainerFiles and Tools.CompareDevcontainers: the tools do not confine `name` to the devcontainers directory, and the model keeps that behaviour. Tools.AbsoluteNameEscapes shows the consequence.
- Exceptions that the resource handlers do not catch are modelled as the `Raised` result rather than as propagation.
- Exceptions other than the reader's and `iterdir` on a file are not modelled. These include permission errors and the races between `exists()` and the later read.
