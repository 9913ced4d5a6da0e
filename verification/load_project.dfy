/** The `load_project` management command: it walks a project directory for
    Python modules, skipping anything inside a virtual environment, and
    upserts each readable module into the `PythonFile` table, keyed by its
    path relative to the project root, inside one transaction.

    A path is modelled by the names of its components. The anchor of an
    absolute path (`/`) and the `.` of a relative one have the empty name,
    which is no virtual-environment name, so they are left out of the
    component lists. The directory walk of `rglob`, the file reads and the
    database are parameters or state of the model. */
module LoadProject {
  import opened Wrappers
  import opened Strings

  /** `venv_dirs`: the directory names that mark a virtual environment. */
  const VENV_DIRS: set<string> :=
    {"venv", ".venv", "env", ".env", "virtualenv", ".virtualenv", "envs", ".envs"}

  /** An entry the recursive walk meets below the root: its path relative to
      the root, as component names, and whether it is a regular file. */
  datatype Entry = Entry(rel: seq<string>, isFile: bool)

  /** Some directory above the last component of `path`, up to the top of
      the filesystem, has a virtual-environment name. */
  predicate UnderVenv(path: seq<string>) {
    exists k :: 0 <= k < |path| - 1 && path[k] in VENV_DIRS
  }

  /** The pattern `*.py` of `rglob`: the entry's own name ends in `.py`. */
  predicate MatchesGlob(e: Entry) {
    |e.rel| >= 1 && EndsWith(e.rel[|e.rel| - 1], ".py")
  }

  /** `find_python_files` yields the entry. */
  predicate Yielded(root: seq<string>, e: Entry) {
    MatchesGlob(e) && e.isFile && !UnderVenv(root + e.rel)
  }

  /** The paths `find_python_files` yields, in walk order. */
  function PythonFiles(root: seq<string>, walk: seq<Entry>): (files: seq<seq<string>>)
    ensures |files| <= |walk|
    ensures forall i :: 0 <= i < |files| ==> |root| < |files[i]| && Below(root, files[i])
    decreases |walk|
  {
    if |walk| == 0 then []
    else
      var last := walk[|walk| - 1];
      PythonFiles(root, walk[..|walk| - 1]) + (if Yielded(root, last) then [root + last.rel] else [])
  }

  /** The loop over `item.parents`, nearest first, that sets `skip_file`
      and stops at the first virtual-environment name. The parent with
      `j` components is named by component `j - 1`; the last parent, the
      anchor, has the empty name. */
  method HasVenvAncestor(path: seq<string>) returns (skip: bool)
    ensures skip <==> UnderVenv(path)
  {
    skip := false;
    var j := |path| - 1;
    while j >= 0
      invariant -1 <= j <= |path| - 1
      invariant forall k :: j <= k < |path| - 1 && 0 <= k ==> path[k] !in VENV_DIRS
      decreases j
    {
      var name := if j == 0 then "" else path[j - 1];
      if name in VENV_DIRS {
        skip := true;
        break;
      }
      j := j - 1;
    }
  }

  /** `find_python_files(root)`, run to completion over the walk `rglob`
      makes below the root. */
  method FindPythonFiles(root: seq<string>, walk: seq<Entry>) returns (files: seq<seq<string>>)
    ensures files == PythonFiles(root, walk)
  {
    files := [];
    var i := 0;
    while i < |walk|
      invariant 0 <= i <= |walk|
      invariant files == PythonFiles(root, walk[..i])
    {
      assert walk[..i + 1][..i] == walk[..i];
      var item := walk[i];
      if MatchesGlob(item) && item.isFile {
        var skip := HasVenvAncestor(root + item.rel);
        if !skip {
          files := files + [root + item.rel];
        }
      }
      i := i + 1;
    }
    assert walk[..i] == walk;
  }

  /** A path is yielded exactly when some entry of the walk is a `.py`
      regular file with no virtual-environment directory above it. */
  lemma {:induction false} PythonFilesMembership(root: seq<string>, walk: seq<Entry>, p: seq<string>)
    ensures p in PythonFiles(root, walk) <==> exists e :: e in walk && Yielded(root, e) && p == root + e.rel
    decreases |walk|
  {
    if |walk| > 0 {
      var init := walk[..|walk| - 1];
      var last := walk[|walk| - 1];
      PythonFilesMembership(root, init, p);
      assert walk == init + [last];
      if p in PythonFiles(root, init) {
        var e :| e in init && Yielded(root, e) && p == root + e.rel;
        assert e in walk;
      }
      if e :| e in walk && Yielded(root, e) && p == root + e.rel {
        if e != last {
          assert e in init;
        }
      }
    }
  }

  /** Ancestors above the root count too: a project kept inside a
      virtual-environment directory yields nothing. */
  lemma {:induction false} RootInsideVenvYieldsNothing(root: seq<string>, walk: seq<Entry>, k: nat)
    requires k < |root| && root[k] in VENV_DIRS
    ensures PythonFiles(root, walk) == []
    decreases |walk|
  {
    if |walk| > 0 {
      RootInsideVenvYieldsNothing(root, walk[..|walk| - 1], k);
      var last := walk[|walk| - 1];
      if MatchesGlob(last) {
        assert (root + last.rel)[k] == root[k];
      }
    }
  }

  /** `Path(path).name`: the last component, empty for the bare anchor. */
  function ProjectName(root: seq<string>): string {
    if |root| == 0 then "" else root[|root| - 1]
  }

  /** `file` lies below `root`, so `file.relative_to(root)` succeeds. */
  predicate Below(root: seq<string>, file: seq<string>) {
    |root| <= |file| && file[..|root|] == root
  }

  /** `str(file.relative_to(root))`: the components below the root, joined
      by `/`. */
  function RelativePath(root: seq<string>, file: seq<string>): (r: string)
    requires Below(root, file)
    ensures |file| == |root| + 1 ==> r == file[|root|]
    ensures |file| > |root| + 1 ==> '/' in r
  {
    var rel := file[|root|..];
    assert |rel| > 1 ==> Join(rel, "/") == rel[0] + "/" + Join(rel[1..], "/");
    Join(rel, "/")
  }

  /** The stored module path is the file path with the root prefix removed:
      split on `/`, it gives back the components below the root, so the
      root followed by them is the file. */
  lemma RelativePathRestoresFile(root: seq<string>, rel: seq<string>)
    requires |rel| >= 1
    requires forall k :: 0 <= k < |rel| ==> '/' !in rel[k]
    ensures Below(root, root + rel)
    ensures Split(RelativePath(root, root + rel), "/") == rel
    ensures root + Split(RelativePath(root, root + rel), "/") == root + rel
  {
    assert (root + rel)[..|root|] == root;
    assert (root + rel)[|root|..] == rel;
    assert "/" == ['/'];
    SplitJoinChar(rel, '/');
  }

  /** What reading a file gives: its text, a decoding error (a binary
      file), or any other error. The last two are logged and skipped. */
  datatype ReadResult = Text(content: string) | Undecodable | ReadFailed

  /** A `PythonFile` row; the project is named by its `name`. */
  datatype FileRow = FileRow(content: string, project: string)

  /** The `PythonFile` table after upserting the readable files in order:
      each one overwrites or creates the row keyed by its relative path, so
      no row is deleted, and every row is the old one or the loading
      project's. */
  function Loaded(rows: map<string, FileRow>, root: seq<string>, files: seq<seq<string>>,
                  read: seq<string> -> ReadResult, project: string): (r: map<string, FileRow>)
    requires forall i :: 0 <= i < |files| ==> Below(root, files[i])
    ensures rows.Keys <= r.Keys
    ensures forall k :: k in r ==> (k in rows && r[k] == rows[k]) || r[k].project == project
  {
    LoadedUpTo(rows, root, files, read, project, |files|)
  }

  /** The table after the first `n` files. */
  function LoadedUpTo(rows: map<string, FileRow>, root: seq<string>, files: seq<seq<string>>,
                      read: seq<string> -> ReadResult, project: string, n: nat): (r: map<string, FileRow>)
    requires forall i :: 0 <= i < |files| ==> Below(root, files[i])
    requires n <= |files|
    ensures rows.Keys <= r.Keys
    ensures forall k :: k in r ==> (k in rows && r[k] == rows[k]) || r[k].project == project
  {
    if n == 0 then rows
    else
      var prev := LoadedUpTo(rows, root, files, read, project, n - 1);
      var last := files[n - 1];
      match read(last)
      case Text(content) => prev[RelativePath(root, last) := FileRow(content, project)]
      case _ => prev
  }

  /** The file at position `i` is read and stored under `key`. */
  predicate StoresAt(root: seq<string>, files: seq<seq<string>>, read: seq<string> -> ReadResult,
                     i: int, key: string)
    requires forall i :: 0 <= i < |files| ==> Below(root, files[i])
  {
    0 <= i < |files| && read(files[i]).Text? && RelativePath(root, files[i]) == key
  }

  /** The rows after loading: a key gets the content of the last readable
      file stored under it, with the loading project; a key no readable file
      maps to keeps its old row, or stays absent. */
  lemma LoadedRows(rows: map<string, FileRow>, root: seq<string>, files: seq<seq<string>>,
                   read: seq<string> -> ReadResult, project: string, key: string)
    requires forall i :: 0 <= i < |files| ==> Below(root, files[i])
    ensures (exists i :: StoresAt(root, files, read, i, key)) ==>
      key in Loaded(rows, root, files, read, project) &&
      Loaded(rows, root, files, read, project)[key].project == project
    ensures forall i :: StoresAt(root, files, read, i, key) &&
                        (forall j :: i < j ==> !StoresAt(root, files, read, j, key)) ==>
      key in Loaded(rows, root, files, read, project) &&
      Loaded(rows, root, files, read, project)[key] == FileRow(read(files[i]).content, project)
    ensures (forall i :: !StoresAt(root, files, read, i, key)) ==>
      (key in Loaded(rows, root, files, read, project) <==> key in rows) &&
      (key in rows ==> Loaded(rows, root, files, read, project)[key] == rows[key])
  {
    LoadedUpToRows(rows, root, files, read, project, key, |files|);
    forall i | StoresAt(root, files, read, i, key) &&
               (forall j :: i < j ==> !StoresAt(root, files, read, j, key))
      ensures key in Loaded(rows, root, files, read, project)
      ensures Loaded(rows, root, files, read, project)[key] == FileRow(read(files[i]).content, project)
    {
      LastStoreWins(rows, root, files, read, project, key, i, |files|);
    }
  }

  /** The row under `key` after the first `n` files holds the content of
      the last of them that is read and stored under `key`. */
  lemma {:induction false} LastStoreWins(rows: map<string, FileRow>, root: seq<string>, files: seq<seq<string>>,
                                         read: seq<string> -> ReadResult, project: string, key: string,
                                         i: nat, n: nat)
    requires forall i :: 0 <= i < |files| ==> Below(root, files[i])
    requires i < n <= |files| && StoresAt(root, files, read, i, key)
    requires forall j :: i < j < n ==> !StoresAt(root, files, read, j, key)
    ensures key in LoadedUpTo(rows, root, files, read, project, n)
    ensures LoadedUpTo(rows, root, files, read, project, n)[key] == FileRow(read(files[i]).content, project)
  {
    if i < n - 1 {
      assert !StoresAt(root, files, read, n - 1, key);
      LastStoreWins(rows, root, files, read, project, key, i, n - 1);
    }
  }

  /** `LoadedRows` for the first `n` files. */
  lemma {:induction false} LoadedUpToRows(rows: map<string, FileRow>, root: seq<string>, files: seq<seq<string>>,
                                          read: seq<string> -> ReadResult, project: string, key: string, n: nat)
    requires forall i :: 0 <= i < |files| ==> Below(root, files[i])
    requires n <= |files|
    ensures (exists i :: i < n && StoresAt(root, files, read, i, key)) ==>
      key in LoadedUpTo(rows, root, files, read, project, n) &&
      LoadedUpTo(rows, root, files, read, project, n)[key].project == project
    ensures (forall i :: i < n ==> !StoresAt(root, files, read, i, key)) ==>
      (key in LoadedUpTo(rows, root, files, read, project, n) <==> key in rows) &&
      (key in rows ==> LoadedUpTo(rows, root, files, read, project, n)[key] == rows[key])
  {
    if n > 0 {
      LoadedUpToRows(rows, root, files, read, project, key, n - 1);
      if i :| i < n && StoresAt(root, files, read, i, key) {
        if i < n - 1 && !StoresAt(root, files, read, n - 1, key) {
          assert i < n - 1 && StoresAt(root, files, read, i, key);
        }
      }
      if forall i :: i < n ==> !StoresAt(root, files, read, i, key) {
        assert !StoresAt(root, files, read, n - 1, key);
      }
    }
  }

  /** The rows the first `n` files create: a readable file whose key is not
      yet in the table. */
  function NewRows(rows: map<string, FileRow>, root: seq<string>, files: seq<seq<string>>,
                   read: seq<string> -> ReadResult, project: string, n: nat): (count: nat)
    requires forall i :: 0 <= i < |files| ==> Below(root, files[i])
    requires n <= |files|
    ensures count <= n
  {
    if n == 0 then 0
    else
      var isNew := read(files[n - 1]).Text?
                   && RelativePath(root, files[n - 1]) !in LoadedUpTo(rows, root, files, read, project, n - 1);
      NewRows(rows, root, files, read, project, n - 1) + if isNew then 1 else 0
  }

  /** The rows created are exactly the keys the table gains. */
  lemma {:induction false} NewRowsAreNewKeys(rows: map<string, FileRow>, root: seq<string>, files: seq<seq<string>>,
                                             read: seq<string> -> ReadResult, project: string, n: nat)
    requires forall i :: 0 <= i < |files| ==> Below(root, files[i])
    requires n <= |files|
    ensures rows.Keys <= LoadedUpTo(rows, root, files, read, project, n).Keys
    ensures NewRows(rows, root, files, read, project, n)
         == |LoadedUpTo(rows, root, files, read, project, n).Keys - rows.Keys|
  {
    if n > 0 {
      NewRowsAreNewKeys(rows, root, files, read, project, n - 1);
      LoadedKeysStep(rows, root, files, read, project, n);
      KeyCountStep(rows.Keys, LoadedUpTo(rows, root, files, read, project, n - 1).Keys,
                   LoadedUpTo(rows, root, files, read, project, n).Keys, RelativePath(root, files[n - 1]),
                   read(files[n - 1]).Text?,
                   NewRows(rows, root, files, read, project, n - 1), NewRows(rows, root, files, read, project, n));
    }
  }

  /** What the `n`-th file does to the keys and to the count of new rows. */
  lemma LoadedKeysStep(rows: map<string, FileRow>, root: seq<string>, files: seq<seq<string>>,
                       read: seq<string> -> ReadResult, project: string, n: nat)
    requires forall i :: 0 <= i < |files| ==> Below(root, files[i])
    requires 0 < n <= |files|
    ensures var before := LoadedUpTo(rows, root, files, read, project, n - 1).Keys;
      var after := LoadedUpTo(rows, root, files, read, project, n).Keys;
      var key := RelativePath(root, files[n - 1]);
      && (read(files[n - 1]).Text? ==> after == before + {key})
      && (!read(files[n - 1]).Text? ==> after == before)
      && NewRows(rows, root, files, read, project, n)
         == NewRows(rows, root, files, read, project, n - 1) + if read(files[n - 1]).Text? && key !in before then 1 else 0
  {
  }

  /** Loading keeps every key and creates at most one row per file. */
  lemma LoadedNewRowsBound(rows: map<string, FileRow>, root: seq<string>, files: seq<seq<string>>,
                           read: seq<string> -> ReadResult, project: string)
    requires forall i :: 0 <= i < |files| ==> Below(root, files[i])
    ensures rows.Keys <= Loaded(rows, root, files, read, project).Keys
    ensures |Loaded(rows, root, files, read, project).Keys - rows.Keys| <= |files|
  {
    NewRowsAreNewKeys(rows, root, files, read, project, |files|);
  }

  /** Loading a single file. */
  lemma LoadedOne(rows: map<string, FileRow>, root: seq<string>, file: seq<string>,
                  read: seq<string> -> ReadResult, project: string)
    requires Below(root, file)
    ensures Loaded(rows, root, [file], read, project)
         == if read(file).Text? then rows[RelativePath(root, file) := FileRow(read(file).content, project)] else rows
  {
    assert LoadedUpTo(rows, root, [file], read, project, 0) == rows;
  }

  /** The upsert is keyed by the relative path alone: loading the same
      relative module from two projects leaves one row, which belongs to
      the project loaded last and holds its content. */
  lemma SameModuleInTwoProjects(rows: map<string, FileRow>, rootA: seq<string>, rootB: seq<string>,
                                rel: seq<string>, read: seq<string> -> ReadResult)
    requires |rel| >= 1 && forall k :: 0 <= k < |rel| ==> '/' !in rel[k]
    requires read(rootA + rel).Text? && read(rootB + rel).Text?
    ensures var afterA := Loaded(rows, rootA, [rootA + rel], read, ProjectName(rootA));
            var afterB := Loaded(afterA, rootB, [rootB + rel], read, ProjectName(rootB));
            var key := RelativePath(rootA, rootA + rel);
            afterB.Keys == rows.Keys + {key} &&
            afterB[key] == FileRow(read(rootB + rel).content, ProjectName(rootB))
  {
    RelativePathRestoresFile(rootA, rel);
    RelativePathRestoresFile(rootB, rel);
    assert (rootA + rel)[..|rootA|] == rootA && (rootA + rel)[|rootA|..] == rel;
    assert (rootB + rel)[..|rootB|] == rootB && (rootB + rel)[|rootB|..] == rel;
    LoadedOne(rows, rootA, rootA + rel, read, ProjectName(rootA));
    LoadedOne(Loaded(rows, rootA, [rootA + rel], read, ProjectName(rootA)), rootB, rootB + rel, read, ProjectName(rootB));
  }

  /** The two tables the command touches. */
  class Database {
    /** `Project` rows: name to `root_path`. */
    var projects: map<string, string>
    /** `PythonFile` rows, keyed by the unique `module_path`. */
    var pythonFiles: map<string, FileRow>

    constructor ()
      ensures projects == map[] && pythonFiles == map[]
    {
      projects := map[];
      pythonFiles := map[];
    }

    /** `Project.objects.get_or_create(name=…, defaults={'root_path': …})`:
        the default is used only when the project is new. */
    method ProjectGetOrCreate(name: string, rootPath: string) returns (created: bool)
      modifies this
      ensures created <==> name !in old(projects)
      ensures projects == if created then old(projects)[name := rootPath] else old(projects)
      ensures pythonFiles == old(pythonFiles)
    {
      created := name !in projects;
      if created {
        projects := projects[name := rootPath];
      }
    }

    /** `PythonFile.objects.update_or_create(module_path=…, defaults=…)`. */
    method PythonFileUpdateOrCreate(modulePath: string, content: string, project: string) returns (created: bool)
      modifies this
      ensures created <==> modulePath !in old(pythonFiles)
      ensures pythonFiles == old(pythonFiles)[modulePath := FileRow(content, project)]
      ensures projects == old(projects)
    {
      created := modulePath !in pythonFiles;
      pythonFiles := pythonFiles[modulePath := FileRow(content, project)];
    }
  }

  /** A key that is new to the table adds one to the count of rows
      created since `saved`. */
  lemma NewKeyCount(saved: set<string>, before: set<string>, key: string)
    requires saved <= before && key !in before
    ensures |(before + {key}) - saved| == |before - saved| + 1
  {
    assert (before + {key}) - saved == (before - saved) + {key};
  }

  /** The body of the loop once the path is made relative: a file that
      could not be read is skipped; otherwise its row is upserted, and
      `created` reports a new row. */
  method StoreFile(db: Database, relativePath: string, result: ReadResult, project: string)
    returns (created: bool)
    modifies db
    ensures created <==> result.Text? && relativePath !in old(db.pythonFiles)
    ensures db.pythonFiles == if result.Text? then old(db.pythonFiles)[relativePath := FileRow(result.content, project)]
                              else old(db.pythonFiles)
    ensures db.projects == old(db.projects)
  {
    created := false;
    if result.Text? {
      created := db.PythonFileUpdateOrCreate(relativePath, result.content, project);
    }
  }

  /** The count of keys added since `saved` after one upsert of `key`
      (when `stores`): one more exactly when the key is new. */
  lemma KeyCountStep(saved: set<string>, before: set<string>, after: set<string>, key: string, stores: bool,
                     countBefore: nat, countAfter: nat)
    requires saved <= before && countBefore == |before - saved|
    requires stores ==> after == before + {key}
    requires !stores ==> after == before
    requires countAfter == countBefore + if stores && key !in before then 1 else 0
    ensures saved <= after && countAfter == |after - saved|
  {
    if stores && key !in before {
      NewKeyCount(saved, before, key);
    } else if stores {
      assert after == before;
    }
  }

  /** How the command ends: with its two counters, or by returning early
      from the exception handler of the traversal. */
  datatype Report = Completed(found: nat, stored: nat) | Aborted

  /** The loop body of `command` over the yielded files: count the file,
      read it (skipping it when that fails), upsert its row and count a
      new row. When `failAt` is a position among the files, an exception
      escapes there and the loop ends. */
  method StoreFiles(db: Database, root: seq<string>, files: seq<seq<string>>,
                    read: seq<string> -> ReadResult, project: string, failAt: Option<nat>)
    returns (aborted: bool, found: nat, stored: nat)
    requires forall i :: 0 <= i < |files| ==> Below(root, files[i])
    modifies db
    ensures aborted <==> failAt.Some? && failAt.value < |files|
    ensures db.projects == old(db.projects)
    ensures !aborted ==>
      found == |files| && stored <= found &&
      db.pythonFiles == Loaded(old(db.pythonFiles), root, files, read, project) &&
      stored == |db.pythonFiles.Keys - old(db.pythonFiles.Keys)|
  {
    ghost var savedFiles := db.pythonFiles;
    found, stored := 0, 0;
    var i := 0;
    while i < |files| && failAt != Some(i)
      invariant 0 <= i <= |files|
      invariant found == i
      invariant db.projects == old(db.projects)
      invariant db.pythonFiles == LoadedUpTo(savedFiles, root, files, read, project, i)
      invariant stored == NewRows(savedFiles, root, files, read, project, i)
      invariant failAt.Some? ==> i <= failAt.value
    {
      found := found + 1;
      var relativePath := RelativePath(root, files[i]);
      var created := StoreFile(db, relativePath, read(files[i]), project);
      stored := stored + if created then 1 else 0;
      i := i + 1;
    }
    // The loop stops early exactly where the exception escapes.
    aborted := i < |files|;
    NewRowsAreNewKeys(savedFiles, root, files, read, project, i);
  }

  /** `command(path, delete)`. The project directory is `root`; the walk
      below it, the file reads and the absolute form of the path are
      parameters. `failAt`, when it is a position in the yielded files,
      is where an exception escapes the loop body; the transaction then
      rolls back and the command returns before the deletion step.
      `deleted` says whether `shutil.rmtree` is called. */
  method Command(db: Database, root: seq<string>, absolutePath: string, walk: seq<Entry>,
                 read: seq<string> -> ReadResult, failAt: Option<nat>, delete: bool, isDir: bool)
    returns (report: Report, deleted: bool)
    modifies db
    ensures report.Aborted? <==> failAt.Some? && failAt.value < |PythonFiles(root, walk)|
    ensures report.Aborted? ==> db.projects == old(db.projects) && db.pythonFiles == old(db.pythonFiles)
    ensures report.Completed? ==>
      var files := PythonFiles(root, walk);
      report.found == |files| &&
      report.stored == |db.pythonFiles.Keys - old(db.pythonFiles.Keys)| &&
      report.stored <= report.found &&
      db.pythonFiles == Loaded(old(db.pythonFiles), root, files, read, ProjectName(root)) &&
      db.projects == (if ProjectName(root) in old(db.projects) then old(db.projects)
                      else old(db.projects)[ProjectName(root) := absolutePath])
    ensures deleted <==> report.Completed? && delete && isDir
  {
    var savedProjects, savedFiles := db.projects, db.pythonFiles;
    var name := ProjectName(root);
    var _ := db.ProjectGetOrCreate(name, absolutePath);
    var files := FindPythonFiles(root, walk);
    var aborted, found, stored := StoreFiles(db, root, files, read, name, failAt);
    if aborted {
      db.projects, db.pythonFiles := savedProjects, savedFiles;
      return Aborted, false;
    }
    report := Completed(found, stored);
    deleted := delete && isDir;
  }
}
