/** Restoring a backup: extraction into a fresh directory, and the copying back over the live files. */
module Restore {
  import opened Text
  import opened Archive

  // ---------- what fits into a file system ----------

  function Parent(p: Path): Path
    requires p != []
  {
    p[..|p| - 1]
  }

  function Parents(files: set<Path>): set<Path> { set p | p in files && p != [] :: Parent(p) }

  ghost predicate IsAbove(d: Path, made: set<Path>) { exists q :: q in made && d <= q }

  /** The directories of `made` with all that lie above them. */
  function Above(made: set<Path>): (r: set<Path>)
    ensures forall d :: d in r <==> IsAbove(d, made)
  {
    assert forall d: Path, q :: q in made && d <= q ==> d == q[..|d|];
    set q, i | q in made && 0 <= i <= |q| :: q[..i]
  }

  /** Files can be written at `files`, and directories made at `made`: no file is where a directory has
      to be, no directory where a file has to be, and what is new or rewritten is writable. */
  ghost predicate Fits(fs: FS, files: set<Path>, made: set<Path>, writable: Path -> bool) {
    (forall d :: d in Above(made) ==> d !in fs.files && d !in files && (d in fs.dirs || writable(d))) &&
    (forall p :: p in files ==> p !in fs.dirs && writable(p))
  }

  /** Writing `files` and making `made` has led from one file system to the other. */
  ghost predicate Reached(before: FS, cur: FS, files: set<Path>, made: set<Path>, writable: Path -> bool) {
    cur.files.Keys == before.files.Keys + files && cur.dirs == before.dirs + Above(made) &&
    Fits(before, files, made, writable)
  }

  lemma AboveSum(a: set<Path>, b: set<Path>)
    ensures Above(a + b) == Above(a) + Above(b)
  {
    forall d ensures d in Above(a + b) <==> d in Above(a) + Above(b) {
      if d in Above(a + b) {
        var q :| q in a + b && d <= q;
        assert IsAbove(d, a) || IsAbove(d, b);
      }
    }
  }

  lemma AboveNone()
    ensures Above({}) == {}
  {
  }

  lemma ParentsMore(files: set<Path>, p: Path)
    requires p != []
    ensures Parents(files + {p}) == Parents(files) + {Parent(p)}
  {
  }

  /** What fits after some of the work is done is what fits together with it from the start. */
  lemma FitsAfter(before: FS, cur: FS, files: set<Path>, made: set<Path>, files': set<Path>, made': set<Path>,
                  writable: Path -> bool)
    requires Reached(before, cur, files, made, writable)
    ensures Fits(cur, files', made', writable) <==> Fits(before, files + files', made + made', writable)
  {
    AboveSum(made, made');
    hide Above;
  }

  lemma ReachedMore(before: FS, cur: FS, next: FS, files: set<Path>, made: set<Path>,
                    files': set<Path>, made': set<Path>, writable: Path -> bool)
    requires Reached(before, cur, files, made, writable) && Fits(cur, files', made', writable)
    requires next.files.Keys == cur.files.Keys + files' && next.dirs == cur.dirs + Above(made')
    ensures Reached(before, next, files + files', made + made', writable)
  {
    FitsAfter(before, cur, files, made, files', made', writable);
    AboveSum(made, made');
    hide Above, Fits;
  }

  lemma FitsLess(before: FS, files: set<Path>, made: set<Path>, files': set<Path>, made': set<Path>, writable: Path -> bool)
    requires files <= files' && made <= made' && Fits(before, files', made', writable)
    ensures Fits(before, files, made, writable)
  {
    AboveSum(made, made');
    assert made + made' == made';
    hide Above;
  }

  lemma NotAboveItself(p: Path)
    requires p != []
    ensures forall d :: d in Above({Parent(p)}) ==> d != p && d in Above({Parent(p)})
    ensures p !in Above({Parent(p)}) && Above({}) == {}
  {
  }

  lemma ReachedFits(before: FS, cur: FS, files: set<Path>, made: set<Path>, writable: Path -> bool)
    requires Reached(before, cur, files, made, writable)
    ensures Fits(before, files, made, writable)
  {
  }

  lemma ReachedDirs(before: FS, cur: FS, files: set<Path>, made: set<Path>, writable: Path -> bool)
    requires Reached(before, cur, files, made, writable)
    ensures cur.files.Keys == before.files.Keys + files && cur.dirs == before.dirs + Above(made)
  {
  }

  /** If some of the files do not fit, all of them do not. */
  lemma FilesUnfit(before: FS, done: set<Path>, made: set<Path>, part: set<Path>, files: set<Path>, writable: Path -> bool)
    requires part <= files && !Fits(before, done + part, made + Parents(part), writable)
    ensures !Fits(before, done + files, made + Parents(files), writable)
  {
    hide Fits;
    ParentsSum(part, files);
    assert part + files == files;
    if Fits(before, done + files, made + Parents(files), writable) {
      FitsLess(before, done + part, made + Parents(part), done + files, made + Parents(files), writable);
    }
  }

  lemma OneMoreFile(done: set<Path>, made: set<Path>, copied: set<Path>, p: Path)
    requires p != []
    ensures done + copied + {p} == done + (copied + {p})
    ensures made + Parents(copied) + {Parent(p)} == made + Parents(copied + {p})
  {
    ParentsMore(copied, p);
  }

  lemma NothingReached(fs: FS, writable: Path -> bool)
    ensures Reached(fs, fs, {}, {}, writable)
  {
    AboveNone();
  }

  // ---------- writing files ----------

  /** Writing without truncation: what lay beyond the new bytes stays. */
  function Overlay(before: string, bytes: string): string {
    if |before| <= |bytes| then bytes else bytes + before[|bytes|..]
  }

  /** Files of one name have the same bytes. */
  ghost predicate NamesAgree(entries: seq<Entry>) {
    forall i, j :: 0 <= i < |entries| && 0 <= j < |entries| && entries[i].name == entries[j].name ==>
      (entries[i].node.File? && entries[j].node.File? ==> entries[i].node == entries[j].node)
  }

  class Disk {
    var fs: FS
    /** The paths at which a file can be opened for writing, or a missing directory made. */
    const writable: Path -> bool

    constructor (fs: FS, writable: Path -> bool)
      ensures this.fs == fs && this.writable == writable
    {
      this.fs, this.writable := fs, writable;
    }

    /** `os.MkdirAll`: fails when a file is in the way or a missing directory cannot be made. */
    method MkdirAll(p: Path) returns (ok: bool)
      modifies this`fs
      ensures ok <==> Fits(old(fs), {}, {p}, writable)
      ensures fs == if ok then old(fs).(dirs := old(fs).dirs + Above({p})) else old(fs)
    {
      var needed := Above({p});
      if exists d :: d in needed && (d in fs.files || (d !in fs.dirs && !writable(d))) { return false; }
      fs := fs.(dirs := fs.dirs + needed);
      return true;
    }

    /** `copyFile`, with the source's bytes read; also how `extractBackup` creates a file. */
    method CopyFile(p: Path, bytes: string) returns (ok: bool)
      requires p != []
      modifies this`fs
      ensures ok <==> Fits(old(fs), {p}, {Parent(p)}, writable)
      ensures ok ==> fs == FS(old(fs).files[p := bytes], old(fs).dirs + Above({Parent(p)}))
      ensures !ok ==> fs.files == old(fs).files
    {
      NotAboveItself(p);
      ok := MkdirAll(Parent(p));
      hide Above;
      if !ok { return; }
      if p in fs.dirs || !writable(p) { return false; }
      fs := fs.(files := fs.files[p := bytes]);
    }

    /** One entry of `extractBackup`. Files are opened without truncation; but a file that is already there
        has the entry's own bytes. */
    method ExtractEntry(e: Entry) returns (ok: bool)
      requires e.name != [] && (e.node.File? && e.name in fs.files ==> fs.files[e.name] == e.node.bytes)
      modifies this`fs
      ensures ok <==> Fits(old(fs), EntryFiles(e), {EntryDir(e)}, writable)
      ensures ok ==> fs.dirs == old(fs).dirs + Above({EntryDir(e)})
      ensures ok ==> fs.files == if e.node.File? then old(fs).files[e.name := e.node.bytes] else old(fs).files
    {
      hide Above, Fits;
      match e.node {
        case Dir => ok := MkdirAll(e.name);
        case File(bytes) =>
          var kept := if e.name in fs.files then fs.files[e.name] else "";
          assert Overlay(kept, bytes) == bytes;
          ok := CopyFile(e.name, Overlay(kept, bytes));
      }
    }

    /** `extractBackup` into this fresh directory: it succeeds exactly when the entries fit together. */
    method ExtractBackup(entries: seq<Entry>) returns (ok: bool)
      requires fs == FS(map[], {[]})
      requires NamesAgree(entries)
      requires forall i :: 0 <= i < |entries| ==> entries[i].name != []
      modifies this`fs
      ensures ok <==> Fits(old(fs), FileNames(entries), DirsMade(entries), writable)
      ensures ok ==> Extracted(fs, entries)
    {
      hide Above, Fits, Reached, FileNames, DirsMade;
      ghost var before := fs;
      NothingReached(fs, writable);
      NoEntries();
      assert entries[..0] == [];
      for i := 0 to |entries|
        invariant Reached(before, fs, FileNames(entries[..i]), DirsMade(entries[..i]), writable)
        invariant forall k :: 0 <= k < i && entries[k].node.File? ==>
          entries[k].name in fs.files && fs.files[entries[k].name] == entries[k].node.bytes
        invariant forall n :: n in fs.files ==>
          exists k :: 0 <= k < i && entries[k].name == n && entries[k].node == File(fs.files[n])
      {
        ghost var cur := fs;
        ghost var files, made := FileNames(entries[..i]), DirsMade(entries[..i]);
        var e := entries[i];
        EntryMade(entries, i);
        ok := ExtractEntry(e);
        FitsAfter(before, cur, files, made, EntryFiles(e), {EntryDir(e)}, writable);
        if !ok {
          StillMissing(before, entries, i, writable);
          return;
        }
        ReachedMore(before, cur, fs, files, made, EntryFiles(e), {EntryDir(e)}, writable);
      }
      assert entries[..|entries|] == entries;
      ReachedFits(before, fs, FileNames(entries), DirsMade(entries), writable);
      ReachedDirs(before, fs, FileNames(entries), DirsMade(entries), writable);
      return true;
    }

    /** One file of a restoration under way. */
    method CopyOver(p: Path, bytes: string, ghost snapshot: FS, ghost done: set<Path>, ghost made: set<Path>, ghost before: FS)
      returns (ok: bool)
      requires p != [] && p in snapshot.files && bytes == snapshot.files[p]
      requires Patched(before, fs, snapshot, done) && Reached(before, fs, done, made, writable)
      modifies this`fs
      ensures ok <==> Fits(before, done + {p}, made + {Parent(p)}, writable)
      ensures ok ==> Reached(before, fs, done + {p}, made + {Parent(p)}, writable)
      ensures Patched(before, fs, snapshot, if ok then done + {p} else done)
    {
      hide Patched, Fits, Reached, Above;
      ghost var previous := fs;
      ok := CopyFile(p, bytes);
      FitsAfter(before, previous, done, made, {p}, {Parent(p)}, writable);
      if ok {
        PatchMore(before, previous, fs, snapshot, done, p);
        ReachedMore(before, previous, fs, done, made, {p}, {Parent(p)}, writable);
      } else {
        SameFiles(before, previous, fs, snapshot, done);
      }
    }

    /** The restoration of one file, if the backup holds it. */
    method RestoreFile(temp: FS, name: string, o: Options, ghost snapshot: FS, ghost done: set<Path>,
                       ghost made: set<Path>, ghost before: FS)
      returns (ok: bool, ghost more: set<Path>)
      requires name == "server.yml" || name == "server.db" || name == "users.db"
      requires Faithful(temp, snapshot, o) && Patched(before, fs, snapshot, done)
      requires Reached(before, fs, done, made, writable)
      modifies this`fs
      ensures Patched(before, fs, snapshot, more) && more <= done + FilePaths(temp, name, o)
      ensures ok ==> more == done + FilePaths(temp, name, o)
      ensures var files := FilePaths(temp, name, o);
        && (ok <==> Fits(before, done + files, made + Parents(files), writable))
        && (ok ==> Reached(before, fs, done + files, made + Parents(files), writable))
    {
      FaithfulFile(temp, snapshot, o, name);
      ok, more := true, done;
      ghost var p := PathOf([name], o);
      ghost var files := FilePaths(temp, name, o);
      assert files == (if [name] in temp.files then {p} else {}) && Parents({}) == {} && Parents({p}) == {Parent(p)};
      hide Patched, Fits, Reached, Above, PathOf, Faithful, FilePaths, Parents;
      if [name] !in temp.files {
        assert done + {} == done && made + {} == made;
        ReachedFits(before, fs, done, made, writable);
        return;
      }
      ok := CopyOver(PathOf([name], o), temp.files[[name]], snapshot, done, made, before);
      if ok { more := done + {p}; }
    }

    /** The directories that the walk of `copyDir` meets, in any order. */
    method CopyDirs(temp: FS, root: string, o: Options, ghost done: set<Path>, ghost made: set<Path>, ghost before: FS)
      returns (ok: bool)
      requires IsTree(root) && [root] in temp.dirs && Reached(before, fs, done, made, writable)
      modifies this`fs
      ensures fs.files == old(fs).files
      ensures ok <==> Fits(before, done, made + TreeMade(temp, root, o), writable)
      ensures ok ==> Reached(before, fs, done, made + TreeMade(temp, root, o), writable)
    {
      hide Fits, Reached, Above, TreeDir;
      var todo := set d | d in temp.dirs && [root] <= d;
      ghost var copied: set<Path> := {};
      assert made + {} == made;
      while todo != {}
        invariant fs.files == old(fs).files && forall d :: d in todo ==> d in temp.dirs && [root] <= d
        invariant copied == set d | d in temp.dirs && [root] <= d && d !in todo :: TreeDir(root, o) + d[1..]
        invariant Reached(before, fs, done, made + copied, writable)
        decreases todo
      {
        var d :| d in todo;
        todo := todo - {d};
        ghost var cur, q := fs, TreeDir(root, o) + d[1..];
        ok := MkdirAll(TreeDir(root, o) + d[1..]);
        FitsAfter(before, cur, done, made + copied, {}, {q}, writable);
        assert done + {} == done && made + copied + {q} == made + (copied + {q});
        if !ok {
          assert copied + {q} <= TreeMade(temp, root, o);
          if Fits(before, done, made + TreeMade(temp, root, o), writable) {
            FitsLess(before, done, made + (copied + {q}), done, made + TreeMade(temp, root, o), writable);
          }
          return;
        }
        ReachedMore(before, cur, fs, done, made + copied, {}, {q}, writable);
        copied := copied + {q};
      }
      assert copied == TreeMade(temp, root, o);
      ReachedFits(before, fs, done, made + copied, writable);
      return true;
    }

    /** The files that it meets, in any order. */
    method CopyTree(temp: FS, root: string, o: Options, ghost snapshot: FS, ghost done: set<Path>,
                    ghost made: set<Path>, ghost before: FS)
      returns (ok: bool, ghost copied: set<Path>)
      requires IsTree(root) && [root] in temp.dirs && Faithful(temp, snapshot, o) && Patched(before, fs, snapshot, done)
      requires Reached(before, fs, done, made, writable)
      modifies this`fs
      ensures Patched(before, fs, snapshot, done + copied)
      ensures var files := TreePaths(temp, root, o);
        && copied <= files && (ok ==> copied == files)
        && (ok <==> Fits(before, done + files, made + Parents(files), writable))
        && (ok ==> Reached(before, fs, done + files, made + Parents(files), writable))
    {
      hide Patched, Faithful, TreeDir, Fits, Reached, Above;
      ok, copied := true, {};
      var todo := set n | n in temp.files && [root] < n;
      ghost var files := TreePaths(temp, root, o);
      assert done + {} == done && made + Parents({}) == made;
      hide Parents;
      while todo != {}
        invariant todo <= temp.files.Keys && forall n :: n in todo ==> [root] < n
        invariant copied == set n | n in temp.files && [root] < n && n !in todo :: TreeDir(root, o) + n[1..]
        invariant Patched(before, fs, snapshot, done + copied)
        invariant Reached(before, fs, done + copied, made + Parents(copied), writable)
        decreases todo
      {
        var n :| n in todo;
        todo := todo - {n};
        FaithfulTree(temp, snapshot, o, root, n);
        var p := TreeDir(root, o) + n[1..];
        ok := CopyOver(p, temp.files[n], snapshot, done + copied, made + Parents(copied), before);
        OneMoreFile(done, made, copied, p);
        if !ok {
          assert copied + {p} <= files;
          FilesUnfit(before, done, made, copied + {p}, files, writable);
          return;
        }
        copied := copied + {p};
      }
      assert copied == files;
      ReachedFits(before, fs, done + files, made + Parents(files), writable);
    }

    /** `copyDir` of a tree, if the backup holds it. */
    method RestoreTree(temp: FS, root: string, o: Options, ghost snapshot: FS, ghost done: set<Path>,
                       ghost made: set<Path>, ghost before: FS)
      returns (ok: bool, ghost more: set<Path>)
      requires IsTree(root) && Faithful(temp, snapshot, o) && Patched(before, fs, snapshot, done)
      requires Reached(before, fs, done, made, writable)
      modifies this`fs
      ensures Patched(before, fs, snapshot, more) && more <= done + TreePaths(temp, root, o)
      ensures ok ==> more == done + TreePaths(temp, root, o)
      ensures var files, dirs := TreePaths(temp, root, o), TreeMade(temp, root, o) + Parents(TreePaths(temp, root, o));
        && (ok <==> Fits(before, done + files, made + dirs, writable))
        && (ok ==> Reached(before, fs, done + files, made + dirs, writable))
    {
      hide Patched, Faithful, Fits, Reached, Above;
      ok, more := true, done;
      ghost var files, dirs := TreePaths(temp, root, o), TreeMade(temp, root, o);
      assert done + {} == done && made + ({} + Parents({})) == made;
      assert made + (dirs + Parents(files)) == made + dirs + Parents(files);
      if [root] !in temp.dirs {
        ReachedFits(before, fs, done, made, writable);
        return;
      }
      ghost var start := fs;
      ok := CopyDirs(temp, root, o, done, made, before);
      SameFiles(before, start, fs, snapshot, done);
      if !ok {
        if Fits(before, done + files, made + dirs + Parents(files), writable) {
          FitsLess(before, done, made + dirs, done + files, made + dirs + Parents(files), writable);
        }
        return;
      }
      ghost var copied;
      ok, copied := CopyTree(temp, root, o, snapshot, done, made + dirs, before);
      more := done + copied;
    }

    /** `performRestore`: what the backup holds is copied over the live files, nothing else. It succeeds
        exactly when all of it fits. A failure midway leaves some of the files restored and every other
        one as it was. */
    method PerformRestore(temp: FS, o: Options, ghost snapshot: FS) returns (ok: bool, ghost done: set<Path>)
      requires Faithful(temp, snapshot, o)
      modifies this`fs
      ensures Patched(old(fs), fs, snapshot, done)
      ensures done <= Restored(temp, o) && (ok ==> done == Restored(temp, o))
      ensures ok <==> Fits(old(fs), Restored(temp, o), Made(temp, o), writable)
      ensures ok ==> fs.dirs == old(fs).dirs + Above(Made(temp, o))
    {
      hide Faithful, Patched, TreePaths, TreeMade, Fits, FilePaths, Parents, Above;
      ghost var before, files, made := fs, Restored(temp, o), Made(temp, o);
      NothingPatched(fs, snapshot);
      NothingReached(fs, writable);
      NoStage(temp, o, before, writable);
      hide Reached, Restored, Made, FilesUpTo, MadeUpTo;
      done := {};
      ok, done := RestoreFile(temp, "server.yml", o, snapshot, done, MadeUpTo(temp, o, 0), before);
      StageTaken(temp, o, before, 0, writable);
      if !ok { return; }
      ok, done := RestoreFile(temp, "server.db", o, snapshot, done, MadeUpTo(temp, o, 1), before);
      StageTaken(temp, o, before, 1, writable);
      if !ok { return; }
      ok, done := RestoreFile(temp, "users.db", o, snapshot, done, MadeUpTo(temp, o, 2), before);
      StageTaken(temp, o, before, 2, writable);
      if !ok { return; }
      ok, done := RestoreTree(temp, "template", o, snapshot, done, MadeUpTo(temp, o, 3), before);
      StageTaken(temp, o, before, 3, writable);
      if !ok { return; }
      ok, done := RestoreTree(temp, "theme", o, snapshot, done, MadeUpTo(temp, o, 4), before);
      StageTaken(temp, o, before, 4, writable);
      if !ok { return; }
      ok, done := RestoreTree(temp, "ssl", o, snapshot, done, MadeUpTo(temp, o, 5), before);
      StageTaken(temp, o, before, 5, writable);
      if !ok { return; }
      ok, done := RestoreTree(temp, "data", o, snapshot, done, MadeUpTo(temp, o, 6), before);
      StageTaken(temp, o, before, 6, writable);
      AllStages(temp, o);
      if ok { ReachedDirs(before, fs, files, made, writable); }
    }
  }

  // ---------- restoring ----------

  /** Every file taken out of the backup has the bytes its path had in the snapshot. */
  ghost predicate Faithful(temp: FS, snapshot: FS, o: Options) {
    forall n :: n in temp.files && IsContent(n) && (InTree(n) ==> |n| > 1) ==>
      PathOf(n, o) != [] && PathOf(n, o) in snapshot.files && temp.files[n] == snapshot.files[PathOf(n, o)]
  }

  /** The files afterwards: those of the snapshot at `paths`, unchanged everywhere else. */
  ghost predicate Patched(before: FS, after: FS, snapshot: FS, paths: set<Path>) {
    paths <= snapshot.files.Keys &&
    forall p :: (p in after.files <==> p in paths || p in before.files) &&
      (p in paths ==> after.files[p] == snapshot.files[p]) &&
      (p in before.files && p !in paths ==> after.files[p] == before.files[p])
  }

  lemma FaithfulFile(temp: FS, snapshot: FS, o: Options, name: string)
    requires name == "server.yml" || name == "server.db" || name == "users.db"
    requires Faithful(temp, snapshot, o)
    ensures PathOf([name], o) != []
    ensures [name] in temp.files ==>
      PathOf([name], o) in snapshot.files && temp.files[[name]] == snapshot.files[PathOf([name], o)]
  {
  }

  lemma FaithfulTree(temp: FS, snapshot: FS, o: Options, root: string, n: Path)
    requires Faithful(temp, snapshot, o) && IsTree(root) && n in temp.files && [root] < n
    ensures var p := TreeDir(root, o) + n[1..];
      p != [] && p in snapshot.files && temp.files[n] == snapshot.files[p]
  {
    assert n[0] == root && InTree(n) && PathOf(n, o) == TreeDir(root, o) + n[1..];
  }

  lemma SameFiles(before: FS, cur: FS, next: FS, snapshot: FS, done: set<Path>)
    requires Patched(before, cur, snapshot, done) && next.files == cur.files
    ensures Patched(before, next, snapshot, done)
  {
  }

  lemma PatchMore(before: FS, cur: FS, next: FS, snapshot: FS, done: set<Path>, p: Path)
    requires Patched(before, cur, snapshot, done)
    requires p in snapshot.files && next.files == cur.files[p := snapshot.files[p]]
    ensures Patched(before, next, snapshot, done + {p})
  {
  }

  lemma NothingPatched(fs: FS, snapshot: FS)
    ensures Patched(fs, fs, snapshot, {})
  {
  }

  ghost function TreePaths(temp: FS, root: string, o: Options): set<Path>
    requires IsTree(root)
  {
    if [root] in temp.dirs then set n | n in temp.files && [root] < n :: TreeDir(root, o) + n[1..] else {}
  }

  ghost function TreeMade(temp: FS, root: string, o: Options): set<Path>
    requires IsTree(root)
  {
    if [root] in temp.dirs then set d | d in temp.dirs && [root] <= d :: TreeDir(root, o) + d[1..] else {}
  }

  ghost function FilePaths(temp: FS, name: string, o: Options): set<Path>
    requires IsContent([name])
  {
    if [name] in temp.files then {PathOf([name], o)} else {}
  }

  /** The live paths that a restoration writes. */
  ghost function Restored(temp: FS, o: Options): set<Path> {
    FilePaths(temp, "server.yml", o) + FilePaths(temp, "server.db", o) + FilePaths(temp, "users.db", o) +
    TreePaths(temp, "template", o) + TreePaths(temp, "theme", o) + TreePaths(temp, "ssl", o) + TreePaths(temp, "data", o)
  }

  /** The live directories that it makes, with those above them. */
  ghost function Made(temp: FS, o: Options): set<Path> {
    StageDirs(temp, o, 0) + StageDirs(temp, o, 1) + StageDirs(temp, o, 2) + StageDirs(temp, o, 3) +
    StageDirs(temp, o, 4) + StageDirs(temp, o, 5) + StageDirs(temp, o, 6)
  }

  // ---------- the stages of a restoration ----------

  function PartName(k: nat): string
    requires k < 7
  {
    if k == 0 then "server.yml" else if k == 1 then "server.db" else if k == 2 then "users.db"
    else if k == 3 then "template" else if k == 4 then "theme" else if k == 5 then "ssl" else "data"
  }

  ghost function StageFiles(temp: FS, o: Options, k: nat): set<Path>
    requires k < 7
  {
    if k < 3 then FilePaths(temp, PartName(k), o) else TreePaths(temp, PartName(k), o)
  }

  ghost function StageDirs(temp: FS, o: Options, k: nat): set<Path>
    requires k < 7
  {
    if k < 3 then Parents(FilePaths(temp, PartName(k), o))
    else TreeMade(temp, PartName(k), o) + Parents(TreePaths(temp, PartName(k), o))
  }

  ghost function FilesUpTo(temp: FS, o: Options, k: nat): set<Path>
    requires k <= 7
  {
    if k == 0 then {} else FilesUpTo(temp, o, k - 1) + StageFiles(temp, o, k - 1)
  }

  ghost function MadeUpTo(temp: FS, o: Options, k: nat): set<Path>
    requires k <= 7
  {
    if k == 0 then {} else MadeUpTo(temp, o, k - 1) + StageDirs(temp, o, k - 1)
  }

  lemma {:induction false} StagesGrow(temp: FS, o: Options, j: nat, k: nat)
    requires j <= k <= 7
    ensures FilesUpTo(temp, o, j) <= FilesUpTo(temp, o, k) && MadeUpTo(temp, o, j) <= MadeUpTo(temp, o, k)
  {
    hide StageFiles, StageDirs;
    if j < k { StagesGrow(temp, o, j, k - 1); }
  }

  lemma ParentsSum(a: set<Path>, b: set<Path>)
    ensures Parents(a + b) == Parents(a) + Parents(b)
  {
  }

  /** All stages together are the whole restoration. */
  lemma AllStages(temp: FS, o: Options)
    ensures FilesUpTo(temp, o, 7) == Restored(temp, o) && MadeUpTo(temp, o, 7) == Made(temp, o)
  {
    hide FilePaths, TreePaths, StageDirs;
    assert FilesUpTo(temp, o, 1) == StageFiles(temp, o, 0);
    assert FilesUpTo(temp, o, 3) == FilesUpTo(temp, o, 1) + StageFiles(temp, o, 1) + StageFiles(temp, o, 2);
    assert FilesUpTo(temp, o, 5) == FilesUpTo(temp, o, 3) + StageFiles(temp, o, 3) + StageFiles(temp, o, 4);
    assert FilesUpTo(temp, o, 7) == FilesUpTo(temp, o, 5) + StageFiles(temp, o, 5) + StageFiles(temp, o, 6);
    assert MadeUpTo(temp, o, 1) == StageDirs(temp, o, 0);
    assert MadeUpTo(temp, o, 3) == MadeUpTo(temp, o, 1) + StageDirs(temp, o, 1) + StageDirs(temp, o, 2);
    assert MadeUpTo(temp, o, 5) == MadeUpTo(temp, o, 3) + StageDirs(temp, o, 3) + StageDirs(temp, o, 4);
    assert MadeUpTo(temp, o, 7) == MadeUpTo(temp, o, 5) + StageDirs(temp, o, 5) + StageDirs(temp, o, 6);
  }

  lemma NoStage(temp: FS, o: Options, before: FS, writable: Path -> bool)
    ensures FilesUpTo(temp, o, 0) == {} && MadeUpTo(temp, o, 0) == {}
  {
  }

  /** A stage more; and if that does not fit, the whole does not. */
  lemma StageTaken(temp: FS, o: Options, before: FS, k: nat, writable: Path -> bool)
    requires k < 7
    ensures FilesUpTo(temp, o, k + 1) == FilesUpTo(temp, o, k) + StageFiles(temp, o, k)
    ensures MadeUpTo(temp, o, k + 1) == MadeUpTo(temp, o, k) + StageDirs(temp, o, k)
    ensures FilesUpTo(temp, o, k + 1) <= Restored(temp, o)
    ensures Fits(before, Restored(temp, o), Made(temp, o), writable) ==>
      Fits(before, FilesUpTo(temp, o, k + 1), MadeUpTo(temp, o, k + 1), writable)
  {
    hide Fits, StageFiles, StageDirs;
    StagesGrow(temp, o, k + 1, 7);
    AllStages(temp, o);
    if Fits(before, Restored(temp, o), Made(temp, o), writable) {
      FitsLess(before, FilesUpTo(temp, o, k + 1), MadeUpTo(temp, o, k + 1), Restored(temp, o), Made(temp, o), writable);
    }
  }

  // ---------- extraction ----------

  /** The files and the directories that the entries call for. */
  ghost function FileNames(entries: seq<Entry>): set<Path> { set e | e in entries && e.node.File? :: e.name }

  ghost function DirsMade(entries: seq<Entry>): set<Path> { set e | e in entries && e.name != [] :: EntryDir(e) }

  function EntryFiles(e: Entry): set<Path> { if e.node.File? then {e.name} else {} }

  function EntryDir(e: Entry): Path
    requires e.name != []
  {
    if e.node.Dir? then e.name else Parent(e.name)
  }

  lemma NoEntries()
    ensures FileNames([]) == {} && DirsMade([]) == {}
  {
  }

  lemma EntryMade(entries: seq<Entry>, i: nat)
    requires i < |entries| && entries[i].name != []
    ensures var e := entries[i];
      && FileNames(entries[..i + 1]) == FileNames(entries[..i]) + EntryFiles(e)
      && DirsMade(entries[..i + 1]) == DirsMade(entries[..i]) + {EntryDir(e)}
  {
    assert entries[..i + 1] == entries[..i] + [entries[i]];
  }

  /** If some of the entries do not fit, all of them do not. */
  lemma StillMissing(before: FS, entries: seq<Entry>, i: nat, writable: Path -> bool)
    requires i < |entries| && !Fits(before, FileNames(entries[..i + 1]), DirsMade(entries[..i + 1]), writable)
    ensures !Fits(before, FileNames(entries), DirsMade(entries), writable)
  {
    hide Fits;
    var first := entries[..i + 1];
    assert forall e :: e in first ==> e in entries;
    if Fits(before, FileNames(entries), DirsMade(entries), writable) {
      FitsLess(before, FileNames(first), DirsMade(first), FileNames(entries), DirsMade(entries), writable);
    }
  }

  /** A directory that holds exactly the file entries, and the directories that all entries call for. */
  ghost predicate Extracted(fs: FS, entries: seq<Entry>) {
    && (forall k :: 0 <= k < |entries| && entries[k].node.File? ==>
          entries[k].name in fs.files && fs.files[entries[k].name] == entries[k].node.bytes)
    && (forall n :: n in fs.files ==>
          exists k :: 0 <= k < |entries| && entries[k].name == n && entries[k].node == File(fs.files[n]))
    && fs.dirs == {[]} + Above(DirsMade(entries))
  }

  /** The final archive of a backup can be extracted name by name, and what comes out is faithful. */
  lemma ExtractedIsFaithful(snapshot: FS, o: Options, content: seq<Entry>, manifest: string, temp: FS)
    requires IsBackup(snapshot, o, content)
    ensures NamesAgree(Final(manifest, content))
    ensures Extracted(temp, Final(manifest, content)) ==> Faithful(temp, snapshot, o)
  {
    hide ShowsPath, PathOf;
    var all := Final(manifest, content);
    forall i | 0 < i < |all| ensures IsFaithful(all[i], snapshot, o) {
      assert all[i] == content[i - 1];
      EntryFaithful(all[i], snapshot, o);
    }
    assert all[0].name == MANIFEST && all[0].node.File?;
    if Extracted(temp, all) {
      forall n | n in temp.files && IsContent(n) && (InTree(n) ==> |n| > 1)
        ensures PathOf(n, o) != [] && PathOf(n, o) in snapshot.files && temp.files[n] == snapshot.files[PathOf(n, o)]
      {
        var k :| 0 <= k < |all| && all[k].name == n && all[k].node == File(temp.files[n]);
        assert k > 0;
        assert IsFaithful(all[k], snapshot, o);
      }
    }
  }

  /** The entry is not the manifest, and holds what the snapshot has at its path. */
  ghost predicate IsFaithful(e: Entry, snapshot: FS, o: Options) {
    && e.name != MANIFEST && IsContent(e.name)
    && (e.node.File? ==>
          (PathOf(e.name, o) != [] && PathOf(e.name, o) in snapshot.files &&
           snapshot.files[PathOf(e.name, o)] == e.node.bytes))
  }

  lemma EntryFaithful(e: Entry, snapshot: FS, o: Options)
    requires ShowsPath(snapshot, o, e)
    ensures IsFaithful(e, snapshot, o)
  {
    assert MANIFEST[0] == "manifest.json";
  }

  lemma RestoredWasBackedUp(snapshot: FS, o: Options, content: seq<Entry>, manifest: string, temp: FS, p: Path)
    requires Shows(snapshot, o, content) && Extracted(temp, Final(manifest, content)) && p in Restored(temp, o)
    ensures BackedUp(snapshot, o, p)
  {
    hide BackedUp, TreeIncluded, Restored;
    var all := Final(manifest, content);
    var n := NameOf(temp, o, p);
    hide PathOf;
    var k :| 0 <= k < |all| && all[k].name == n && all[k].node == File(temp.files[n]);
    assert k > 0;
    assert all[k] == content[k - 1];
    assert ShowsPath(snapshot, o, content[k - 1]);
  }

  lemma FinalHolds(content: seq<Entry>, manifest: string)
    ensures forall e :: e in content ==> e in Final(manifest, content)
  {
  }

  /** The name under which a backed-up path is in the archive, with its tree's root. */
  lemma CoveredName(snapshot: FS, o: Options, content: seq<Entry>, p: Path) returns (n: Path)
    requires IsBackup(snapshot, o, content) && BackedUp(snapshot, o, p)
    ensures IsContent(n) && PathOf(n, o) == p && (exists bytes :: Entry(n, File(bytes)) in content)
    ensures InTree(n) ==> |n| > 1 && Entry([n[0]], Dir) in content
  {
    hide BackedUp, TreeIncluded, PathOf;
    assert Covers(content, o, p);
    var i :| 0 <= i < |content| && IsContent(content[i].name) && content[i].node.File? && PathOf(content[i].name, o) == p;
    assert ShowsPath(snapshot, o, content[i]);
    n := content[i].name;
    assert Entry(n, File(content[i].node.bytes)) == content[i];
    if InTree(n) { RootEntry(snapshot, o, content, n[0]); }
  }

  lemma RootEntry(snapshot: FS, o: Options, content: seq<Entry>, root: string)
    requires IsBackup(snapshot, o, content) && TreeIncluded(snapshot, root, o)
    ensures Entry([root], Dir) in content
  {
    assert NameIn(root, TreeDir(root, o), o) == [root];
  }

  lemma EntryExtracted(temp: FS, entries: seq<Entry>, e: Entry)
    requires Extracted(temp, entries) && e in entries && e.name != []
    ensures if e.node.File? then e.name in temp.files && temp.files[e.name] == e.node.bytes else e.name in temp.dirs
  {
    if e.node.Dir? {
      assert EntryDir(e) in DirsMade(entries);
      assert IsAbove(e.name, DirsMade(entries));
    }
  }

  lemma BackedUpIsRestored(snapshot: FS, o: Options, content: seq<Entry>, manifest: string, temp: FS, p: Path)
    requires IsBackup(snapshot, o, content) && Extracted(temp, Final(manifest, content)) && BackedUp(snapshot, o, p)
    ensures p in Restored(temp, o)
  {
    hide BackedUp, TreeIncluded, Restored, PathOf, Final;
    var n := CoveredName(snapshot, o, content, p);
    FinalHolds(content, manifest);
    hide Extracted;
    var bytes :| Entry(n, File(bytes)) in content;
    EntryExtracted(temp, Final(manifest, content), Entry(n, File(bytes)));
    if InTree(n) { EntryExtracted(temp, Final(manifest, content), Entry([n[0]], Dir)); }
    NameRestored(temp, o, n);
  }

  /** What a restoration writes is what was backed up. */
  lemma RestoredIsBackedUp(snapshot: FS, o: Options, content: seq<Entry>, manifest: string, temp: FS)
    requires IsBackup(snapshot, o, content) && Extracted(temp, Final(manifest, content))
    ensures forall p :: p in Restored(temp, o) <==> BackedUp(snapshot, o, p)
  {
    assert Shows(snapshot, o, content);
    hide BackedUp, Restored, IsBackup, Extracted, Shows;
    forall p ensures p in Restored(temp, o) <==> BackedUp(snapshot, o, p) {
      if p in Restored(temp, o) { RestoredWasBackedUp(snapshot, o, content, manifest, temp, p); }
      if BackedUp(snapshot, o, p) { BackedUpIsRestored(snapshot, o, content, manifest, temp, p); }
    }
  }

  lemma NameRestored(temp: FS, o: Options, n: Path)
    requires n in temp.files && IsContent(n) && (InTree(n) ==> |n| > 1 && [n[0]] in temp.dirs)
    ensures PathOf(n, o) in Restored(temp, o)
  {
    if InTree(n) {
      assert [n[0]] < n;
      assert PathOf(n, o) in TreePaths(temp, n[0], o);
    }
  }

  lemma NameOf(temp: FS, o: Options, p: Path) returns (n: Path)
    requires p in Restored(temp, o)
    ensures n in temp.files && IsContent(n) && PathOf(n, o) == p
  {
    if ["server.yml"] in temp.files && p == PathOf(["server.yml"], o) { n := ["server.yml"]; }
    else if ["server.db"] in temp.files && p == PathOf(["server.db"], o) { n := ["server.db"]; }
    else if ["users.db"] in temp.files && p == PathOf(["users.db"], o) { n := ["users.db"]; }
    else {
      var root := if p in TreePaths(temp, "template", o) then "template" else if p in TreePaths(temp, "theme", o) then "theme"
                  else if p in TreePaths(temp, "ssl", o) then "ssl" else "data";
      hide PathOf, TreePaths;
      n := TreeName(temp, o, root, p);
    }
  }

  lemma TreeName(temp: FS, o: Options, root: string, p: Path) returns (n: Path)
    requires IsTree(root) && p in TreePaths(temp, root, o)
    ensures n in temp.files && IsContent(n) && PathOf(n, o) == p
  {
    n :| n in temp.files && [root] < n && TreeDir(root, o) + n[1..] == p;
    assert n[0] == root && |n| > 1;
  }


  // ---------- file systems as they are ----------

  /** Whatever there is lies in a directory, and nothing is a file and a directory. */
  ghost predicate WellFormed(fs: FS) {
    fs.files.Keys !! fs.dirs &&
    forall p :: (p in fs.files || p in fs.dirs) && p != [] ==> Parent(p) in fs.dirs
  }

  lemma {:induction false} DirsAbove(fs: FS, p: Path, d: Path)
    requires WellFormed(fs) && d <= p && (p in fs.dirs || (p in fs.files && d != p))
    ensures d in fs.dirs
    decreases |p|
  {
    if d != p {
      assert d <= Parent(p);
      DirsAbove(fs, Parent(p), d);
    }
  }

  /** A restoration that succeeds leaves a well-formed file system well formed. */
  lemma StaysWellFormed(before: FS, after: FS, files: set<Path>, made: set<Path>, writable: Path -> bool)
    requires WellFormed(before) && Reached(before, after, files, made, writable) && Parents(files) <= made
    ensures WellFormed(after)
  {
    hide Above;
    forall p | (p in after.files || p in after.dirs) && p != [] ensures Parent(p) in after.dirs {
      if p in files {
        assert Parent(p) in Parents(files);
        assert IsAbove(Parent(p), made);
      } else if p in Above(made) {
        var q :| q in made && p <= q;
        assert Parent(p) <= q;
        assert IsAbove(Parent(p), made);
      }
    }
  }

  // ---------- a backup can be extracted ----------

  /** Where an entry of a backup comes from: a directory or a file of the snapshot. */
  lemma EntrySource(snapshot: FS, o: Options, e: Entry)
    requires ShowsPath(snapshot, o, e)
    ensures IsContent(e.name) && e.name[0] != "manifest.json"
    ensures if e.node.File? then PathOf(e.name, o) in BackupFiles(snapshot, o)
            else InTree(e.name) && PathOf(e.name, o) in snapshot.dirs
  {
  }

  /** Of two entries in one tree, the paths are nested as the names are. */
  lemma NestedPaths(a: Path, b: Path, o: Options)
    requires IsContent(a) && IsContent(b) && a != [] && a <= b
    ensures a != b ==> InTree(a)
    ensures PathOf(a, o) <= PathOf(b, o) && (a != b ==> PathOf(a, o) != PathOf(b, o))
  {
  }

  /** No file entry stands where another entry needs a directory. */
  lemma NothingInTheWay(snapshot: FS, o: Options, a: Entry, b: Entry)
    requires WellFormed(snapshot) && ShowsPath(snapshot, o, a) && ShowsPath(snapshot, o, b) && a.node.File?
    ensures !(a.name <= EntryDir(b))
  {
    EntrySource(snapshot, o, a);
    EntrySource(snapshot, o, b);
    hide ShowsPath, PathOf;
    if a.name <= EntryDir(b) {
      assert a.name <= b.name;
      NestedPaths(a.name, b.name, o);
      DirsAbove(snapshot, PathOf(b.name, o), PathOf(a.name, o));
    }
  }

  /** A path of the fresh directory that the archive writes to. */
  ghost predicate IsWritten(entries: seq<Entry>, p: Path) {
    p in FileNames(entries) || (p in Above(DirsMade(entries)) && p != [])
  }

  /** Every backup of a well-formed file system can be extracted into a fresh directory, as long as
      that can be written to. */
  lemma BackupExtracts(snapshot: FS, o: Options, content: seq<Entry>, manifest: string, writable: Path -> bool)
    requires WellFormed(snapshot) && IsBackup(snapshot, o, content)
    ensures var all := Final(manifest, content);
      Fits(FS(map[], {[]}), FileNames(all), DirsMade(all), writable) <==> forall p :: IsWritten(all, p) ==> writable(p)
  {
    var all := Final(manifest, content);
    hide Above, IsBackup;
    forall d, p | d in Above(DirsMade(all)) && p in FileNames(all) ensures d != p {
      var q :| q in DirsMade(all) && d <= q;
      NoClash(snapshot, o, content, manifest, q, p);
    }
    NamesNotEmpty(snapshot, o, content, manifest);
  }

  lemma NamesNotEmpty(snapshot: FS, o: Options, content: seq<Entry>, manifest: string)
    requires IsBackup(snapshot, o, content)
    ensures forall e :: e in Final(manifest, content) ==> e.name != []
  {
    forall e | e in Final(manifest, content) ensures e.name != [] {
      if e in content {
        var i :| 0 <= i < |content| && content[i] == e;
        assert ShowsPath(snapshot, o, content[i]);
      }
    }
  }

  lemma NoClash(snapshot: FS, o: Options, content: seq<Entry>, manifest: string, q: Path, p: Path)
    requires WellFormed(snapshot) && IsBackup(snapshot, o, content)
    requires var all := Final(manifest, content); q in DirsMade(all) && p in FileNames(all)
    ensures !(p <= q)
  {
    var all := Final(manifest, content);
    var a :| a in all && a.node.File? && a.name == p;
    var b :| b in all && b.name != [] && EntryDir(b) == q;
    hide IsBackup;
    EntryKind(snapshot, o, content, manifest, a);
    EntryKind(snapshot, o, content, manifest, b);
    hide ShowsPath;
    if a in content && b in content {
      NothingInTheWay(snapshot, o, a, b);
    }
  }

  lemma EntryKind(snapshot: FS, o: Options, content: seq<Entry>, manifest: string, e: Entry)
    requires IsBackup(snapshot, o, content) && e in Final(manifest, content)
    ensures if e in content then ShowsPath(snapshot, o, e) && e.name != [] && e.name[0] != "manifest.json"
            else e == Entry(MANIFEST, File(manifest))
  {
    if e in content {
      var i :| 0 <= i < |content| && content[i] == e;
      assert ShowsPath(snapshot, o, content[i]);
      EntrySource(snapshot, o, e);
    }
  }

  // ---------- where a backup can be restored ----------

  /** The directories that restoring a backup makes, with those above them. */
  ghost function DirsNeeded(snapshot: FS, o: Options): set<Path> {
    BackupDirs(snapshot, o) + Parents(BackupFiles(snapshot, o))
  }

  lemma NeededExist(snapshot: FS, o: Options)
    requires WellFormed(snapshot)
    ensures Above(DirsNeeded(snapshot, o)) <= snapshot.dirs
  {
    hide BackupDirs, BackupFiles, Above;
    assert BackupDirs(snapshot, o) <= snapshot.dirs && BackupFiles(snapshot, o) <= snapshot.files.Keys by { BackupParts(snapshot, o); }
    forall d | d in Above(DirsNeeded(snapshot, o)) ensures d in snapshot.dirs {
      var q :| q in DirsNeeded(snapshot, o) && d <= q;
      assert q in snapshot.dirs;
      DirsAbove(snapshot, q, d);
    }
  }

  lemma BackupParts(snapshot: FS, o: Options)
    ensures BackupDirs(snapshot, o) <= snapshot.dirs && BackupFiles(snapshot, o) <= snapshot.files.Keys
  {
  }

  /** An extracted directory at or below a tree's root stands for a directory of that tree. */
  lemma ExtractedDir(snapshot: FS, o: Options, content: seq<Entry>, manifest: string, temp: FS, root: string, d: Path)
    requires WellFormed(snapshot) && IsBackup(snapshot, o, content) && Extracted(temp, Final(manifest, content))
    requires IsTree(root) && d in temp.dirs && [root] <= d
    ensures TreeDir(root, o) + d[1..] in BackupDirs(snapshot, o)
  {
    var all := Final(manifest, content);
    hide IsBackup, WellFormed, TreeDir;
    var e := EntryBelow(temp, all, d);
    hide Extracted;
    EntryKind(snapshot, o, content, manifest, e);
    assert EntryDir(e) <= e.name && d[0] == root && e.name[0] == root && e in content;
    hide ShowsPath;
    SourceDir(snapshot, o, e, root, d);
  }

  /** An entry that calls for an extracted directory. */
  lemma EntryBelow(temp: FS, all: seq<Entry>, d: Path) returns (e: Entry)
    requires Extracted(temp, all) && d in temp.dirs && d != []
    ensures e in all && e.name != [] && d <= EntryDir(e)
  {
    assert IsAbove(d, DirsMade(all));
    hide Above, Extracted;
    var q :| q in DirsMade(all) && d <= q;
    e :| e in all && e.name != [] && EntryDir(e) == q;
  }

  lemma SourceDir(snapshot: FS, o: Options, e: Entry, root: string, d: Path)
    requires WellFormed(snapshot) && ShowsPath(snapshot, o, e) && IsTree(root) && e.name[0] == root
    requires e.name != [] && [root] <= d <= EntryDir(e)
    ensures TreeDir(root, o) + d[1..] in BackupDirs(snapshot, o)
  {
    EntrySource(snapshot, o, e);
    TreeOfEntry(snapshot, o, e, root);
    hide ShowsPath, TreeIncluded, PathOf, TreeDir;
    DirOfEntry(e, o, d);
    DirsAbove(snapshot, PathOf(e.name, o), TreeDir(root, o) + d[1..]);
  }

  lemma TreeOfEntry(snapshot: FS, o: Options, e: Entry, root: string)
    requires ShowsPath(snapshot, o, e) && IsTree(root) && e.name[0] == root
    ensures TreeIncluded(snapshot, root, o)
  {
  }

  lemma DirOfEntry(e: Entry, o: Options, d: Path)
    requires IsContent(e.name) && InTree(e.name) && [e.name[0]] <= d <= EntryDir(e)
    ensures var p := TreeDir(e.name[0], o) + d[1..]; p <= PathOf(e.name, o) && (e.node.File? ==> p != PathOf(e.name, o))
  {
    assert d[1..] <= e.name[1..];
  }

  lemma TreeIndex(root: string) returns (k: nat)
    requires IsTree(root)
    ensures 3 <= k < 7 && PartName(k) == root
  {
    k := if root == "template" then 3 else if root == "theme" then 4 else if root == "ssl" then 5 else 6;
  }

  lemma StageOf(temp: FS, o: Options, p: Path) returns (k: nat)
    requires p in Restored(temp, o)
    ensures k < 7 && p in StageFiles(temp, o, k)
  {
    hide FilePaths, TreePaths;
    k := if p in StageFiles(temp, o, 0) then 0 else if p in StageFiles(temp, o, 1) then 1
         else if p in StageFiles(temp, o, 2) then 2 else if p in StageFiles(temp, o, 3) then 3
         else if p in StageFiles(temp, o, 4) then 4 else if p in StageFiles(temp, o, 5) then 5 else 6;
  }

  lemma StageWithin(temp: FS, o: Options, k: nat)
    requires k < 7
    ensures StageFiles(temp, o, k) <= Restored(temp, o) && StageDirs(temp, o, k) <= Made(temp, o)
  {
    hide FilePaths, TreePaths, StageDirs;
  }

  lemma StageOfMade(temp: FS, o: Options, q: Path) returns (k: nat)
    requires q in Made(temp, o)
    ensures k < 7 && q in StageDirs(temp, o, k)
  {
    hide StageDirs;
    k := if q in StageDirs(temp, o, 0) then 0 else if q in StageDirs(temp, o, 1) then 1
         else if q in StageDirs(temp, o, 2) then 2 else if q in StageDirs(temp, o, 3) then 3
         else if q in StageDirs(temp, o, 4) then 4 else if q in StageDirs(temp, o, 5) then 5 else 6;
  }

  /** What a restoration of a backup makes is what the backup has. */
  lemma MadeIsNeeded(snapshot: FS, o: Options, content: seq<Entry>, manifest: string, temp: FS)
    requires WellFormed(snapshot) && IsBackup(snapshot, o, content) && Extracted(temp, Final(manifest, content))
    ensures Restored(temp, o) == BackupFiles(snapshot, o) && Made(temp, o) == DirsNeeded(snapshot, o)
  {
    RestoredIsBackedUp(snapshot, o, content, manifest, temp);
    assert Restored(temp, o) == BackupFiles(snapshot, o) by { hide Restored, IsBackup, Extracted, WellFormed; }
    hide Restored, Made, BackupFiles;
    forall q | q in Made(temp, o) ensures q in DirsNeeded(snapshot, o) {
      var k := StageOfMade(temp, o, q);
      MadeWasBackedUp(snapshot, o, content, manifest, temp, k, q);
    }
    forall q | q in DirsNeeded(snapshot, o) ensures q in Made(temp, o) {
      NeededIsMade(snapshot, o, content, manifest, temp, q);
    }
  }

  lemma MadeWasBackedUp(snapshot: FS, o: Options, content: seq<Entry>, manifest: string, temp: FS, k: nat, q: Path)
    requires WellFormed(snapshot) && IsBackup(snapshot, o, content) && Extracted(temp, Final(manifest, content))
    requires Restored(temp, o) == BackupFiles(snapshot, o) && k < 7 && q in StageDirs(temp, o, k)
    ensures q in DirsNeeded(snapshot, o)
  {
    StageWithin(temp, o, k);
    StageParts(temp, o, k, q);
    hide BackupFiles, BackupDirs, Restored, Made, StageFiles, StageDirs, WellFormed, IsBackup, Extracted;
    if q !in Parents(StageFiles(temp, o, k)) {
      TreeMadeWasBackedUp(snapshot, o, content, manifest, temp, PartName(k), q);
    }
  }

  lemma StageParts(temp: FS, o: Options, k: nat, q: Path)
    requires k < 7 && q in StageDirs(temp, o, k)
    ensures q in Parents(StageFiles(temp, o, k)) || (k >= 3 && q in TreeMade(temp, PartName(k), o))
  {
    hide FilePaths, TreePaths, TreeMade, Parents;
  }

  lemma TreeMadeWasBackedUp(snapshot: FS, o: Options, content: seq<Entry>, manifest: string, temp: FS, root: string, q: Path)
    requires WellFormed(snapshot) && IsBackup(snapshot, o, content) && Extracted(temp, Final(manifest, content))
    requires IsTree(root) && q in TreeMade(temp, root, o)
    ensures q in BackupDirs(snapshot, o)
  {
    hide BackupDirs, WellFormed, IsBackup, Extracted;
    var d :| d in temp.dirs && [root] <= d && q == TreeDir(root, o) + d[1..];
    ExtractedDir(snapshot, o, content, manifest, temp, root, d);
  }

  lemma NeededIsMade(snapshot: FS, o: Options, content: seq<Entry>, manifest: string, temp: FS, q: Path)
    requires IsBackup(snapshot, o, content) && Extracted(temp, Final(manifest, content))
    requires Restored(temp, o) == BackupFiles(snapshot, o) && q in DirsNeeded(snapshot, o)
    ensures q in Made(temp, o)
  {
    if q in Parents(BackupFiles(snapshot, o)) {
      hide BackupFiles, Restored, Made, IsBackup, Extracted;
      var p :| p in BackupFiles(snapshot, o) && p != [] && Parent(p) == q;
      var k := StageOf(temp, o, p);
      StageWithin(temp, o, k);
    } else {
      var root :| TreeIncluded(snapshot, root, o) && TreeDir(root, o) <= q;
      hide IsBackup, Extracted, Restored, Made, BackupFiles, StageDirs;
      NeededInTree(snapshot, o, content, manifest, temp, root, q);
    }
  }

  lemma NeededInTree(snapshot: FS, o: Options, content: seq<Entry>, manifest: string, temp: FS, root: string, q: Path)
    requires IsBackup(snapshot, o, content) && Extracted(temp, Final(manifest, content))
    requires TreeIncluded(snapshot, root, o) && TreeDir(root, o) <= q && q in snapshot.dirs
    ensures q in Made(temp, o)
  {
    var e := Entry(NameIn(root, q, o), Dir);
    assert e in content && [root] <= e.name && q == TreeDir(root, o) + e.name[1..];
    RootEntry(snapshot, o, content, root);
    FinalHolds(content, manifest);
    hide IsBackup, Extracted, Made, TreeDir, TreeIncluded, Final, NameIn;
    EntryExtracted(temp, Final(manifest, content), e);
    EntryExtracted(temp, Final(manifest, content), Entry([root], Dir));
    var k := TreeIndex(root);
    StageWithin(temp, o, k);
    assert q in TreeMade(temp, root, o);
  }

  /** A backup can be restored over `before`: no file lies where it has a directory, no directory where
      it has a file, and what is missing or rewritten is writable. */
  ghost predicate Restorable(before: FS, snapshot: FS, o: Options, writable: Path -> bool) {
    (forall d :: d in Above(DirsNeeded(snapshot, o)) ==> d !in before.files && (d in before.dirs || writable(d))) &&
    (forall p :: p in BackupFiles(snapshot, o) ==> p !in before.dirs && writable(p))
  }

  lemma FitsWhenRestorable(before: FS, snapshot: FS, o: Options, writable: Path -> bool)
    requires WellFormed(snapshot)
    ensures Fits(before, BackupFiles(snapshot, o), DirsNeeded(snapshot, o), writable) <==>
      Restorable(before, snapshot, o, writable)
  {
    NeededExist(snapshot, o);
    BackupParts(snapshot, o);
    hide Above, DirsNeeded, BackupFiles, BackupDirs;
  }

  /** Over the file system it was taken from, a backup can be restored exactly when the files in it are
      writable. */
  lemma RestorableOverItself(snapshot: FS, o: Options, writable: Path -> bool)
    requires WellFormed(snapshot)
    ensures Restorable(snapshot, snapshot, o, writable) <==> forall p :: p in BackupFiles(snapshot, o) ==> writable(p)
    ensures snapshot.dirs + Above(DirsNeeded(snapshot, o)) == snapshot.dirs
  {
    NeededExist(snapshot, o);
    BackupParts(snapshot, o);
    hide Above, DirsNeeded, BackupFiles, BackupDirs;
  }

  // ---------- the round trip ----------

  /** What a successful restoration leaves: every backed-up path has the bytes it had when the backup was
      made, no other file is changed, added or removed, and the backed-up directories are there. */
  ghost predicate RestoredFrom(before: FS, after: FS, snapshot: FS, o: Options) {
    Patched(before, after, snapshot, BackupFiles(snapshot, o)) &&
    after.dirs == before.dirs + Above(DirsNeeded(snapshot, o))
  }

  /** The extraction and the copying of `Restore`, on the archive of a backup, with a fresh directory in
      between. It succeeds exactly when the fresh directory can be written to and the backup can be
      restored over the live system. */
  method RestoreArchive(disk: Disk, tempWritable: Path -> bool, o: Options, entries: seq<Entry>,
                        ghost snapshot: FS, ghost content: seq<Entry>, ghost manifest: string)
    returns (ok: bool, ghost done: set<Path>)
    requires WellFormed(snapshot) && IsBackup(snapshot, o, content) && entries == Final(manifest, content)
    modifies disk`fs
    ensures ok <==> (forall p :: IsWritten(entries, p) ==> tempWritable(p)) && Restorable(old(disk.fs), snapshot, o, disk.writable)
    ensures ok ==> RestoredFrom(old(disk.fs), disk.fs, snapshot, o)
    ensures done <= BackupFiles(snapshot, o) && Patched(old(disk.fs), disk.fs, snapshot, done)
  {
    ghost var before := disk.fs;
    done := {};
    NothingPatched(before, snapshot);
    var temp := new Disk(FS(map[], {[]}), tempWritable);
    ExtractedIsFaithful(snapshot, o, content, manifest, temp.fs);
    NamesNotEmpty(snapshot, o, content, manifest);
    BackupExtracts(snapshot, o, content, manifest, tempWritable);
    hide WellFormed, IsBackup, Fits, Restorable, Above, Patched, Faithful, NamesAgree, IsWritten, BackupFiles, BackupDirs, DirsNeeded, Restored, Made;
    ok := temp.ExtractBackup(entries);
    if !ok { return; }
    ExtractedIsFaithful(snapshot, o, content, manifest, temp.fs);
    MadeIsNeeded(snapshot, o, content, manifest, temp.fs);
    FitsWhenRestorable(before, snapshot, o, disk.writable);
    ok, done := disk.PerformRestore(temp.fs, o, snapshot);
  }

  /** Round trip. Over a live system in which nothing has changed, and whose backed-up files are writable,
      a restoration is possible, and leaves everything exactly as it is. */
  lemma RoundTrip(snapshot: FS, o: Options, after: FS, writable: Path -> bool)
    requires WellFormed(snapshot) && forall p :: p in BackupFiles(snapshot, o) ==> writable(p)
    ensures Restorable(snapshot, snapshot, o, writable)
    ensures RestoredFrom(snapshot, after, snapshot, o) ==> after == snapshot
  {
    RestorableOverItself(snapshot, o, writable);
    hide Restorable, Above, BackupFiles, DirsNeeded, Patched, WellFormed;
    if RestoredFrom(snapshot, after, snapshot, o) { PatchedByItself(snapshot, after, BackupFiles(snapshot, o)); }
  }

  lemma PatchedByItself(fs: FS, after: FS, paths: set<Path>)
    requires Patched(fs, after, fs, paths)
    ensures after.files == fs.files
  {
    assert after.files.Keys == fs.files.Keys;
  }

  /** Over any other live system: what a restoration leaves, path by path. */
  lemma RestoredPaths(before: FS, after: FS, snapshot: FS, o: Options)
    requires RestoredFrom(before, after, snapshot, o)
    ensures forall p :: BackedUp(snapshot, o, p) ==> p in after.files && after.files[p] == snapshot.files[p]
    ensures forall p :: !BackedUp(snapshot, o, p) ==>
      (p in after.files <==> p in before.files) && (p in before.files ==> after.files[p] == before.files[p])
    ensures BackupDirs(snapshot, o) <= after.dirs
  {
    forall d | d in BackupDirs(snapshot, o) ensures d in after.dirs {
      assert IsAbove(d, DirsNeeded(snapshot, o));
    }
    hide BackupDirs, Above, BackedUp;
  }
}
