/** Backup archives: what goes into one. An archive is a list of named entries; tar, gzip and
    encryption are lossless encodings of that list and are not part of this model. */
module Archive {
  import opened Text

  type Path = seq<string>

  /** A file system: the files with their bytes, and the directories. */
  datatype FS = FS(files: map<Path, string>, dirs: set<Path>)

  datatype Node = File(bytes: string) | Dir

  datatype Entry = Entry(name: Path, node: Node)

  /** The two directories a backup is taken from and restored to, and what is included. */
  datatype Options = Options(configDir: Path, dataDir: Path, includeSSL: bool, includeData: bool)

  const MANIFEST: Path := ["manifest.json"]

  // ---------- where an entry comes from and goes to ----------

  predicate IsTree(root: string) { root == "template" || root == "theme" || root == "ssl" || root == "data" }

  /** The names of entries that a backup holds besides the manifest. */
  predicate IsContent(name: Path) {
    name == ["server.yml"] || name == ["server.db"] || name == ["users.db"] || InTree(name)
  }

  predicate InTree(name: Path) { name != [] && IsTree(name[0]) }

  /** The directory that a tree is taken from and copied back to. */
  function TreeDir(root: string, o: Options): Path {
    if root == "data" then o.dataDir else o.configDir + [root]
  }

  /** The path of an entry on the live system. */
  function PathOf(name: Path, o: Options): Path
    requires IsContent(name)
  {
    if name == ["server.yml"] then o.configDir + name
    else if name == ["server.db"] || name == ["users.db"] then o.dataDir + name
    else TreeDir(name[0], o) + name[1..]
  }

  /** The name that a path at or below a tree's directory has in the archive. */
  function NameIn(root: string, p: Path, o: Options): Path
    requires TreeDir(root, o) <= p
  {
    [root] + p[|TreeDir(root, o)|..]
  }

  predicate UnderTree(p: Path, root: string, o: Options) { TreeDir(root, o) < p }

  /** The trees that go into a backup. */
  predicate TreeIncluded(fs: FS, root: string, o: Options) {
    IsTree(root) && TreeDir(root, o) in fs.dirs && (root == "ssl" ==> o.includeSSL) && (root == "data" ==> o.includeData)
  }

  /** The files that a backup is meant to hold. */
  ghost predicate BackedUp(fs: FS, o: Options, p: Path) {
    p in fs.files &&
    (p == o.configDir + ["server.yml"] || p == o.dataDir + ["server.db"] || p == o.dataDir + ["users.db"] ||
     exists root :: TreeIncluded(fs, root, o) && UnderTree(p, root, o))
  }

  /** That is: the config, the two databases, what lies below the template and theme directories of the
      config directory, and, if asked for, below its ssl directory and the data directory. */
  lemma BackedUpMeaning(fs: FS, o: Options, p: Path)
    ensures BackedUp(fs, o, p) <==>
      p in fs.files &&
      (p == o.configDir + ["server.yml"] || p == o.dataDir + ["server.db"] || p == o.dataDir + ["users.db"] ||
       (o.configDir + ["template"] in fs.dirs && o.configDir + ["template"] < p) ||
       (o.configDir + ["theme"] in fs.dirs && o.configDir + ["theme"] < p) ||
       (o.includeSSL && o.configDir + ["ssl"] in fs.dirs && o.configDir + ["ssl"] < p) ||
       (o.includeData && o.dataDir in fs.dirs && o.dataDir < p))
  {
    TreesMeaning(fs, o, p);
  }

  lemma TreesMeaning(fs: FS, o: Options, p: Path)
    ensures (exists root :: TreeIncluded(fs, root, o) && UnderTree(p, root, o)) <==>
      ((o.configDir + ["template"] in fs.dirs && o.configDir + ["template"] < p) ||
       (o.configDir + ["theme"] in fs.dirs && o.configDir + ["theme"] < p) ||
       (o.includeSSL && o.configDir + ["ssl"] in fs.dirs && o.configDir + ["ssl"] < p) ||
       (o.includeData && o.dataDir in fs.dirs && o.dataDir < p))
  {
    assert TreeIncluded(fs, "template", o) <==> o.configDir + ["template"] in fs.dirs;
    assert TreeIncluded(fs, "theme", o) <==> o.configDir + ["theme"] in fs.dirs;
    assert TreeIncluded(fs, "ssl", o) <==> o.includeSSL && o.configDir + ["ssl"] in fs.dirs;
    assert TreeIncluded(fs, "data", o) <==> o.includeData && o.dataDir in fs.dirs;
    assert UnderTree(p, "template", o) <==> o.configDir + ["template"] < p;
    assert UnderTree(p, "theme", o) <==> o.configDir + ["theme"] < p;
    assert UnderTree(p, "ssl", o) <==> o.configDir + ["ssl"] < p;
    assert UnderTree(p, "data", o) <==> o.dataDir < p;
  }

  /** What an entry of a backup is: a file of the config or data directory under its own name, or what lies at
      the same place below a tree's directory, under the tree's name. */
  lemma EntryMeaning(fs: FS, o: Options, content: seq<Entry>, i: nat, bytes: string)
    requires IsBackup(fs, o, content) && i < |content| && content[i].node == File(bytes)
    ensures var name := content[i].name;
      var from := if name == ["server.yml"] then o.configDir + ["server.yml"]
                  else if name == ["server.db"] || name == ["users.db"] then o.dataDir + name
                  else if name != [] && name[0] == "data" then o.dataDir + name[1..]
                  else o.configDir + name;
      from in fs.files && fs.files[from] == bytes
  {
    var e := content[i];
    assert ShowsPath(fs, o, e);
    hide IsBackup, TreeIncluded;
    PathMeaning(e.name, o);
  }

  lemma PathMeaning(name: Path, o: Options)
    requires IsContent(name)
    ensures PathOf(name, o) ==
      if name == ["server.yml"] then o.configDir + ["server.yml"]
      else if name == ["server.db"] || name == ["users.db"] then o.dataDir + name
      else if name != [] && name[0] == "data" then o.dataDir + name[1..]
      else o.configDir + name
  {
    assert [name[0]] + name[1..] == name;
    assert o.configDir + [name[0]] + name[1..] == o.configDir + name;
  }

  ghost function BackupFiles(fs: FS, o: Options): set<Path> { set p | p in fs.files && BackedUp(fs, o, p) }

  /** The directories that it is meant to hold. */
  ghost function BackupDirs(fs: FS, o: Options): set<Path> {
    set d | d in fs.dirs && exists root :: TreeIncluded(fs, root, o) && TreeDir(root, o) <= d
  }

  // ---------- building ----------

  /** An entry that belongs into a backup of the live system and shows it as it is. */
  ghost predicate ShowsPath(fs: FS, o: Options, e: Entry) {
    && IsContent(e.name)
    && (InTree(e.name) ==> TreeIncluded(fs, e.name[0], o))
    && (e.node.File? ==> BackedUp(fs, o, PathOf(e.name, o)) && fs.files[PathOf(e.name, o)] == e.node.bytes)
    && (e.node.File? && InTree(e.name) ==> |e.name| > 1)
    && (e.node.Dir? ==> InTree(e.name) && PathOf(e.name, o) in fs.dirs)
  }

  ghost predicate Shows(fs: FS, o: Options, entries: seq<Entry>) {
    forall i :: 0 <= i < |entries| ==> ShowsPath(fs, o, entries[i])
  }

  /** Some file entry stands for the path. */
  ghost predicate Covers(entries: seq<Entry>, o: Options, p: Path) {
    exists i :: 0 <= i < |entries| && IsContent(entries[i].name) && entries[i].node.File? && PathOf(entries[i].name, o) == p
  }

  /** `addPathToTar`: a file that cannot be opened is an error. */
  method AddPath(fs: FS, o: Options, readable: Path -> bool, baseDir: Path, name: string, entries: seq<Entry>)
    returns (r: Option<seq<Entry>>)
    requires name == "server.yml" || name == "server.db" || name == "users.db"
    requires PathOf([name], o) == baseDir + [name] && Shows(fs, o, entries)
    ensures r.Some? <==> baseDir + [name] in fs.files && readable(baseDir + [name])
    ensures r.Some? ==> r.value == entries + [Entry([name], File(fs.files[baseDir + [name]]))]
    ensures r.Some? ==> Shows(fs, o, r.value) && entries <= r.value && Covers(r.value, o, baseDir + [name])
  {
    if baseDir + [name] !in fs.files || !readable(baseDir + [name]) { return None; }
    var e := Entry([name], File(fs.files[baseDir + [name]]));
    var all := entries + [e];
    assert all[|entries|] == e;
    return Some(all);
  }

  /** Whatever the walk of a tree meets can be read. */
  ghost predicate TreeReadable(fs: FS, o: Options, readable: Path -> bool, root: string) {
    (forall p :: p in fs.files && UnderTree(p, root, o) ==> readable(p)) &&
    (forall p :: p in fs.dirs && TreeDir(root, o) <= p ==> readable(p))
  }

  /** `addDirToTar`: everything at and below the directory, in the order of the walk, which ends in an
      error at the first thing that cannot be read. */
  method AddTree(fs: FS, o: Options, readable: Path -> bool, root: string, entries: seq<Entry>)
    returns (r: Option<seq<Entry>>)
    requires TreeIncluded(fs, root, o) && Shows(fs, o, entries)
    ensures r.Some? ==>
      (|r.value| == |entries| + |set p | p in fs.dirs && TreeDir(root, o) <= p| + |set p | p in fs.files && TreeDir(root, o) < p|)
    ensures r.Some? <==> TreeReadable(fs, o, readable, root)
    ensures r.Some? ==> Shows(fs, o, r.value) && entries <= r.value && TreeDone(fs, o, root, r.value)
  {
    var dirs := AddTreeDirs(fs, o, readable, root, entries);
    if dirs.None? { return None; }
    r := AddTreeFiles(fs, o, readable, root, dirs.value);
  }

  method AddTreeDirs(fs: FS, o: Options, readable: Path -> bool, root: string, entries: seq<Entry>)
    returns (r: Option<seq<Entry>>)
    requires TreeIncluded(fs, root, o) && Shows(fs, o, entries)
    ensures r.Some? <==> forall p :: p in fs.dirs && TreeDir(root, o) <= p ==> readable(p)
    ensures r.Some? ==> Shows(fs, o, r.value) && entries <= r.value
    ensures r.Some? ==> |r.value| == |entries| + |set p | p in fs.dirs && TreeDir(root, o) <= p|
    ensures r.Some? ==>
      forall d :: d in fs.dirs && TreeDir(root, o) <= d ==> Entry(NameIn(root, d, o), Dir) in r.value
  {
    hide Shows, Covers;
    var all := entries;
    var dir := TreeDir(root, o);
    var todo := set p | p in fs.dirs && dir <= p;
    while todo != {}
      invariant Shows(fs, o, all) && entries <= all
      invariant |all| + |todo| == |entries| + |set p | p in fs.dirs && dir <= p|
      invariant forall p :: p in fs.dirs && dir <= p && p !in todo ==> readable(p) && Entry(NameIn(root, p, o), Dir) in all
      invariant forall p :: p in todo ==> p in fs.dirs && dir <= p
      decreases todo
    {
      var p :| p in todo;
      todo := todo - {p};
      if !readable(p) { return None; }
      var e := Entry([root] + p[|dir|..], Dir);
      TreePath(root, p, o);
      assert ShowsPath(fs, o, e);
      ShowsMore(fs, o, all, e);
      all := all + [e];
    }
    return Some(all);
  }

  method AddTreeFiles(fs: FS, o: Options, readable: Path -> bool, root: string, entries: seq<Entry>)
    returns (r: Option<seq<Entry>>)
    requires TreeIncluded(fs, root, o) && Shows(fs, o, entries)
    ensures r.Some? <==> forall p :: p in fs.files && UnderTree(p, root, o) ==> readable(p)
    ensures r.Some? ==> Shows(fs, o, r.value) && entries <= r.value
    ensures r.Some? ==> |r.value| == |entries| + |set p | p in fs.files && TreeDir(root, o) < p|
    ensures r.Some? ==> forall p :: p in fs.files && UnderTree(p, root, o) ==> Covers(r.value, o, p)
  {
    hide Shows, Covers;
    var all := entries;
    var dir := TreeDir(root, o);
    var todo := set p | p in fs.files && dir < p;
    while todo != {}
      invariant |all| + |todo| == |entries| + |set p | p in fs.files && dir < p|
      invariant Shows(fs, o, all) && entries <= all && todo <= fs.files.Keys && forall p :: p in todo ==> dir < p
      invariant forall p :: p in fs.files && dir < p && p !in todo ==> readable(p) && Covers(all, o, p)
      decreases todo
    {
      var p :| p in todo;
      todo := todo - {p};
      var e := Entry([root] + p[|dir|..], File(fs.files[p]));
      TreePath(root, p, o);
      assert UnderTree(p, root, o);
      if !readable(p) { return None; }
      assert ShowsPath(fs, o, e);
      ShowsMore(fs, o, all, e);
      CoversMore(all, e, o);
      all := all + [e];
    }
    return Some(all);
  }

  lemma TreePath(root: string, p: Path, o: Options)
    requires IsTree(root) && TreeDir(root, o) <= p
    ensures var name := [root] + p[|TreeDir(root, o)|..]; IsContent(name) && PathOf(name, o) == p
  {
    var name := [root] + p[|TreeDir(root, o)|..];
    assert name[1..] == p[|TreeDir(root, o)|..];
  }

  lemma ShowsMore(fs: FS, o: Options, entries: seq<Entry>, e: Entry)
    requires Shows(fs, o, entries) && ShowsPath(fs, o, e)
    ensures Shows(fs, o, entries + [e]) && e in entries + [e] && forall x :: x in entries ==> x in entries + [e]
  {
    hide ShowsPath;
  }

  lemma CoversMore(entries: seq<Entry>, e: Entry, o: Options)
    ensures forall p :: Covers(entries, o, p) ==> Covers(entries + [e], o, p)
    ensures IsContent(e.name) && e.node.File? ==> Covers(entries + [e], o, PathOf(e.name, o))
  {
    if IsContent(e.name) && e.node.File? {
      assert (entries + [e])[|entries|] == e;
    }
    forall p | Covers(entries, o, p) ensures Covers(entries + [e], o, p) {
      CoversPrefix(entries, entries + [e], o, p);
    }
  }

  lemma CoversPrefix(entries: seq<Entry>, all: seq<Entry>, o: Options, p: Path)
    requires entries <= all && Covers(entries, o, p)
    ensures Covers(all, o, p)
  {
    var i :| 0 <= i < |entries| && IsContent(entries[i].name) && entries[i].node.File? && PathOf(entries[i].name, o) == p;
    assert all[i] == entries[i];
  }

  method AddTreeIf(fs: FS, o: Options, readable: Path -> bool, root: string, entries: seq<Entry>)
    returns (r: Option<seq<Entry>>)
    requires IsTree(root) && Shows(fs, o, entries)
    ensures r.Some? <==> (TreeIncluded(fs, root, o) ==> TreeReadable(fs, o, readable, root))
    ensures r.Some? ==> Shows(fs, o, r.value) && entries <= r.value && TreeDone(fs, o, root, r.value)
  {
    if (root == "ssl" && !o.includeSSL) || (root == "data" && !o.includeData) { return Some(entries); }
    if TreeDir(root, o) !in fs.dirs { return Some(entries); }
    r := AddTree(fs, o, readable, root, entries);
  }

  /** The archive of a snapshot: it shows the snapshot, and covers every file and every directory to be
      backed up. */
  ghost predicate IsBackup(fs: FS, o: Options, entries: seq<Entry>) {
    Shows(fs, o, entries) && (forall p :: BackedUp(fs, o, p) ==> Covers(entries, o, p)) &&
    forall root, d :: TreeIncluded(fs, root, o) && d in fs.dirs && TreeDir(root, o) <= d ==>
      Entry(NameIn(root, d, o), Dir) in entries
  }

  /** Everything that is to be backed up can be read. */
  ghost predicate AllReadable(fs: FS, o: Options, readable: Path -> bool) {
    (forall p :: BackedUp(fs, o, p) ==> readable(p)) &&
    (forall root, p :: TreeIncluded(fs, root, o) && p in fs.dirs && TreeDir(root, o) <= p ==> readable(p))
  }

  /** That is, the three files and each tree that goes in. */
  lemma AllReadableParts(fs: FS, o: Options, readable: Path -> bool)
    ensures AllReadable(fs, o, readable) <==>
      && (o.configDir + ["server.yml"] in fs.files ==> readable(o.configDir + ["server.yml"]))
      && (o.dataDir + ["server.db"] in fs.files ==> readable(o.dataDir + ["server.db"]))
      && (o.dataDir + ["users.db"] in fs.files ==> readable(o.dataDir + ["users.db"]))
      && (forall root :: TreeIncluded(fs, root, o) ==> TreeReadable(fs, o, readable, root))
  {
  }

  /** `buildContentArchive`: the config and the database must be there; everything else is taken if
      it exists and is asked for. Whatever is to be taken must be readable. */
  method BuildContentArchive(fs: FS, o: Options, readable: Path -> bool) returns (r: Option<seq<Entry>>)
    ensures r.Some? <==>
      o.configDir + ["server.yml"] in fs.files && o.dataDir + ["server.db"] in fs.files && AllReadable(fs, o, readable)
    ensures r.Some? ==> IsBackup(fs, o, r.value)
  {
    AllReadableParts(fs, o, readable);
    hide Covers, Shows, UnderTree, AllReadable, TreeReadable, TreeDone;
    assert Shows(fs, o, []) by { NothingShows(fs, o); }
    r := AddPath(fs, o, readable, o.configDir, "server.yml", []);
    if r.None? { return; }
    ghost var a := r.value;
    r := AddPath(fs, o, readable, o.dataDir, "server.db", r.value);
    if r.None? { return; }
    ghost var b := r.value;
    if o.dataDir + ["users.db"] in fs.files {
      r := AddPath(fs, o, readable, o.dataDir, "users.db", r.value);
      if r.None? { return; }
    }
    ghost var c := r.value;
    var template := AddTreeIf(fs, o, readable, "template", r.value);
    if template.None? { return None; }
    var theme := AddTreeIf(fs, o, readable, "theme", template.value);
    if theme.None? { return None; }
    var ssl := AddTreeIf(fs, o, readable, "ssl", theme.value);
    if ssl.None? { return None; }
    r := AddTreeIf(fs, o, readable, "data", ssl.value);
    if r.Some? { AllCovered(fs, o, a, b, c, template.value, theme.value, ssl.value, r.value); }
  }

  lemma NothingShows(fs: FS, o: Options)
    ensures Shows(fs, o, [])
  {
  }

  /** What the stages cover, the last one covers. */
  lemma AllCovered(fs: FS, o: Options, a: seq<Entry>, b: seq<Entry>, c: seq<Entry>,
                   template: seq<Entry>, theme: seq<Entry>, ssl: seq<Entry>, data: seq<Entry>)
    requires a <= b <= c <= template <= theme <= ssl <= data
    requires Covers(a, o, o.configDir + ["server.yml"]) && Covers(b, o, o.dataDir + ["server.db"])
    requires o.dataDir + ["users.db"] in fs.files ==> Covers(c, o, o.dataDir + ["users.db"])
    requires TreeDone(fs, o, "template", template) && TreeDone(fs, o, "theme", theme)
    requires TreeDone(fs, o, "ssl", ssl) && TreeDone(fs, o, "data", data)
    ensures forall p :: BackedUp(fs, o, p) ==> Covers(data, o, p)
    ensures forall root, d :: TreeIncluded(fs, root, o) && d in fs.dirs && TreeDir(root, o) <= d ==>
      Entry(NameIn(root, d, o), Dir) in data
  {
    hide Covers, UnderTree;
    forall root, d | TreeIncluded(fs, root, o) && d in fs.dirs && TreeDir(root, o) <= d
      ensures Entry(NameIn(root, d, o), Dir) in data
    {
      var stage := if root == "template" then template else if root == "theme" then theme
                   else if root == "ssl" then ssl else data;
      assert TreeDone(fs, o, root, stage);
      assert stage <= data && Entry(NameIn(root, d, o), Dir) in stage;
    }
    forall p | BackedUp(fs, o, p) ensures Covers(data, o, p) {
      if p == o.configDir + ["server.yml"] {
        CoversPrefix(a, data, o, p);
      } else if p == o.dataDir + ["server.db"] {
        CoversPrefix(b, data, o, p);
      } else if p == o.dataDir + ["users.db"] {
        CoversPrefix(c, data, o, p);
      } else {
        var root :| TreeIncluded(fs, root, o) && UnderTree(p, root, o);
        var stage := if root == "template" then template else if root == "theme" then theme
                     else if root == "ssl" then ssl else data;
        assert TreeDone(fs, o, root, stage);
        CoversPrefix(stage, data, o, p);
      }
    }
  }

  ghost predicate TreeDone(fs: FS, o: Options, root: string, entries: seq<Entry>) {
    TreeIncluded(fs, root, o) ==>
      (forall d :: d in fs.dirs && TreeDir(root, o) <= d ==> Entry(NameIn(root, d, o), Dir) in entries) &&
      (forall p :: p in fs.files && UnderTree(p, root, o) ==> Covers(entries, o, p))
  }

  // ---------- the manifest ----------

  /** `buildFinalArchive`: the manifest first, then the content entries again. */
  function Final(manifest: string, content: seq<Entry>): seq<Entry> {
    [Entry(MANIFEST, File(manifest))] + content
  }

  /** The final archive begins with the manifest. */
  lemma FinalMeaning(manifest: string, content: seq<Entry>)
    ensures Final(manifest, content)[0] == Entry(["manifest.json"], File(manifest)) && Final(manifest, content)[1..] == content
  {
  }

  function WithoutManifest(entries: seq<Entry>): seq<Entry> {
    if entries == [] then []
    else (if entries[0].name == MANIFEST then [] else [entries[0]]) + WithoutManifest(entries[1..])
  }

  /** `rebuildContentArchive`: every entry but the manifest is streamed on. */
  method RebuildContent(entries: seq<Entry>) returns (r: seq<Entry>)
    ensures r == WithoutManifest(entries)
  {
    r := [];
    assert entries[0..] == entries;
    for i := 0 to |entries|
      invariant WithoutManifest(entries) == r + WithoutManifest(entries[i..])
    {
      assert entries[i..][1..] == entries[i + 1..];
      if entries[i].name == MANIFEST { continue; }
      r := r + [entries[i]];
    }
  }

  lemma {:induction false} ContentStays(content: seq<Entry>)
    requires forall i :: 0 <= i < |content| ==> content[i].name != MANIFEST
    ensures WithoutManifest(content) == content
  {
    if content != [] { ContentStays(content[1..]); }
  }

  /** Dropping the manifest from the final archive gives exactly the content entries in order, so the
      checksum taken of the content when the backup is made is found again when it is verified. */
  lemma RebuildIsContent(fs: FS, o: Options, content: seq<Entry>, manifest: string)
    requires Shows(fs, o, content)
    ensures WithoutManifest(Final(manifest, content)) == content
  {
    forall i | 0 <= i < |content| ensures content[i].name != MANIFEST {
      assert IsContent(content[i].name);
    }
    ContentStays(content);
    assert Final(manifest, content)[1..] == content;
  }
}
