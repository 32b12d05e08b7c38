/**
  `zipDirWithSwitches` and `skip`: the pre-order walk over the source folder
  that decides which folders and files become archive entries, with the
  per-folder cache of eligible file names.

  The folder is given as a tree of names, its state while the walk runs
  (the archive being written is already in it when it lies inside the
  source). Children are visited in the order the tree lists them, which
  stands for the order the directory stream returns them in.
*/
module Traversal {
  import opened Results
  import opened Strings
  import opened Switches
  import opened CommandParser
  import opened Paths
  import opened Glob

  datatype Node = File(name: string) | Folder(name: string, children: seq<Node>)

  /**
    An archive entry, by its path relative to the source folder; a folder
    entry's name ends in `/`, and the source folder itself is the entry `/`.
  */
  datatype Entry = FileEntry(rel: seq<string>) | FolderEntry(rel: seq<string>)

  /** The entry's name: `relativize(...).toString()` with `/` separators, plus `/` for a folder. */
  function EntryName(e: Entry): (r: string)
    ensures ValidEntry(e) ==> (EndsWith(r, [FileSeparator]) <==> e.FolderEntry?)
  {
    match e
    case FileEntry(rel) => (JoinEndsInName(rel); Join(rel, FileSeparator))
    case FolderEntry(rel) => Join(rel, FileSeparator) + [FileSeparator]
  }

  /** Joined names end in the last name, so not in a separator. */
  lemma JoinEndsInName(rel: seq<string>)
    ensures rel != [] && ValidPath(Path(false, rel)) ==> !EndsWith(Join(rel, FileSeparator), [FileSeparator])
  {
    if rel != [] && ValidPath(Path(false, rel)) {
      assert IsName(rel[|rel| - 1]);
      JoinLast(rel);
      assert !ContainsChar(Last(rel), FileSeparator);
    }
  }

  /** Reading an entry name back, as an unzip tool does. */
  function DecodeEntry(s: string): Entry {
    if s == [FileSeparator] then FolderEntry([])
    else if |s| >= 1 && s[|s| - 1] == FileSeparator then FolderEntry(Split(s[..|s| - 1], FileSeparator))
    else FileEntry(Split(s, FileSeparator))
  }

  /** Sibling names are distinct, all the way down, and each is a plain name. */
  predicate WellFormedTree(kids: seq<Node>) {
    && (forall i, j :: 0 <= i < j < |kids| ==> kids[i].name != kids[j].name)
    && (forall i :: 0 <= i < |kids| ==> IsName(kids[i].name))
    && (forall i :: 0 <= i < |kids| && kids[i].Folder? ==> WellFormedTree(kids[i].children))
  }

  /** The names of the regular files directly in a folder (`Files.list` + `isRegularFile`). */
  function Listing(kids: seq<Node>): (r: set<string>)
    ensures forall n :: n in r <==> exists i :: 0 <= i < |kids| && kids[i] == File(n)
  {
    set i | 0 <= i < |kids| && kids[i].File? :: kids[i].name
  }

  /** `p` leads from the folder with children `kids` to a folder with children `fk`. */
  predicate FolderIn(kids: seq<Node>, p: seq<string>, fk: seq<Node>)
    decreases |p|
  {
    if p == [] then fk == kids
    else exists i ::
      0 <= i < |kids| && kids[i].Folder? && kids[i].name == p[0] && FolderIn(kids[i].children, p[1..], fk)
  }

  // ---------------------------------------------------------------------------
  // The command's filters

  /** What the walk needs of the command: the defaults applied and every filter value a plain pattern. */
  predicate FilterReady(cmd: Command) {
    && DefaultsApplied(cmd)
    && PlainValues(cmd, Include) && PlainValues(cmd, Exclude)
    && PlainValues(cmd, DeepInclude) && PlainValues(cmd, DeepExclude)
  }

  /** Every value the command gives the filter switch `s` is a plain pattern. */
  predicate PlainValues(cmd: Command, s: Switch) {
    s in cmd ==> forall p | p in cmd[s] :: IsPlainPattern(p)
  }

  /** The switches that filter the folder at `rel`: the root filters for the source folder itself. */
  function IncludeSwitch(rel: seq<string>): Switch {
    if rel == [] then Include else DeepInclude
  }

  function ExcludeSwitch(rel: seq<string>): Switch {
    if rel == [] then Exclude else DeepExclude
  }

  /** `filter(folder, include, exclude)` for the folder at `rel` with children `kids`. */
  function Eligible(cmd: Command, rel: seq<string>, kids: seq<Node>): (r: set<string>)
    requires FilterReady(cmd) && (rel == [] || NoRecurse !in cmd)
    ensures r <= Listing(kids)
  {
    Filter(Listing(kids), cmd[IncludeSwitch(rel)], cmd[ExcludeSwitch(rel)])
  }

  // ---------------------------------------------------------------------------
  // The walk

  /**
    How a visited file is compared with the archive being written: as the
    program has it, by `Path.equals`; or by the file the two paths name.
  */
  datatype ArchiveCheck = SamePath | SameFile

  datatype Walk = Walk(cmd: Command, source: Path, archive: Path, cwd: Path, check: ArchiveCheck)

  predicate ValidWalk(w: Walk) {
    w.cwd.absolute && FilterReady(w.cmd)
  }

  /** The path of the entry at `rel` as the visitor receives it: `sourceDir` resolved by `rel`. */
  function Located(w: Walk, rel: seq<string>): Path {
    Resolve(w.source, Path(false, rel))
  }

  /** Is the file at `rel` the archive being written? */
  predicate IsArchive(w: Walk, rel: seq<string>)
    requires w.cwd.absolute
  {
    match w.check
    case SamePath => Located(w, rel) == w.archive
    case SameFile => Canonical(w.cwd, Located(w, rel)) == Canonical(w.cwd, w.archive)
  }

  /**
    Both checks recognise the archive's own path, and comparing by the file
    named recognises everything `Path.equals` does.
  */
  lemma ArchiveRecognised(w: Walk, rel: seq<string>)
    requires w.cwd.absolute
    ensures Located(w, rel) == w.archive ==> IsArchive(w, rel)
    ensures IsArchive(w.(check := SamePath), rel) ==> IsArchive(w.(check := SameFile), rel)
  {
  }

  /** `dirContentFiles`, keyed by the folder's path relative to the source. */
  type Cache = map<seq<string>, set<string>>

  /** The cache agrees with `filter` on the folder at `rel` (or does not know it yet). */
  predicate CachedRight(w: Walk, rel: seq<string>, kids: seq<Node>, cache: Cache)
    requires FilterReady(w.cmd) && (rel == [] || NoRecurse !in w.cmd)
  {
    rel in cache ==> cache[rel] == Eligible(w.cmd, rel, kids)
  }

  /** `skip(file)` for the file `n` of the folder at `rel`: the answer and the cache after it. */
  function Skip(w: Walk, rel: seq<string>, kids: seq<Node>, n: string, cache: Cache): (r: (bool, Cache))
    requires FilterReady(w.cmd) && (rel == [] || NoRecurse !in w.cmd)
    ensures CachedRight(w, rel, kids, cache) ==> (r.0 <==> n !in Eligible(w.cmd, rel, kids))
    ensures CachedRight(w, rel, kids, cache) ==> rel in r.1 && r.1[rel] == Eligible(w.cmd, rel, kids)
    ensures forall k | k in cache :: k in r.1 && r.1[k] == cache[k]
    ensures forall k | k in r.1 :: k in cache || k == rel
  {
    if rel in cache then (n !in cache[rel], cache)
    else
      var e := Eligible(w.cmd, rel, kids);
      (n !in e, cache[rel := e])
  }

  /**
    The folder `skip` looks up for the file `n` of the folder at `rel` is the
    file's parent: the folder at `rel` itself, which equals `sourceDir`
    exactly when `rel` is empty. That is why the model keys the cache and
    picks the root filters by `rel`. The one exception is a file directly in
    a source folder given as the empty path: it has no parent.
  */
  lemma SkipFolder(w: Walk, rel: seq<string>, n: string)
    ensures ParentPath(Located(w, rel + [n])) ==
      if w.source == Path(false, []) && rel == [] then None else Some(Located(w, rel))
    ensures Located(w, rel) == w.source <==> rel == []
  {
    var p := Located(w, rel + [n]);
    assert p.names == w.source.names + rel + [n];
    assert p.names[..|p.names| - 1] == w.source.names + rel;
    if Located(w, rel) == w.source {
      assert |w.source.names + rel| == |w.source.names|;
    }
  }

  /**
    As the program runs the walk, `skip` is reached by every file directly in
    the source folder that is not the archive; it throws when that file has
    no parent folder.
  */
  predicate ReachesNullParent(w: Walk, tree: seq<Node>)
    requires w.cwd.absolute
  {
    exists j :: 0 <= j < |tree| && tree[j].File? && !IsArchive(w, [tree[j].name]) &&
      ParentPath(Located(w, [tree[j].name])).None?
  }

  /** The walk reaches a file without a parent exactly when the source is the empty path and it holds a file not taken for the archive. */
  lemma NullParentIff(w: Walk, tree: seq<Node>)
    requires w.cwd.absolute
    ensures ReachesNullParent(w, tree) <==>
      w.source == Path(false, []) && exists j :: 0 <= j < |tree| && tree[j].File? && !IsArchive(w, [tree[j].name])
  {
    forall j | 0 <= j < |tree| && tree[j].File?
      ensures ParentPath(Located(w, [tree[j].name])).None? <==> w.source == Path(false, [])
    {
      SkipFolder(w, [], tree[j].name);
      assert [] + [tree[j].name] == [tree[j].name];
    }
  }

  /**
    The visitor over the children `kids[j..]` of the folder at `rel`: each
    file is checked against the archive and `skip`; each subfolder is
    skipped under no-recurse, and otherwise gets its entry and is walked.
  */
  function WalkNodes(w: Walk, rel: seq<string>, kids: seq<Node>, j: nat, cache: Cache): (r: (seq<Entry>, Cache))
    requires ValidWalk(w) && (rel == [] || NoRecurse !in w.cmd) && j <= |kids|
    ensures forall k | k in cache :: k in r.1 && r.1[k] == cache[k]
    ensures forall e | e in r.0 :: |e.rel| > |rel| && e.rel[..|rel|] == rel
    ensures NoRecurse in w.cmd ==> forall e | e in r.0 :: e.FileEntry? && |e.rel| == |rel| + 1
    ensures w.check == SameFile ==> forall e | e in r.0 && e.FileEntry? :: !IsArchive(w, e.rel)
    decreases kids, |kids| - j
  {
    if j == |kids| then ([], cache)
    else
      match kids[j]
      case File(n) =>
        var (here, c1) :=
          if IsArchive(w, rel + [n]) then ([], cache)
          else
            var (skipped, c) := Skip(w, rel, kids, n, cache);
            (if skipped then [] else [FileEntry(rel + [n])], c);
        var (more, c2) := WalkNodes(w, rel, kids, j + 1, c1);
        (here + more, c2)
      case Folder(n, ch) =>
        if NoRecurse in w.cmd then WalkNodes(w, rel, kids, j + 1, cache)
        else
          var (inner, c1) := WalkNodes(w, rel + [n], ch, 0, cache);
          var (more, c2) := WalkNodes(w, rel, kids, j + 1, c1);
          ([FolderEntry(rel + [n])] + inner + more, c2)
  }

  /** `zipDirWithSwitches`: the entries, in order, starting with the source folder's own. */
  function Archive(w: Walk, tree: seq<Node>): (r: seq<Entry>)
    requires ValidWalk(w)
    ensures |r| >= 1 && r[0] == FolderEntry([])
    ensures forall i | 1 <= i < |r| :: r[i].rel != []
    ensures NoRecurse in w.cmd ==> forall i | 1 <= i < |r| :: r[i].FileEntry? && |r[i].rel| == 1
  {
    [FolderEntry([])] + WalkNodes(w, [], tree, 0, map[]).0
  }

  /** The names the archive's entries get. */
  function ArchiveNames(w: Walk, tree: seq<Node>): (r: seq<string>)
    requires ValidWalk(w)
    ensures |r| == |Archive(w, tree)| && r[0] == "/"
  {
    var a := Archive(w, tree);
    seq(|a|, i requires 0 <= i < |a| => EntryName(a[i]))
  }

  // ---------------------------------------------------------------------------
  // The walk without the cache

  /** The same walk computing `filter` afresh for every file. */
  function WalkRef(w: Walk, rel: seq<string>, kids: seq<Node>, j: nat): (r: seq<Entry>)
    requires ValidWalk(w) && (rel == [] || NoRecurse !in w.cmd) && j <= |kids|
    decreases kids, |kids| - j, 1
  {
    if j == |kids| then [] else Visit(w, rel, kids, j) + WalkRef(w, rel, kids, j + 1)
  }

  /** What visiting the child `kids[j]` of the folder at `rel` adds. */
  function Visit(w: Walk, rel: seq<string>, kids: seq<Node>, j: nat): (r: seq<Entry>)
    requires ValidWalk(w) && (rel == [] || NoRecurse !in w.cmd) && j < |kids|
    decreases kids, |kids| - j, 0
  {
    match kids[j]
    case File(n) =>
      if IsArchive(w, rel + [n]) || n !in Eligible(w.cmd, rel, kids) then []
      else [FileEntry(rel + [n])]
    case Folder(n, ch) =>
      if NoRecurse in w.cmd then []
      else [FolderEntry(rel + [n])] + WalkRef(w, rel + [n], ch, 0)
  }

  // ---------------------------------------------------------------------------
  // The cache is transparent

  /** Every cached set is `filter` of a folder of the tree at that path. */
  ghost predicate CacheOk(w: Walk, tree: seq<Node>, cache: Cache)
    requires FilterReady(w.cmd)
  {
    forall k | k in cache ::
      && (k == [] || NoRecurse !in w.cmd)
      && exists fk :: FolderIn(tree, k, fk) && cache[k] == Eligible(w.cmd, k, fk)
  }

  /** In a well-formed tree a path leads to at most one folder. */
  lemma {:induction false} FolderInUnique(kids: seq<Node>, p: seq<string>, a: seq<Node>, b: seq<Node>)
    requires WellFormedTree(kids) && FolderIn(kids, p, a) && FolderIn(kids, p, b)
    ensures a == b
    decreases |p|
  {
    if p != [] {
      var i :| 0 <= i < |kids| && kids[i].Folder? && kids[i].name == p[0] && FolderIn(kids[i].children, p[1..], a);
      var j :| 0 <= j < |kids| && kids[j].Folder? && kids[j].name == p[0] && FolderIn(kids[j].children, p[1..], b);
      assert i == j;
      FolderInUnique(kids[i].children, p[1..], a, b);
    }
  }

  /** A subfolder of the folder at `rel` lies at `rel` extended by its name. */
  lemma {:induction false} FolderInChild(tree: seq<Node>, rel: seq<string>, kids: seq<Node>, j: nat)
    requires FolderIn(tree, rel, kids) && j < |kids| && kids[j].Folder?
    ensures FolderIn(tree, rel + [kids[j].name], kids[j].children)
    decreases |rel|
  {
    var q := rel + [kids[j].name];
    if rel == [] {
      assert q == [kids[j].name];
      assert FolderIn(kids[j].children, q[1..], kids[j].children);
    } else {
      var i :| 0 <= i < |tree| && tree[i].Folder? && tree[i].name == rel[0] && FolderIn(tree[i].children, rel[1..], kids);
      FolderInChild(tree[i].children, rel[1..], kids, j);
      assert q[1..] == rel[1..] + [kids[j].name];
    }
  }

  /**
    The cache changes nothing: walking with `dirContentFiles` gives the same
    entries as computing `filter` afresh for every file, and the cache stays
    right about every folder it holds.
  */
  lemma {:induction false} WalkCacheTransparent(
    w: Walk, tree: seq<Node>, rel: seq<string>, kids: seq<Node>, j: nat, cache: Cache)
    requires ValidWalk(w) && (rel == [] || NoRecurse !in w.cmd) && j <= |kids|
    requires WellFormedTree(tree) && FolderIn(tree, rel, kids) && CacheOk(w, tree, cache)
    ensures WalkNodes(w, rel, kids, j, cache).0 == WalkRef(w, rel, kids, j)
    ensures CacheOk(w, tree, WalkNodes(w, rel, kids, j, cache).1)
    decreases kids, |kids| - j, 1
  {
    if j < |kids| {
      if kids[j].File? {
        TransparentAtFile(w, tree, rel, kids, j, cache);
      } else {
        TransparentAtFolder(w, tree, rel, kids, j, cache);
      }
    }
  }

  /** A cache that is right about the tree is right about the folder at `rel`. */
  lemma CacheOkHere(w: Walk, tree: seq<Node>, rel: seq<string>, kids: seq<Node>, cache: Cache)
    requires ValidWalk(w) && (rel == [] || NoRecurse !in w.cmd)
    requires WellFormedTree(tree) && FolderIn(tree, rel, kids) && CacheOk(w, tree, cache)
    ensures CachedRight(w, rel, kids, cache)
  {
    if rel in cache {
      var fk :| FolderIn(tree, rel, fk) && cache[rel] == Eligible(w.cmd, rel, fk);
      FolderInUnique(tree, rel, fk, kids);
    }
  }

  /** `skip` keeps a right cache right. */
  lemma SkipKeepsCacheOk(w: Walk, tree: seq<Node>, rel: seq<string>, kids: seq<Node>, n: string, cache: Cache)
    requires ValidWalk(w) && (rel == [] || NoRecurse !in w.cmd)
    requires WellFormedTree(tree) && FolderIn(tree, rel, kids) && CacheOk(w, tree, cache)
    ensures CacheOk(w, tree, Skip(w, rel, kids, n, cache).1)
    ensures Skip(w, rel, kids, n, cache).0 <==> n !in Eligible(w.cmd, rel, kids)
  {
    CacheOkHere(w, tree, rel, kids, cache);
    var c := Skip(w, rel, kids, n, cache).1;
    forall k | k in c
      ensures exists fk :: FolderIn(tree, k, fk) && c[k] == Eligible(w.cmd, k, fk)
    {
      if k == rel {
        assert FolderIn(tree, k, kids) && c[k] == Eligible(w.cmd, k, kids);
      } else {
        assert k in cache && c[k] == cache[k];
      }
    }
  }

  lemma {:induction false} TransparentAtFile(
    w: Walk, tree: seq<Node>, rel: seq<string>, kids: seq<Node>, j: nat, cache: Cache)
    requires ValidWalk(w) && (rel == [] || NoRecurse !in w.cmd) && j < |kids| && kids[j].File?
    requires WellFormedTree(tree) && FolderIn(tree, rel, kids) && CacheOk(w, tree, cache)
    ensures WalkNodes(w, rel, kids, j, cache).0 == WalkRef(w, rel, kids, j)
    ensures CacheOk(w, tree, WalkNodes(w, rel, kids, j, cache).1)
    decreases kids, |kids| - j, 0
  {
    var n := kids[j].name;
    var c1 := if IsArchive(w, rel + [n]) then cache else Skip(w, rel, kids, n, cache).1;
    if !IsArchive(w, rel + [n]) {
      SkipKeepsCacheOk(w, tree, rel, kids, n, cache);
    }
    WalkCacheTransparent(w, tree, rel, kids, j + 1, c1);
  }

  lemma {:induction false} TransparentAtFolder(
    w: Walk, tree: seq<Node>, rel: seq<string>, kids: seq<Node>, j: nat, cache: Cache)
    requires ValidWalk(w) && (rel == [] || NoRecurse !in w.cmd) && j < |kids| && kids[j].Folder?
    requires WellFormedTree(tree) && FolderIn(tree, rel, kids) && CacheOk(w, tree, cache)
    ensures WalkNodes(w, rel, kids, j, cache).0 == WalkRef(w, rel, kids, j)
    ensures CacheOk(w, tree, WalkNodes(w, rel, kids, j, cache).1)
    decreases kids, |kids| - j, 0
  {
    var n := kids[j].name;
    var ch := kids[j].children;
    if NoRecurse in w.cmd {
      WalkCacheTransparent(w, tree, rel, kids, j + 1, cache);
    } else {
      FolderInChild(tree, rel, kids, j);
      WalkCacheTransparent(w, tree, rel + [n], ch, 0, cache);
      var c1 := WalkNodes(w, rel + [n], ch, 0, cache).1;
      WalkCacheTransparent(w, tree, rel, kids, j + 1, c1);
    }
  }

  // ---------------------------------------------------------------------------
  // Which entries the archive holds

  /** The reference walk is the concatenation of its visits. */
  lemma RefMembers(w: Walk, rel: seq<string>, kids: seq<Node>, j: nat, e: Entry)
    requires ValidWalk(w) && (rel == [] || NoRecurse !in w.cmd) && j <= |kids|
    ensures e in WalkRef(w, rel, kids, j) <==> exists i :: j <= i < |kids| && e in Visit(w, rel, kids, i)
  {
    RefMembersSound(w, rel, kids, j, e);
    RefMembersComplete(w, rel, kids, j, e);
  }

  lemma {:induction false} RefMembersSound(w: Walk, rel: seq<string>, kids: seq<Node>, j: nat, e: Entry)
    requires ValidWalk(w) && (rel == [] || NoRecurse !in w.cmd) && j <= |kids|
    ensures e in WalkRef(w, rel, kids, j) ==> exists i :: j <= i < |kids| && e in Visit(w, rel, kids, i)
    decreases |kids| - j
  {
    if j < |kids| {
      RefMembersSound(w, rel, kids, j + 1, e);
      assert WalkRef(w, rel, kids, j) == Visit(w, rel, kids, j) + WalkRef(w, rel, kids, j + 1);
    }
  }

  lemma {:induction false} RefMembersComplete(w: Walk, rel: seq<string>, kids: seq<Node>, j: nat, e: Entry)
    requires ValidWalk(w) && (rel == [] || NoRecurse !in w.cmd) && j <= |kids|
    ensures (exists i :: j <= i < |kids| && e in Visit(w, rel, kids, i)) ==> e in WalkRef(w, rel, kids, j)
    decreases |kids| - j
  {
    if j < |kids| {
      RefMembersComplete(w, rel, kids, j + 1, e);
      var here := Visit(w, rel, kids, j);
      var rest := WalkRef(w, rel, kids, j + 1);
      assert WalkRef(w, rel, kids, j) == here + rest;
      if exists i :: j <= i < |kids| && e in Visit(w, rel, kids, i) {
        var i :| j <= i < |kids| && e in Visit(w, rel, kids, i);
        if i == j {
          assert e in here;
          assert e in here + rest;
        } else {
          assert e in rest;
        }
      }
    }
  }

  /** `q` lies strictly below `rel`. */
  predicate Below(rel: seq<string>, q: seq<string>) {
    |q| > |rel| && q[..|rel|] == rel
  }

  /** Every entry of the reference walk lies below the folder walked. */
  lemma {:induction false} RefBelow(w: Walk, rel: seq<string>, kids: seq<Node>, j: nat, e: Entry)
    requires ValidWalk(w) && (rel == [] || NoRecurse !in w.cmd) && j <= |kids|
    requires e in WalkRef(w, rel, kids, j)
    ensures Below(rel, e.rel)
    decreases kids, |kids| - j
  {
    RefMembersSound(w, rel, kids, j, e);
    var i :| j <= i < |kids| && e in Visit(w, rel, kids, i);
    match kids[i]
    case File(n) =>
    case Folder(n, ch) =>
      if e != FolderEntry(rel + [n]) {
        RefBelow(w, rel + [n], ch, 0, e);
        assert e.rel[..|rel|] == e.rel[..|rel| + 1][..|rel|];
      }
  }

  function Parent(r: seq<string>): seq<string>
    requires |r| >= 1
  {
    r[..|r| - 1]
  }

  function Last(r: seq<string>): string
    requires |r| >= 1
  {
    r[|r| - 1]
  }

  /**
    The file at `r` below the folder at `rel` is archived: it lies in a
    folder the walk enters, it is not the archive, and `filter` of its
    folder keeps its name.
  */
  ghost predicate FileSelected(w: Walk, rel: seq<string>, kids: seq<Node>, r: seq<string>)
    requires ValidWalk(w) && (rel == [] || NoRecurse !in w.cmd)
  {
    && |r| >= 1
    && (|r| == 1 || NoRecurse !in w.cmd)
    && !IsArchive(w, rel + r)
    && exists fk :: FolderIn(kids, Parent(r), fk) && Last(r) in Eligible(w.cmd, rel + Parent(r), fk)
  }

  /** The folder at `r` below the current one gets an entry: recursion is on and the folder exists. */
  ghost predicate FolderSelected(w: Walk, kids: seq<Node>, r: seq<string>) {
    |r| >= 1 && NoRecurse !in w.cmd && exists fk :: FolderIn(kids, r, fk)
  }

  lemma {:induction false} FileMembers(w: Walk, rel: seq<string>, kids: seq<Node>, r: seq<string>)
    requires ValidWalk(w) && (rel == [] || NoRecurse !in w.cmd)
    ensures FileEntry(rel + r) in WalkRef(w, rel, kids, 0) <==> FileSelected(w, rel, kids, r)
    decreases kids, 1
  {
    var e := FileEntry(rel + r);
    RefMembers(w, rel, kids, 0, e);
    if e in WalkRef(w, rel, kids, 0) {
      var i :| 0 <= i < |kids| && e in Visit(w, rel, kids, i);
      FileFromChild(w, rel, kids, r, i);
    }
    if FileSelected(w, rel, kids, r) {
      var i := ChildOfFile(w, rel, kids, r);
    }
  }

  /** A file entry that visiting a child adds is selected. */
  lemma {:induction false} FileFromChild(w: Walk, rel: seq<string>, kids: seq<Node>, r: seq<string>, i: nat)
    requires ValidWalk(w) && (rel == [] || NoRecurse !in w.cmd) && i < |kids|
    requires FileEntry(rel + r) in Visit(w, rel, kids, i)
    ensures FileSelected(w, rel, kids, r)
    decreases kids, 0
  {
    assert r == (rel + r)[|rel|..];
    match kids[i]
    case File(n) =>
      assert r == [n];
      assert Parent(r) == [] && rel + Parent(r) == rel;
      assert FolderIn(kids, Parent(r), kids);
    case Folder(n, ch) =>
      RefBelow(w, rel + [n], ch, 0, FileEntry(rel + r));
      var r' := r[1..];
      assert rel + r == (rel + [n]) + r' by {
        assert (rel + r)[..|rel| + 1] == rel + [n];
      }
      FileMembers(w, rel + [n], ch, r');
      var fk :| FolderIn(ch, Parent(r'), fk) && Last(r') in Eligible(w.cmd, rel + [n] + Parent(r'), fk);
      assert Parent(r) == [n] + Parent(r');
      assert FolderIn(kids, Parent(r), fk) by {
        assert Parent(r)[1..] == Parent(r');
      }
      assert rel + Parent(r) == rel + [n] + Parent(r');
  }

  /** A selected file is added by visiting one of the children. */
  lemma {:induction false} ChildOfFile(w: Walk, rel: seq<string>, kids: seq<Node>, r: seq<string>) returns (i: nat)
    requires ValidWalk(w) && (rel == [] || NoRecurse !in w.cmd)
    requires FileSelected(w, rel, kids, r)
    ensures i < |kids| && FileEntry(rel + r) in Visit(w, rel, kids, i)
    decreases kids, 0
  {
    var fk :| FolderIn(kids, Parent(r), fk) && Last(r) in Eligible(w.cmd, rel + Parent(r), fk);
    if |r| == 1 {
      assert Parent(r) == [] && rel + Parent(r) == rel;
      assert fk == kids;
      assert r == [Last(r)];
      i :| 0 <= i < |kids| && kids[i] == File(Last(r));
    } else {
      var p := Parent(r);
      i :| 0 <= i < |kids| && kids[i].Folder? && kids[i].name == p[0] && FolderIn(kids[i].children, p[1..], fk);
      var n := r[0];
      var ch := kids[i].children;
      var r' := r[1..];
      assert p[1..] == Parent(r');
      assert rel + r == (rel + [n]) + r';
      assert rel + p == rel + [n] + Parent(r');
      assert FileSelected(w, rel + [n], ch, r');
      FileMembers(w, rel + [n], ch, r');
    }
  }

  lemma {:induction false} FolderMembers(w: Walk, rel: seq<string>, kids: seq<Node>, r: seq<string>)
    requires ValidWalk(w) && (rel == [] || NoRecurse !in w.cmd)
    ensures FolderEntry(rel + r) in WalkRef(w, rel, kids, 0) <==> FolderSelected(w, kids, r)
    decreases kids, 1
  {
    var e := FolderEntry(rel + r);
    RefMembers(w, rel, kids, 0, e);
    if e in WalkRef(w, rel, kids, 0) {
      var i :| 0 <= i < |kids| && e in Visit(w, rel, kids, i);
      FolderFromChild(w, rel, kids, r, i);
    }
    if FolderSelected(w, kids, r) {
      var i := ChildOfFolder(w, rel, kids, r);
    }
  }

  /** A folder entry that visiting a child adds is selected. */
  lemma {:induction false} FolderFromChild(w: Walk, rel: seq<string>, kids: seq<Node>, r: seq<string>, i: nat)
    requires ValidWalk(w) && (rel == [] || NoRecurse !in w.cmd) && i < |kids|
    requires FolderEntry(rel + r) in Visit(w, rel, kids, i)
    ensures FolderSelected(w, kids, r)
    decreases kids, 0
  {
    assert r == (rel + r)[|rel|..];
    match kids[i]
    case Folder(n, ch) =>
      if FolderEntry(rel + r) == FolderEntry(rel + [n]) {
        assert r == [n];
        assert FolderIn(ch, r[1..], ch);
        assert FolderIn(kids, r, ch);
      } else {
        RefBelow(w, rel + [n], ch, 0, FolderEntry(rel + r));
        var r' := r[1..];
        assert rel + r == (rel + [n]) + r' by {
          assert (rel + r)[..|rel| + 1] == rel + [n];
        }
        FolderMembers(w, rel + [n], ch, r');
        var fk :| FolderIn(ch, r', fk);
        assert FolderIn(kids, r, fk);
      }
  }

  /** A selected folder is added by visiting one of the children. */
  lemma {:induction false} ChildOfFolder(w: Walk, rel: seq<string>, kids: seq<Node>, r: seq<string>) returns (i: nat)
    requires ValidWalk(w) && (rel == [] || NoRecurse !in w.cmd)
    requires FolderSelected(w, kids, r)
    ensures i < |kids| && FolderEntry(rel + r) in Visit(w, rel, kids, i)
    decreases kids, 0
  {
    var fk :| FolderIn(kids, r, fk);
    i :| 0 <= i < |kids| && kids[i].Folder? && kids[i].name == r[0] && FolderIn(kids[i].children, r[1..], fk);
    var n := r[0];
    var ch := kids[i].children;
    var r' := r[1..];
    assert rel + r == (rel + [n]) + r';
    if |r| == 1 {
      assert r == [n];
    } else {
      assert FolderSelected(w, ch, r');
      FolderMembers(w, rel + [n], ch, r');
    }
  }

  // ---------------------------------------------------------------------------
  // The archive

  /**
    What the archive of `tree` holds: the source folder's own entry, an entry
    for every folder below it when the walk recurses, and every file that lies
    in a folder the walk enters, is not the archive, and passes its folder's
    filters.
  */
  ghost predicate Archived(w: Walk, tree: seq<Node>, e: Entry)
    requires ValidWalk(w)
  {
    match e
    case FolderEntry(r) => r == [] || FolderSelected(w, tree, r)
    case FileEntry(r) => FileSelected(w, [], tree, r)
  }

  /** The archive holds exactly the selected entries. */
  lemma ArchiveContents(w: Walk, tree: seq<Node>, e: Entry)
    requires ValidWalk(w) && WellFormedTree(tree)
    ensures e in Archive(w, tree) <==> Archived(w, tree, e)
  {
    assert FolderIn(tree, [], tree);
    WalkCacheTransparent(w, tree, [], tree, 0, map[]);
    assert [] + e.rel == e.rel;
    if e.FileEntry? {
      FileMembers(w, [], tree, e.rel);
    } else {
      FolderMembers(w, [], tree, e.rel);
    }
  }

  /** `filter` keeps a name of the folder at `rel` exactly when its include and exclude switches say so. */
  lemma EligibleMembers(cmd: Command, rel: seq<string>, kids: seq<Node>, n: string)
    requires FilterReady(cmd) && (rel == [] || NoRecurse !in cmd)
    ensures n in Eligible(cmd, rel, kids) <==>
      && File(n) in kids
      && (cmd[IncludeSwitch(rel)] == IncludeDefault || AnyMatches(cmd[IncludeSwitch(rel)], n))
      && !AnyMatches(cmd[ExcludeSwitch(rel)], n)
  {
    FilterMembers(Listing(kids), cmd[IncludeSwitch(rel)], cmd[ExcludeSwitch(rel)], n);
    if File(n) in kids {
      var i :| 0 <= i < |kids| && kids[i] == File(n);
    }
  }

  lemma RootSelected(w: Walk, tree: seq<Node>, n: string)
    requires ValidWalk(w)
    ensures FileSelected(w, [], tree, [n]) <==> !IsArchive(w, [n]) && n in Eligible(w.cmd, [], tree)
  {
    var r := [n];
    assert Parent(r) == [] && Last(r) == n && [] + Parent(r) == [] && [] + r == r;
    assert FolderIn(tree, [], tree);
  }

  /** A file in the source folder itself is archived by the root filters alone. */
  lemma RootFiles(w: Walk, tree: seq<Node>, n: string)
    requires ValidWalk(w) && WellFormedTree(tree)
    ensures FileEntry([n]) in Archive(w, tree) <==>
      && File(n) in tree
      && !IsArchive(w, [n])
      && (w.cmd[Include] == IncludeDefault || AnyMatches(w.cmd[Include], n))
      && !AnyMatches(w.cmd[Exclude], n)
  {
    ArchiveContents(w, tree, FileEntry([n]));
    RootSelected(w, tree, n);
    EligibleMembers(w.cmd, [], tree, n);
  }

  lemma DeepSelected(w: Walk, tree: seq<Node>, r: seq<string>)
    requires ValidWalk(w) && |r| >= 2
    ensures FileSelected(w, [], tree, r) <==>
      && NoRecurse !in w.cmd
      && !IsArchive(w, r)
      && exists fk :: FolderIn(tree, Parent(r), fk) && Last(r) in Eligible(w.cmd, Parent(r), fk)
  {
    assert [] + Parent(r) == Parent(r) && [] + r == r;
  }

  /**
    A file further down is archived only when the walk recurses, and then by
    the deep filters of its own folder alone.
  */
  lemma DeepFiles(w: Walk, tree: seq<Node>, r: seq<string>)
    requires ValidWalk(w) && WellFormedTree(tree) && |r| >= 2
    ensures FileEntry(r) in Archive(w, tree) <==>
      && NoRecurse !in w.cmd
      && !IsArchive(w, r)
      && (exists fk :: FolderIn(tree, Parent(r), fk) && File(Last(r)) in fk)
      && (w.cmd[DeepInclude] == IncludeDefault || AnyMatches(w.cmd[DeepInclude], Last(r)))
      && !AnyMatches(w.cmd[DeepExclude], Last(r))
  {
    ArchiveContents(w, tree, FileEntry(r));
    DeepSelected(w, tree, r);
    if NoRecurse !in w.cmd {
      forall fk ensures Last(r) in Eligible(w.cmd, Parent(r), fk) <==>
        && File(Last(r)) in fk
        && (w.cmd[DeepInclude] == IncludeDefault || AnyMatches(w.cmd[DeepInclude], Last(r)))
        && !AnyMatches(w.cmd[DeepExclude], Last(r))
      {
        EligibleMembers(w.cmd, Parent(r), fk, Last(r));
      }
    }
  }

  /** Under no-recurse the archive holds the source folder and some of its own files, nothing else. */
  lemma NoRecurseFlat(w: Walk, tree: seq<Node>, e: Entry)
    requires ValidWalk(w) && WellFormedTree(tree) && NoRecurse in w.cmd
    ensures e in Archive(w, tree) ==> e == FolderEntry([]) || (e.FileEntry? && |e.rel| == 1)
  {
    ArchiveContents(w, tree, e);
  }

  // ---------------------------------------------------------------------------
  // Entry names

  /** An entry whose path consists of names; a file entry is never the source folder itself. */
  predicate ValidEntry(e: Entry) {
    && ValidPath(Path(false, e.rel))
    && (e.FileEntry? ==> e.rel != [])
  }

  lemma {:induction false} JoinLast(parts: seq<string>)
    requires |parts| >= 1 && parts[|parts| - 1] != []
    ensures |Join(parts, FileSeparator)| >= 1
    ensures Join(parts, FileSeparator)[|Join(parts, FileSeparator)| - 1] == Last(parts)[|Last(parts)| - 1]
  {
    if |parts| > 1 {
      JoinLast(parts[1..]);
      assert parts[1..][|parts[1..]| - 1] == parts[|parts| - 1];
    }
  }

  /** Reading an entry name back gives the entry: the names the walk writes are unambiguous. */
  lemma EntryNameRoundTrip(e: Entry)
    requires ValidEntry(e)
    ensures DecodeEntry(EntryName(e)) == e
  {
    var j := Join(e.rel, FileSeparator);
    if e.rel != [] {
      assert IsName(e.rel[0]) && IsName(e.rel[|e.rel| - 1]);
      SplitJoin(e.rel, FileSeparator);
      JoinLast(e.rel);
      assert !ContainsChar(Last(e.rel), FileSeparator);
      if e.FolderEntry? {
        var s := j + [FileSeparator];
        assert s[..|s| - 1] == j;
        assert s != [FileSeparator] by {
          assert |j| >= 1;
        }
      }
    }
  }

  /** A selected entry of a well-formed tree is valid. */
  lemma ArchivedValid(w: Walk, tree: seq<Node>, e: Entry)
    requires ValidWalk(w) && WellFormedTree(tree) && Archived(w, tree, e)
    ensures ValidEntry(e)
  {
    if e.FolderEntry? && e.rel != [] {
      var fk :| FolderIn(tree, e.rel, fk);
      FolderInNames(tree, e.rel, fk);
    } else if e.FileEntry? {
      assert [] + Parent(e.rel) == Parent(e.rel);
      var fk :| FolderIn(tree, Parent(e.rel), fk) && Last(e.rel) in Eligible(w.cmd, Parent(e.rel), fk);
      FolderInNames(tree, Parent(e.rel), fk);
      var k :| 0 <= k < |fk| && fk[k] == File(Last(e.rel));
      assert e.rel == Parent(e.rel) + [Last(e.rel)];
    }
  }

  /** Every entry of the archive is valid, so its name reads back as the entry. */
  lemma ArchiveNamesDecode(w: Walk, tree: seq<Node>, i: nat)
    requires ValidWalk(w) && WellFormedTree(tree) && i < |Archive(w, tree)|
    ensures DecodeEntry(ArchiveNames(w, tree)[i]) == Archive(w, tree)[i]
  {
    var e := Archive(w, tree)[i];
    ArchiveContents(w, tree, e);
    ArchivedValid(w, tree, e);
    EntryNameRoundTrip(e);
  }

  /** A path that leads to a folder of a well-formed tree consists of names. */
  lemma {:induction false} FolderInNames(kids: seq<Node>, p: seq<string>, fk: seq<Node>)
    requires WellFormedTree(kids) && FolderIn(kids, p, fk)
    ensures ValidPath(Path(false, p)) && WellFormedTree(fk)
    decreases |p|
  {
    if p != [] {
      var i :| 0 <= i < |kids| && kids[i].Folder? && kids[i].name == p[0] && FolderIn(kids[i].children, p[1..], fk);
      FolderInNames(kids[i].children, p[1..], fk);
      assert p == [p[0]] + p[1..];
    }
  }
}
