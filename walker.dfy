/**
 * The path classifier and tree walker of file/file.go: the visit callback that
 * filepath.Walk calls on every entry, and CollectFiles, which walks a root with it.
 */
module Walker {
  import opened Wrappers
  import opened GoLib
  import opened Model
  import opened Disk
  import opened Dates
  import ArrayUtils

  // ---------------------------------------------------------------- classifier

  /** A directory is pruned when its lower-cased path contains some lower-cased excluded entry. */
  predicate Excluded(config: CollectFilesConfig, path: string) {
    exists i :: 0 <= i < |config.excludedDirs| && Contains(ToLower(path), ToLower(config.excludedDirs[i]))
  }

  /** A file is kept when its lower-cased extension equals an allow-list entry exactly. */
  predicate Supported(config: CollectFilesConfig, path: string) {
    ToLower(Ext(path)) in config.supportedExtensions
  }

  /**
   * The allow-list is compared as given: an entry with an upper-case letter
   * (".JPG") never matches, because the extension it is compared with is lower-cased.
   */
  lemma UpperCaseEntryNeverMatches(path: string, entry: string)
    requires !IsLower(entry)
    ensures ToLower(Ext(path)) != entry
  {
    ToLowerIsLower(Ext(path));
  }

  // ---------------------------------------------------------------- what a walk yields

  /**
   * The entries collected, in the order they were appended, and the path of the
   * entry whose read error made visit call log.Fatal, if the walk met one.
   */
  datatype Walked = Walked(files: seq<FileInfo>, fatalAt: Option<string>)

  const Nothing := Walked([], None)

  /** One part of a walk followed by the next; after a fatal error nothing more happens. */
  function Then(a: Walked, b: Walked): (r: Walked)
    ensures a.fatalAt.Some? ==> r == a
    ensures a.fatalAt.None? ==> r.files == a.files + b.files && r.fatalAt == b.fatalAt
  {
    if a.fatalAt.Some? then a else Walked(a.files + b.files, b.fatalAt)
  }

  /** Regrouping the collected slices of WalkEntries, kept apart from the walk's own terms. */
  lemma AppendAssociative<T>(a: seq<T>, b: seq<T>, c: seq<T>)
    ensures a + b + c == a + (b + c)
  {
  }

  lemma ThenAssociative(a: Walked, b: Walked, c: Walked)
    ensures Then(Then(a, b), c) == Then(a, Then(b, c))
  {
  }

  /**
   * The walk of one entry at path: filepath.Walk's pre-order traversal with visit
   * as its callback, written as a function.
   */
  function WalkNode(config: CollectFilesConfig, path: string, node: Node): Walked
    decreases node
  {
    match node
    case Unreadable(_) => Walked([], Some(path))
    case File(_, t) => Walked(if Supported(config, path) then [FileInfo(path, t)] else [], None)
    case Dir(_, cs) => if Excluded(config, path) then Nothing else WalkChildren(config, path, cs)
  }

  function WalkChildren(config: CollectFilesConfig, dir: string, cs: seq<Node>): Walked
    decreases cs
  {
    if cs == [] then Nothing
    else Then(WalkNode(config, Join(dir, cs[0].name), cs[0]), WalkChildren(config, dir, cs[1..]))
  }

  lemma WalkDir(config: CollectFilesConfig, path: string, node: Node)
    requires node.Dir? && !Excluded(config, path)
    ensures WalkNode(config, path, node) == WalkChildren(config, path, node.children)
  {
  }

  // ---------------------------------------------------------------- visit and the walk

  /** visit's answer to filepath.Walk: nil, filepath.SkipDir, or log.Fatal, which ends the process. */
  datatype Signal = Continue | SkipDir | Fatal(path: string)

  /**
   * The closure visit(files, config) returns: it captures the configuration and the
   * caller's slice, which it grows in place.
   */
  class Collector {
    const config: CollectFilesConfig
    var files: seq<FileInfo>

    constructor (config: CollectFilesConfig, files: seq<FileInfo>)
      ensures this.config == config && this.files == files
    {
      this.config := config;
      this.files := files;
    }

    /** The body of the callback, called with an entry's path and what Lstat found there. */
    method Visit(path: string, entry: Node) returns (signal: Signal)
      modifies this
      ensures entry.Unreadable? ==> signal == Fatal(path) && files == old(files)
      ensures entry.Dir? ==> files == old(files) && signal == (if Excluded(config, path) then SkipDir else Continue)
      ensures entry.File? ==> signal == Continue
      ensures entry.File? ==> files == old(files) + (if Supported(config, path) then [FileInfo(path, entry.modTime)] else [])
    {
      if entry.Unreadable? {
        return Fatal(path);
      }
      if entry.Dir? {
        var i := 0;
        while i < |config.excludedDirs|
          invariant 0 <= i <= |config.excludedDirs|
          invariant forall j :: 0 <= j < i ==> !Contains(ToLower(path), ToLower(config.excludedDirs[j]))
        {
          if Contains(ToLower(path), ToLower(config.excludedDirs[i])) {
            return SkipDir;
          }
          i := i + 1;
        }
      }
      var supported := ArrayUtils.ItemExists(config.supportedExtensions, ToLower(Ext(path)));
      if !supported || entry.Dir? {
        return Continue;
      }
      files := files + [FileInfo(path, entry.modTime)];
      return Continue;
    }

    /** filepath.walk: visit the entry, then, for a directory visit did not skip, its children. */
    method Walk(path: string, node: Node) returns (signal: Signal)
      modifies this
      decreases node, 1
      ensures files == old(files) + WalkNode(config, path, node).files
      ensures signal.Fatal? <==> WalkNode(config, path, node).fatalAt.Some?
      ensures signal.Fatal? ==> WalkNode(config, path, node).fatalAt == Some(signal.path)
      ensures signal == SkipDir <==> node.Dir? && Excluded(config, path)
    {
      signal := Visit(path, node);
      if !node.Dir? || signal != Continue {
        return;
      }
      WalkDir(config, path, node);
      signal := WalkEntries(path, node.children);
    }

    /**
     * filepath.walk's loop over a directory's entries, written as recursion on the
     * remaining entries: the first child is walked, then the rest; a SkipDir from a
     * child directory only skips that child, and any other error ends the walk of the list.
     */
    method WalkEntries(dir: string, cs: seq<Node>) returns (signal: Signal)
      modifies this
      decreases cs, 0
      ensures files == old(files) + WalkChildren(config, dir, cs).files
      ensures signal.Fatal? <==> WalkChildren(config, dir, cs).fatalAt.Some?
      ensures signal.Fatal? ==> WalkChildren(config, dir, cs).fatalAt == Some(signal.path)
      ensures !signal.Fatal? ==> signal == Continue
    {
      if cs == [] {
        assert files + [] == files;
        return Continue;
      }
      ghost var first := WalkNode(config, Join(dir, cs[0].name), cs[0]);
      ghost var rest := WalkChildren(config, dir, cs[1..]);
      assert WalkChildren(config, dir, cs) == Then(first, rest);
      var s := Walk(Join(dir, cs[0].name), cs[0]);
      if s != Continue && (!cs[0].Dir? || s != SkipDir) {
        assert s.Fatal? && first.fatalAt.Some?;
        assert WalkChildren(config, dir, cs) == first;
        return s;
      }
      assert first.fatalAt.None?;
      ghost var mid := files;
      assert mid == old(files) + first.files;
      signal := WalkEntries(dir, cs[1..]);
      assert files == mid + rest.files;
      assert WalkChildren(config, dir, cs).files == first.files + rest.files;
      AppendAssociative(old(files), first.files, rest.files);
    }

    /**
     * CollectFiles(rootDir, &files, config): walks rootDir and appends what visit keeps.
     * filepath.Walk turns a SkipDir of the root into nil; a fatal error is reported
     * with the path where it happened, standing for log.Fatal's exit.
     */
    method CollectFiles(rootDir: string, root: Node) returns (fatal: Option<string>)
      modifies this
      ensures files == old(files) + WalkNode(config, rootDir, root).files
      ensures fatal == WalkNode(config, rootDir, root).fatalAt
    {
      var signal := Walk(rootDir, root);
      if signal.Fatal? {
        fatal := Some(signal.path);
      } else {
        fatal := None;
      }
    }
  }

  // ---------------------------------------------------------------- a flat reference

  /** One entry of a pre-order listing of a tree: its path, the entry, and the paths of the directories above it. */
  datatype Visited = Visited(path: string, node: Node, ancestors: seq<string>)

  /** Every entry of the tree at path, parents before children, children in listing order. */
  function Listing(path: string, node: Node, ancestors: seq<string>): (vs: seq<Visited>)
    ensures |vs| >= 1 && vs[0] == Visited(path, node, ancestors)
    decreases node
  {
    match node
    case Dir(_, cs) => [Visited(path, node, ancestors)] + ListingChildren(path, cs, ancestors + [path])
    case _ => [Visited(path, node, ancestors)]
  }

  function ListingChildren(dir: string, cs: seq<Node>, ancestors: seq<string>): seq<Visited>
    decreases cs
  {
    if cs == [] then []
    else Listing(Join(dir, cs[0].name), cs[0], ancestors) + ListingChildren(dir, cs[1..], ancestors)
  }

  /** The walk reaches an entry when no directory above it is excluded. */
  predicate Reached(config: CollectFilesConfig, v: Visited) {
    forall i :: 0 <= i < |v.ancestors| ==> !Excluded(config, v.ancestors[i])
  }

  /** What one entry of the listing contributes: a kept file, a fatal read error, or nothing. */
  function Contribution(config: CollectFilesConfig, v: Visited): Walked {
    if !Reached(config, v) then Nothing
    else
      match v.node
      case Unreadable(_) => Walked([], Some(v.path))
      case File(_, t) => Walked(if Supported(config, v.path) then [FileInfo(v.path, t)] else [], None)
      case Dir(_, _) => Nothing
  }

  /** Parts of a walk one after the other, stopping at the first fatal error. */
  function Chain(ws: seq<Walked>): Walked
    decreases |ws|
  {
    if ws == [] then Nothing else Then(ws[0], Chain(ws[1..]))
  }

  /** The contributions of a listing, entry by entry. */
  function Contributions(config: CollectFilesConfig, vs: seq<Visited>): (ws: seq<Walked>)
    ensures |ws| == |vs|
  {
    seq(|vs|, i requires 0 <= i < |vs| => Contribution(config, vs[i]))
  }

  /** The contributions of a listing, front to back, stopping at the first fatal error. */
  function Sweep(config: CollectFilesConfig, vs: seq<Visited>): Walked {
    Chain(Contributions(config, vs))
  }

  lemma {:induction false} ChainAppend(ws: seq<Walked>, us: seq<Walked>)
    ensures Chain(ws + us) == Then(Chain(ws), Chain(us))
    decreases |ws|
  {
    if ws == [] {
      assert ws + us == us;
    } else {
      assert (ws + us)[1..] == ws[1..] + us;
      ChainAppend(ws[1..], us);
      ThenAssociative(ws[0], Chain(ws[1..]), Chain(us));
    }
  }

  /** Every entry of a chain comes from one of its parts. */
  lemma {:induction false} ChainSource(ws: seq<Walked>, k: nat) returns (j: nat, m: nat)
    requires k < |Chain(ws).files|
    ensures j < |ws| && m < |ws[j].files| && Chain(ws).files[k] == ws[j].files[m]
    decreases |ws|
  {
    var tail := Chain(ws[1..]);
    if k < |ws[0].files| {
      j, m := 0, k;
    } else {
      assert Chain(ws).files == ws[0].files + tail.files;
      var i;
      i, m := ChainSource(ws[1..], k - |ws[0].files|);
      j := i + 1;
    }
  }

  /** A chain that meets no fatal error holds every entry of every part. */
  lemma {:induction false} ChainComplete(ws: seq<Walked>, j: nat, m: nat)
    requires Chain(ws).fatalAt.None?
    requires j < |ws| && m < |ws[j].files|
    ensures ws[j].files[m] in Chain(ws).files
    decreases |ws|
  {
    if j > 0 {
      assert ws[1..][j - 1] == ws[j];
      ChainComplete(ws[1..], j - 1, m);
    }
  }

  /** A chain fails exactly when one of its parts does, with the error of the first part that fails. */
  lemma {:induction false} ChainFatal(ws: seq<Walked>)
    ensures Chain(ws).fatalAt.Some? <==> exists j :: 0 <= j < |ws| && ws[j].fatalAt.Some?
    ensures Chain(ws).fatalAt.Some? ==> exists j :: (0 <= j < |ws| && Chain(ws).fatalAt == ws[j].fatalAt
      && forall i :: 0 <= i < j ==> ws[i].fatalAt.None?)
    decreases |ws|
  {
    if ws != [] {
      ChainFatal(ws[1..]);
      forall j | 1 <= j < |ws| ensures ws[j] == ws[1..][j - 1] { }
    }
  }

  lemma SweepAppend(config: CollectFilesConfig, vs: seq<Visited>, ws: seq<Visited>)
    ensures Sweep(config, vs + ws) == Then(Sweep(config, vs), Sweep(config, ws))
  {
    var all, front, back := Contributions(config, vs + ws), Contributions(config, vs), Contributions(config, ws);
    forall i | 0 <= i < |all|
      ensures all[i] == (front + back)[i]
    {
      if i < |vs| {
        assert (vs + ws)[i] == vs[i];
      } else {
        assert (vs + ws)[i] == ws[i - |vs|];
      }
    }
    assert all == front + back;
    ChainAppend(Contributions(config, vs), Contributions(config, ws));
  }

  /** The sweep of a single entry is its contribution. */
  lemma SweepOne(config: CollectFilesConfig, v: Visited)
    ensures Sweep(config, [v]) == Contribution(config, v)
  {
    var w := Contribution(config, v);
    assert Contributions(config, [v]) == [w];
    assert [w][1..] == [];
    assert Chain([w]) == Then(w, Nothing);
    assert w.files + [] == w.files;
  }

  /** Nothing below an excluded directory contributes to the walk. */
  lemma {:induction false} PrunedListing(config: CollectFilesConfig, path: string, node: Node, ancestors: seq<string>, k: nat)
    requires k < |ancestors| && Excluded(config, ancestors[k])
    ensures Sweep(config, Listing(path, node, ancestors)) == Nothing
    decreases node
  {
    var v := Visited(path, node, ancestors);
    assert !Reached(config, v);
    SweepOne(config, v);
    match node {
      case Dir(_, cs) =>
        SweepAppend(config, [v], ListingChildren(path, cs, ancestors + [path]));
        PrunedChildren(config, path, cs, ancestors + [path], k);
      case _ =>
    }
  }

  lemma {:induction false} PrunedChildren(config: CollectFilesConfig, dir: string, cs: seq<Node>, ancestors: seq<string>, k: nat)
    requires k < |ancestors| && Excluded(config, ancestors[k])
    ensures Sweep(config, ListingChildren(dir, cs, ancestors)) == Nothing
    decreases cs
  {
    if cs != [] {
      SweepAppend(config, Listing(Join(dir, cs[0].name), cs[0], ancestors), ListingChildren(dir, cs[1..], ancestors));
      PrunedListing(config, Join(dir, cs[0].name), cs[0], ancestors, k);
      PrunedChildren(config, dir, cs[1..], ancestors, k);
    }
  }

  /**
   * The walk equals the sweep of the flat listing: pruning a directory is the
   * same as dropping every entry that has an excluded directory above it.
   */
  lemma {:induction false} WalkIsSweep(config: CollectFilesConfig, path: string, node: Node, ancestors: seq<string>)
    requires forall i :: 0 <= i < |ancestors| ==> !Excluded(config, ancestors[i])
    ensures WalkNode(config, path, node) == Sweep(config, Listing(path, node, ancestors))
    decreases node
  {
    var v := Visited(path, node, ancestors);
    SweepOne(config, v);
    match node {
      case Dir(_, cs) =>
        var rest := ListingChildren(path, cs, ancestors + [path]);
        SweepAppend(config, [v], rest);
        if Excluded(config, path) {
          PrunedChildren(config, path, cs, ancestors + [path], |ancestors|);
        } else {
          WalkChildrenIsSweep(config, path, cs, ancestors + [path]);
        }
      case _ =>
        assert Listing(path, node, ancestors) == [v];
    }
  }

  lemma {:induction false} WalkChildrenIsSweep(config: CollectFilesConfig, dir: string, cs: seq<Node>, ancestors: seq<string>)
    requires forall i :: 0 <= i < |ancestors| ==> !Excluded(config, ancestors[i])
    ensures WalkChildren(config, dir, cs) == Sweep(config, ListingChildren(dir, cs, ancestors))
    decreases cs
  {
    if cs != [] {
      SweepAppend(config, Listing(Join(dir, cs[0].name), cs[0], ancestors), ListingChildren(dir, cs[1..], ancestors));
      WalkIsSweep(config, Join(dir, cs[0].name), cs[0], ancestors);
      WalkChildrenIsSweep(config, dir, cs[1..], ancestors);
    }
  }

  // ---------------------------------------------------------------- properties of a sweep

  /** An entry walk keeps: a reached file with a supported extension. */
  predicate Kept(config: CollectFilesConfig, v: Visited) {
    Reached(config, v) && v.node.File? && Supported(config, v.path)
  }

  /** An entry contributes a file exactly when it is kept, and then only itself. */
  lemma ContributionFiles(config: CollectFilesConfig, v: Visited)
    ensures Contribution(config, v).files == if Kept(config, v) then [FileInfo(v.path, v.node.modTime)] else []
  {
  }

  /** An entry contributes a fatal error exactly when it is a reached unreadable entry. */
  lemma ContributionFatal(config: CollectFilesConfig, v: Visited)
    ensures Contribution(config, v).fatalAt == if Reached(config, v) && v.node.Unreadable? then Some(v.path) else None
  {
  }

  /** Every collected entry comes from a kept file of the listing, with its path and modification time. */
  lemma SweepSound(config: CollectFilesConfig, vs: seq<Visited>, k: nat)
    requires k < |Sweep(config, vs).files|
    ensures exists j :: (0 <= j < |vs| && Kept(config, vs[j])
      && Sweep(config, vs).files[k] == FileInfo(vs[j].path, vs[j].node.modTime))
  {
    var ws := Contributions(config, vs);
    var j, m := ChainSource(ws, k);
    assert ws[j] == Contribution(config, vs[j]);
    ContributionFiles(config, vs[j]);
  }

  /** A sweep that meets no fatal error collects every kept file of the listing. */
  lemma SweepComplete(config: CollectFilesConfig, vs: seq<Visited>, j: nat)
    requires Sweep(config, vs).fatalAt.None?
    requires j < |vs| && Kept(config, vs[j])
    ensures FileInfo(vs[j].path, vs[j].node.modTime) in Sweep(config, vs).files
  {
    var ws := Contributions(config, vs);
    assert ws[j] == Contribution(config, vs[j]);
    ContributionFiles(config, vs[j]);
    ChainComplete(ws, j, 0);
  }

  /** A sweep fails exactly when the listing holds a reached unreadable entry, and names the first one. */
  lemma SweepFatal(config: CollectFilesConfig, vs: seq<Visited>)
    ensures Sweep(config, vs).fatalAt.Some? <==> exists j :: 0 <= j < |vs| && Reached(config, vs[j]) && vs[j].node.Unreadable?
    ensures Sweep(config, vs).fatalAt.Some? ==> exists j :: (0 <= j < |vs| && Reached(config, vs[j]) && vs[j].node.Unreadable?
      && Sweep(config, vs).fatalAt == Some(vs[j].path)
      && forall i :: 0 <= i < j ==> !(Reached(config, vs[i]) && vs[i].node.Unreadable?))
  {
    var ws := Contributions(config, vs);
    forall j | 0 <= j < |vs|
      ensures ws[j].fatalAt.Some? <==> Reached(config, vs[j]) && vs[j].node.Unreadable?
      ensures ws[j].fatalAt.Some? ==> ws[j].fatalAt == Some(vs[j].path)
    {
      ContributionFatal(config, vs[j]);
    }
    ChainFatal(ws);
  }

  // ---------------------------------------------------------------- what CollectFiles promises

  /**
   * Everything CollectFiles appends is a file (never a directory) with a supported
   * extension and no excluded directory above it, recorded with its path and
   * modification time.
   */
  lemma CollectedAreKeptFiles(config: CollectFilesConfig, rootDir: string, root: Node, k: nat)
    requires k < |WalkNode(config, rootDir, root).files|
    ensures exists j :: (0 <= j < |Listing(rootDir, root, [])| && Kept(config, Listing(rootDir, root, [])[j])
      && WalkNode(config, rootDir, root).files[k]
         == FileInfo(Listing(rootDir, root, [])[j].path, Listing(rootDir, root, [])[j].node.modTime))
  {
    WalkIsSweep(config, rootDir, root, []);
    SweepSound(config, Listing(rootDir, root, []), k);
  }

  /** When the walk meets no read error, every file it reaches with a supported extension is collected. */
  lemma KeptFilesAreCollected(config: CollectFilesConfig, rootDir: string, root: Node, j: nat)
    requires WalkNode(config, rootDir, root).fatalAt.None?
    requires j < |Listing(rootDir, root, [])| && Kept(config, Listing(rootDir, root, [])[j])
    ensures FileInfo(Listing(rootDir, root, [])[j].path, Listing(rootDir, root, [])[j].node.modTime)
            in WalkNode(config, rootDir, root).files
  {
    WalkIsSweep(config, rootDir, root, []);
    SweepComplete(config, Listing(rootDir, root, []), j);
  }

  /** The walk ends in log.Fatal exactly when it reaches an unreadable entry outside every excluded directory. */
  lemma FatalIffUnreadableReached(config: CollectFilesConfig, rootDir: string, root: Node)
    ensures WalkNode(config, rootDir, root).fatalAt.Some?
        <==> exists j :: 0 <= j < |Listing(rootDir, root, [])| && Reached(config, Listing(rootDir, root, [])[j])
               && Listing(rootDir, root, [])[j].node.Unreadable?
  {
    WalkIsSweep(config, rootDir, root, []);
    SweepFatal(config, Listing(rootDir, root, []));
  }

  /** An excluded root directory is skipped with all it contains, even an unreadable entry. */
  lemma ExcludedRootYieldsNothing(config: CollectFilesConfig, rootDir: string, root: Node)
    requires root.Dir? && Excluded(config, rootDir)
    ensures WalkNode(config, rootDir, root) == Nothing
  {
  }

  /** The walk of a root holding one directory that holds one file. */
  lemma WalkOneFileBelow(config: CollectFilesConfig, root: string, rootName: string, dir: string, name: string, t: Date)
    requires !Excluded(config, root) && !Excluded(config, Join(root, dir))
    ensures var p := Join(Join(root, dir), name);
      WalkNode(config, root, Dir(rootName, [Dir(dir, [File(name, t)])]))
        == Walked(if Supported(config, p) then [FileInfo(p, t)] else [], None)
  {
    var f := File(name, t);
    var d := Dir(dir, [f]);
    var sub := Join(root, dir);
    assert [d][1..] == [] && [f][1..] == [];
    assert WalkChildren(config, sub, [f]) == Then(WalkNode(config, Join(sub, name), f), Nothing);
    assert WalkChildren(config, root, [d]) == Then(WalkNode(config, sub, d), Nothing);
  }

  /** An entry longer than a path never occurs in it, so that path is not pruned because of it. */
  lemma LongerEntryNeverExcludes(path: string, entry: string)
    requires |path| < |entry|
    ensures !Contains(ToLower(path), ToLower(entry))
  {
  }

  lemma DotJoin(dir: string, name: string)
    requires PlainName(dir) && PlainName(name)
    ensures Join(".", dir) == dir
    ensures Join(Join(".", dir), name) == dir + "/" + name
  {
    JoinPrefixOfDotAndRoot();
    JoinPlainName(".", dir);
    JoinPlainName(dir, name);
    JoinPrefixOfPlain(dir);
  }

  /**
   * Seen from ".", paths are relative, as filepath.Walk makes them: the file name below
   * dir is dir/name, not ./dir/name. So an excluded "/" + dir does not prune dir.
   */
  lemma WalkFromDot(config: CollectFilesConfig, rootName: string, dir: string, name: string, t: Date)
    requires PlainName(dir) && PlainName(name)
    requires !Excluded(config, ".") && !Excluded(config, dir)
    ensures WalkNode(config, ".", Dir(rootName, [Dir(dir, [File(name, t)])]))
      == Walked(if Supported(config, dir + "/" + name) then [FileInfo(dir + "/" + name, t)] else [], None)
  {
    DotJoin(dir, name);
    WalkOneFileBelow(config, ".", rootName, dir, name, t);
  }

  /**
   * The case of an excluded "/" + dir: seen from ".", dir's path has no leading '/', so dir
   * is walked and its file collected.
   */
  lemma SlashedEntryKeepsDirBelowDot(exts: seq<string>, rootName: string, dir: string, name: string, t: Date)
    requires PlainName(dir) && PlainName(name)
    ensures var config := CollectFilesConfig(["/" + dir], exts);
      WalkNode(config, ".", Dir(rootName, [Dir(dir, [File(name, t)])]))
        == Walked(if Supported(config, dir + "/" + name) then [FileInfo(dir + "/" + name, t)] else [], None)
  {
    var config := CollectFilesConfig(["/" + dir], exts);
    LongerEntryNeverExcludes(".", "/" + dir);
    LongerEntryNeverExcludes(dir, "/" + dir);
    WalkFromDot(config, rootName, dir, name, t);
  }
}
