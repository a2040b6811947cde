/**
 * Bundle discovery (`find_speller_bundles` and its inner `visit_dirs`): a
 * depth-first walk of one root that collects every non-directory entry with
 * a bundle extension, and gives up on the rest of the root at the first read
 * failure while keeping what it has already collected.
 */
module BundleDiscovery {
  import opened Options
  import opened FileTree

  /** What a walk appends to the accumulator, and whether it ran to the end (`Ok(())`). */
  datatype Walked = Walked(found: seq<Path>, complete: bool)

  /** The walk of `visit_dirs` from the path `dir`, which names `node`. */
  function Walk(dir: Path, node: Node): Walked
    decreases node
  {
    match node
    case File => Walked([], true)
    case Dir(Unreadable) => Walked([], false)
    case Dir(Listed(entries)) => WalkEntries(dir, entries)
  }

  /** The walk over what remains of one directory listing. */
  function WalkEntries(dir: Path, entries: seq<Entry>): Walked
    decreases entries
  {
    if entries == [] then Walked([], true)
    else
      match entries[0]
      case BrokenEntry => Walked([], false)
      case Entry(name, child) =>
        if child.File? then
          var rest := WalkEntries(dir, entries[1..]);
          Walked((if IsBundleName(name) then [dir + [name]] else []) + rest.found, rest.complete)
        else
          var sub := Walk(dir + [name], child);
          if !sub.complete then sub
          else
            var rest := WalkEntries(dir, entries[1..]);
            Walked(sub.found + rest.found, rest.complete)
  }

  /**
   * Reference definition: every non-directory entry below `node`, reached
   * through directories that can be listed, in depth-first listing order. A
   * failing directory or entry contributes nothing and the rest goes on.
   */
  function Files(dir: Path, node: Node): (files: seq<Path>)
    ensures forall p :: p in files ==> |p| > |dir| && p[..|dir|] == dir
    decreases node
  {
    match node
    case File => []
    case Dir(Unreadable) => []
    case Dir(Listed(entries)) => FilesIn(dir, entries)
  }

  /** The files below the entries of one listing. */
  function FilesIn(dir: Path, entries: seq<Entry>): (files: seq<Path>)
    ensures forall p :: p in files ==> |p| > |dir| && p[..|dir|] == dir
    decreases entries
  {
    if entries == [] then []
    else EntryFiles(dir, entries[0]) + FilesIn(dir, entries[1..])
  }

  /** The files one listing entry contributes: itself when it is not a directory, else what lies below it. */
  function EntryFiles(dir: Path, entry: Entry): (files: seq<Path>)
    ensures forall p :: p in files ==> |p| > |dir| && p[..|dir|] == dir
    decreases entry
  {
    match entry
    case BrokenEntry => []
    case Entry(name, child) =>
      if child.File? then [dir + [name]]
      else
        var below := Files(dir + [name], child);
        assert forall p :: p in below ==> p[..|dir|] == p[..|dir| + 1][..|dir|];
        below
  }

  lemma {:induction false} FilesInMembership(dir: Path, entries: seq<Entry>, p: Path)
    ensures p in FilesIn(dir, entries) <==> exists k :: 0 <= k < |entries| && p in EntryFiles(dir, entries[k])
    decreases entries
  {
    if entries != [] {
      FilesInMembership(dir, entries[1..], p);
      if p in FilesIn(dir, entries[1..]) {
        var k :| 0 <= k < |entries[1..]| && p in EntryFiles(dir, entries[1..][k]);
        assert entries[k + 1] == entries[1..][k];
      }
      if exists k :: 0 <= k < |entries| && p in EntryFiles(dir, entries[k]) {
        var k :| 0 <= k < |entries| && p in EntryFiles(dir, entries[k]);
        if k > 0 {
          assert entries[1..][k - 1] == entries[k];
        }
      }
    }
  }

  /**
   * Independent of any traversal order: the relative path `rel` leads from
   * `node` through directories that can be listed to a non-directory entry.
   */
  predicate ReachesFile(node: Node, rel: seq<string>)
    decreases node
  {
    node.Dir? && node.listing.Listed? &&
    exists k :: 0 <= k < |node.listing.entries| && EntryReachesFile(node.listing.entries[k], rel)
  }

  predicate EntryReachesFile(entry: Entry, rel: seq<string>)
    decreases entry
  {
    entry.Entry? && |rel| > 0 && entry.name == rel[0] &&
    if entry.node.File? then |rel| == 1 else ReachesFile(entry.node, rel[1..])
  }

  /** The reference list holds exactly the paths that lead to a non-directory entry. */
  lemma {:induction false} FilesExactly(dir: Path, node: Node, rel: seq<string>)
    ensures dir + rel in Files(dir, node) <==> ReachesFile(node, rel)
    decreases node
  {
    if node.Dir? && node.listing.Listed? {
      var entries := node.listing.entries;
      FilesInMembership(dir, entries, dir + rel);
      if dir + rel in Files(dir, node) {
        var k :| 0 <= k < |entries| && dir + rel in EntryFiles(dir, entries[k]);
        EntryFilesExactly(dir, entries[k], rel);
      }
      if ReachesFile(node, rel) {
        var k :| 0 <= k < |entries| && EntryReachesFile(entries[k], rel);
        EntryFilesExactly(dir, entries[k], rel);
      }
    }
  }

  lemma {:induction false} EntryFilesExactly(dir: Path, entry: Entry, rel: seq<string>)
    ensures dir + rel in EntryFiles(dir, entry) <==> EntryReachesFile(entry, rel)
    decreases entry
  {
    match entry
    case BrokenEntry =>
    case Entry(name, child) =>
      if child.File? {
        if dir + rel == dir + [name] {
          assert rel == (dir + rel)[|dir|..] == [name];
        }
      } else {
        var sub := dir + [name];
        if |rel| > 0 {
          FilesExactly(sub, child, rel[1..]);
          if rel[0] == name {
            assert sub + rel[1..] == dir + rel;
          }
        }
        if dir + rel in Files(sub, child) {
          assert |dir + rel| > |sub| && (dir + rel)[..|sub|] == sub;
          assert |rel| > 0 && rel[0] == (dir + rel)[..|sub|][|dir|] == name;
          assert sub + rel[1..] == dir + rel;
        }
      }
  }

  /** The paths of `paths` that carry a bundle extension, in order. */
  function Bundles(paths: seq<Path>): (bundles: seq<Path>)
    ensures forall p :: p in bundles <==> p in paths && IsBundlePath(p)
  {
    if paths == [] then []
    else (if IsBundlePath(paths[0]) then [paths[0]] else []) + Bundles(paths[1..])
  }

  lemma {:induction false} BundlesAppend(a: seq<Path>, b: seq<Path>)
    ensures Bundles(a + b) == Bundles(a) + Bundles(b)
  {
    if a != [] {
      assert (a + b)[1..] == a[1..] + b;
      BundlesAppend(a[1..], b);
    } else {
      assert a + b == b;
    }
  }

  lemma PrefixOfLonger<T>(a: seq<T>, b: seq<T>, c: seq<T>)
    requires a <= b
    ensures a <= b + c
  {
    assert (b + c)[..|a|] == b[..|a|];
  }

  lemma PrefixAfterCommon<T>(x: seq<T>, a: seq<T>, b: seq<T>)
    requires a <= b
    ensures x + a <= x + b
  {
    assert (x + b)[..|x + a|] == x + b[..|a|];
  }

  /** No directory below `node` fails to list and no entry fails to read. */
  predicate Intact(node: Node)
    decreases node
  {
    match node
    case File => true
    case Dir(Unreadable) => false
    case Dir(Listed(entries)) => IntactEntries(entries)
  }

  predicate IntactEntries(entries: seq<Entry>)
    decreases entries
  {
    entries == [] ||
    (entries[0].Entry? && Intact(entries[0].node) && IntactEntries(entries[1..]))
  }

  /**
   * The walk against the reference: what it collects is always a prefix of
   * the bundle files of the tree; it completes exactly when nothing in the
   * tree fails; and then it has collected every bundle file.
   */
  lemma {:induction false} WalkIsPrefixOfBundles(dir: Path, node: Node)
    ensures Walk(dir, node).found <= Bundles(Files(dir, node))
    ensures Walk(dir, node).complete <==> Intact(node)
    ensures Walk(dir, node).complete ==> Walk(dir, node).found == Bundles(Files(dir, node))
    decreases node
  {
    match node
    case File =>
    case Dir(Unreadable) =>
    case Dir(Listed(entries)) => WalkEntriesIsPrefixOfBundles(dir, entries);
  }

  lemma {:induction false} WalkEntriesIsPrefixOfBundles(dir: Path, entries: seq<Entry>)
    ensures WalkEntries(dir, entries).found <= Bundles(FilesIn(dir, entries))
    ensures WalkEntries(dir, entries).complete <==> IntactEntries(entries)
    ensures WalkEntries(dir, entries).complete ==> WalkEntries(dir, entries).found == Bundles(FilesIn(dir, entries))
    decreases entries
  {
    if entries != [] && entries[0].Entry? {
      WalkEntriesIsPrefixOfBundles(dir, entries[1..]);
      if entries[0].node.File? {
        FileEntryStep(dir, entries);
      } else {
        WalkIsPrefixOfBundles(dir + [entries[0].name], entries[0].node);
        DirEntryStep(dir, entries);
      }
    }
  }

  /** The three facts the walk keeps about a listing: prefix, completeness, and all when complete. */
  ghost predicate KeepsPrefix(w: Walked, files: seq<Path>, intact: bool) {
    w.found <= Bundles(files) && (w.complete <==> intact) && (w.complete ==> w.found == Bundles(files))
  }

  /** A file entry in front of the rest of a listing keeps the three facts. */
  lemma FileEntryStep(dir: Path, entries: seq<Entry>)
    requires entries != [] && entries[0].Entry? && entries[0].node.File?
    requires KeepsPrefix(WalkEntries(dir, entries[1..]), FilesIn(dir, entries[1..]), IntactEntries(entries[1..]))
    ensures KeepsPrefix(WalkEntries(dir, entries), FilesIn(dir, entries), IntactEntries(entries))
  {
    var name := entries[0].name;
    var rest := WalkEntries(dir, entries[1..]);
    var restFiles := FilesIn(dir, entries[1..]);
    var here := if IsBundleName(name) then [dir + [name]] else [];
    assert WalkEntries(dir, entries) == Walked(here + rest.found, rest.complete);
    assert FilesIn(dir, entries) == [dir + [name]] + restFiles;
    BundlesAppend([dir + [name]], restFiles);
    assert Bundles([dir + [name]]) == here;
    PrefixAfterCommon(here, rest.found, Bundles(restFiles));
  }

  /** A directory entry in front of the rest of a listing keeps the three facts. */
  lemma DirEntryStep(dir: Path, entries: seq<Entry>)
    requires entries != [] && entries[0].Entry? && entries[0].node.Dir?
    requires KeepsPrefix(WalkEntries(dir, entries[1..]), FilesIn(dir, entries[1..]), IntactEntries(entries[1..]))
    requires KeepsPrefix(Walk(dir + [entries[0].name], entries[0].node),
      Files(dir + [entries[0].name], entries[0].node), Intact(entries[0].node))
    ensures KeepsPrefix(WalkEntries(dir, entries), FilesIn(dir, entries), IntactEntries(entries))
  {
    var name, child := entries[0].name, entries[0].node;
    var rest := WalkEntries(dir, entries[1..]);
    var restFiles := FilesIn(dir, entries[1..]);
    var sub := Walk(dir + [name], child);
    var subFiles := Files(dir + [name], child);
    assert FilesIn(dir, entries) == subFiles + restFiles;
    BundlesAppend(subFiles, restFiles);
    if !sub.complete {
      assert WalkEntries(dir, entries) == sub;
      PrefixOfLonger(sub.found, Bundles(subFiles), Bundles(restFiles));
    } else {
      assert WalkEntries(dir, entries) == Walked(sub.found + rest.found, rest.complete);
      PrefixAfterCommon(sub.found, rest.found, Bundles(restFiles));
    }
  }

  /**
   * What the walk collects, in terms of the tree alone: only paths that lead
   * to a non-directory entry with a bundle extension; and, when nothing in
   * the tree fails, every such path.
   */
  lemma WalkCollectsBundleFiles(dir: Path, node: Node, rel: seq<string>)
    ensures dir + rel in Walk(dir, node).found ==> ReachesFile(node, rel) && IsBundlePath(dir + rel)
    ensures Intact(node) && ReachesFile(node, rel) && IsBundlePath(dir + rel) ==> dir + rel in Walk(dir, node).found
  {
    WalkSound(dir, node);
    WalkIsPrefixOfBundles(dir, node);
    FilesExactly(dir, node, rel);
  }

  /** Every collected path lies below `dir`, is a non-directory entry of the tree and carries a bundle extension. */
  lemma WalkSound(dir: Path, node: Node)
    ensures forall p :: p in Walk(dir, node).found ==>
      p in Files(dir, node) && IsBundlePath(p) && |p| > |dir| && p[..|dir|] == dir
  {
    WalkIsPrefixOfBundles(dir, node);
    var found, bundles := Walk(dir, node).found, Bundles(Files(dir, node));
    forall p | p in found ensures p in bundles {
      var k :| 0 <= k < |found| && found[k] == p;
      assert bundles[k] == p;
    }
  }

  /** One event of a full depth-first traversal: a non-directory entry reached, or a listing or an entry that failed. */
  datatype Step = FileAt(path: Path) | Failed

  /**
   * Reference definition: the full depth-first traversal of `node` in
   * listing order. It records every non-directory entry and every failure,
   * and stops at nothing.
   */
  function Trace(dir: Path, node: Node): seq<Step>
    decreases node
  {
    match node
    case File => []
    case Dir(Unreadable) => [Failed]
    case Dir(Listed(entries)) => TraceEntries(dir, entries)
  }

  function TraceEntries(dir: Path, entries: seq<Entry>): seq<Step>
    decreases entries
  {
    if entries == [] then []
    else
      match entries[0]
      case BrokenEntry => [Failed] + TraceEntries(dir, entries[1..])
      case Entry(name, child) =>
        if child.File? then [FileAt(dir + [name])] + TraceEntries(dir, entries[1..])
        else Trace(dir + [name], child) + TraceEntries(dir, entries[1..])
  }

  /** The events before the first failure. */
  function TakeUntilFailed(t: seq<Step>): seq<Step> {
    if t == [] || t[0].Failed? then [] else [t[0]] + TakeUntilFailed(t[1..])
  }

  /** The paths of the files a trace reaches, in order. */
  function FilesOf(t: seq<Step>): seq<Path> {
    if t == [] then []
    else (if t[0].FileAt? then [t[0].path] else []) + FilesOf(t[1..])
  }

  /** Cutting a joined trace at its first failure: inside the first part if it fails, else after all of it. */
  lemma {:induction false} TakeUntilFailedAppend(a: seq<Step>, b: seq<Step>)
    ensures Failed in a ==> TakeUntilFailed(a + b) == TakeUntilFailed(a)
    ensures Failed !in a ==> TakeUntilFailed(a + b) == a + TakeUntilFailed(b)
  {
    if a == [] {
      assert a + b == b;
    } else {
      assert (a + b)[0] == a[0] && (a + b)[1..] == a[1..] + b;
      TakeUntilFailedAppend(a[1..], b);
      if !a[0].Failed? {
        assert Failed in a ==> Failed in a[1..];
        assert a == [a[0]] + a[1..];
      }
    }
  }

  lemma {:induction false} FilesOfAppend(a: seq<Step>, b: seq<Step>)
    ensures FilesOf(a + b) == FilesOf(a) + FilesOf(b)
  {
    if a == [] {
      assert a + b == b;
    } else {
      assert (a + b)[0] == a[0] && (a + b)[1..] == a[1..] + b;
      FilesOfAppend(a[1..], b);
    }
  }

  /** The full traversal reaches exactly the files of the reference list, in the same order. */
  lemma {:induction false} TraceFiles(dir: Path, node: Node)
    ensures FilesOf(Trace(dir, node)) == Files(dir, node)
    decreases node
  {
    match node
    case File =>
    case Dir(Unreadable) =>
    case Dir(Listed(entries)) => TraceEntriesFiles(dir, entries);
  }

  lemma {:induction false} TraceEntriesFiles(dir: Path, entries: seq<Entry>)
    ensures FilesOf(TraceEntries(dir, entries)) == FilesIn(dir, entries)
    decreases entries
  {
    if entries != [] {
      var rest := TraceEntries(dir, entries[1..]);
      TraceEntriesFiles(dir, entries[1..]);
      match entries[0]
      case BrokenEntry =>
        FilesOfAppend([Failed], rest);
      case Entry(name, child) =>
        if child.File? {
          FilesOfAppend([FileAt(dir + [name])], rest);
        } else {
          TraceFiles(dir + [name], child);
          FilesOfAppend(Trace(dir + [name], child), rest);
        }
    }
  }

  /** A walk result agrees with a trace: the bundle files before its first failure, complete when nothing fails. */
  predicate FollowsTrace(w: Walked, t: seq<Step>) {
    w.found == Bundles(FilesOf(TakeUntilFailed(t))) && (w.complete <==> Failed !in t)
  }

  /**
   * What `visit_dirs` returns, exactly: the bundle files the full traversal
   * meets before its first failure, and success only when nothing fails.
   * Everything after the first failure is abandoned.
   */
  lemma {:induction false} WalkFollowsTrace(dir: Path, node: Node)
    ensures Walk(dir, node).found == Bundles(FilesOf(TakeUntilFailed(Trace(dir, node))))
    ensures Walk(dir, node).complete <==> Failed !in Trace(dir, node)
    decreases node
  {
    match node
    case File =>
    case Dir(Unreadable) =>
    case Dir(Listed(entries)) => WalkEntriesFollowsTrace(dir, entries);
  }

  lemma {:induction false} WalkEntriesFollowsTrace(dir: Path, entries: seq<Entry>)
    ensures FollowsTrace(WalkEntries(dir, entries), TraceEntries(dir, entries))
    decreases entries
  {
    if entries != [] {
      WalkEntriesFollowsTrace(dir, entries[1..]);
      match entries[0]
      case BrokenEntry =>
        assert TraceEntries(dir, entries)[0] == Failed;
      case Entry(name, child) =>
        if child.File? {
          FileTraceStep(dir, entries);
        } else {
          WalkFollowsTrace(dir + [name], child);
          DirTraceStep(dir, entries);
        }
    }
  }

  /** A file entry ahead of the rest of a listing: its trace event comes first, and it is collected when it is a bundle. */
  lemma FileTraceStep(dir: Path, entries: seq<Entry>)
    requires entries != [] && entries[0].Entry? && entries[0].node.File?
    requires FollowsTrace(WalkEntries(dir, entries[1..]), TraceEntries(dir, entries[1..]))
    ensures FollowsTrace(WalkEntries(dir, entries), TraceEntries(dir, entries))
  {
    var p := dir + [entries[0].name];
    var rest := TraceEntries(dir, entries[1..]);
    var t := TraceEntries(dir, entries);
    assert t == [FileAt(p)] + rest;
    assert t[0] == FileAt(p) && t[1..] == rest;
    var kept := TakeUntilFailed(rest);
    assert TakeUntilFailed(t) == [FileAt(p)] + kept;
    assert ([FileAt(p)] + kept)[1..] == kept;
    assert FilesOf(TakeUntilFailed(t)) == [p] + FilesOf(kept);
    assert ([p] + FilesOf(kept))[1..] == FilesOf(kept);
    assert p[|p| - 1] == entries[0].name;
    assert Failed in t <==> Failed in rest;
  }

  /** A sub-directory ahead of the rest of a listing: a failure inside it ends the listing too. */
  lemma DirTraceStep(dir: Path, entries: seq<Entry>)
    requires entries != [] && entries[0].Entry? && entries[0].node.Dir?
    requires FollowsTrace(WalkEntries(dir, entries[1..]), TraceEntries(dir, entries[1..]))
    requires FollowsTrace(Walk(dir + [entries[0].name], entries[0].node), Trace(dir + [entries[0].name], entries[0].node))
    ensures FollowsTrace(WalkEntries(dir, entries), TraceEntries(dir, entries))
  {
    var name, child := entries[0].name, entries[0].node;
    var sub := Walk(dir + [name], child);
    var subT := Trace(dir + [name], child);
    var rest := TraceEntries(dir, entries[1..]);
    assert TraceEntries(dir, entries) == subT + rest;
    TakeUntilFailedAppend(subT, rest);
    if Failed !in subT {
      TakeUntilFailedAppend(subT, []);
      assert subT + [] == subT;
      FilesOfAppend(subT, TakeUntilFailed(rest));
      BundlesAppend(FilesOf(subT), FilesOf(TakeUntilFailed(rest)));
      assert WalkEntries(dir, entries) == Walked(sub.found + WalkEntries(dir, entries[1..]).found, WalkEntries(dir, entries[1..]).complete);
    } else {
      assert WalkEntries(dir, entries) == sub;
    }
  }

  /**
   * The walk and a walk that skipped only the failing subtree differ: an
   * unreadable first sub-directory hides a bundle file listed after it.
   */
  lemma FailureAbandonsRest(root: string, sub: string, name: string)
    requires IsBundleName(name)
    ensures Walk([root], Dir(Listed([Entry(sub, Dir(Unreadable)), Entry(name, File)]))) == Walked([], false)
    ensures Bundles(Files([root], Dir(Listed([Entry(sub, Dir(Unreadable)), Entry(name, File)])))) == [[root, name]]
  {
    var entries := [Entry(sub, Dir(Unreadable)), Entry(name, File)];
    assert entries[1..] == [Entry(name, File)] && entries[1..][1..] == [];
    assert [root] + [name] == [root, name];
    assert EntryFiles([root], entries[1..][0]) == [[root, name]];
    assert FilesIn([root], entries[1..]) == [[root, name]] + [];
    assert Files([root] + [sub], Dir(Unreadable)) == [];
    assert EntryFiles([root], entries[0]) == [];
    assert FilesIn([root], entries) == [] + [[root, name]];
    var files := [[root, name]];
    assert files[0][|files[0]| - 1] == name && files[1..] == [];
    assert IsBundlePath(files[0]);
    assert Bundles(files) == [files[0]] + Bundles(files[1..]);
    assert Bundles(files) == files;
    assert Files([root], Dir(Listed(entries))) == files;
    assert Walk([root] + [sub], Dir(Unreadable)) == Walked([], false);
    assert WalkEntries([root], entries) == Walked([], false);
  }

  /**
   * `visit_dirs`: append to `results` every bundle file below `dir`; on the
   * first listing or entry failure (the `?`s) stop and report it, keeping
   * what was appended so far.
   */
  method VisitDirs(dir: Path, node: Node, results: seq<Path>) returns (collected: seq<Path>, ok: bool)
    ensures collected == results + Walk(dir, node).found
    ensures ok == Walk(dir, node).complete
    decreases node
  {
    collected, ok := results, true;
    if node.Dir? {
      if node.listing.Unreadable? {
        ok := false;
        return;
      }
      var entries := node.listing.entries;
      var i := 0;
      while i < |entries|
        invariant 0 <= i <= |entries|
        invariant results + Walk(dir, node).found == collected + WalkEntries(dir, entries[i..]).found
        invariant Walk(dir, node).complete == WalkEntries(dir, entries[i..]).complete
      {
        assert entries[i..][0] == entries[i] && entries[i..][1..] == entries[i + 1..];
        match entries[i]
        case BrokenEntry =>
          ok := false;
          return;
        case Entry(name, child) =>
          if child.Dir? {
            var subOk;
            collected, subOk := VisitDirs(dir + [name], child, collected);
            if !subOk {
              ok := false;
              return;
            }
          } else if IsBundleName(name) {
            collected := collected + [dir + [name]];
          }
        i := i + 1;
      }
    }
  }

  /** The bundles found under one configured root; a root that does not exist yields nothing. */
  function RootBundles(fs: FileSystem, root: string): seq<Path> {
    if root in fs then Walk([root], fs[root]).found else []
  }

  /** `find_speller_bundles`: run the walk; a failure is only logged, and the partial result is returned. */
  method FindSpellerBundles(fs: FileSystem, root: string) returns (results: seq<Path>)
    ensures results == RootBundles(fs, root)
  {
    results := [];
    if root in fs {
      var ok;
      results, ok := VisitDirs([root], fs[root], results);
    }
  }
}
