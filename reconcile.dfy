/** What the watcher does to its table and to its output channel, as
    functions on values: addWatch, the race-closing re-scan watchNewDirs,
    processEvent and the per-entry step of the initial walk. The class in
    watcher.dfy is proved to follow these definitions. */
module Reconcile {
  import opened Wrappers
  import opened Events
  import opened Fs
  import opened Masks
  import opened WatchTable

  /** A new table and the events sent on the channel, in order. */
  datatype Effect = Effect(table: Table, events: seq<Event>)

  /** The full path of entry `name` of directory `dir`. */
  function Child(dir: string, name: string): string
  {
    dir + "/" + name
  }

  /** A child is strictly longer than its directory and lies in its
      subtree. */
  lemma ChildInSubtree(dir: string, name: string)
    ensures |Child(dir, name)| > |dir|
    ensures InSubtree(dir, Child(dir, name))
  {
    assert (dir + "/") + name == dir + "/" + name;
  }

  /** The subtree of a child is part of the subtree of its directory. */
  lemma SubtreeOfChild(dir: string, name: string, p: string)
    requires InSubtree(Child(dir, name), p)
    ensures InSubtree(dir, p)
  {
    var c := Child(dir, name);
    assert c[..|dir| + 1] == dir + "/";
    if p != c {
      assert p[..|c|] == c;
    }
    assert p[..|dir| + 1] == c[..|dir| + 1];
  }

  /** Every entry of the table names the path the kernel watches under
      that descriptor. */
  ghost predicate Consistent(fs: Fs, w: Table)
  {
    forall k :: k in w ==> KernelAddWatch(fs, w[k]) == Added(k)
  }

  /** `w'` came from `w` by watching directories of the subtree of `dir`:
      no key is lost, and every entry that is not an entry of `w` is a
      path below `dir` under the descriptor the kernel gave it. */
  ghost predicate Grown(fs: Fs, w: Table, w': Table, dir: string)
  {
    w.Keys <= w'.Keys &&
    forall k :: k in w' ==> (k in w && w'[k] == w[k]) || (InSubtree(dir, w'[k]) && KernelAddWatch(fs, w'[k]) == Added(k))
  }

  /** addWatch: asks the kernel to watch `path`; on success the table
      maps the new descriptor to `path`, on failure the table is left
      alone and the kernel's error is returned. */
  function AddWatch(fs: Fs, w: Table, path: string): (r: Result<Table, Errno>)
    ensures r.Err? <==> KernelAddWatch(fs, path).Refused?
    ensures r.Err? ==> r.error == KernelAddWatch(fs, path).errno
    ensures r.Ok? ==> Watched(r.value, path)
    ensures r.Ok? ==> r.value == w[KernelAddWatch(fs, path).wd := path]
    ensures r.Ok? ==> r.value.Keys == w.Keys + {KernelAddWatch(fs, path).wd}
    ensures r.Ok? ==> forall k :: k in w && k != KernelAddWatch(fs, path).wd ==> r.value[k] == w[k]
  {
    match KernelAddWatch(fs, path)
    case Added(wd) =>
      assert w[wd := path][wd] == path;
      Ok(w[wd := path])
    case Refused(errno) => Err(errno)
  }

  /** The table after addWatch, whatever its outcome. */
  function Installed(fs: Fs, w: Table, path: string): (r: Table)
    ensures KernelAddWatch(fs, path).Refused? ==> r == w
    ensures KernelAddWatch(fs, path).Added? ==>
              r.Keys == w.Keys + {KernelAddWatch(fs, path).wd} && r[KernelAddWatch(fs, path).wd] == path &&
              forall k :: k in w && k != KernelAddWatch(fs, path).wd ==> r[k] == w[k]
  {
    match AddWatch(fs, w, path)
    case Ok(t) => t
    case Err(_) => w
  }

  /** addWatch keeps the table consistent with the kernel and only grows
      it by `path`; with distinct descriptors for distinct paths it never
      overwrites an entry. */
  lemma InstalledSound(fs: Fs, w: Table, path: string)
    requires Consistent(fs, w)
    ensures Consistent(fs, Installed(fs, w, path))
    ensures Grown(fs, w, Installed(fs, w, path), path)
    ensures DistinctWds(fs) ==> Extends(Installed(fs, w, path), w)
    ensures KernelAddWatch(fs, path).Added? ==> Watched(Installed(fs, w, path), path)
  {
    var w' := Installed(fs, w, path);
    if KernelAddWatch(fs, path).Added? {
      var wd := KernelAddWatch(fs, path).wd;
      assert w' == w[wd := path];
      if DistinctWds(fs) && wd in w {
        assert KernelAddWatch(fs, w[wd]) == KernelAddWatch(fs, path);
      }
    }
  }

  /** The listable paths longer than `dir`: watchNewDirs only descends
      into such paths, so this set shrinks with every level. */
  ghost function Deeper(fs: Fs, dir: string): set<string>
  {
    set p | p in fs.listing && |p| > |dir|
  }

  lemma DeeperShrinks(fs: Fs, dir: string, c: string)
    requires c in fs.listing && |c| > |dir|
    ensures Deeper(fs, c) < Deeper(fs, dir)
  {
    assert c in Deeper(fs, dir) && c !in Deeper(fs, c);
  }

  /** Whether the re-scan of `dir` descends into entry `f`: it is a
      directory (lstat, so not a symbolic link), no table entry names it
      yet, and it can be listed. A listing failure skips the entry. */
  ghost predicate Descends(fs: Fs, w: Table, dir: string, f: FileInfo)
  {
    f.mode == Dir && !Watched(w, Child(dir, f.name)) && Child(dir, f.name) in fs.listing
  }

  /** watchNewDirs(dir, files): watch `dir` (ignoring a failure), send a
      manufactured event for it, then re-scan its entries. */
  ghost function WatchNewDirs(fs: Fs, w: Table, dir: string, files: seq<FileInfo>): (r: Effect)
    ensures w.Keys <= r.table.Keys
    ensures |r.events| >= 1 && r.events[0] == Manufacture(dir)
    decreases Deeper(fs, dir), 1, 0
  {
    var rest := WatchChildren(fs, Installed(fs, w, dir), dir, files);
    Effect(rest.table, [Manufacture(dir)] + rest.events)
  }

  /** One step of the loop of watchNewDirs: entry `f` of `dir`, re-scanned
      when the loop descends into it, skipped otherwise. */
  ghost function WatchChild(fs: Fs, w: Table, dir: string, f: FileInfo): (r: Effect)
    ensures w.Keys <= r.table.Keys
    decreases Deeper(fs, dir), 0, 0
  {
    var c := Child(dir, f.name);
    if Descends(fs, w, dir, f) then
      ChildInSubtree(dir, f.name);
      DeeperShrinks(fs, dir, c);
      WatchNewDirs(fs, w, c, fs.listing[c])
    else Effect(w, [])
  }

  /** The loop of watchNewDirs over the entries of `dir`, each step seeing
      the table the previous steps left. */
  ghost function WatchChildren(fs: Fs, w: Table, dir: string, files: seq<FileInfo>): (r: Effect)
    ensures w.Keys <= r.table.Keys
    decreases Deeper(fs, dir), 0, |files|
  {
    if files == [] then Effect(w, [])
    else
      var first := WatchChild(fs, w, dir, files[0]);
      var rest := WatchChildren(fs, first.table, dir, files[1..]);
      Effect(rest.table, first.events + rest.events)
  }

  /** The loop of watchNewDirs from entry `i` on: entry `i`, then the
      entries after it. */
  lemma WatchChildrenStep(fs: Fs, w: Table, dir: string, files: seq<FileInfo>, i: nat)
    requires i < |files|
    ensures var first := WatchChild(fs, w, dir, files[i]);
            var rest := WatchChildren(fs, first.table, dir, files[i + 1..]);
            WatchChildren(fs, w, dir, files[i..]) == Effect(rest.table, first.events + rest.events)
  {
    assert files[i..][0] == files[i] && files[i..][1..] == files[i + 1..];
  }

  /** Every event is a manufactured event for a directory of the subtree
      of `dir`. */
  ghost predicate SynthesizedBelow(events: seq<Event>, dir: string)
  {
    forall i :: 0 <= i < |events| ==> IsManufactured(events[i]) && InSubtree(dir, events[i].dirpath)
  }

  lemma GrownTrans(fs: Fs, w0: Table, w1: Table, w2: Table, dir: string)
    requires Grown(fs, w0, w1, dir) && Grown(fs, w1, w2, dir)
    ensures Grown(fs, w0, w2, dir)
  {
  }

  /** What the re-scan of a child adds is also below its parent. */
  lemma GrownChild(fs: Fs, w: Table, w': Table, dir: string, name: string)
    requires Grown(fs, w, w', Child(dir, name))
    ensures Grown(fs, w, w', dir)
  {
    forall k | k in w' && !(k in w && w'[k] == w[k])
      ensures InSubtree(dir, w'[k])
    {
      SubtreeOfChild(dir, name, w'[k]);
    }
  }

  lemma SynthesizedChild(events: seq<Event>, dir: string, name: string)
    requires SynthesizedBelow(events, Child(dir, name))
    ensures SynthesizedBelow(events, dir)
  {
    forall i | 0 <= i < |events|
      ensures InSubtree(dir, events[i].dirpath)
    {
      SubtreeOfChild(dir, name, events[i].dirpath);
    }
  }

  /** The re-scan of `dir` only adds watches on directories below `dir`,
      with the kernel's descriptors, and only sends manufactured events
      for directories below `dir`. */
  lemma {:induction false} WatchNewDirsGrows(fs: Fs, w: Table, dir: string, files: seq<FileInfo>)
    requires Consistent(fs, w)
    ensures Grown(fs, w, WatchNewDirs(fs, w, dir, files).table, dir)
    ensures Consistent(fs, WatchNewDirs(fs, w, dir, files).table)
    ensures SynthesizedBelow(WatchNewDirs(fs, w, dir, files).events, dir)
    decreases Deeper(fs, dir), 1, 0
  {
    var w1 := Installed(fs, w, dir);
    InstalledSound(fs, w, dir);
    var rest := WatchChildren(fs, w1, dir, files);
    WatchChildrenGrows(fs, w1, dir, files);
    GrownTrans(fs, w, w1, rest.table, dir);
    var r := WatchNewDirs(fs, w, dir, files);
    assert r.events == [Manufacture(dir)] + rest.events;
    assert InSubtree(dir, dir);
  }

  lemma {:induction false} WatchChildrenGrows(fs: Fs, w: Table, dir: string, files: seq<FileInfo>)
    requires Consistent(fs, w)
    ensures Grown(fs, w, WatchChildren(fs, w, dir, files).table, dir)
    ensures Consistent(fs, WatchChildren(fs, w, dir, files).table)
    ensures SynthesizedBelow(WatchChildren(fs, w, dir, files).events, dir)
    decreases Deeper(fs, dir), 0, |files|
  {
    if files != [] {
      var c := Child(dir, files[0].name);
      var first := WatchChild(fs, w, dir, files[0]);
      if Descends(fs, w, dir, files[0]) {
        ChildInSubtree(dir, files[0].name);
        DeeperShrinks(fs, dir, c);
        WatchNewDirsGrows(fs, w, c, fs.listing[c]);
        GrownChild(fs, w, first.table, dir, files[0].name);
        SynthesizedChild(first.events, dir, files[0].name);
      }
      assert Consistent(fs, first.table);
      var rest := WatchChildren(fs, first.table, dir, files[1..]);
      WatchChildrenGrows(fs, first.table, dir, files[1..]);
      GrownTrans(fs, w, first.table, rest.table, dir);
      assert WatchChildren(fs, w, dir, files).events == first.events + rest.events;
    }
  }

  /** When the kernel never hands out one descriptor for two paths, a
      consistent table is only ever extended: growing it never overwrites
      the path of an existing descriptor. */
  lemma GrownExtends(fs: Fs, w: Table, w': Table, dir: string)
    requires Consistent(fs, w) && DistinctWds(fs) && Grown(fs, w, w', dir)
    ensures Consistent(fs, w')
    ensures Extends(w', w)
  {
    forall k | k in w
      ensures w'[k] == w[k]
    {
      assert KernelAddWatch(fs, w'[k]) == KernelAddWatch(fs, w[k]);
    }
  }

  lemma ExtendsWatched(w: Table, w': Table, path: string)
    requires Extends(w', w) && Watched(w, path)
    ensures Watched(w', path)
  {
    var k :| k in w && w[k] == path;
    assert w'[k] == path;
  }

  /** Race closure, one entry at a time: after the loop over `files`,
      every entry that is a directory the kernel accepts and that can be
      listed is watched, whether it was watched before or the loop
      descended into it. */
  lemma {:induction false} WatchChildrenCovers(fs: Fs, w: Table, dir: string, files: seq<FileInfo>)
    requires Consistent(fs, w) && DistinctWds(fs)
    ensures forall i :: 0 <= i < |files| && files[i].mode == Dir && Child(dir, files[i].name) in fs.listing
                        && KernelAddWatch(fs, Child(dir, files[i].name)).Added?
                        ==> Watched(WatchChildren(fs, w, dir, files).table, Child(dir, files[i].name))
    decreases |files|
  {
    if files != [] {
      var c := Child(dir, files[0].name);
      var first := WatchChild(fs, w, dir, files[0]);
      var rest := WatchChildren(fs, first.table, dir, files[1..]);
      if Descends(fs, w, dir, files[0]) {
        var w1 := Installed(fs, w, c);
        InstalledSound(fs, w, c);
        var inner := WatchChildren(fs, w1, c, fs.listing[c]);
        WatchChildrenGrows(fs, w1, c, fs.listing[c]);
        GrownExtends(fs, w1, inner.table, c);
        if KernelAddWatch(fs, c).Added? {
          ExtendsWatched(w1, inner.table, c);
        }
        assert first == WatchNewDirs(fs, w, c, fs.listing[c]);
        assert first.table == inner.table;
        WatchNewDirsGrows(fs, w, c, fs.listing[c]);
      }
      GrownExtends(fs, w, first.table, c);
      WatchChildrenGrows(fs, first.table, dir, files[1..]);
      GrownExtends(fs, first.table, rest.table, dir);
      WatchChildrenCovers(fs, first.table, dir, files[1..]);
      forall i | 0 <= i < |files| && files[i].mode == Dir && Child(dir, files[i].name) in fs.listing
                 && KernelAddWatch(fs, Child(dir, files[i].name)).Added?
        ensures Watched(rest.table, Child(dir, files[i].name))
      {
        if i == 0 {
          if !Descends(fs, w, dir, files[0]) {
            assert Watched(first.table, c);
          }
          ExtendsWatched(first.table, rest.table, c);
        } else {
          assert files[i] == files[1..][i - 1];
        }
      }
    }
  }

  /** watchNewDirs(dir, files) on a consistent table: the table stays
      consistent and is only extended, `dir` is watched if the kernel
      accepts it, every listable subdirectory entry the kernel accepts is
      watched, and the events are the manufactured event for `dir`
      followed by manufactured events for directories below it. */
  lemma WatchNewDirsSound(fs: Fs, w: Table, dir: string, files: seq<FileInfo>)
    requires Consistent(fs, w) && DistinctWds(fs)
    ensures Consistent(fs, WatchNewDirs(fs, w, dir, files).table)
    ensures Extends(WatchNewDirs(fs, w, dir, files).table, w)
    ensures KernelAddWatch(fs, dir).Added? ==> Watched(WatchNewDirs(fs, w, dir, files).table, dir)
    ensures forall i :: 0 <= i < |files| && files[i].mode == Dir && Child(dir, files[i].name) in fs.listing
                        && KernelAddWatch(fs, Child(dir, files[i].name)).Added?
                        ==> Watched(WatchNewDirs(fs, w, dir, files).table, Child(dir, files[i].name))
    ensures WatchNewDirs(fs, w, dir, files).events[0] == Manufacture(dir)
    ensures SynthesizedBelow(WatchNewDirs(fs, w, dir, files).events, dir)
  {
    var w1 := Installed(fs, w, dir);
    InstalledSound(fs, w, dir);
    var rest := WatchChildren(fs, w1, dir, files);
    WatchChildrenGrows(fs, w1, dir, files);
    GrownExtends(fs, w1, rest.table, dir);
    if KernelAddWatch(fs, dir).Added? {
      ExtendsWatched(w1, rest.table, dir);
    }
    WatchChildrenCovers(fs, w1, dir, files);
    WatchNewDirsGrows(fs, w, dir, files);
    GrownExtends(fs, w, rest.table, dir);
  }

  /** Entry names as a directory listing gives them: none contains "/",
      and no two entries share a name. */
  predicate WellNamed(files: seq<FileInfo>)
  {
    (forall i :: 0 <= i < |files| ==> '/' !in files[i].name) &&
    (forall i, j :: 0 <= i < j < |files| ==> files[i].name != files[j].name)
  }

  /** Every listing of the filesystem is well named. */
  ghost predicate ListingsWellNamed(fs: Fs)
  {
    forall d :: d in fs.listing ==> WellNamed(fs.listing[d])
  }

  /** No entry of `w` lies in the subtree of `root`. */
  ghost predicate NoneBelow(w: Table, root: string)
  {
    forall k :: k in w ==> !InSubtree(root, w[k])
  }

  /** `p` is a directory below `dir` that the re-scan of `dir`'s entries
      `files` can reach: an entry that is a directory and can be listed,
      or, recursively, such a directory below one. */
  ghost predicate Below(fs: Fs, dir: string, files: seq<FileInfo>, p: string)
    decreases Deeper(fs, dir), |files|
  {
    if files == [] then false
    else
      var c := Child(dir, files[0].name);
      (files[0].mode == Dir && c in fs.listing &&
       (p == c || (ChildInSubtree(dir, files[0].name); DeeperShrinks(fs, dir, c); Below(fs, c, fs.listing[c], p))))
      || Below(fs, dir, files[1..], p)
  }

  /** `dir` itself or a directory below it the re-scan can reach. */
  ghost predicate Reached(fs: Fs, dir: string, files: seq<FileInfo>, p: string)
  {
    p == dir || Below(fs, dir, files, p)
  }

  /** Some event of `events` is about directory `p`. */
  ghost predicate Sent(events: seq<Event>, p: string)
  {
    exists i :: 0 <= i < |events| && events[i].dirpath == p
  }

  /** No two events are about the same directory. */
  ghost predicate DistinctDirs(events: seq<Event>)
  {
    forall i, j :: 0 <= i < j < |events| ==> events[i].dirpath != events[j].dirpath
  }

  /** The subtrees of two differently named entries of one directory are
      disjoint. */
  lemma SiblingsDisjoint(d: string, n: string, m: string, p: string)
    requires n != m && '/' !in n && '/' !in m
    requires InSubtree(Child(d, n), p)
    ensures !InSubtree(Child(d, m), p)
  {
    ChildSegment(d, n, p);
    ChildSegment(d, m, p);
  }

  /** A path of the subtree of entry `n` of `d` holds `n` right after
      `d` + "/", followed by the end of the path or a "/". */
  lemma ChildSegment(d: string, n: string, p: string)
    ensures InSubtree(Child(d, n), p) ==>
              |d| + 1 + |n| <= |p| && p[|d| + 1..|d| + 1 + |n|] == n &&
              (|p| == |d| + 1 + |n| || p[|d| + 1 + |n|] == '/')
  {
    var c := Child(d, n);
    if InSubtree(c, p) {
      PrefixOfSubtree(c, p);
      assert p[|d| + 1..|d| + 1 + |n|] == c[|d| + 1..];
      if p != c {
        assert p[|c|] == (c + "/")[|c|];
      }
    }
  }

  /** What lies outside the subtree of a directory lies outside the
      subtree of each of its entries. */
  lemma OutsideChildSubtree(dir: string, name: string, p: string)
    requires !InSubtree(dir, p)
    ensures !InSubtree(Child(dir, name), p)
  {
    if InSubtree(Child(dir, name), p) {
      SubtreeOfChild(dir, name, p);
    }
  }

  /** A path of the subtree of `root` starts with `root`. */
  lemma PrefixOfSubtree(root: string, p: string)
    requires InSubtree(root, p)
    ensures |root| <= |p| && p[..|root|] == root
  {
    if p != root {
      assert (root + "/")[..|root|] == root;
    }
  }

  /** What the re-scan reaches lies strictly below `dir`. */
  lemma {:induction false} BelowInSubtree(fs: Fs, dir: string, files: seq<FileInfo>, p: string)
    requires Below(fs, dir, files, p)
    ensures InSubtree(dir, p) && |p| > |dir|
    decreases Deeper(fs, dir), |files|
  {
    var c := Child(dir, files[0].name);
    ChildInSubtree(dir, files[0].name);
    if files[0].mode == Dir && c in fs.listing && (p == c || Below(fs, c, fs.listing[c], p)) {
      if p != c {
        DeeperShrinks(fs, dir, c);
        BelowInSubtree(fs, c, fs.listing[c], p);
        SubtreeOfChild(dir, files[0].name, p);
      }
    } else {
      BelowInSubtree(fs, dir, files[1..], p);
    }
  }

  /** What the re-scan of `files` reaches avoids the subtree of an entry
      `n` that is not among them. */
  lemma {:induction false} BelowAvoids(fs: Fs, dir: string, files: seq<FileInfo>, n: string, p: string)
    requires '/' !in n && forall i :: 0 <= i < |files| ==> '/' !in files[i].name && files[i].name != n
    requires Below(fs, dir, files, p)
    ensures !InSubtree(Child(dir, n), p)
    decreases |files|
  {
    var c := Child(dir, files[0].name);
    if files[0].mode == Dir && c in fs.listing && (p == c || Below(fs, c, fs.listing[c], p)) {
      if p == c {
        ChildInSubtree(dir, files[0].name);
      } else {
        BelowInSubtree(fs, c, fs.listing[c], p);
      }
      SiblingsDisjoint(dir, files[0].name, n, p);
    } else {
      BelowAvoids(fs, dir, files[1..], n, p);
    }
  }

  /** Whether the re-scan of `dir` can enter entry `f`: a directory that
      can be listed. */
  ghost predicate Enters(fs: Fs, dir: string, f: FileInfo)
  {
    f.mode == Dir && Child(dir, f.name) in fs.listing
  }

  /** The directories the re-scan of `dir` with entries `files` reaches,
      `dir` included. */
  ghost function Reach(fs: Fs, dir: string, files: seq<FileInfo>): iset<string>
  {
    iset p | Reached(fs, dir, files, p)
  }

  /** The same without `dir`. */
  ghost function BelowSet(fs: Fs, dir: string, files: seq<FileInfo>): iset<string>
  {
    iset p | Below(fs, dir, files, p)
  }

  /** Table `t` and events `events` close the set `R` of directories:
      each one the kernel accepts is watched, and each one is the
      directory of exactly one event, none of which is about a directory
      outside `R`. */
  ghost predicate Closes(fs: Fs, t: Table, events: seq<Event>, R: iset<string>)
  {
    (forall p :: p in R && KernelAddWatch(fs, p).Added? ==> Watched(t, p)) &&
    (forall i :: 0 <= i < |events| ==> events[i].dirpath in R) &&
    (forall p :: p in R ==> Sent(events, p)) &&
    DistinctDirs(events)
  }

  /** Closing two disjoint sets one after the other closes their union. */
  lemma ClosesAppend(fs: Fs, t1: Table, e1: seq<Event>, R1: iset<string>, t2: Table, e2: seq<Event>, R2: iset<string>)
    requires Closes(fs, t1, e1, R1) && Closes(fs, t2, e2, R2) && Extends(t2, t1)
    requires forall p :: p in R1 ==> p !in R2
    ensures Closes(fs, t2, e1 + e2, R1 + R2)
  {
    var e := e1 + e2;
    forall p | p in R1 && KernelAddWatch(fs, p).Added?
      ensures Watched(t2, p)
    {
      ExtendsWatched(t1, t2, p);
    }
    forall p | p in R1 + R2
      ensures Sent(e, p)
    {
      if p in R1 {
        var i :| 0 <= i < |e1| && e1[i].dirpath == p;
        assert e[i] == e1[i];
      } else {
        var i :| 0 <= i < |e2| && e2[i].dirpath == p;
        assert e[|e1| + i] == e2[i];
      }
    }
    forall i, j | 0 <= i < j < |e|
      ensures e[i].dirpath != e[j].dirpath
    {
      if i < |e1| && j >= |e1| {
        assert e[i].dirpath in R1 && e[j] == e2[j - |e1|];
      } else if i >= |e1| {
        assert e[i] == e2[i - |e1|] && e[j] == e2[j - |e1|];
      }
    }
    forall i | 0 <= i < |e|
      ensures e[i].dirpath in R1 + R2
    {
      if i >= |e1| {
        assert e[i] == e2[i - |e1|];
      }
    }
  }

  /** One manufactured event for `dir`, watched when the kernel accepts
      it, closes {dir}. */
  lemma ClosesOne(fs: Fs, t: Table, dir: string)
    requires KernelAddWatch(fs, dir).Added? ==> Watched(t, dir)
    ensures Closes(fs, t, [Manufacture(dir)], iset{dir})
  {
    assert [Manufacture(dir)][0].dirpath == dir;
  }

  /** The directories reached from a non-empty list of entries: those
      reached through the first entry, when the re-scan enters it, and
      those reached from the rest. */
  lemma BelowSetSplit(fs: Fs, dir: string, files: seq<FileInfo>)
    requires files != []
    ensures var c := Child(dir, files[0].name);
            BelowSet(fs, dir, files) ==
              (if Enters(fs, dir, files[0]) then Reach(fs, c, fs.listing[c]) else iset{}) + BelowSet(fs, dir, files[1..])
  {
  }

  /** What the entry of `files[0]` reaches is disjoint from what the other
      entries reach. */
  lemma FirstAvoidsRest(fs: Fs, dir: string, files: seq<FileInfo>)
    requires files != [] && WellNamed(files) && Enters(fs, dir, files[0])
    ensures var c := Child(dir, files[0].name);
            forall p :: p in Reach(fs, c, fs.listing[c]) ==> p !in BelowSet(fs, dir, files[1..])
  {
    var c := Child(dir, files[0].name);
    forall j | 0 <= j < |files[1..]|
      ensures '/' !in files[1..][j].name && files[1..][j].name != files[0].name
    {
      assert files[1..][j] == files[j + 1];
    }
    forall p | p in Reach(fs, c, fs.listing[c]) && p in BelowSet(fs, dir, files[1..])
      ensures false
    {
      if p == c {
        ChildInSubtree(dir, files[0].name);
      } else {
        BelowInSubtree(fs, c, fs.listing[c], p);
      }
      BelowAvoids(fs, dir, files[1..], files[0].name, p);
    }
  }

  /** A table with no entry below `dir` that has just had `dir` added has
      no entry below any entry of `dir`. */
  lemma InstalledClearsChildren(fs: Fs, w: Table, dir: string, files: seq<FileInfo>)
    requires NoneBelow(w, dir)
    ensures forall j :: 0 <= j < |files| ==> NoneBelow(Installed(fs, w, dir), Child(dir, files[j].name))
  {
    var w1 := Installed(fs, w, dir);
    forall j, k | 0 <= j < |files| && k in w1
      ensures !InSubtree(Child(dir, files[j].name), w1[k])
    {
      ChildInSubtree(dir, files[j].name);
      if k in w && w1[k] == w[k] {
        OutsideChildSubtree(dir, files[j].name, w[k]);
      } else {
        assert w1[k] == dir;
      }
    }
  }

  /** Re-scanning entry `files[0]` only adds entries below it, so the
      other entries still have nothing below them. */
  lemma RestStaysClear(fs: Fs, w: Table, w': Table, dir: string, files: seq<FileInfo>)
    requires files != [] && WellNamed(files)
    requires forall j :: 0 <= j < |files| ==> NoneBelow(w, Child(dir, files[j].name))
    requires Grown(fs, w, w', Child(dir, files[0].name))
    ensures forall j :: 0 <= j < |files[1..]| ==> NoneBelow(w', Child(dir, files[1..][j].name))
  {
    forall j, k | 0 <= j < |files[1..]| && k in w'
      ensures !InSubtree(Child(dir, files[1..][j].name), w'[k])
    {
      assert files[1..][j] == files[j + 1];
      if !(k in w && w'[k] == w[k]) {
        SiblingsDisjoint(dir, files[0].name, files[j + 1].name, w'[k]);
      }
    }
  }

  /** The re-scan of `dir` closes everything it reaches. */
  lemma {:induction false} WatchNewDirsCloses(fs: Fs, w: Table, dir: string, files: seq<FileInfo>)
    requires Consistent(fs, w) && DistinctWds(fs) && ListingsWellNamed(fs) && WellNamed(files)
    requires NoneBelow(w, dir)
    ensures Closes(fs, WatchNewDirs(fs, w, dir, files).table, WatchNewDirs(fs, w, dir, files).events, Reach(fs, dir, files))
    decreases Deeper(fs, dir), 1, 0
  {
    var w1 := Installed(fs, w, dir);
    InstalledSound(fs, w, dir);
    InstalledClearsChildren(fs, w, dir, files);
    var rest := WatchChildren(fs, w1, dir, files);
    WatchChildrenCloses(fs, w1, dir, files);
    WatchChildrenGrows(fs, w1, dir, files);
    GrownExtends(fs, w1, rest.table, dir);
    if KernelAddWatch(fs, dir).Added? {
      ExtendsWatched(w1, rest.table, dir);
    }
    ClosesOne(fs, rest.table, dir);
    if dir in BelowSet(fs, dir, files) {
      BelowInSubtree(fs, dir, files, dir);
    }
    ClosesAppend(fs, rest.table, [Manufacture(dir)], iset{dir}, rest.table, rest.events, BelowSet(fs, dir, files));
    assert Reach(fs, dir, files) == iset{dir} + BelowSet(fs, dir, files);
  }

  /** The loop of the re-scan, when nothing lies below any of its entries
      yet, closes everything its entries reach. */
  lemma {:induction false} WatchChildrenCloses(fs: Fs, w: Table, dir: string, files: seq<FileInfo>)
    requires Consistent(fs, w) && DistinctWds(fs) && ListingsWellNamed(fs) && WellNamed(files)
    requires forall j :: 0 <= j < |files| ==> NoneBelow(w, Child(dir, files[j].name))
    ensures Closes(fs, WatchChildren(fs, w, dir, files).table, WatchChildren(fs, w, dir, files).events, BelowSet(fs, dir, files))
    decreases Deeper(fs, dir), 0, |files|
  {
    if files == [] {
      assert BelowSet(fs, dir, files) == iset{};
    } else {
      var f := files[0];
      var c := Child(dir, f.name);
      var first := WatchChild(fs, w, dir, f);
      var rest := WatchChildren(fs, first.table, dir, files[1..]);
      assert WatchChildren(fs, w, dir, files) == Effect(rest.table, first.events + rest.events);
      var R1 := if Enters(fs, dir, f) then Reach(fs, c, fs.listing[c]) else iset{};
      ChildInSubtree(dir, f.name);
      assert InSubtree(c, c);
      assert !Watched(w, c);
      if Enters(fs, dir, f) {
        DeeperShrinks(fs, dir, c);
        WatchNewDirsCloses(fs, w, c, fs.listing[c]);
        WatchNewDirsGrows(fs, w, c, fs.listing[c]);
        FirstAvoidsRest(fs, dir, files);
      } else {
        assert first == Effect(w, []);
      }
      RestStaysClear(fs, w, first.table, dir, files);
      WatchChildrenCloses(fs, first.table, dir, files[1..]);
      WatchChildrenGrows(fs, first.table, dir, files[1..]);
      GrownExtends(fs, first.table, rest.table, dir);
      ClosesAppend(fs, first.table, first.events, R1, rest.table, rest.events, BelowSet(fs, dir, files[1..]));
      BelowSetSplit(fs, dir, files);
    }
  }

  /** Race closure, in full: re-scanning a directory with nothing of its
      subtree in the table yet watches every directory it can reach that
      the kernel accepts, at any depth, and sends exactly one manufactured
      event for each directory it reaches and none for any other. */
  lemma WatchNewDirsClosed(fs: Fs, w: Table, dir: string, files: seq<FileInfo>)
    requires Consistent(fs, w) && DistinctWds(fs) && ListingsWellNamed(fs) && WellNamed(files)
    requires NoneBelow(w, dir)
    ensures forall p :: Reached(fs, dir, files, p) && KernelAddWatch(fs, p).Added? ==> Watched(WatchNewDirs(fs, w, dir, files).table, p)
    ensures forall i :: 0 <= i < |WatchNewDirs(fs, w, dir, files).events| ==> Reached(fs, dir, files, WatchNewDirs(fs, w, dir, files).events[i].dirpath)
    ensures forall p :: Reached(fs, dir, files, p) ==> Sent(WatchNewDirs(fs, w, dir, files).events, p)
    ensures DistinctDirs(WatchNewDirs(fs, w, dir, files).events)
  {
    WatchNewDirsCloses(fs, w, dir, files);
  }

  /** Mask tests of processEvent. */
  predicate IsDirChange(m: bv32)
  {
    HasFlag(m, IN_ISDIR) && !HasFlag(m, IN_ATTRIB)
  }

  predicate RemovesDir(m: bv32)
  {
    HasFlag(m, IN_DELETE) || HasFlag(m, IN_MOVED_FROM)
  }

  predicate AddsDir(m: bv32)
  {
    HasFlag(m, IN_CREATE) || HasFlag(m, IN_MOVED_TO)
  }

  /** processEvent dereferences the name of every directory change it
      handles: such an event must carry one. */
  predicate WellFormed(e: Event)
  {
    !HasFlag(e.mask, IN_IGNORED) && IsDirChange(e.mask) ==> e.name.Some?
  }

  /** processEvent: a self-removal drops the subtree and sends nothing; a
      change to a subdirectory first drops its subtree (delete, move out)
      and then re-scans it (create, move in) when it can be listed; every
      event but a self-removal is then forwarded unchanged. */
  ghost function Process(fs: Fs, w: Table, e: Event): (r: Effect)
    requires WellFormed(e)
    ensures HasFlag(e.mask, IN_IGNORED) ==> r.events == []
    ensures !HasFlag(e.mask, IN_IGNORED) ==> |r.events| >= 1 && r.events[|r.events| - 1] == e
  {
    if HasFlag(e.mask, IN_IGNORED) then Effect(Prune(w, e.dirpath), [])
    else if IsDirChange(e.mask) then
      var full := Child(e.dirpath, e.name.value);
      var w1 := if RemovesDir(e.mask) then Prune(w, full) else w;
      var added :=
        if AddsDir(e.mask) && full in fs.listing then WatchNewDirs(fs, w1, full, fs.listing[full])
        else Effect(w1, []);
      Effect(added.table, added.events + [e])
    else Effect(w, [e])
  }

  /** A self-removal sends nothing and leaves no entry in the subtree of
      its directory; entries outside it stay; handling the same
      notification again changes nothing. */
  lemma ProcessIgnored(fs: Fs, w: Table, e: Event)
    requires HasFlag(e.mask, IN_IGNORED)
    ensures Process(fs, w, e).events == []
    ensures forall k :: k in Process(fs, w, e).table ==> !InSubtree(e.dirpath, Process(fs, w, e).table[k])
    ensures forall k :: k in w && !InSubtree(e.dirpath, w[k]) ==> k in Process(fs, w, e).table && Process(fs, w, e).table[k] == w[k]
    ensures Process(fs, Process(fs, w, e).table, e) == Process(fs, w, e)
  {
    PruneExact(w, e.dirpath);
    PruneIdempotent(w, e.dirpath);
  }

  /** An event on a file, or an attribute change, is forwarded as it is
      and leaves the table alone. */
  lemma ProcessOther(fs: Fs, w: Table, e: Event)
    requires !HasFlag(e.mask, IN_IGNORED) && !IsDirChange(e.mask)
    ensures Process(fs, w, e).table == w
    ensures Process(fs, w, e).events == [e]
  {
  }

  /** The table before the re-scan of a directory change: its subtree
      dropped on a delete or move-out. */
  function Unwatched(w: Table, e: Event, full: string): Table
  {
    if RemovesDir(e.mask) then Prune(w, full) else w
  }

  /** The re-scan part of a directory change: the watches and the
      synthesized events of a create or move-in of a listable directory,
      nothing otherwise. */
  ghost function Rescan(fs: Fs, w: Table, e: Event, full: string): Effect
  {
    var w1 := Unwatched(w, e, full);
    if AddsDir(e.mask) && full in fs.listing then WatchNewDirs(fs, w1, full, fs.listing[full])
    else Effect(w1, [])
  }

  lemma ProcessDirChangeUnfold(fs: Fs, w: Table, e: Event, full: string)
    requires WellFormed(e) && !HasFlag(e.mask, IN_IGNORED) && IsDirChange(e.mask)
    requires full == Child(e.dirpath, e.name.value)
    ensures Process(fs, w, e) == Effect(Rescan(fs, w, e, full).table, Rescan(fs, w, e, full).events + [e])
  {
  }

  /** A change to subdirectory `full` of a consistent table keeps it
      consistent and keeps every entry outside the subtree of `full`; a
      delete or move-out that does not also add the directory back leaves
      nothing of that subtree. */
  lemma ProcessDirChangeTable(fs: Fs, w: Table, e: Event, full: string)
    requires WellFormed(e) && !HasFlag(e.mask, IN_IGNORED) && IsDirChange(e.mask)
    requires full == Child(e.dirpath, e.name.value)
    requires Consistent(fs, w) && DistinctWds(fs)
    ensures Consistent(fs, Process(fs, w, e).table)
    ensures forall k :: k in w && !InSubtree(full, w[k]) ==> k in Process(fs, w, e).table && Process(fs, w, e).table[k] == w[k]
    ensures RemovesDir(e.mask) && !AddsDir(e.mask) ==> Process(fs, w, e).table == Prune(w, full)
    ensures RemovesDir(e.mask) && !AddsDir(e.mask) ==> forall k :: k in Process(fs, w, e).table ==> !InSubtree(full, Process(fs, w, e).table[k])
  {
    ProcessDirChangeUnfold(fs, w, e, full);
    var w1 := Unwatched(w, e, full);
    PruneExact(w, full);
    PruneIdempotent(w, full);
    assert Consistent(fs, w1);
    assert Extends(w1, Prune(w, full));
    if AddsDir(e.mask) && full in fs.listing {
      WatchNewDirsSound(fs, w1, full, fs.listing[full]);
    }
  }

  /** A create or move-in of a listable directory leaves it watched when
      the kernel accepts it, together with each of its listable
      subdirectories the kernel accepts. */
  lemma ProcessDirChangeWatches(fs: Fs, w: Table, e: Event, full: string)
    requires WellFormed(e) && !HasFlag(e.mask, IN_IGNORED) && IsDirChange(e.mask)
    requires full == Child(e.dirpath, e.name.value)
    requires Consistent(fs, w) && DistinctWds(fs)
    requires AddsDir(e.mask) && full in fs.listing
    ensures KernelAddWatch(fs, full).Added? ==> Watched(Process(fs, w, e).table, full)
    ensures forall i :: 0 <= i < |fs.listing[full]| && fs.listing[full][i].mode == Dir
                        && Child(full, fs.listing[full][i].name) in fs.listing
                        && KernelAddWatch(fs, Child(full, fs.listing[full][i].name)).Added?
                        ==> Watched(Process(fs, w, e).table, Child(full, fs.listing[full][i].name))
  {
    ProcessDirChangeUnfold(fs, w, e, full);
    var w1 := Unwatched(w, e, full);
    assert Consistent(fs, w1);
    WatchNewDirsSound(fs, w1, full, fs.listing[full]);
  }

  /** Race closure for a create or move-in: when nothing of the new
      directory's subtree is in the table (always so after a move that
      also drops it), every directory reachable from it that the kernel
      accepts ends up watched, at any depth, and the synthesized events
      before the forwarded one name each reachable directory exactly once
      and no other. */
  lemma ProcessDirChangeClosed(fs: Fs, w: Table, e: Event, full: string)
    requires WellFormed(e) && !HasFlag(e.mask, IN_IGNORED) && IsDirChange(e.mask)
    requires full == Child(e.dirpath, e.name.value)
    requires Consistent(fs, w) && DistinctWds(fs) && ListingsWellNamed(fs)
    requires AddsDir(e.mask) && full in fs.listing
    requires RemovesDir(e.mask) || NoneBelow(w, full)
    ensures Process(fs, w, e).events == Rescan(fs, w, e, full).events + [e]
    ensures forall p :: Reached(fs, full, fs.listing[full], p) && KernelAddWatch(fs, p).Added? ==> Watched(Process(fs, w, e).table, p)
    ensures forall i :: 0 <= i < |Rescan(fs, w, e, full).events| ==> Reached(fs, full, fs.listing[full], Rescan(fs, w, e, full).events[i].dirpath)
    ensures forall p :: Reached(fs, full, fs.listing[full], p) ==> Sent(Rescan(fs, w, e, full).events, p)
    ensures DistinctDirs(Rescan(fs, w, e, full).events)
  {
    ProcessDirChangeUnfold(fs, w, e, full);
    var w1 := Unwatched(w, e, full);
    PruneExact(w, full);
    assert Consistent(fs, w1);
    assert NoneBelow(w1, full);
    WatchNewDirsClosed(fs, w1, full, fs.listing[full]);
  }

  /** Ordering: a directory change sends the synthesized events of its
      re-scan, all for the subtree of `full` and the first for `full`
      itself when it is re-scanned, and then the forwarded event, last. */
  lemma ProcessDirChangeOrder(fs: Fs, w: Table, e: Event, full: string)
    requires WellFormed(e) && !HasFlag(e.mask, IN_IGNORED) && IsDirChange(e.mask)
    requires full == Child(e.dirpath, e.name.value)
    requires Consistent(fs, w)
    ensures Process(fs, w, e).events == Rescan(fs, w, e, full).events + [e]
    ensures SynthesizedBelow(Rescan(fs, w, e, full).events, full)
    ensures AddsDir(e.mask) && full in fs.listing ==> Rescan(fs, w, e, full).events[0] == Manufacture(full)
  {
    ProcessDirChangeUnfold(fs, w, e, full);
    var w1 := Unwatched(w, e, full);
    assert Consistent(fs, w1);
    if AddsDir(e.mask) && full in fs.listing {
      WatchNewDirsGrows(fs, w1, full, fs.listing[full]);
    }
  }

  /** Every event keeps the table consistent with the kernel. */
  lemma ProcessConsistent(fs: Fs, w: Table, e: Event)
    requires WellFormed(e) && Consistent(fs, w)
    ensures Consistent(fs, Process(fs, w, e).table)
  {
    if !HasFlag(e.mask, IN_IGNORED) && IsDirChange(e.mask) {
      var full := Child(e.dirpath, e.name.value);
      var w1 := if RemovesDir(e.mask) then Prune(w, full) else w;
      assert Consistent(fs, w1);
      if AddsDir(e.mask) && full in fs.listing {
        WatchNewDirsGrows(fs, w1, full, fs.listing[full]);
      }
    }
  }

  /** One entry as filepath.Walk hands it to walkAddWatch: its path, its
      lstat information, and the error Walk met on it, if any. */
  datatype Visit = Visit(path: string, info: FileInfo, err: Option<Errno>)

  /** A table, the events sent, and the error that ended the walk. */
  datatype Outcome = Outcome(table: Table, events: seq<Event>, err: Option<Errno>)

  /** walkAddWatch: an error from the walk is handed back; a directory
      gets its manufactured event first (when initial events are wanted)
      and then its watch, whose error is handed back; any other entry is
      skipped. */
  function WalkStep(fs: Fs, sendOnInitial: bool, w: Table, v: Visit): (r: Outcome)
    ensures v.err.Some? ==> r == Outcome(w, [], v.err)
    ensures v.err.None? && v.info.mode == Dir ==>
              (r.err.None? <==> KernelAddWatch(fs, v.path).Added?) &&
              r.table == Installed(fs, w, v.path) &&
              r.events == (if sendOnInitial then [Manufacture(v.path)] else [])
    ensures v.err.None? && v.info.mode != Dir ==> r == Outcome(w, [], None)
  {
    if v.err.Some? then Outcome(w, [], v.err)
    else if v.info.mode == Dir then
      var sent := if sendOnInitial then [Manufacture(v.path)] else [];
      match AddWatch(fs, w, v.path)
      case Ok(t) => Outcome(t, sent, None)
      case Err(errno) => Outcome(w, sent, Some(errno))
    else Outcome(w, [], None)
  }

  /** filepath.Walk over the entries in the order it visits them: it
      stops at the first entry whose step returns an error. */
  function Walk(fs: Fs, sendOnInitial: bool, w: Table, visits: seq<Visit>): (r: Outcome)
    ensures w.Keys <= r.table.Keys
    ensures |r.events| <= |visits|
    ensures visits == [] ==> r == Outcome(w, [], None)
    decreases |visits|
  {
    if visits == [] then Outcome(w, [], None)
    else
      var step := WalkStep(fs, sendOnInitial, w, visits[0]);
      if step.err.Some? then step
      else
        var rest := Walk(fs, sendOnInitial, step.table, visits[1..]);
        Outcome(rest.table, step.events + rest.events, rest.err)
  }

  /** The walk from entry `i` on: entry `i`'s step, then the rest of the
      walk unless the step failed. */
  lemma WalkStepAt(fs: Fs, sendOnInitial: bool, w: Table, visits: seq<Visit>, i: nat)
    requires i < |visits|
    ensures var step := WalkStep(fs, sendOnInitial, w, visits[i]);
            var rest := Walk(fs, sendOnInitial, step.table, visits[i + 1..]);
            Walk(fs, sendOnInitial, w, visits[i..]) ==
              if step.err.Some? then step else Outcome(rest.table, step.events + rest.events, rest.err)
  {
    assert visits[i..] != [] && visits[i..][0] == visits[i] && visits[i..][1..] == visits[i + 1..];
  }

  /** Reference definition: a manufactured event for every directory
      entry, in visiting order. */
  function DirEvents(visits: seq<Visit>): seq<Event>
  {
    if visits == [] then []
    else (if visits[0].info.mode == Dir then [Manufacture(visits[0].path)] else []) + DirEvents(visits[1..])
  }

  /** The initial walk on a consistent table keeps it consistent and only
      extends it; when it finishes without error every directory it
      visited is watched, and the events sent are one manufactured event
      per directory, in visiting order, or none when initial events are
      not wanted. */
  lemma {:induction false} WalkSound(fs: Fs, sendOnInitial: bool, w: Table, visits: seq<Visit>)
    requires Consistent(fs, w) && DistinctWds(fs)
    ensures Consistent(fs, Walk(fs, sendOnInitial, w, visits).table)
    ensures Extends(Walk(fs, sendOnInitial, w, visits).table, w)
    ensures Walk(fs, sendOnInitial, w, visits).err.None? ==>
              forall i :: 0 <= i < |visits| && visits[i].info.mode == Dir ==> Watched(Walk(fs, sendOnInitial, w, visits).table, visits[i].path)
    ensures Walk(fs, sendOnInitial, w, visits).err.None? ==>
              Walk(fs, sendOnInitial, w, visits).events == (if sendOnInitial then DirEvents(visits) else [])
    decreases |visits|
  {
    if visits != [] {
      var v := visits[0];
      var step := WalkStep(fs, sendOnInitial, w, v);
      InstalledSound(fs, w, v.path);
      if step.err.None? {
        WalkSound(fs, sendOnInitial, step.table, visits[1..]);
        var r := Walk(fs, sendOnInitial, w, visits);
        var rest := Walk(fs, sendOnInitial, step.table, visits[1..]);
        assert r == Outcome(rest.table, step.events + rest.events, rest.err);
        if r.err.None? {
          forall i | 0 <= i < |visits| && visits[i].info.mode == Dir
            ensures Watched(r.table, visits[i].path)
          {
            if i == 0 {
              ExtendsWatched(step.table, r.table, v.path);
            } else {
              assert visits[i] == visits[1..][i - 1];
            }
          }
        }
      }
    }
  }
}
