/** The watcher's mutable state and the operations of package
    recursivedirwatch that change it. The package keeps the table, the
    channel and the initial-events flag in package variables; here they
    are the fields of one instance. The channel is the sequence of events
    sent so far. */
module DirWatch {
  import opened Wrappers
  import opened Events
  import opened Fs
  import opened Masks
  import opened WatchTable
  import opened Reconcile

  class Watcher {
    /** Watch descriptor -> absolute path of the watched directory. */
    var watches: Table
    /** The order in which `range` visits the keys of `watches`. */
    var order: seq<int>
    /** Every event sent on the channel, oldest first. */
    var out: seq<Event>
    /** Whether the initial walk sends a manufactured event per directory. */
    const sendOnInitial: bool

    ghost predicate Valid()
      reads this
    {
      RangeOrder(watches, order)
    }

    constructor (sendOnInitial: bool)
      ensures Valid()
      ensures watches == map[] && out == [] && this.sendOnInitial == sendOnInitial
    {
      watches := map[];
      order := [];
      out := [];
      this.sendOnInitial := sendOnInitial;
    }

    /** addWatch: the table gains the kernel's descriptor for `path`, or
        is left alone and the kernel's error is returned. */
    method AddWatch(fs: Fs, path: string) returns (err: Option<Errno>)
      requires Valid()
      modifies this
      ensures Valid()
      ensures Reconcile.AddWatch(fs, old(watches), path).Ok? ==>
                watches == Reconcile.AddWatch(fs, old(watches), path).value && err == None
      ensures Reconcile.AddWatch(fs, old(watches), path).Err? ==>
                watches == old(watches) && err == Some(Reconcile.AddWatch(fs, old(watches), path).error)
      ensures out == old(out)
    {
      match KernelAddWatch(fs, path)
      case Added(wd) =>
        if wd !in watches {
          order := order + [wd];
        }
        watches := watches[wd := path];
        return None;
      case Refused(errno) =>
        return Some(errno);
    }

    /** deleteWatches: ranges over the table and drops every entry of the
        subtree of `base`; the kernel's answer to removing the watch is
        ignored, so the kernel is not part of the state here. */
    method DeleteWatches(base: string)
      requires Valid()
      modifies this
      ensures Valid()
      ensures watches == Prune(old(watches), base)
      ensures out == old(out)
    {
      var keys := order;
      var kept: seq<int> := [];
      var i := 0;
      while i < |keys|
        invariant 0 <= i <= |keys|
        invariant RangeOrder(old(watches), keys)
        invariant forall k :: k in watches ==> k in old(watches) && watches[k] == old(watches)[k]
        invariant forall k :: k in old(watches) && !(k in keys[..i] && InSubtree(base, old(watches)[k])) ==> k in watches
        invariant forall k :: k in keys[..i] && k in watches ==> !InSubtree(base, watches[k]) && k in kept
        invariant forall j :: 0 <= j < |kept| ==> kept[j] in watches && !InSubtree(base, watches[kept[j]])
        invariant out == old(out)
      {
        var wd := keys[i];
        if wd in watches {
          if InSubtree(base, watches[wd]) {
            watches := watches - {wd};
          } else {
            kept := kept + [wd];
          }
        }
        assert keys[..i + 1] == keys[..i] + [wd];
        i := i + 1;
      }
      assert keys[..i] == keys;
      order := kept;
      forall k | k in old(watches) && InSubtree(base, old(watches)[k])
        ensures k !in watches
      {
        assert k in keys[..i];
      }
      PruneExact(old(watches), base);
      assert forall k :: k in watches <==> k in Prune(old(watches), base);
      assert forall k :: k in watches ==> watches[k] == Prune(old(watches), base)[k];
      assert watches == Prune(old(watches), base);
    }

    /** walkAddWatch for one visited entry. As written it sends the
        manufactured event for a directory before asking for its watch. */
    method WalkAddWatch(fs: Fs, v: Visit) returns (err: Option<Errno>)
      requires Valid()
      modifies this
      ensures Valid()
      ensures watches == WalkStep(fs, sendOnInitial, old(watches), v).table
      ensures out == old(out) + WalkStep(fs, sendOnInitial, old(watches), v).events
      ensures err == WalkStep(fs, sendOnInitial, old(watches), v).err
    {
      if v.err.Some? {
        return v.err;
      }
      if v.info.mode == Dir {
        if sendOnInitial {
          out := out + [Manufacture(v.path)];
        }
        err := AddWatch(fs, v.path);
        return;
      }
      return None;
    }

    /** What is left of the walk, `rest`, once `sent` has been sent,
        completes the whole walk `total` begun when `sent0` had been sent. */
    static ghost predicate Completes(rest: Outcome, sent: seq<Event>, total: Outcome, sent0: seq<Event>)
    {
      rest.table == total.table && rest.err == total.err && sent + rest.events == sent0 + total.events
    }

    /** One visit of the walk keeps the rest of the walk completing the
        whole one, or, when its step fails, ends the whole walk there. */
    static lemma WalkAdvances(fs: Fs, sendOnInitial: bool, w: Table, visits: seq<Visit>, i: nat,
                              sent: seq<Event>, total: Outcome, sent0: seq<Event>)
      requires i < |visits|
      requires Completes(Walk(fs, sendOnInitial, w, visits[i..]), sent, total, sent0)
      ensures var step := WalkStep(fs, sendOnInitial, w, visits[i]);
              if step.err.Some? then
                step.table == total.table && step.err == total.err && sent + step.events == sent0 + total.events
              else
                Completes(Walk(fs, sendOnInitial, step.table, visits[i + 1..]), sent + step.events, total, sent0)
    {
      WalkStepAt(fs, sendOnInitial, w, visits, i);
      var step := WalkStep(fs, sendOnInitial, w, visits[i]);
      var rest := Walk(fs, sendOnInitial, step.table, visits[i + 1..]);
      assert sent + step.events + rest.events == sent + (step.events + rest.events);
    }

    /** filepath.Walk(basedir, walkAddWatch) over the entries in the order
        the walk visits them; the first error ends the walk. */
    method InitialWalk(fs: Fs, visits: seq<Visit>) returns (err: Option<Errno>)
      requires Valid()
      modifies this
      ensures Valid()
      ensures watches == Walk(fs, sendOnInitial, old(watches), visits).table
      ensures out == old(out) + Walk(fs, sendOnInitial, old(watches), visits).events
      ensures err == Walk(fs, sendOnInitial, old(watches), visits).err
    {
      var i := 0;
      while i < |visits|
        invariant 0 <= i <= |visits|
        invariant Valid()
        invariant Completes(Walk(fs, sendOnInitial, watches, visits[i..]), out,
                            Walk(fs, sendOnInitial, old(watches), visits), old(out))
      {
        ghost var before := out;
        ghost var wBefore := watches;
        err := WalkAddWatch(fs, visits[i]);
        WalkAdvances(fs, sendOnInitial, wBefore, visits, i, before,
                     Walk(fs, sendOnInitial, old(watches), visits), old(out));
        if err.Some? {
          return;
        }
        i := i + 1;
      }
      assert visits[i..] == [];
      return None;
    }

    /** watchNewDirs: watch `dir` (its error is ignored), send its
        manufactured event, then descend into every entry that is a
        directory no table entry names yet and that can be listed. */
    method WatchNewDirs(fs: Fs, dir: string, files: seq<FileInfo>)
      requires Valid()
      modifies this
      ensures Valid()
      ensures watches == Reconcile.WatchNewDirs(fs, old(watches), dir, files).table
      ensures out == old(out) + Reconcile.WatchNewDirs(fs, old(watches), dir, files).events
      decreases Deeper(fs, dir), 1
    {
      var ignored := AddWatch(fs, dir);
      out := out + [Manufacture(dir)];
      WatchEntries(fs, dir, files);
    }

    /** The loop of watchNewDirs over the entries of `dir`: descend into
        every entry that is a directory no table entry names yet and that
        can be listed. */
    method WatchEntries(fs: Fs, dir: string, files: seq<FileInfo>)
      requires Valid()
      modifies this
      ensures Valid()
      ensures watches == WatchChildren(fs, old(watches), dir, files).table
      ensures out == old(out) + WatchChildren(fs, old(watches), dir, files).events
      decreases Deeper(fs, dir), 0
    {
      var i := 0;
      while i < |files|
        invariant 0 <= i <= |files|
        invariant Valid()
        invariant WatchChildren(fs, watches, dir, files[i..]).table == WatchChildren(fs, old(watches), dir, files).table
        invariant out + WatchChildren(fs, watches, dir, files[i..]).events ==
                  old(out) + WatchChildren(fs, old(watches), dir, files).events
      {
        var f := files[i];
        ghost var wBefore := watches;
        ghost var oBefore := out;
        WatchChildrenStep(fs, wBefore, dir, files, i);
        if f.mode == Dir {
          var path := dir + "/" + f.name;
          var key := MapGetKey(watches, order, path);
          if key.None? && path in fs.listing {
            ChildInSubtree(dir, f.name);
            DeeperShrinks(fs, dir, path);
            WatchNewDirs(fs, path, fs.listing[path]);
          }
        }
        ghost var step := WatchChild(fs, wBefore, dir, f);
        assert watches == step.table && out == oBefore + step.events;
        ghost var rest := WatchChildren(fs, watches, dir, files[i + 1..]);
        assert out + rest.events == oBefore + (step.events + rest.events);
        i := i + 1;
      }
      assert files[i..] == [];
    }

    /** processEvent: a self-removal drops the subtree of its directory;
        a change to a subdirectory drops its subtree (delete, move out)
        and re-scans it (create, move in; skipped when it cannot be
        listed); every event but a self-removal is then sent on. */
    method ProcessEvent(fs: Fs, e: Event)
      requires Valid() && WellFormed(e)
      modifies this
      ensures Valid()
      ensures watches == Process(fs, old(watches), e).table
      ensures out == old(out) + Process(fs, old(watches), e).events
    {
      if HasFlag(e.mask, IN_IGNORED) {
        DeleteWatches(e.dirpath);
      } else {
        if HasFlag(e.mask, IN_ISDIR) && !HasFlag(e.mask, IN_ATTRIB) {
          var full := e.dirpath + "/" + e.name.value;
          ProcessDirChangeUnfold(fs, old(watches), e, full);
          if HasFlag(e.mask, IN_DELETE) || HasFlag(e.mask, IN_MOVED_FROM) {
            DeleteWatches(full);
          }
          if HasFlag(e.mask, IN_CREATE) || HasFlag(e.mask, IN_MOVED_TO) {
            if full in fs.listing {
              WatchNewDirs(fs, full, fs.listing[full]);
            }
          }
        }
        out := out + [e];
      }
    }
  }
}
