/** A worked example of the watcher: root "/a" holding "/a/b";
    "/a/b/c/d/e" appears in one burst, and later "/a/b" is deleted. */
module Scenario {
  import opened Wrappers
  import opened Events
  import opened Fs
  import opened Masks
  import opened WatchTable
  import opened Reconcile

  /** The filesystem after the burst: three new nested directories,
      each of which the kernel accepts under the next descriptor. */
  const Burst := Fs(
    map["/a/b/c" := [FileInfo("d", Dir, 4096, "")],
        "/a/b/c/d" := [FileInfo("e", Dir, 4096, "")],
        "/a/b/c/d/e" := []],
    map["/a" := Added(1), "/a/b" := Added(2), "/a/b/c" := Added(3),
        "/a/b/c/d" := Added(4), "/a/b/c/d/e" := Added(5)])

  /** The one creation record for "c" in "/a/b". */
  const Created := Event("/a/b", IN_CREATE | IN_ISDIR, 0, Some("c"))

  /** The deletion record for "b" in "/a". */
  const Deleted := Event("/a", IN_DELETE | IN_ISDIR, 0, Some("b"))

  const W0: Table := map[1 := "/a", 2 := "/a/b"]
  const W3: Table := W0[3 := "/a/b/c"]
  const W4: Table := W3[4 := "/a/b/c/d"]
  const W5: Table := W4[5 := "/a/b/c/d/e"]

  lemma Leaf()
    ensures WatchNewDirs(Burst, W4, "/a/b/c/d/e", []) == Effect(W5, [Manufacture("/a/b/c/d/e")])
  {
    assert Installed(Burst, W4, "/a/b/c/d/e") == W5;
  }

  lemma Middle()
    ensures WatchNewDirs(Burst, W3, "/a/b/c/d", Burst.listing["/a/b/c/d"]) ==
            Effect(W5, [Manufacture("/a/b/c/d"), Manufacture("/a/b/c/d/e")])
  {
    assert Installed(Burst, W3, "/a/b/c/d") == W4;
    assert Child("/a/b/c/d", "e") == "/a/b/c/d/e";
    assert !Watched(W4, "/a/b/c/d/e");
    Leaf();
  }

  lemma Top()
    ensures WatchNewDirs(Burst, W0, "/a/b/c", Burst.listing["/a/b/c"]) ==
            Effect(W5, [Manufacture("/a/b/c"), Manufacture("/a/b/c/d"), Manufacture("/a/b/c/d/e")])
  {
    var d := FileInfo("d", Dir, 4096, "");
    assert Burst.listing["/a/b/c"] == [d];
    assert Installed(Burst, W0, "/a/b/c") == W3;
    assert Child("/a/b/c", "d") == "/a/b/c/d";
    assert !Watched(W3, "/a/b/c/d");
    assert Descends(Burst, W3, "/a/b/c", d);
    Middle();
    assert WatchChild(Burst, W3, "/a/b/c", d) == Effect(W5, [Manufacture("/a/b/c/d"), Manufacture("/a/b/c/d/e")]);
    assert [d][1..] == [];
    assert WatchChildren(Burst, W3, "/a/b/c", [d]) == Effect(W5, [Manufacture("/a/b/c/d"), Manufacture("/a/b/c/d/e")]);
  }

  /** The creation record leaves all three new directories watched, each
      with one synthesized event, parent before child, and forwards the
      record last. */
  lemma BurstIsClosed()
    ensures Process(Burst, W0, Created) ==
            Effect(W5, [Manufacture("/a/b/c"), Manufacture("/a/b/c/d"), Manufacture("/a/b/c/d/e"), Created])
  {
    assert Child("/a/b", "c") == "/a/b/c";
    ProcessDirChangeUnfold(Burst, W0, Created, "/a/b/c");
    CreatedRescan();
  }

  /** The creation record re-scans "/a/b/c" on the table as it was. */
  lemma CreatedRescan()
    ensures Rescan(Burst, W0, Created, "/a/b/c") ==
            Effect(W5, [Manufacture("/a/b/c"), Manufacture("/a/b/c/d"), Manufacture("/a/b/c/d/e")])
  {
    assert !RemovesDir(Created.mask) && AddsDir(Created.mask);
    assert Unwatched(W0, Created, "/a/b/c") == W0;
    assert "/a/b/c" in Burst.listing;
    Top();
  }

  /** Deleting "/a/b" afterwards drops the four entries below "/a" and
      forwards only the deletion record. */
  lemma DeleteDropsSubtree()
    ensures Process(Burst, W5, Deleted) == Effect(map[1 := "/a"], [Deleted])
  {
    assert Child("/a", "b") == "/a/b";
    ProcessDirChangeUnfold(Burst, W5, Deleted, "/a/b");
    assert !AddsDir(Deleted.mask) && RemovesDir(Deleted.mask);
    PrunedB();
  }

  /** Of the five entries only "/a" lies outside the subtree of "/a/b". */
  lemma PrunedB()
    ensures Prune(W5, "/a/b") == map[1 := "/a"]
  {
    assert !InSubtree("/a/b", "/a");
    assert InSubtree("/a/b", "/a/b") && InSubtree("/a/b", "/a/b/c");
    assert InSubtree("/a/b", "/a/b/c/d") && InSubtree("/a/b", "/a/b/c/d/e");
  }
}
