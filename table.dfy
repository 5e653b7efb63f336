/** The watch table: watch descriptor -> absolute directory path, and the
    two ways of removing a directory's entries from it. */
module WatchTable {
  import opened Wrappers

  /** Go's `map[wd]string`. */
  type Table = map<int, string>

  /** isSubdir as written: strings.HasPrefix(child, parent). */
  function IsSubdir(parent: string, child: string): (b: bool)
    ensures b <==> |parent| <= |child| && child[..|parent|] == parent
  {
    parent <= child
  }

  /** The directory `root` itself or anything below it: what
      deleteWatches is documented to remove. */
  function InSubtree(root: string, path: string): (b: bool)
    ensures b ==> IsSubdir(root, path)
    ensures b <==> |root| <= |path| && path[..|root|] == root && (|path| == |root| || path[|root|] == '/')
  {
    path == root || root + "/" <= path
  }

  /** The entries deleteWatches keeps as written: those whose path does
      not start with `base`. */
  function PruneAsWritten(w: Table, base: string): (r: Table)
    ensures r.Keys <= w.Keys
  {
    map k | k in w && !IsSubdir(base, w[k]) :: w[k]
  }

  /** The entries deleteWatches keeps once the subtree test is the
      intended one: those whose path is not `base` or below it. */
  function Prune(w: Table, base: string): (r: Table)
    ensures r.Keys <= w.Keys
  {
    map k | k in w && !InSubtree(base, w[k]) :: w[k]
  }

  /** A table that agrees with `w` on every key of `w`. */
  ghost predicate Extends(w': Table, w: Table)
  {
    forall k :: k in w ==> k in w' && w'[k] == w[k]
  }

  /** As written, deleteWatches removes exactly the entries whose path
      has `base` as a plain string prefix; every other entry is kept
      unchanged. */
  lemma PruneAsWrittenExact(w: Table, base: string)
    ensures forall k :: k in w && IsSubdir(base, w[k]) ==> k !in PruneAsWritten(w, base)
    ensures forall k :: k in w && !IsSubdir(base, w[k]) ==> k in PruneAsWritten(w, base) && PruneAsWritten(w, base)[k] == w[k]
  {
  }

  /** With the intended test, deleteWatches removes exactly the entries of
      the subtree of `base`; every other entry is kept unchanged. */
  lemma PruneExact(w: Table, base: string)
    ensures forall k :: k in w && InSubtree(base, w[k]) ==> k !in Prune(w, base)
    ensures forall k :: k in w && !InSubtree(base, w[k]) ==> k in Prune(w, base) && Prune(w, base)[k] == w[k]
  {
  }

  /** After pruning no path of the subtree is left, so pruning again
      changes nothing. */
  lemma PruneIdempotent(w: Table, base: string)
    ensures forall p :: p in Prune(w, base).Values ==> !InSubtree(base, p)
    ensures Prune(Prune(w, base), base) == Prune(w, base)
  {
  }

  /** The same for the plain-prefix version. */
  lemma PruneAsWrittenIdempotent(w: Table, base: string)
    ensures forall p :: p in PruneAsWritten(w, base).Values ==> !IsSubdir(base, p)
    ensures PruneAsWritten(PruneAsWritten(w, base), base) == PruneAsWritten(w, base)
  {
  }

  /** The entries of the subtree of `base`. */
  function SubtreeKeys(w: Table, base: string): set<int>
  {
    set k | k in w && InSubtree(base, w[k])
  }

  /** Deleting a directory whose subtree holds M+1 watched directories
      removes exactly M+1 entries. */
  lemma PruneCount(w: Table, base: string)
    ensures |Prune(w, base)| == |w| - |SubtreeKeys(w, base)|
  {
    assert Prune(w, base).Keys == w.Keys - SubtreeKeys(w, base);
    assert SubtreeKeys(w, base) <= w.Keys;
  }

  /** Pruning only removes entries. */
  lemma PruneShrinks(w: Table, base: string)
    ensures Extends(w, Prune(w, base))
  {
  }

  /** The directory that was `base` plus another character is not in the
      subtree of `base`, but starts with `base`: as written deleteWatches
      drops the watch on "/a/bc" when "/a/b" goes, the intended test
      keeps it. */
  lemma SiblingWithCommonPrefix()
    ensures 2 !in PruneAsWritten(map[1 := "/a", 2 := "/a/bc", 3 := "/a/b/c"], "/a/b")
    ensures Prune(map[1 := "/a", 2 := "/a/bc", 3 := "/a/b/c"], "/a/b") == map[1 := "/a", 2 := "/a/bc"]
  {
    var w := map[1 := "/a", 2 := "/a/bc", 3 := "/a/b/c"];
    assert w[1] == "/a" && w[2] == "/a/bc" && w[3] == "/a/b/c";
    assert IsSubdir("/a/b", "/a/bc");
    assert "/a/b/" <= "/a/b/c" && "/a/bc"[4] != '/';
    assert !InSubtree("/a/b", "/a");
  }

  /** Some key of `w` maps to `path`: the directory is watched. */
  ghost predicate Watched(w: Table, path: string)
  {
    exists k :: k in w && w[k] == path
  }

  /** `order` is an order in which Go's `range` may visit the keys of
      `w`: it lists every key, and nothing that is not a key. */
  ghost predicate RangeOrder(w: Table, order: seq<int>)
  {
    (forall k :: k in w ==> k in order) &&
    (forall i :: 0 <= i < |order| ==> order[i] in w)
  }

  /** mapGetKey: scans the keys in range order and returns the first one
      whose value is `v`; none exactly when no key maps to `v`. */
  method MapGetKey(m: Table, order: seq<int>, v: string) returns (k: Option<int>)
    requires RangeOrder(m, order)
    ensures k.Some? ==> k.value in m && m[k.value] == v
    ensures k.None? <==> !Watched(m, v)
  {
    var i := 0;
    while i < |order|
      invariant 0 <= i <= |order|
      invariant forall j :: j in order[..i] ==> m[j] != v
    {
      var key := order[i];
      if m[key] == v {
        return Some(key);
      }
      assert order[..i + 1] == order[..i] + [key];
      i := i + 1;
    }
    assert order[..i] == order;
    return None;
  }
}
