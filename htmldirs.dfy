/** The helpers of the htmldirs program (main.go): normalising the base
    directory, choosing which events rebuild a page, the path helpers
    parentdir and makeRelative, the size column, and the entries of one
    directory page. */
module HtmlDirs {
  import opened Wrappers
  import opened Events
  import opened Fs
  import opened WatchTable
  import opened Reconcile

  /** The page written into every directory. */
  const OutputFileName: string := ".directory.html"

  const Kb: nat := 1024
  const Mb: nat := 1024 * 1024
  const Gb: nat := 1024 * 1024 * 1024

  // ---------------------------------------------------------------------
  // The base directory

  /** One trailing slash is removed from the base directory, unless the
      base directory is the root "/". */
  function StripTrailingSlash(basedir: string): (r: string)
    ensures r <= basedir && |basedir| - 1 <= |r|
    ensures |r| < |basedir| <==> |basedir| > 1 && basedir[|basedir| - 1] == '/'
  {
    if |basedir| > 1 && basedir[|basedir| - 1] == '/' then basedir[..|basedir| - 1] else basedir
  }

  /** A directory named with one trailing slash is the directory itself. */
  lemma StripAppendedSlash(d: string)
    requires |d| > 0
    ensures StripTrailingSlash(d + "/") == d
  {
    assert (d + "/")[..|d|] == d;
  }

  /** The root stays the root, and a non-empty name stays non-empty. */
  lemma StripKeepsRoot(d: string)
    ensures StripTrailingSlash("/") == "/"
    ensures |d| > 0 ==> |StripTrailingSlash(d)| > 0
  {
  }

  // ---------------------------------------------------------------------
  // The consumer's event filter

  /** The page of the event's directory is rebuilt unless the event is
      about the page itself. */
  function Regenerates(e: Event): (b: bool)
    ensures !b <==> e.name == Some(OutputFileName)
    ensures IsManufactured(e) ==> b
  {
    e.name.None? || e.name.value != OutputFileName
  }

  /** The directories whose pages the consumer rebuilds for `events`, in
      the order the events arrive. */
  function Regenerated(events: seq<Event>): (dirs: seq<string>)
    ensures |dirs| <= |events|
  {
    if |events| == 0 then []
    else (if Regenerates(events[0]) then [events[0].dirpath] else []) + Regenerated(events[1..])
  }

  /** Writing a page does not rebuild it again; a synthesized event
      always rebuilds its directory's page. */
  lemma FilterOutcomes(dir: string, mask: bv32, cookie: bv32, e: Event)
    ensures !Regenerates(Event(dir, mask, cookie, Some(OutputFileName)))
    ensures IsManufactured(e) ==> Regenerates(e)
    ensures forall name :: name != OutputFileName ==> Regenerates(Event(dir, mask, cookie, Some(name)))
  {
  }

  lemma {:induction false} RegeneratedAppend(a: seq<Event>, b: seq<Event>)
    ensures Regenerated(a + b) == Regenerated(a) + Regenerated(b)
    decreases |a|
  {
    if |a| > 0 {
      assert (a + b)[1..] == a[1..] + b;
      RegeneratedAppend(a[1..], b);
    } else {
      assert a + b == b;
    }
  }

  /** Every event that passes the filter rebuilds its directory. */
  lemma {:induction false} RegeneratedCovers(events: seq<Event>)
    ensures forall i :: 0 <= i < |events| && Regenerates(events[i]) ==> events[i].dirpath in Regenerated(events)
    decreases |events|
  {
    if |events| > 0 {
      RegeneratedCovers(events[1..]);
      forall i | 0 <= i < |events| && Regenerates(events[i])
        ensures events[i].dirpath in Regenerated(events)
      {
        if i > 0 {
          assert events[1..][i - 1] == events[i];
        }
      }
    }
  }

  /** Every directory the re-scan of a new directory reports gets its page
      rebuilt, so a pasted tree is rendered even where no inotify event
      was delivered for it. */
  lemma RescanRegenerates(fs: Fs, w: Table, dir: string, files: seq<FileInfo>)
    requires Consistent(fs, w)
    ensures var events := WatchNewDirs(fs, w, dir, files).events;
            dir in Regenerated(events) &&
            forall i :: 0 <= i < |events| ==> events[i].dirpath in Regenerated(events)
  {
    var events := WatchNewDirs(fs, w, dir, files).events;
    WatchNewDirsGrows(fs, w, dir, files);
    RegeneratedCovers(events);
    assert events[0].dirpath == dir;
  }

  // ---------------------------------------------------------------------
  // parentdir

  /** parentdir: `d` up to and including its last slash at an index above
      0, or "" when there is none. */
  function ParentOf(d: string): (r: string)
    ensures r <= d
    ensures r == "" || (|r| >= 2 && r[|r| - 1] == '/')
    decreases |d|
  {
    if |d| <= 1 then "" else if d[|d| - 1] == '/' then d else ParentOf(d[..|d| - 1])
  }

  /** The parent is a prefix of `d` that ends in the last slash of `d` at
      an index above 0; it is empty exactly when there is no such slash. */
  lemma {:induction false} ParentOfSpec(d: string)
    ensures ParentOf(d) <= d
    ensures ParentOf(d) == "" <==> forall i :: 0 < i < |d| ==> d[i] != '/'
    ensures ParentOf(d) != "" ==> |ParentOf(d)| >= 2 && d[|ParentOf(d)| - 1] == '/'
    ensures forall i :: 0 < i && |ParentOf(d)| <= i < |d| ==> d[i] != '/'
    decreases |d|
  {
    if |d| > 1 && d[|d| - 1] != '/' {
      var p := d[..|d| - 1];
      ParentOfSpec(p);
      assert forall i :: 0 <= i < |p| ==> p[i] == d[i];
    }
  }

  /** The parent of a relative path `q/n` is `q/`, and a path with no
      slash after its first character has no parent. */
  lemma {:induction false} ParentOfChild(q: string, n: string)
    requires |q| >= 1 && forall i :: 0 <= i < |n| ==> n[i] != '/'
    ensures ParentOf(q + "/" + n) == q + "/"
    decreases |n|
  {
    if |n| > 0 {
      var m := n[..|n| - 1];
      assert (q + "/" + n)[..|q + "/" + n| - 1] == q + "/" + m;
      ParentOfChild(q, m);
    }
  }

  /** Taking the parent twice gives the same directory. */
  lemma ParentOfIdempotent(d: string)
    ensures ParentOf(ParentOf(d)) == ParentOf(d)
  {
    ParentOfSpec(d);
    var p := ParentOf(d);
    if p != "" {
      assert p[|p| - 1] == d[|p| - 1];
    }
  }

  /** parentdir as written: a scan from the end for a slash at an index
      above 0. */
  method ParentDir(directory: string) returns (r: string)
    ensures r == ParentOf(directory)
  {
    var i := |directory| - 1;
    assert directory[..i + 1] == directory;
    while i > 0
      invariant -1 <= i < |directory|
      invariant ParentOf(directory[..i + 1]) == ParentOf(directory)
      decreases i
    {
      if directory[i] == '/' {
        return directory[..i + 1];
      }
      assert directory[..i + 1][..i] == directory[..i];
      i := i - 1;
    }
    return "";
  }

  // ---------------------------------------------------------------------
  // makeRelative

  /** `sep` occurs in `s` at index `i`. */
  predicate OccursAt(s: string, sep: string, i: nat)
  {
    i + |sep| <= |s| && s[i..i + |sep|] == sep
  }

  /** strings.Index from index `i` on: the first occurrence of `sep` at or
      after `i`. */
  function IndexFrom(s: string, sep: string, i: nat): (r: Option<nat>)
    requires i <= |s|
    ensures r.Some? ==> i <= r.value && OccursAt(s, sep, r.value)
    ensures forall j :: i <= j && (r.None? || j < r.value) ==> !OccursAt(s, sep, j)
    decreases |s| - i
  {
    if i + |sep| > |s| then None
    else if s[i..i + |sep|] == sep then Some(i)
    else IndexFrom(s, sep, i + 1)
  }

  /** makeRelative as written: the second piece of strings.Split(dirpath,
      basedir + "/"), i.e. the text between the first occurrence of the
      separator and the next one (or the end), or "" when the separator
      does not occur. The result never contains the separator. */
  function MakeRelativeAsWritten(basedir: string, dirpath: string): (r: string)
    ensures IndexFrom(dirpath, basedir + "/", 0).None? ==> r == ""
    ensures IndexFrom(dirpath, basedir + "/", 0).Some? ==>
              var rest := dirpath[IndexFrom(dirpath, basedir + "/", 0).value + |basedir| + 1..];
              r <= rest && (r == rest || OccursAt(rest, basedir + "/", |r|)) &&
              forall k :: 0 <= k < |r| ==> !OccursAt(rest, basedir + "/", k)
    ensures forall j :: !OccursAt(r, basedir + "/", j)
  {
    var sep := basedir + "/";
    match IndexFrom(dirpath, sep, 0)
    case None => ""
    case Some(i) =>
      var rest := dirpath[i + |sep|..];
      match IndexFrom(rest, sep, 0)
      case None => rest
      case Some(j) =>
        assert forall k: nat :: OccursAt(rest[..j], sep, k) ==> OccursAt(rest, sep, k) && k < j by {
          forall k: nat | OccursAt(rest[..j], sep, k)
            ensures OccursAt(rest, sep, k) && k < j
          {
            assert rest[..j][k..k + |sep|] == rest[k..k + |sep|];
          }
        }
        rest[..j]
  }

  /** makeRelative as intended: `dirpath` without the leading `basedir/`,
      or "" when `dirpath` is not below `basedir`. */
  function MakeRelative(basedir: string, dirpath: string): (r: string)
    ensures basedir + "/" <= dirpath ==> basedir + "/" + r == dirpath
    ensures !(basedir + "/" <= dirpath) ==> r == ""
  {
    var sep := basedir + "/";
    if sep <= dirpath then dirpath[|sep|..] else ""
  }

  /** The relative path of a directory below the base directory is the
      path it was built from; the base directory itself has "". */
  lemma MakeRelativeRoundTrip(basedir: string, rel: string)
    ensures MakeRelative(basedir, basedir + "/" + rel) == rel
    ensures MakeRelative(basedir, basedir) == ""
  {
    assert basedir + "/" <= basedir + "/" + rel;
    assert (basedir + "/" + rel)[|basedir + "/"|..] == rel;
    assert |basedir| < |basedir + "/"|;
  }

  /** As written and as intended agree on every directory whose relative
      path does not repeat `basedir/`. */
  lemma MakeRelativeAgrees(basedir: string, rel: string)
    requires forall j :: !OccursAt(rel, basedir + "/", j)
    ensures MakeRelativeAsWritten(basedir, basedir + "/" + rel) == rel
    ensures MakeRelativeAsWritten(basedir, basedir) == MakeRelative(basedir, basedir)
  {
    var sep := basedir + "/";
    var p := sep + rel;
    assert OccursAt(p, sep, 0);
    assert p[|sep|..] == rel;
    assert !OccursAt(basedir, sep, 0);
  }

  /** The separator `/srv/` occurs twice in `/srv/a/srv/b`: as written the
      relative path is cut at the second occurrence. */
  lemma MakeRelativeCutsAsWritten()
    ensures MakeRelativeAsWritten("/srv", "/srv/a/srv/b") == "a"
    ensures MakeRelative("/srv", "/srv/a/srv/b") == "a/srv/b"
  {
    var sep := "/srv" + "/";
    var p := "/srv/a/srv/b";
    assert OccursAt(p, sep, 0);
    var rest := p[5..];
    assert rest == "a/srv/b";
    assert sep == "/srv/";
    assert rest[0..5][0] == 'a';
    assert !OccursAt(rest, sep, 0);
    assert OccursAt(rest, sep, 1);
    assert IndexFrom(rest, sep, 0) == Some(1);
    assert sep <= p;
    assert p[|sep|..] == "a/srv/b";
  }

  // ---------------------------------------------------------------------
  // filesizestr

  function DigitChar(d: nat): (c: char)
    requires d < 10
    ensures '0' <= c <= '9'
  {
    (48 + d) as char
  }

  /** The decimal digits of `n`, without leading zeros. */
  function Digits(n: nat): (s: string)
    ensures |s| >= 1
    ensures forall i :: 0 <= i < |s| ==> '0' <= s[i] <= '9'
    decreases n
  {
    if n < 10 then [DigitChar(n)] else Digits(n / 10) + [DigitChar(n % 10)]
  }

  /** The number a string of decimal digits denotes. */
  function Value(s: string): nat
    requires forall i :: 0 <= i < |s| ==> '0' <= s[i] <= '9'
  {
    if |s| == 0 then 0 else Value(s[..|s| - 1]) * 10 + (s[|s| - 1] as int - 48)
  }

  lemma {:induction false} DigitsRoundTrip(n: nat)
    ensures Value(Digits(n)) == n
    ensures |Digits(n)| > 1 ==> Digits(n)[0] != '0'
    decreases n
  {
    if n >= 10 {
      DigitsRoundTrip(n / 10);
      var s := Digits(n);
      assert s[..|s| - 1] == Digits(n / 10);
    }
  }

  /** fmt's %d of an integer. */
  function Decimal(n: int): (s: string)
    ensures n >= 0 ==> s == Digits(n)
    ensures n < 0 ==> s == "-" + Digits(-n)
  {
    if n < 0 then "-" + Digits(-n) else Digits(n)
  }

  /** math.Ceil(n / d) for a size that float64 holds exactly. */
  function CeilDiv(n: nat, d: nat): (q: nat)
    requires d > 0
  {
    if n % d == 0 then n / d else n / d + 1
  }

  lemma CeilDivBounds(n: nat, d: nat)
    requires d > 0
    ensures CeilDiv(n, d) * d >= n
    ensures n > 0 ==> (CeilDiv(n, d) - 1) * d < n
  {
    var q, r := n / d, n % d;
    assert n == q * d + r;
    if r != 0 {
      assert (q + 1) * d == q * d + d;
    }
  }

  /** filesizestr below one gibibyte: plain bytes below 1024, whole
      kibibytes rounded up below 2^20, whole mebibytes rounded up below
      2^30. */
  function FileSizeStr(n: int): (r: string)
    requires n < Gb
    ensures 0 <= n < Kb ==> forall i :: 0 <= i < |r| ==> '0' <= r[i] <= '9'
    ensures Kb <= n < Mb ==> |r| > 2 && r[|r| - 2..] == "KB" && forall i :: 0 <= i < |r| - 2 ==> '0' <= r[i] <= '9'
    ensures Mb <= n ==> |r| > 2 && r[|r| - 2..] == "MB" && forall i :: 0 <= i < |r| - 2 ==> '0' <= r[i] <= '9'
  {
    if n < Kb then Decimal(n)
    else if n < Mb then Digits(CeilDiv(n, Kb)) + "KB"
    else Digits(CeilDiv(n, Mb)) + "MB"
  }

  /** Below 1024 the size is shown as its exact byte count, with no unit. */
  lemma FileSizeBytes(n: nat)
    requires n < Kb
    ensures forall i :: 0 <= i < |FileSizeStr(n)| ==> '0' <= FileSizeStr(n)[i] <= '9'
    ensures Value(FileSizeStr(n)) == n
  {
    DigitsRoundTrip(n);
  }

  /** A size shown with `unit` denotes the least number of whole units
      that covers it. */
  lemma FileSizeUnit(n: nat, d: nat, unit: string)
    requires Kb <= n < Gb
    requires (n < Mb && d == Kb && unit == "KB") || (Mb <= n && d == Mb && unit == "MB")
    ensures var r := FileSizeStr(n);
            |r| > 2 && r[|r| - 2..] == unit &&
            (forall i :: 0 <= i < |r| - 2 ==> '0' <= r[i] <= '9') &&
            Value(r[..|r| - 2]) * d >= n && (Value(r[..|r| - 2]) - 1) * d < n &&
            1 <= Value(r[..|r| - 2]) <= 1024
  {
    var q := CeilDiv(n, d);
    var r := FileSizeStr(n);
    assert r == Digits(q) + unit;
    UnitText(q, unit);
    CeilDivBounds(n, d);
    CeilDivRange(n, d);
  }

  /** Digits followed by a two-letter unit: the digits are recovered by
      dropping the unit. */
  lemma UnitText(q: nat, unit: string)
    requires |unit| == 2
    ensures var r := Digits(q) + unit;
            |r| > 2 && r[|r| - 2..] == unit && r[..|r| - 2] == Digits(q) &&
            (forall i :: 0 <= i < |r| - 2 ==> '0' <= r[i] <= '9') && Value(r[..|r| - 2]) == q
  {
    var r := Digits(q) + unit;
    assert r[..|r| - 2] == Digits(q);
    assert r[|r| - 2..] == unit;
    DigitsRoundTrip(q);
  }

  /** From one unit to 1024 units, the count of units is 1 to 1024. */
  lemma CeilDivRange(n: nat, d: nat)
    requires d == Kb || d == Mb
    requires d <= n <= 1024 * d
    ensures 1 <= CeilDiv(n, d) <= 1024
  {
    if d == Kb {
      assert 1 <= n / 1024 <= 1024;
    } else {
      assert 1 <= n / 0x10_0000 <= 1024;
    }
  }

  // ---------------------------------------------------------------------
  // buildTemplateInputs

  /** One row of the page: type, name, link, size and modification time. */
  datatype TemplateFile = TemplateFile(filetype: string, name: string, link: string, size: string, lastModified: string)

  /** The page: the relative path of the directory and its rows. */
  datatype TemplateDir = TemplateDir(dirname: string, files: seq<TemplateFile>)

  /** An entry gets a row unless it is a symbolic link or the page itself. */
  predicate Listed(f: FileInfo)
  {
    f.mode != Symlink && f.name != OutputFileName
  }

  /** Every file that gets a row is below one gibibyte. */
  predicate SizesModelled(files: seq<FileInfo>)
  {
    forall i :: 0 <= i < |files| && Listed(files[i]) && files[i].mode != Dir ==> files[i].size < Gb
  }

  /** The link of `name` in the directory with relative path `rel`,
      before URL escaping. */
  function Link(rel: string, name: string): string
  {
    if rel == "" then "/" + name else "/" + rel + "/" + name
  }

  /** The row of a listed entry. */
  function Entry(rel: string, f: FileInfo): (e: TemplateFile)
    requires f.mode != Dir ==> f.size < Gb
    ensures e.link == Link(rel, e.name) && e.lastModified == f.modified
    ensures f.mode == Dir ==> e.filetype == "DIR" && e.name == f.name + "/" && e.size == ""
    ensures f.mode != Dir ==> e.filetype == "FILE" && e.name == f.name && e.size == FileSizeStr(f.size)
  {
    if f.mode == Dir then
      TemplateFile("DIR", f.name + "/", Link(rel, f.name + "/"), "", f.modified)
    else
      TemplateFile("FILE", f.name, Link(rel, f.name), FileSizeStr(f.size), f.modified)
  }

  /** The rows of the listed entries, in the order of the listing. */
  function Entries(rel: string, files: seq<FileInfo>): (r: seq<TemplateFile>)
    requires SizesModelled(files)
    ensures |r| <= |files|
  {
    if |files| == 0 then []
    else (if Listed(files[0]) then [Entry(rel, files[0])] else []) + Entries(rel, files[1..])
  }

  /** The ".." row, linking to the parent of the relative path. */
  function ParentEntry(rel: string, parent: FileInfo): TemplateFile
  {
    TemplateFile("DIR", "../", "/" + ParentOf(rel), "", parent.modified)
  }

  /** buildTemplateInputs with os.Lstat answered by `lstat` (a path absent
      from it cannot be examined). */
  function TemplateInputs(path: string, rel: string, files: seq<FileInfo>,
                          lstat: map<string, FileInfo>): (r: Result<TemplateDir, Errno>)
    requires SizesModelled(files)
    ensures r.Err? <==> rel != "" && ParentOf(path) !in lstat
    ensures r.Ok? ==> r.value.dirname == rel
    ensures r.Ok? && rel == "" ==> r.value.files == Entries(rel, files)
    ensures r.Ok? && rel != "" ==>
              r.value.files == [ParentEntry(rel, lstat[ParentOf(path)])] + Entries(rel, files)
  {
    if rel == "" then Ok(TemplateDir(rel, Entries(rel, files)))
    else if ParentOf(path) !in lstat then Err(ENOENT)
    else Ok(TemplateDir(rel, [ParentEntry(rel, lstat[ParentOf(path)])] + Entries(rel, files)))
  }

  lemma SizesModelledSlice(files: seq<FileInfo>, i: nat, j: nat)
    requires SizesModelled(files) && i <= j <= |files|
    ensures SizesModelled(files[i..j])
  {
    assert forall k :: 0 <= k < j - i ==> files[i..j][k] == files[i + k];
  }

  /** The rows of two listings one after the other are the rows of the
      first followed by the rows of the second: order is kept. */
  lemma {:induction false} EntriesAppend(rel: string, a: seq<FileInfo>, b: seq<FileInfo>)
    requires SizesModelled(a) && SizesModelled(b)
    ensures SizesModelled(a + b)
    ensures Entries(rel, a + b) == Entries(rel, a) + Entries(rel, b)
    decreases |a|
  {
    assert forall k :: 0 <= k < |a + b| ==> (a + b)[k] == if k < |a| then a[k] else b[k - |a|];
    if |a| > 0 {
      assert (a + b)[1..] == a[1..] + b;
      SizesModelledSlice(a, 1, |a|);
      assert a[1..|a|] == a[1..];
      EntriesAppend(rel, a[1..], b);
    } else {
      assert a + b == b;
    }
  }

  /** The rows of one more entry of the listing. */
  lemma EntriesSnoc(rel: string, files: seq<FileInfo>, i: nat)
    requires SizesModelled(files) && i < |files|
    ensures SizesModelled(files[..i]) && SizesModelled(files[..i + 1])
    ensures Entries(rel, files[..i + 1]) ==
            Entries(rel, files[..i]) + if Listed(files[i]) then [Entry(rel, files[i])] else []
  {
    assert files[..i + 1] == files[..i] + [files[i]];
    SizesModelledSlice(files, 0, i);
    SizesModelledSlice(files, i, i + 1);
    assert files[0..i] == files[..i];
    assert files[i..i + 1] == [files[i]];
    EntriesOne(rel, files[i]);
    EntriesAppend(rel, files[..i], [files[i]]);
  }

  /** A single entry gets exactly its own row, or none when it is a
      symbolic link or the page itself. */
  lemma EntriesOne(rel: string, f: FileInfo)
    requires f.mode != Dir && Listed(f) ==> f.size < Gb
    ensures SizesModelled([f])
    ensures Entries(rel, [f]) == if Listed(f) then [Entry(rel, f)] else []
  {
    assert [f][1..] == [];
  }

  /** No row names the page itself or a symbolic link's target, every
      row's link is its name under the relative path, and directory rows
      end in a slash. */
  lemma {:induction false} EntriesShape(rel: string, files: seq<FileInfo>)
    requires SizesModelled(files)
    ensures forall i :: 0 <= i < |Entries(rel, files)| ==>
              var e := Entries(rel, files)[i];
              e.name != OutputFileName && e.link == Link(rel, e.name) &&
              (e.filetype == "DIR" || e.filetype == "FILE") &&
              (e.filetype == "DIR" ==> |e.name| > 0 && e.name[|e.name| - 1] == '/' && e.size == "")
    decreases |files|
  {
    if |files| > 0 {
      EntriesShape(rel, files[1..]);
      var head := if Listed(files[0]) then [Entry(rel, files[0])] else [];
      forall i | 0 <= i < |Entries(rel, files)|
        ensures var e := Entries(rel, files)[i];
                e.name != OutputFileName && e.link == Link(rel, e.name) &&
                (e.filetype == "DIR" || e.filetype == "FILE") &&
                (e.filetype == "DIR" ==> |e.name| > 0 && e.name[|e.name| - 1] == '/' && e.size == "")
      {
        if i < |head| {
          var f := files[0];
          if f.mode == Dir {
            var n := f.name + "/";
            assert n[|n| - 1] == '/';
            assert OutputFileName[|OutputFileName| - 1] == 'l';
          }
        } else {
          assert Entries(rel, files)[i] == Entries(rel, files[1..])[i - |head|];
        }
      }
    }
  }

  /** Links are relative to the base directory, with a leading slash:
      the link of `name` in the directory `rel` below the base is the
      relative path of the entry itself. */
  lemma LinkIsBaseRelative(basedir: string, rel: string, name: string)
    ensures var dirpath := if rel == "" then basedir else basedir + "/" + rel;
            Link(rel, name) == "/" + MakeRelative(basedir, dirpath + "/" + name)
  {
    if rel == "" {
      MakeRelativeRoundTrip(basedir, name);
    } else {
      assert basedir + "/" + rel + "/" + name == basedir + "/" + (rel + "/" + name);
      MakeRelativeRoundTrip(basedir, rel + "/" + name);
    }
  }

  /** buildTemplateInputs as written: the ".." row first when the
      directory is not the base, then a row per listed entry, appended in
      a loop. */
  method BuildTemplateInputs(path: string, relativepath: string, files: seq<FileInfo>,
                             lstat: map<string, FileInfo>) returns (r: Result<TemplateDir, Errno>)
    requires SizesModelled(files)
    ensures r == TemplateInputs(path, relativepath, files, lstat)
  {
    var rows: seq<TemplateFile> := [];
    if relativepath != "" {
      var parentpath := ParentDir(path);
      if parentpath !in lstat {
        return Err(ENOENT);
      }
      var parent := lstat[parentpath];
      var up := ParentDir(relativepath);
      rows := rows + [TemplateFile("DIR", "../", "/" + up, "", parent.modified)];
      assert rows == [ParentEntry(relativepath, lstat[ParentOf(path)])];
    }
    ghost var head := rows;
    var i := 0;
    while i < |files|
      invariant 0 <= i <= |files|
      invariant SizesModelled(files[..i])
      invariant rows == head + Entries(relativepath, files[..i])
    {
      var file := files[i];
      var filename := file.name;
      EntriesSnoc(relativepath, files, i);
      if file.mode != Symlink && filename != OutputFileName {
        var filetype, filesize;
        if file.mode == Dir {
          filetype := "DIR";
          filesize := "";
          filename := filename + "/";
        } else {
          filetype := "FILE";
          filesize := FileSizeStr(file.size);
        }
        var link;
        if relativepath == "" {
          link := "/" + filename;
        } else {
          link := "/" + relativepath + "/" + filename;
        }
        assert TemplateFile(filetype, filename, link, filesize, file.modified) == Entry(relativepath, file);
        rows := rows + [TemplateFile(filetype, filename, link, filesize, file.modified)];
      }
      i := i + 1;
    }
    assert files[..i] == files;
    if relativepath == "" {
      assert rows == Entries(relativepath, files);
    } else {
      assert ParentOf(path) in lstat;
      assert rows == [ParentEntry(relativepath, lstat[ParentOf(path)])] + Entries(relativepath, files);
    }
    return Ok(TemplateDir(relativepath, rows));
  }

  /** makeHTML up to the template: list the directory, take its path
      relative to the base directory, and build the page's inputs. */
  function PageInputs(fs: Fs, lstat: map<string, FileInfo>, basedir: string, dirpath: string): (r: Result<TemplateDir, Errno>)
    requires dirpath in fs.listing ==> SizesModelled(fs.listing[dirpath])
    ensures dirpath !in fs.listing ==> r.Err?
    ensures r.Ok? ==> r.value.dirname == MakeRelative(basedir, dirpath)
    ensures dirpath == basedir && dirpath in fs.listing ==> r.Ok? && r.value.dirname == ""
  {
    if dirpath !in fs.listing then Err(ENOENT)
    else
      MakeRelativeRoundTrip(basedir, "");
      TemplateInputs(dirpath, MakeRelative(basedir, dirpath), fs.listing[dirpath], lstat)
  }
}
