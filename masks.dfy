/** inotify mask bits and their rendering as text (mask.String). */
module Masks {

  const IN_ACCESS: bv32 := 0x1
  const IN_MODIFY: bv32 := 0x2
  const IN_ATTRIB: bv32 := 0x4
  const IN_MOVED_FROM: bv32 := 0x40
  const IN_MOVED_TO: bv32 := 0x80
  const IN_CREATE: bv32 := 0x100
  const IN_DELETE: bv32 := 0x200
  const IN_IGNORED: bv32 := 0x8000
  const IN_ONLYDIR: bv32 := 0x100_0000
  const IN_ISDIR: bv32 := 0x4000_0000

  /** The conditions every watch asks for. */
  const WatchFlags: bv32 := IN_CREATE | IN_ATTRIB | IN_DELETE | IN_MOVED_TO | IN_MOVED_FROM | IN_IGNORED | IN_ONLYDIR

  /** Does `m` have any of the bits of `flag`? */
  predicate HasFlag(m: bv32, flag: bv32)
  {
    m & flag != 0
  }

  /** Is bit number `i` of `m` set? */
  predicate HasBit(m: bv32, i: nat)
    requires i < 32
  {
    m & (1 << i) != 0
  }

  /** The name of each of the 32 bits, lowest first. */
  const InBits: seq<string> := [
    "IN_ACCESS", "IN_MODIFY", "IN_ATTRIB", "IN_CLOSE_WRITE",
    "IN_CLOSE_NOWRITE", "IN_OPEN", "IN_MOVED_FROM", "IN_MOVED_TO",
    "IN_CREATE", "IN_DELETE", "IN_DELETE_SELF", "IN_MOVE_SELF",
    "(1<<12)", "IN_UNMOUNT", "IN_Q_OVERFLOW", "IN_IGNORED",
    "(1<<16)", "(1<<17)", "(1<<18)", "(1<<19)",
    "(1<<20)", "(1<<21)", "(1<<22)", "(1<<23)",
    "IN_ONLYDIR", "IN_DONT_FOLLOW", "IN_EXCL_UNLINK", "(1<<27)",
    "(1<<28)", "IN_MASK_ADD", "IN_ISDIR", "IN_ONESHOT"
  ]

  /** Every bit name is non-empty and free of the separator '|'. */
  lemma BitNamesAreTokens()
    ensures |InBits| == 32
    ensures forall i :: 0 <= i < 32 ==> |InBits[i]| > 0 && '|' !in InBits[i]
  {
  }

  /** The numbers of the bits of `m` below `n` that are set, ascending. */
  function SetBits(m: bv32, n: nat): (r: seq<nat>)
    requires n <= 32
    ensures forall j :: 0 <= j < |r| ==> r[j] < n && HasBit(m, r[j])
    ensures forall i :: 0 <= i < n && HasBit(m, i) ==> i in r
    ensures forall j, k :: 0 <= j < k < |r| ==> r[j] < r[k]
  {
    if n == 0 then [] else SetBits(m, n - 1) + (if HasBit(m, n - 1) then [n - 1] else [])
  }

  /** The names of the bits of `m` below `n` that are set, ascending. */
  function Names(m: bv32, n: nat): (r: seq<string>)
    requires n <= 32
    ensures |r| <= n
    ensures forall j :: 0 <= j < |r| ==> r[j] in InBits[..n]
  {
    if n == 0 then [] else Names(m, n - 1) + (if HasBit(m, n - 1) then [InBits[n - 1]] else [])
  }

  /** Names lists the name of each number SetBits lists. */
  lemma {:induction false} NamesOfSetBits(m: bv32, n: nat)
    requires n <= 32
    ensures |Names(m, n)| == |SetBits(m, n)|
    ensures forall j :: 0 <= j < |Names(m, n)| ==> Names(m, n)[j] == InBits[SetBits(m, n)[j]]
  {
    if n > 0 {
      NamesOfSetBits(m, n - 1);
    }
  }

  /** `names` joined with '|' between consecutive names. */
  function JoinBar(names: seq<string>): (r: string)
    ensures |names| > 0 ==> names[0] <= r
    ensures |names| > 0 ==> |names[|names| - 1]| <= |r| && r[|r| - |names[|names| - 1]|..] == names[|names| - 1]
  {
    if |names| == 0 then ""
    else if |names| == 1 then names[0]
    else JoinBar(names[..|names| - 1]) + "|" + names[|names| - 1]
  }

  /** Go's strings.Split(s, string(sep)): the pieces between separators;
      the empty string gives one empty piece. */
  function Split(s: string, sep: char): (r: seq<string>)
    ensures |r| >= 1
  {
    if |s| == 0 then [""]
    else if s[0] == sep then [""] + Split(s[1..], sep)
    else
      var rest := Split(s[1..], sep);
      [[s[0]] + rest[0]] + rest[1..]
  }

  /** mask.String: the names of the set bits in ascending bit order,
      separated by '|'. */
  method MaskString(m: bv32) returns (out: string)
    ensures out == JoinBar(Names(m, 32))
  {
    out := "";
    for i := 0 to 32
      invariant out == JoinBar(Names(m, i))
      invariant |out| > 0 <==> |Names(m, i)| > 0
    {
      if HasBit(m, i) {
        AppendName(m, i, out);
        if |out| > 0 {
          out := out + "|";
        }
        out := out + InBits[i];
      } else {
        assert Names(m, i + 1) == Names(m, i);
      }
    }
  }

  /** One step of MaskString: appending the name of a set bit. */
  lemma AppendName(m: bv32, i: nat, out: string)
    requires i < 32 && HasBit(m, i)
    requires out == JoinBar(Names(m, i))
    requires |out| > 0 <==> |Names(m, i)| > 0
    ensures (if |out| > 0 then out + "|" else out) + InBits[i] == JoinBar(Names(m, i + 1))
    ensures |Names(m, i + 1)| > 0 && |JoinBar(Names(m, i + 1))| > 0
  {
    BitNameIsToken(i);
    JoinBarSnoc(Names(m, i), InBits[i]);
  }

  /** Bit name `i` is non-empty and free of the separator '|'. */
  lemma BitNameIsToken(i: nat)
    requires i < 32
    ensures |InBits[i]| > 0 && '|' !in InBits[i]
  {
    BitNamesAreTokens();
  }

  /** Joining one more name. */
  lemma JoinBarSnoc(names: seq<string>, x: string)
    ensures JoinBar(names + [x]) == if |names| == 0 then x else JoinBar(names) + "|" + x
  {
    assert (names + [x])[..|names|] == names;
  }

  /** With non-empty names, the joined text is empty only for no names. */
  lemma {:induction false} JoinBarEmpty(names: seq<string>)
    requires forall j :: 0 <= j < |names| ==> |names[j]| > 0
    ensures |JoinBar(names)| == 0 <==> |names| == 0
  {
    if |names| > 1 {
      JoinBarEmpty(names[..|names| - 1]);
    }
  }

  /** Splitting distributes over a separator. */
  lemma {:induction false} SplitAppend(a: string, sep: char, b: string)
    ensures Split(a + [sep] + b, sep) == Split(a, sep) + Split(b, sep)
  {
    if |a| == 0 {
      assert a + [sep] + b == [sep] + b;
    } else {
      assert (a + [sep] + b)[1..] == a[1..] + [sep] + b;
      SplitAppend(a[1..], sep, b);
    }
  }

  /** A text without the separator splits into itself. */
  lemma {:induction false} SplitNoSeparator(s: string, sep: char)
    requires sep !in s
    ensures Split(s, sep) == [s]
  {
    if |s| > 0 {
      SplitNoSeparator(s[1..], sep);
      assert [s[0]] + s[1..] == s;
    }
  }

  /** Splitting the joined names on '|' gives the names back. */
  lemma {:induction false} SplitJoinBar(names: seq<string>)
    requires |names| > 0
    requires forall j :: 0 <= j < |names| ==> '|' !in names[j]
    ensures Split(JoinBar(names), '|') == names
  {
    var last := names[|names| - 1];
    if |names| == 1 {
      SplitNoSeparator(last, '|');
    } else {
      var init := names[..|names| - 1];
      SplitJoinBar(init);
      SplitAppend(JoinBar(init), '|', last);
      SplitNoSeparator(last, '|');
      assert JoinBar(names) == JoinBar(init) + ['|'] + last;
      assert init + [last] == names;
    }
  }

  /** The rendering of a non-zero mask can be read back: splitting it on
      '|' gives exactly the names of its set bits, in ascending order. */
  lemma MaskStringReadsBack(m: bv32)
    requires m != 0
    ensures Split(JoinBar(Names(m, 32)), '|') == Names(m, 32)
  {
    NonZeroHasBit(m);
    NamesOfSetBits(m, 32);
    forall j | 0 <= j < |Names(m, 32)|
      ensures '|' !in Names(m, 32)[j]
    {
      BitNameIsToken(SetBits(m, 32)[j]);
    }
    SplitJoinBar(Names(m, 32));
  }

  /** A non-zero mask has a set bit. */
  lemma NonZeroHasBit(m: bv32)
    requires m != 0
    ensures |SetBits(m, 32)| > 0
  {
    assert
      HasBit(m, 0) || HasBit(m, 1) || HasBit(m, 2) || HasBit(m, 3)
      || HasBit(m, 4) || HasBit(m, 5) || HasBit(m, 6) || HasBit(m, 7)
      || HasBit(m, 8) || HasBit(m, 9) || HasBit(m, 10) || HasBit(m, 11)
      || HasBit(m, 12) || HasBit(m, 13) || HasBit(m, 14) || HasBit(m, 15)
      || HasBit(m, 16) || HasBit(m, 17) || HasBit(m, 18) || HasBit(m, 19)
      || HasBit(m, 20) || HasBit(m, 21) || HasBit(m, 22) || HasBit(m, 23)
      || HasBit(m, 24) || HasBit(m, 25) || HasBit(m, 26) || HasBit(m, 27)
      || HasBit(m, 28) || HasBit(m, 29) || HasBit(m, 30) || HasBit(m, 31);
  }

  /** The zero mask renders as the empty text. */
  lemma ZeroMaskIsEmpty()
    ensures JoinBar(Names(0, 32)) == ""
  {
    NamesOfSetBits(0, 32);
    assert forall j :: 0 <= j < 32 ==> !HasBit(0, j);
  }
}
