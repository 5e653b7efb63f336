/** readEvent: cutting `struct inotify_event` records (inotify(7)) out of
    the bytes read(2) returns, and turning each record on a known watch
    descriptor into an Event. */
module Inotify {
  import opened Wrappers
  import opened Events
  import opened WatchTable

  /** Go's byte. */
  type byte = x: int | 0 <= x < 0x100

  /** unix.SizeofInotifyEvent: wd, mask, cookie and len, 4 bytes each. */
  const HeaderSize: nat := 16
  /** unix.NAME_MAX, the length of the array the name is cut from. */
  const NameMax: nat := 255
  /** The length of buffFull, the most one read(2) returns. */
  const BufferSize: nat := 4096

  /** A 32-bit word read as an unsigned number. */
  type word = x: int | 0 <= x < 0x1_0000_0000

  /** The fixed part of a record, as the kernel's 32-bit words. */
  datatype Header = Header(wd: word, mask: word, cookie: word, len: word)

  /** The little-endian 32-bit word at `b[i..i + 4]`. */
  function U32(b: seq<byte>, i: nat): word
    requires i + 4 <= |b|
  {
    b[i] as int + 0x100 * (b[i + 1] as int + 0x100 * (b[i + 2] as int + 0x100 * b[i + 3] as int))
  }

  /** The four little-endian bytes of `x`. */
  function LE(x: word): (b: seq<byte>)
    ensures |b| == 4
  {
    [x % 0x100, x / 0x100 % 0x100, x / 0x100 / 0x100 % 0x100, x / 0x100 / 0x100 / 0x100]
  }

  /** The watch descriptor of a record: its int32 wd field, as the
      table's key. */
  function Wd(h: Header): (r: int)
    ensures -0x8000_0000 <= r < 0x8000_0000
    ensures (if r < 0 then r + 0x1_0000_0000 else r) == h.wd
  {
    if h.wd < 0x8000_0000 then h.wd else h.wd - 0x1_0000_0000
  }

  /** The length of the record: the header and its name field. */
  function RecordLength(h: Header): (r: nat)
    ensures HeaderSize <= r
  {
    HeaderSize + h.len
  }

  /** The header at the start of `b`. */
  function DecodeHeader(b: seq<byte>): (h: Header)
    requires |b| >= HeaderSize
  {
    Header(U32(b, 0), U32(b, 4), U32(b, 8), U32(b, 12))
  }

  /** The 16 bytes the kernel writes for `h`. */
  function EncodeHeader(h: Header): (b: seq<byte>)
    ensures |b| == HeaderSize
  {
    LE(h.wd) + LE(h.mask) + LE(h.cookie) + LE(h.len)
  }

  /** Splitting off the low byte of a number. */
  lemma LowByte(r: int, q: int)
    requires 0 <= r < 0x100
    ensures (r + 0x100 * q) % 0x100 == r && (r + 0x100 * q) / 0x100 == q
  {
  }

  /** The word at `b[i..i + 4]` is written back as the same four bytes. */
  lemma U32RoundTrip(b: seq<byte>, i: nat)
    requires i + 4 <= |b|
    ensures LE(U32(b, i)) == b[i..i + 4]
  {
    LowByte(b[i], b[i + 1] as int + 0x100 * (b[i + 2] as int + 0x100 * b[i + 3] as int));
    LowByte(b[i + 1], b[i + 2] as int + 0x100 * b[i + 3] as int);
    LowByte(b[i + 2], b[i + 3] as int);
  }

  lemma LERoundTrip(x: word, b: seq<byte>, i: nat)
    requires i + 4 <= |b| && b[i..i + 4] == LE(x)
    ensures U32(b, i) == x
  {
    assert b[i] == LE(x)[0] && b[i + 1] == LE(x)[1] && b[i + 2] == LE(x)[2] && b[i + 3] == LE(x)[3];
  }

  /** Decoding the bytes of a header gives the header back, whatever
      follows it. */
  lemma HeaderRoundTrip(h: Header, rest: seq<byte>)
    ensures DecodeHeader(EncodeHeader(h) + rest) == h
  {
    var b := EncodeHeader(h) + rest;
    LERoundTrip(h.wd, b, 0);
    LERoundTrip(h.mask, b, 4);
    LERoundTrip(h.cookie, b, 8);
    LERoundTrip(h.len, b, 12);
  }

  /** Encoding the header decoded from a buffer gives its first 16 bytes
      back. */
  lemma HeaderBytesRoundTrip(b: seq<byte>)
    requires |b| >= HeaderSize
    ensures EncodeHeader(DecodeHeader(b)) == b[..HeaderSize]
  {
    U32RoundTrip(b, 0);
    U32RoundTrip(b, 4);
    U32RoundTrip(b, 8);
    U32RoundTrip(b, 12);
    assert b[..HeaderSize] == b[0..4] + b[4..8] + b[8..12] + b[12..16];
  }

  /** strings.TrimRight(s, "\x00"): the longest prefix of `s` that does not
      end in a NUL byte, all of whose removed bytes are NUL. */
  function TrimNuls(s: seq<byte>): (r: seq<byte>)
    ensures r <= s
    ensures |r| == 0 || r[|r| - 1] != 0
    ensures forall i :: |r| <= i < |s| ==> s[i] == 0
  {
    if |s| == 0 || s[|s| - 1] != 0 then s else TrimNuls(s[..|s| - 1])
  }

  /** Go's string(bytes): one character per byte. */
  function BytesToString(b: seq<byte>): (s: string)
    ensures |s| == |b|
    ensures forall i :: 0 <= i < |b| ==> s[i] as int == b[i]
  {
    seq(|b|, i requires 0 <= i < |b| => b[i] as char)
  }

  /** The name of the record at the start of `buff` whose name field is
      `len` bytes long: none when `len` is 0, otherwise its first `len - 1`
      bytes without trailing NULs. */
  function RecordName(buff: seq<byte>, len: nat): (r: Option<string>)
    requires 0 < len ==> HeaderSize + len <= |buff|
    ensures r.None? <==> len == 0
    ensures r.Some? ==> |r.value| <= len - 1
  {
    if len == 0 then None else Some(BytesToString(TrimNuls(buff[HeaderSize..HeaderSize + len - 1])))
  }

  /** The event of a record on the directory `dirpath`: the record's mask
      and cookie, and its name. */
  function RecordEvent(dirpath: string, h: Header, name: Option<string>): (e: Event)
    ensures e.dirpath == dirpath && e.name == name
  {
    Event(dirpath, h.mask as bv32, h.cookie as bv32, name)
  }

  /** What read(2) returns: up to BufferSize bytes (none at end of file),
      or an error. */
  datatype ReadResult = Data(bytes: seq<byte>) | Fail(errno: Errno)

  /** The reader: the unread part of the last chunk (in.buff), the error
      that ends reading (in.buffErr), and what read(2) will return next,
      oldest first. */
  datatype ReaderState = ReaderState(buff: seq<byte>, buffErr: Option<Errno>, pending: seq<ReadResult>)

  /** The end of one readEvent: an event, an error, no return because
      read(2) blocks for ever, or a runtime panic. */
  datatype ReadOutcome = Got(event: Event) | Failed(errno: Errno) | Blocked | Panicked

  /** Skipping the record at the start of `buff` whose name field is `len`
      bytes long, checking first that the record is there: what is left,
      or none when the buffer is too short. */
  function Skip(buff: seq<byte>, h: Header): (r: Option<seq<byte>>)
    ensures r.None? <==> |buff| < RecordLength(h)
    ensures r.Some? ==> |r.value| <= |buff| - HeaderSize && r.value == buff[|buff| - |r.value|..]
  {
    if |buff| < RecordLength(h) then None else Some(buff[RecordLength(h)..])
  }

  /** readEvent with a short record and a failed read handled: the next
      event on a known descriptor, skipping records on unknown ones. A
      read error or a malformed buffer is returned and kept in buffErr. */
  function NextEvent(s: ReaderState, watches: Table): (r: (ReadOutcome, ReaderState))
    ensures r.0.Failed? ==> r.1.buffErr == Some(r.0.errno)
    ensures !r.0.Failed? ==> r.1.buffErr == s.buffErr
    ensures |r.1.pending| <= |s.pending| && r.1.pending == s.pending[|s.pending| - |r.1.pending|..]
    decreases |s.pending|, |s.buff|, 1
  {
    if |s.buff| == 0 then
      if s.buffErr.Some? then (Failed(s.buffErr.value), s)
      else if |s.pending| == 0 then (Blocked, s)
      else match s.pending[0]
        case Fail(errno) => (Failed(errno), ReaderState([], Some(errno), s.pending[1..]))
        case Data(bytes) => Parse(ReaderState(bytes, s.buffErr, s.pending[1..]), watches)
    else Parse(s, watches)
  }

  /** The part of readEvent after the refill. */
  function Parse(s: ReaderState, watches: Table): (r: (ReadOutcome, ReaderState))
    ensures r.0.Failed? ==> r.1.buffErr == Some(r.0.errno)
    ensures !r.0.Failed? ==> r.1.buffErr == s.buffErr
    ensures |r.1.pending| <= |s.pending| && r.1.pending == s.pending[|s.pending| - |r.1.pending|..]
    decreases |s.pending|, |s.buff|, 0
  {
    if |s.buff| < HeaderSize then (Failed(EBADF), s.(buffErr := Some(EBADF)))
    else
      var h := DecodeHeader(s.buff);
      if Wd(h) !in watches then
        match Skip(s.buff, h)
        case None => (Failed(EBADF), s.(buffErr := Some(EBADF)))
        case Some(rest) => NextEvent(s.(buff := rest), watches)
      else if |s.buff| < RecordLength(h) then (Failed(EBADF), s.(buffErr := Some(EBADF)))
      else if RecordLength(h) > HeaderSize + NameMax + 1 then (Panicked, s)
      else (Got(RecordEvent(watches[Wd(h)], h, RecordName(s.buff, RecordLength(h) - HeaderSize))),
            s.(buff := s.buff[RecordLength(h)..]))
  }

  /** Parse of a record on a known descriptor that is all there and
      whose name fits unix.NAME_MAX + 1 bytes. */
  lemma ParseKnown(s: ReaderState, watches: Table, h: Header)
    requires |s.buff| >= HeaderSize && DecodeHeader(s.buff) == h && Wd(h) in watches
    requires RecordLength(h) <= |s.buff| && RecordLength(h) <= HeaderSize + NameMax + 1
    ensures Parse(s, watches) == (Got(RecordEvent(watches[Wd(h)], h, RecordName(s.buff, RecordLength(h) - HeaderSize))),
            s.(buff := s.buff[RecordLength(h)..]))
  {
  }

  /** A record on a known descriptor is decoded: the event carries the
      directory of its descriptor, its mask and cookie, and its name
      without the last byte and trailing NULs (none when the name field
      is empty); the buffer advances past exactly that record. */
  lemma KnownRecordDecoded(h: Header, name: seq<byte>, rest: seq<byte>, err: Option<Errno>,
                           pending: seq<ReadResult>, watches: Table)
    requires Wd(h) in watches
    requires |name| == RecordLength(h) - HeaderSize <= NameMax + 1
    ensures NextEvent(ReaderState(EncodeHeader(h) + name + rest, err, pending), watches) ==
            (Got(RecordEvent(watches[Wd(h)], h,
                             if |name| == 0 then None else Some(BytesToString(TrimNuls(name[..|name| - 1]))))),
             ReaderState(rest, err, pending))
  {
    var b := EncodeHeader(h) + name + rest;
    RecordBytes(h, name, rest);
    var s := ReaderState(b, err, pending);
    assert NextEvent(s, watches) == Parse(s, watches);
    ParseKnown(s, watches, h);
  }

  /** The bytes of one record followed by `rest`: the header decodes back,
      the record ends where `rest` starts, and the name is cut from the
      name bytes. */
  lemma RecordBytes(h: Header, name: seq<byte>, rest: seq<byte>)
    requires |name| == RecordLength(h) - HeaderSize
    ensures var b := EncodeHeader(h) + name + rest;
            |b| >= RecordLength(h) && DecodeHeader(b) == h && b[RecordLength(h)..] == rest &&
            RecordName(b, |name|) == if |name| == 0 then None else Some(BytesToString(TrimNuls(name[..|name| - 1])))
  {
    var b := EncodeHeader(h) + name + rest;
    HeaderRoundTrip(h, name + rest);
    assert b == EncodeHeader(h) + (name + rest);
    assert b[RecordLength(h)..] == rest;
    if |name| > 0 {
      assert b[HeaderSize..HeaderSize + |name| - 1] == name[..|name| - 1];
    }
  }

  /** A record on an unknown descriptor is skipped: reading goes on with
      what follows it. */
  lemma UnknownRecordSkipped(h: Header, name: seq<byte>, rest: seq<byte>, err: Option<Errno>,
                             pending: seq<ReadResult>, watches: Table)
    requires Wd(h) !in watches
    requires |name| == RecordLength(h) - HeaderSize
    ensures NextEvent(ReaderState(EncodeHeader(h) + name + rest, err, pending), watches) ==
            NextEvent(ReaderState(rest, err, pending), watches)
  {
    var b := EncodeHeader(h) + name + rest;
    RecordBytes(h, name, rest);
    var s := ReaderState(b, err, pending);
    assert NextEvent(s, watches) == Parse(s, watches);
  }

  /** Fewer bytes than a header: EBADF, kept in buffErr. */
  lemma ShortBufferFails(s: ReaderState, watches: Table)
    requires 0 < |s.buff| < HeaderSize
    ensures NextEvent(s, watches) == (Failed(EBADF), s.(buffErr := Some(EBADF)))
  {
  }

  /** A refill that returns fewer bytes than a header, none included:
      EBADF, kept in buffErr, with those bytes left in the buffer. */
  lemma ShortRefillFails(bytes: seq<byte>, pending: seq<ReadResult>, watches: Table)
    requires |bytes| < HeaderSize
    ensures NextEvent(ReaderState([], None, [Data(bytes)] + pending), watches) ==
            (Failed(EBADF), ReaderState(bytes, Some(EBADF), pending))
  {
    assert ([Data(bytes)] + pending)[1..] == pending;
  }

  /** A record on a known descriptor that is longer than what is left of
      the buffer: EBADF, kept in buffErr. */
  lemma LongRecordFails(s: ReaderState, watches: Table)
    requires |s.buff| >= HeaderSize && Wd(DecodeHeader(s.buff)) in watches
    requires |s.buff| < RecordLength(DecodeHeader(s.buff))
    ensures NextEvent(s, watches) == (Failed(EBADF), s.(buffErr := Some(EBADF)))
  {
  }

  /** A failed read is returned at once, with an empty buffer and the
      error kept in buffErr. */
  lemma ReadErrorReported(errno: Errno, pending: seq<ReadResult>, watches: Table)
    ensures NextEvent(ReaderState([], None, [Fail(errno)] + pending), watches) ==
            (Failed(errno), ReaderState([], Some(errno), pending))
  {
    assert ([Fail(errno)] + pending)[1..] == pending;
  }

  /** A reader that can only fail with `errno`: its error is kept and its
      buffer is empty, or it holds a malformed record and EBADF is kept. */
  predicate Stuck(s: ReaderState, errno: Errno)
  {
    s.buffErr == Some(errno) &&
    (|s.buff| == 0 ||
     (errno == EBADF &&
      (|s.buff| < HeaderSize || |s.buff| < RecordLength(DecodeHeader(s.buff)))))
  }

  lemma StuckFails(s: ReaderState, errno: Errno, watches: Table)
    requires Stuck(s, errno)
    ensures NextEvent(s, watches) == (Failed(errno), s)
  {
  }

  /** An error is final: after readEvent fails, every later call fails
      with the same error and changes nothing, whatever the table then
      holds. */
  lemma {:induction false} FailureSticks(s: ReaderState, watches: Table, later: Table)
    requires NextEvent(s, watches).0.Failed?
    ensures NextEvent(NextEvent(s, watches).1, later) == NextEvent(s, watches)
    decreases |s.pending|, |s.buff|, 1
  {
    if |s.buff| == 0 && s.buffErr.None? && |s.pending| > 0 && s.pending[0].Data? {
      ParseFailureSticks(ReaderState(s.pending[0].bytes, s.buffErr, s.pending[1..]), watches, later);
    } else if |s.buff| > 0 {
      ParseFailureSticks(s, watches, later);
    } else {
      StuckFails(NextEvent(s, watches).1, NextEvent(s, watches).0.errno, later);
    }
  }

  lemma {:induction false} ParseFailureSticks(s: ReaderState, watches: Table, later: Table)
    requires Parse(s, watches).0.Failed?
    ensures NextEvent(Parse(s, watches).1, later) == Parse(s, watches)
    decreases |s.pending|, |s.buff|, 0
  {
    if |s.buff| >= HeaderSize {
      var h := DecodeHeader(s.buff);
      if Wd(h) !in watches && Skip(s.buff, h).Some? {
        FailureSticks(s.(buff := Skip(s.buff, h).value), watches, later);
        return;
      }
    }
    StuckFails(Parse(s, watches).1, Parse(s, watches).0.errno, later);
  }

  /** unix.Read's count: the bytes read, or -1 with an error. */
  function ReadCount(r: ReadResult): int
  {
    match r
    case Data(bytes) => |bytes|
    case Fail(_) => -1
  }

  /** The refill as written, in.buff = in.buffFull[0:n]: the chunk, or none
      when the slice is out of range and the program panics. */
  function RefillAsWritten(r: ReadResult): (b: Option<seq<byte>>)
    ensures r.Data? && |r.bytes| <= BufferSize ==> b == Some(r.bytes)
  {
    var n := ReadCount(r);
    if 0 <= n <= BufferSize then Some(r.bytes) else None
  }

  /** Every failed read makes the refill as written panic, so the read
      error never reaches buffErr. */
  lemma ReadErrorPanicsAsWritten(errno: Errno)
    ensures RefillAsWritten(Fail(errno)).None?
  {
  }

  /** The skip as written, in.buff = in.buff[16+raw.Len:], with the sum
      computed in uint32 and no length check: what is left, or none when
      the slice is out of range and the program panics. */
  function SkipAsWritten(buff: seq<byte>, h: Header): (r: Option<seq<byte>>)
    ensures r.Some? ==> |r.value| <= |buff| && r.value == buff[|buff| - |r.value|..]
  {
    var k := RecordLength(h) % 0x1_0000_0000;
    if k <= |buff| then Some(buff[k..]) else None
  }

  /** A record on descriptor 7 with IN_IGNORED set that declares a
      16-byte name but is cut off after its header. */
  const Truncated: seq<byte> := EncodeHeader(Header(7, 0x8000, 0, 16))

  /** A record on descriptor 7 whose name length is 2^32 - 16. */
  const Wrapping: seq<byte> := EncodeHeader(Header(7, 0x8000, 0, 0xFFFF_FFF0))

  /** A truncated record on an unknown descriptor makes the skip as
      written panic; the checked skip reports it. */
  lemma TruncatedSkipPanicsAsWritten()
    ensures SkipAsWritten(Truncated, DecodeHeader(Truncated)).None?
    ensures Skip(Truncated, DecodeHeader(Truncated)).None?
  {
    HeaderRoundTrip(Header(7, 0x8000, 0, 16), []);
    assert Truncated == EncodeHeader(Header(7, 0x8000, 0, 16)) + [];
  }

  /** A name length of 2^32 - 16 wraps the uint32 sum to 0: the skip as
      written leaves the buffer as it is, so readEvent re-enters itself on
      the same record for ever; the checked skip reports it. */
  lemma WrappedSkipStallsAsWritten()
    ensures SkipAsWritten(Wrapping, DecodeHeader(Wrapping)) == Some(Wrapping)
    ensures Skip(Wrapping, DecodeHeader(Wrapping)).None?
  {
    HeaderRoundTrip(Header(7, 0x8000, 0, 0xFFFF_FFF0), []);
    assert Wrapping == EncodeHeader(Header(7, 0x8000, 0, 0xFFFF_FFF0)) + [];
  }

  /** The inotify instance of readEvent, with the answers read(2) will
      give as part of its state. */
  class Reader {
    var buff: seq<byte>
    var buffErr: Option<Errno>
    var pending: seq<ReadResult>

    function State(): ReaderState
      reads this
    {
      ReaderState(buff, buffErr, pending)
    }

    /** inotifyInit: an empty buffer and no error. */
    constructor (pending: seq<ReadResult>)
      ensures State() == ReaderState([], None, pending)
    {
      buff := [];
      buffErr := None;
      this.pending := pending;
    }

    /** readEvent, with its re-entry on an unknown descriptor as a loop. */
    method ReadEvent(watches: Table) returns (r: ReadOutcome)
      modifies this
      ensures (r, State()) == NextEvent(old(State()), watches)
    {
      while true
        invariant NextEvent(State(), watches) == NextEvent(old(State()), watches)
        decreases |pending|, |buff|
      {
        if |buff| == 0 {
          if buffErr.Some? {
            return Failed(buffErr.value);
          }
          if |pending| == 0 {
            return Blocked;
          }
          var next := pending[0];
          pending := pending[1..];
          match next
          case Fail(errno) =>
            buffErr := Some(errno);
            return Failed(errno);
          case Data(bytes) =>
            buff := bytes;
        }
        assert Parse(State(), watches) == NextEvent(old(State()), watches);
        var done;
        done, r := ParseRecord(watches);
        if done {
          return;
        }
      }
    }

    /** The part of readEvent after the refill: one record is decoded,
        or skipped (`done` false), or the buffer is found malformed. */
    method ParseRecord(watches: Table) returns (done: bool, r: ReadOutcome)
      modifies this
      ensures pending == old(pending)
      ensures done ==> (r, State()) == Parse(old(State()), watches)
      ensures !done ==> NextEvent(State(), watches) == Parse(old(State()), watches) && |buff| < old(|buff|)
    {
      ghost var s := State();
      if |buff| < HeaderSize {
        buffErr := Some(EBADF);
        return true, Failed(EBADF);
      }
      var h := DecodeHeader(buff);
      var total := RecordLength(h);
      if Wd(h) !in watches {
        if |buff| < total {
          buffErr := Some(EBADF);
          return true, Failed(EBADF);
        }
        buff := buff[total..];
        assert Parse(s, watches) == NextEvent(State(), watches);
        return false, Blocked;
      }
      if |buff| < total {
        LongRecordFails(s, watches);
        buffErr := Some(EBADF);
        return true, Failed(EBADF);
      }
      if total > HeaderSize + NameMax + 1 {
        return true, Panicked;
      }
      ParseKnown(s, watches, h);
      r := Got(RecordEvent(watches[Wd(h)], h, RecordName(buff, total - HeaderSize)));
      buff := buff[total..];
      return true, r;
    }
  }
}
