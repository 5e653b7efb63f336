/** The structured change event of package recursivedirwatch and the
    error numbers the model needs. */
module Events {
  import opened Wrappers

  /** Linux error number (errno). */
  datatype Errno = Errno(code: nat)

  /** Bad file descriptor: what readEvent reports for a malformed buffer. */
  const EBADF := Errno(9)
  /** No such file or directory. */
  const ENOENT := Errno(2)

  /** An event on an entry of the directory `dirpath`; mask, cookie and
      the optional entry name are copied from the inotify record. */
  datatype Event = Event(dirpath: string, mask: bv32, cookie: bv32, name: Option<string>)

  /** A manufactured event: mask 0, cookie 0, no name. */
  predicate IsManufactured(e: Event)
  {
    e.mask == 0 && e.cookie == 0 && e.name.None?
  }

  /** The event the package synthesizes for a directory it has just
      started to watch. */
  function Manufacture(dirpath: string): (e: Event)
    ensures IsManufactured(e) && e.dirpath == dirpath
  {
    Event(dirpath, 0, 0, None)
  }
}
