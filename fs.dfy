/** The parts of the operating system the watcher consults, as oracles:
    directory listings (lstat-based, as ioutil.ReadDir returns them) and
    the answers inotify_add_watch(2) gives. */
module Fs {
  import opened Events

  /** What lstat says an entry is: a directory, a symbolic link, or
      anything else (regular file, device, socket, ...). */
  datatype FileMode = Dir | Symlink | Regular

  /** The part of os.FileInfo the core uses; `modified` is the
      modification time already formatted for display. */
  datatype FileInfo = FileInfo(name: string, mode: FileMode, size: int, modified: string)

  /** The answer of inotify_add_watch(2) for one path. */
  datatype AddResult = Added(wd: int) | Refused(errno: Errno)

  /** A snapshot of the filesystem and of the kernel's inotify instance.
      A path absent from `listing` cannot be listed (ReadDir fails); a
      path absent from `inotify` cannot be watched (ENOENT). Asking to
      watch the same path again yields the same descriptor, as inotify
      does for an inode it already watches. */
  datatype Fs = Fs(listing: map<string, seq<FileInfo>>, inotify: map<string, AddResult>)

  /** inotify_add_watch(2) on `path`. */
  function KernelAddWatch(fs: Fs, path: string): AddResult
  {
    if path in fs.inotify then fs.inotify[path] else Refused(ENOENT)
  }

  /** Distinct paths get distinct watch descriptors. */
  ghost predicate DistinctWds(fs: Fs)
  {
    forall p, q :: KernelAddWatch(fs, p).Added? && KernelAddWatch(fs, p) == KernelAddWatch(fs, q) ==> p == q
  }
}
