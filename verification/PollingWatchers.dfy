/** The polling follower as an object that changes in place. */
module PollingWatchers {
  import opened Wrappers
  import opened FileSystem
  import opened Following
  import opened Polling

  class PollingWatcher {
    const path: Name
    const impl: WatcherImplementation
    var next: int
    var id: Id
    var opens: nat
    var fcloses: seq<nat>

    function View(fs: Fs): Poller
      reads this, impl
    {
      Poller(fs, path, next, id, impl.View(), opens, fcloses)
    }

    constructor (fs: Fs, path: Name, now: int)
      requires ValidFs(fs) && UniqueIds(fs, {})
      ensures View(fs) == Start(fs, path, now)
      ensures fresh(impl)
    {
      this.path := path;
      impl := new WatcherImplementation();
      next, id, opens, fcloses := now, NO_ID, 0, [];
      new;
      OpenFile(fs);
    }

    method PollFd(limit: int) returns (fd: int, limit': int)
      ensures fd == -1 && limit' <= limit && limit' <= next && (limit' == limit || limit' == next)
    {
      fd := -1;
      limit' := if limit > next then next else limit;
    }

    method OpenFile(fs: Fs)
      requires WellFormed(View(fs))
      modifies this, impl
      ensures View(fs) == Polling.OpenFile(old(View(fs)))
    {
      if impl.fp.None? {
        if path !in fs.dir {
          return;
        }
        impl.fp, impl.pos := Some(fs.dir[path]), 0;
        opens := opens + 1;
        id := IdOf(fs, fs.dir[path]);
      }
    }

    method Close()
      requires opens > 0
      modifies this`fcloses
      ensures fcloses == old(fcloses) + [opens - 1]
    {
      fcloses := fcloses + [opens - 1];
    }

    method CloseFile(fs: Fs)
      requires WellFormed(View(fs))
      modifies this, impl
      ensures View(fs) == Polling.CloseFile(old(View(fs)))
    {
      if impl.fp.Some? {
        impl.FlushLine();
        Close();
        impl.fp, impl.pos := None, 0;
        id := NO_ID;
      }
    }

    method Work(fs: Fs, now: int)
      requires WellFormed(View(fs))
      modifies this, impl
      ensures View(fs) == Polling.Work(old(View(fs)), now) && WellFormed(View(fs))
    {
      ghost var was := View(fs);
      next := now + 1;
      assert WellFormed(View(fs));
      if impl.fp.Some? {
        if path !in fs.dir || IdOf(fs, fs.dir[path]) != id {
          CloseKeepsWellFormed(View(fs));
          CloseFile(fs);
        }
      }
      WorkAgrees(was, now);
      OpenKeepsWellFormed(View(fs));
      if impl.fp.None? {
        OpenFile(fs);
        if impl.fp.None? {
          return;
        }
      }
      impl.ReadLines(fs.data[impl.fp.value]);
    }

    /** Both destructors, the derived one first. */
    method Destroy(ghost fs: Fs)
      requires WellFormed(View(fs))
      modifies this`fcloses
      ensures View(fs) == Polling.Destroy(old(View(fs)))
    {
      if impl.fp.Some? {
        Close();
      }
      if impl.fp.Some? {
        Close();
      }
    }
  }
}
