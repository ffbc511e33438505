/** The inotify follower and its kernel as objects that change in place. */
module InotifyWatchers {
  import opened Wrappers
  import opened FileSystem
  import opened Following
  import opened Inotify
  import opened InotifyProofs

  /** One inotify instance, and the file system it reports on. */
  class Kernel {
    var fs: Fs
    var marks: map<File, int>
    var nextWd: int
    var queue: seq<Entry>

    constructor (fs: Fs)
      ensures this.fs == fs && marks == map[] && nextWd == DIR_WD + 1 && queue == []
    {
      this.fs, marks, nextWd, queue := fs, map[], DIR_WD + 1, [];
    }

    method AddWatch(x: File) returns (wd: int)
      modifies this`marks, this`nextWd
      ensures marks == old(marks)[x := wd]
      ensures x in old(marks) ==> wd == old(marks)[x] && nextWd == old(nextWd)
      ensures x !in old(marks) ==> wd == old(nextWd) && nextWd == wd + 1
    {
      if x in marks {
        wd := marks[x];
      } else {
        wd := nextWd;
        marks, nextWd := marks[x := wd], nextWd + 1;
      }
    }

    method RemoveWatch(wd: int)
      modifies this`marks, this`queue
      ensures marks == map x | x in old(marks) && old(marks)[x] != wd :: old(marks)[x]
      ensures queue == Enqueue(old(queue), Entry(Ignored(wd), Sizes(fs)))
    {
      marks := map x | x in marks && marks[x] != wd :: marks[x];
      queue := Enqueue(queue, Entry(Ignored(wd), Sizes(fs)));
    }

    /** At most `room` events, first come first served; none if there are none. */
    method Read(room: nat) returns (batch: seq<Entry>)
      modifies this`queue
      ensures old(queue) == batch + queue && |batch| <= room
      ensures room < |old(queue)| ==> |batch| == room
      ensures |old(queue)| <= room ==> queue == []
    {
      var n := if |queue| <= room then |queue| else room;
      batch := queue[..n];
      queue := queue[n..];
    }
  }

  class InotifyWatcher {
    const base: Name
    const kernel: Kernel
    const impl: WatcherImplementation
    var fileWd: int

    function View(): Sys
      reads this, kernel, impl
    {
      Sys(kernel.fs, kernel.marks, kernel.nextWd, kernel.queue, base, fileWd, impl.View())
    }

    constructor (fs: Fs, base: Name)
      requires ValidFs(fs)
      ensures View() == Start(fs, base) && WellFormed(View())
      ensures fresh(kernel) && fresh(impl)
    {
      this.base := base;
      kernel := new Kernel(fs);
      impl := new WatcherImplementation();
      fileWd := -1;
      new;
      OpenFile();
      // Discard initial content.
      if impl.fp.Some? {
        impl.pos := |kernel.fs.data[impl.fp.value]|;
      }
    }

    method OpenFile()
      requires WellFormed(View())
      modifies this, kernel, impl
      ensures View() == Inotify.OpenFile(old(View())) && WellFormed(View())
    {
      if impl.fp.None? {
        if base in kernel.fs.dir {
          impl.fp, impl.pos := Some(kernel.fs.dir[base]), 0;
          fileWd := kernel.AddWatch(kernel.fs.dir[base]);
        }
      }
    }

    method CloseFile()
      requires WellFormed(View())
      modifies this, kernel, impl
      ensures View() == Inotify.CloseFile(old(View())) && WellFormed(View())
    {
      if impl.fp.Some? {
        impl.FlushLine();
        if fileWd >= 0 {
          kernel.RemoveWatch(fileWd);
          fileWd := -1;
        }
        impl.fp, impl.pos := None, 0;
      }
    }

    method ReadOpenFile()
      requires WellFormed(View()) && impl.fp.Some?
      modifies impl
      ensures View() == Inotify.ReadLines(old(View())) && WellFormed(View())
    {
      impl.ReadLines(kernel.fs.data[impl.fp.value]);
    }

    method HandleEvent(ev: Event)
      requires WellFormed(View()) && (!ev.Dir? ==> 0 <= ev.wd)
      modifies this, kernel, impl
      ensures View() == Handle(old(View()), ev) && WellFormed(View())
    {
      if !ev.Dir? && ev.wd == fileWd {
        ReadOpenFile();
        if ev.Self? {
          CloseFile();
        }
      }
      if ev.Dir? && ev.name == base {
        CloseFile();
        OpenFile();
        if impl.fp.Some? {
          ReadOpenFile();
        }
      }
    }

    /** Reads a buffer of events and handles each. */
    method Work(room: nat) returns (ghost batch: seq<Entry>)
      requires WellFormed(View()) && QueueSound(View(), kernel.queue)
      modifies this, kernel, impl
      ensures batch <= old(kernel.queue)
      ensures |batch| == if |old(kernel.queue)| <= room then |old(kernel.queue)| else room
      ensures View() == HandleAll(old(View()).(queue := old(kernel.queue)[|batch|..]), batch)
      ensures WellFormed(View())
    {
      var buffer := kernel.Read(room);
      batch := buffer;
      ghost var first := View();
      assert first == old(View()).(queue := old(kernel.queue)[|batch|..]);
      var n := 0;
      while n < |buffer|
        invariant 0 <= n <= |buffer|
        invariant WellFormed(View())
        invariant HandleAll(View(), buffer[n..]) == HandleAll(first, buffer)
      {
        assert buffer[n] == old(kernel.queue)[n];
        assert buffer[n..][1..] == buffer[n + 1..];
        HandleEvent(buffer[n].ev);
        n := n + 1;
      }
    }
  }

  function Handlings(n: nat): seq<Step> {
    seq(n, _ => HandleOne)
  }

  lemma {:induction false} HandlingsRun(m: Machine)
    ensures Possible(m, Handlings(|m.batch|))
    ensures Run(m, Handlings(|m.batch|)).s == HandleAll(m.s, m.batch)
    ensures Run(m, Handlings(|m.batch|)).batch == []
    decreases |m.batch|
  {
    if m.batch != [] {
      var steps := Handlings(|m.batch|);
      assert steps[1..] == Handlings(|m.batch| - 1);
      HandlingsRun(Next(m, HandleOne));
    }
  }

  /** `Work`, which nothing interrupts, is one of the schedules of the machine: fetch, then
      handle every event fetched. */
  lemma WorkIsARun(m: Machine, n: nat)
    requires m.batch == [] && 0 < n <= |m.s.queue|
    ensures var steps := [Fetch(n)] + Handlings(n);
      && Possible(m, steps)
      && Run(m, steps).s == HandleAll(m.s.(queue := m.s.queue[n..]), m.s.queue[..n])
      && Run(m, steps).batch == []
  {
    var steps := [Fetch(n)] + Handlings(n);
    assert steps[1..] == Handlings(n);
    var m' := Next(m, Fetch(n));
    assert m'.batch == m.s.queue[..n];
    HandlingsRun(m');
  }
}
