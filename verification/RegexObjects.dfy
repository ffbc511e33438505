/** Regular expression handles as objects that share a counted one. */
module RegexObjects {
  import opened Wrappers
  import opened RegexHandles

  class CompiledRegex {
    var refcount: int
    var frees: nat // how often it has been deleted

    constructor ()
      ensures refcount == 1 && frees == 0
    {
      refcount, frees := 1, 0;
    }

    method Delete()
      modifies this`frees
      ensures frees == old(frees) + 1
    {
      frees := frees + 1;
    }
  }

  ghost function Handles(hs: set<Regex>): map<Regex, Option<CompiledRegex>>
    reads hs
  {
    map h | h in hs :: h.Value()
  }

  ghost function Cells(os: set<CompiledRegex>): map<CompiledRegex, Cell>
    reads os
  {
    map o | o in os :: Cell(o.refcount, o.frees)
  }

  /** The handles `hs` and the objects `os` as a value. */
  ghost function View(hs: set<Regex>, os: set<CompiledRegex>): Heap<Regex, CompiledRegex>
    reads hs, os
  {
    Heap(Handles(hs), Cells(os))
  }

  /** `os` has every object that a handle in `hs` points to. */
  ghost predicate Closed(hs: set<Regex>, os: set<CompiledRegex>)
    reads hs
  {
    forall h :: h in hs && h.creg != null ==> h.creg in os
  }

  class Regex {
    var creg: CompiledRegex?

    function Value(): Option<CompiledRegex>
      reads this
    {
      if creg == null then None else Some(creg)
    }

    constructor ()
      ensures creg == null
    {
      creg := null;
    }

    /** What copying and assignment do with the object they share. */
    method Share(ghost os: set<CompiledRegex>)
      requires creg != null ==> creg in os
      modifies creg
      ensures Cells(os) == Acquire(old(Cells(os)), Value())
    {
      if creg != null {
        creg.refcount := creg.refcount + 1;
      }
    }

    constructor CopyOf(that: Regex, ghost hs: set<Regex>, ghost os: set<CompiledRegex>)
      requires that in hs && Closed(hs, os)
      modifies that.creg
      ensures Closed(hs + {this}, os)
      ensures View(hs + {this}, os) == Apply(old(View(hs, os)), Copy(this, that))
    {
      creg := that.creg;
      new;
      Share(os);
    }

    /** As the source has it: the old object is deleted when its count is not zero. */
    method DropInCompile(ghost os: set<CompiledRegex>)
      requires creg != null ==> creg in os
      modifies creg
      ensures Cells(os) == ReleaseInCompile(old(Cells(os)), Value())
    {
      if creg != null {
        creg.refcount := creg.refcount - 1;
        if creg.refcount != 0 {
          creg.Delete();
        }
      }
    }

    method Compile(ok: bool, ghost hs: set<Regex>, ghost os: set<CompiledRegex>)
      returns (compiled: bool, o: CompiledRegex)
      requires this in hs && Closed(hs, os)
      modifies this, creg
      ensures fresh(o) && compiled == ok && Closed(hs, os + {o})
      ensures View(hs, os + {o}) == Apply(old(View(hs, os)), RegexHandles.Compile(this, o, ok))
    {
      ghost var before := View(hs, os);
      ghost var released := ReleaseInCompile(before.cells, Value());
      DropInCompile(os);
      o := new CompiledRegex();
      creg := o;
      assert Cells(os + {o}) == released[o := Cell(1, 0)];
      assert Handles(hs) == before.handles[this := Some(o)];
      compiled := ok;
    }

    /** What assignment and destruction do with the old object. */
    method Drop(ghost os: set<CompiledRegex>)
      requires creg != null ==> creg in os
      modifies creg
      ensures Cells(os) == Release(old(Cells(os)), Value())
    {
      if creg != null {
        creg.refcount := creg.refcount - 1;
        if creg.refcount == 0 {
          creg.Delete();
        }
      }
    }

    /** Points to what `that` points to. */
    method Retarget(that: Regex, ghost hs: set<Regex>)
      requires this in hs && that in hs
      modifies this
      ensures creg == old(that.creg)
      ensures Handles(hs) == old(Handles(hs))[this := old(that.Value())]
    {
      creg := that.creg;
    }

    method Assign(that: Regex, ghost hs: set<Regex>, ghost os: set<CompiledRegex>)
      requires this in hs && that in hs && Closed(hs, os)
      modifies this, creg, that.creg
      ensures Closed(hs, os)
      ensures View(hs, os) == Apply(old(View(hs, os)), RegexHandles.Assign(this, that))
    {
      if this != that {
        ghost var handles, cells := Handles(hs), Cells(os);
        ghost var mine, others := Value(), that.Value();
        Drop(os);
        assert Handles(hs) == handles;
        Retarget(that, hs);
        assert Cells(os) == Release(cells, mine);
        Share(os);
        assert Handles(hs) == handles[this := others] && Cells(os) == Acquire(Release(cells, mine), others);
        assert Target(Heap(handles, cells), this) == mine && Target(Heap(handles, cells), that) == others;
      }
    }

    method Destroy(ghost hs: set<Regex>, ghost os: set<CompiledRegex>)
      requires this in hs && Closed(hs, os)
      modifies creg
      ensures Closed(hs - {this}, os)
      ensures View(hs - {this}, os) == Apply(old(View(hs, os)), RegexHandles.Destroy(this))
    {
      ghost var before := View(hs, os);
      Drop(os);
      assert Handles(hs - {this}) == before.handles - {this};
    }
  }
}
