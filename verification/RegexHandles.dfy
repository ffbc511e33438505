/** Handles that share compiled regular expressions by counting references, as values: which
    operations keep the counts right. */
module RegexHandles {
  import opened Wrappers

  /** A compiled object: its count, and how often it has been deleted. */
  datatype Cell = Cell(refcount: int, frees: nat)

  datatype Heap<!H(==), !O(==)> = Heap(handles: map<H, Option<O>>, cells: map<O, Cell>)

  datatype Op<H, O> =
    | Default(h: H)
    | Construct(h: H, o: O, ok: bool) // from a text; `ok` unless it does not compile
    | Compile(h: H, o: O, ok: bool)
    | Copy(h: H, from: H)
    | Assign(h: H, from: H)
    | Destroy(h: H)

  function Target<H, O>(hp: Heap<H, O>, h: H): Option<O> {
    if h in hp.handles then hp.handles[h] else None
  }

  function Adjust<O>(cells: map<O, Cell>, o: O, step: int): map<O, Cell> {
    if o in cells then cells[o := cells[o].(refcount := cells[o].refcount + step)] else cells
  }

  function Free<O>(cells: map<O, Cell>, o: O): map<O, Cell> {
    if o in cells then cells[o := cells[o].(frees := cells[o].frees + 1)] else cells
  }

  /** Decrement, and delete at zero. */
  function Release<O>(cells: map<O, Cell>, target: Option<O>): map<O, Cell> {
    match target
    case None => cells
    case Some(o) =>
      var less := Adjust(cells, o, -1);
      if o in less && less[o].refcount == 0 then Free(less, o) else less
  }

  /** Decrement, and delete unless zero: what `compile` does. */
  function ReleaseInCompile<O>(cells: map<O, Cell>, target: Option<O>): map<O, Cell> {
    match target
    case None => cells
    case Some(o) =>
      var less := Adjust(cells, o, -1);
      if o in less && less[o].refcount != 0 then Free(less, o) else less
  }

  function Acquire<O>(cells: map<O, Cell>, target: Option<O>): map<O, Cell> {
    match target
    case None => cells
    case Some(o) => Adjust(cells, o, 1)
  }

  function Apply<H, O>(hp: Heap<H, O>, op: Op<H, O>): Heap<H, O> {
    match op
    case Default(h) => hp.(handles := hp.handles[h := None])
    case Construct(h, o, ok) =>
      // If compiling throws, the handle never comes to be and its destructor does not run.
      Heap(if ok then hp.handles[h := Some(o)] else hp.handles, hp.cells[o := Cell(1, 0)])
    case Compile(h, o, _) =>
      // The handle has the new object whether or not it compiles.
      Heap(hp.handles[h := Some(o)], ReleaseInCompile(hp.cells, Target(hp, h))[o := Cell(1, 0)])
    case Copy(h, from) =>
      Heap(hp.handles[h := Target(hp, from)], Acquire(hp.cells, Target(hp, from)))
    case Assign(h, from) =>
      if h == from then hp
      else
        Heap(hp.handles[h := Target(hp, from)], Acquire(Release(hp.cells, Target(hp, h)), Target(hp, from)))
    case Destroy(h) => Heap(hp.handles - {h}, Release(hp.cells, Target(hp, h)))
  }

  /** New handles and objects are new; others exist. */
  predicate Possible<H, O>(hp: Heap<H, O>, op: Op<H, O>) {
    match op
    case Default(h) => h !in hp.handles
    case Construct(h, o, _) => h !in hp.handles && o !in hp.cells
    case Compile(h, o, _) => h in hp.handles && o !in hp.cells
    case Copy(h, from) => h !in hp.handles && from in hp.handles
    case Assign(h, from) => h in hp.handles && from in hp.handles
    case Destroy(h) => h in hp.handles
  }

  // ----- The invariant -----

  ghost function Users<H, O>(hp: Heap<H, O>, o: O): set<H> {
    set h | h in hp.handles && hp.handles[h] == Some(o)
  }

  /** What becomes of an object that `n` handles point to: with users, it is there and counts
      them; without, it has been deleted, once. */
  predicate CellSound(c: Cell, n: nat) {
    if n == 0 then c.frees == 1 else c == Cell(n, 0)
  }

  ghost predicate Sound<H, O>(hp: Heap<H, O>) {
    && (forall h :: h in hp.handles && hp.handles[h].Some? ==> hp.handles[h].value in hp.cells)
    && (forall o :: o in hp.cells ==> CellSound(hp.cells[o], |Users(hp, o)|))
  }

  /** Setting one handle. */
  lemma UsersSet<H, O>(hp: Heap<H, O>, hp': Heap<H, O>, h: H, t: Option<O>, o: O)
    requires hp'.handles == hp.handles[h := t]
    ensures |Users(hp', o)| == |Users(hp, o)|
      - (if Target(hp, h) == Some(o) then 1 else 0) + (if t == Some(o) then 1 else 0)
  {
    var rest := Users(hp, o) - {h};
    assert h in Users(hp, o) <==> Target(hp, h) == Some(o);
    forall x
      ensures x in Users(hp', o) <==> x in rest || (x == h && t == Some(o))
    {
    }
    if t == Some(o) {
      assert Users(hp', o) == rest + {h};
    } else {
      assert Users(hp', o) == rest;
    }
  }

  lemma UsersRemove<H, O>(hp: Heap<H, O>, hp': Heap<H, O>, h: H, o: O)
    requires hp'.handles == hp.handles - {h}
    ensures |Users(hp', o)| == |Users(hp, o)| - (if Target(hp, h) == Some(o) then 1 else 0)
  {
    assert Users(hp', o) == Users(hp, o) - {h};
    assert Target(hp, h) == Some(o) <==> h in Users(hp, o);
  }

  lemma NewHasNoUsers<H, O>(hp: Heap<H, O>, o: O)
    requires Sound(hp) && o !in hp.cells
    ensures Users(hp, o) == {}
  {
  }

  lemma UsersOfTarget<H, O>(hp: Heap<H, O>, h: H)
    requires Sound(hp) && Target(hp, h).Some?
    ensures var o := Target(hp, h).value;
      o in hp.cells && |Users(hp, o)| >= 1 && hp.cells[o] == Cell(|Users(hp, o)|, 0)
  {
    assert h in Users(hp, Target(hp, h).value);
  }

  // ----- Each operation -----

  lemma DefaultKeepsSound<H, O>(hp: Heap<H, O>, h: H)
    requires Sound(hp) && Possible(hp, Default(h))
    ensures Sound(Apply(hp, Default(h)))
  {
    var hp' := Apply(hp, Default(h));
    forall o | o in hp'.cells
      ensures CellSound(hp'.cells[o], |Users(hp', o)|)
    {
      UsersSet(hp, hp', h, None, o);
    }
  }

  lemma CopyKeepsSound<H, O>(hp: Heap<H, O>, h: H, from: H)
    requires Sound(hp) && Possible(hp, Op<H, O>.Copy(h, from))
    ensures Sound(Apply(hp, Copy(h, from)))
  {
    var t := Target(hp, from);
    var hp' := Apply(hp, Copy(h, from));
    if t.Some? {
      UsersOfTarget(hp, from);
    }
    forall o | o in hp'.cells
      ensures CellSound(hp'.cells[o], |Users(hp', o)|)
    {
      UsersSet(hp, hp', h, t, o);
    }
  }

  lemma AssignKeepsSound<H, O>(hp: Heap<H, O>, h: H, from: H)
    requires Sound(hp) && Possible(hp, Op<H, O>.Assign(h, from))
    ensures Sound(Apply(hp, Assign(h, from)))
  {
    if h != from {
      var s, t := Target(hp, h), Target(hp, from);
      var hp' := Apply(hp, Assign(h, from));
      if t.Some? {
        UsersOfTarget(hp, from);
      }
      if s.Some? {
        UsersOfTarget(hp, h);
        if s == t {
          assert {h, from} <= Users(hp, s.value);
          TwoUsers(Users(hp, s.value), h, from);
        }
      }
      forall o | o in hp'.cells
        ensures CellSound(hp'.cells[o], |Users(hp', o)|)
      {
        UsersSet(hp, hp', h, t, o);
      }
    }
  }

  lemma TwoUsers<H>(s: set<H>, a: H, b: H)
    requires a in s && b in s && a != b
    ensures |s| >= 2
  {
    assert |s - {a}| == |s| - 1 && b in s - {a};
  }

  lemma DestroyKeepsSound<H, O>(hp: Heap<H, O>, h: H)
    requires Sound(hp) && Possible(hp, Op<H, O>.Destroy(h))
    ensures Sound(Apply(hp, Destroy(h)))
  {
    var hp' := Apply(hp, Destroy(h));
    if Target(hp, h).Some? {
      UsersOfTarget(hp, h);
    }
    forall o | o in hp'.cells
      ensures CellSound(hp'.cells[o], |Users(hp', o)|)
    {
      UsersRemove(hp, hp', h, o);
    }
  }

  /** Compiling keeps the counts right exactly on an empty handle: on the only handle of an
      object it leaks the object, and on one of several it deletes what the others point to. */
  lemma CompileKeepsSoundIff<H, O>(hp: Heap<H, O>, h: H, o: O, ok: bool)
    requires Sound(hp) && Possible(hp, Compile(h, o, ok))
    ensures Sound(Apply(hp, Compile(h, o, ok))) <==> Target(hp, h).None?
  {
    var s := Target(hp, h);
    var hp' := Apply(hp, Compile(h, o, ok));
    NewHasNoUsers(hp, o);
    if s.Some? {
      UsersOfTarget(hp, h);
      UsersSet(hp, hp', h, Some(o), s.value);
      assert !CellSound(hp'.cells[s.value], |Users(hp', s.value)|);
    } else {
      forall x | x in hp'.cells
        ensures CellSound(hp'.cells[x], |Users(hp', x)|)
      {
        UsersSet(hp, hp', h, Some(o), x);
      }
    }
  }

  /** Constructing from a text keeps them right exactly if the text compiles; otherwise the
      object is leaked. */
  lemma ConstructKeepsSoundIff<H, O>(hp: Heap<H, O>, h: H, o: O, ok: bool)
    requires Sound(hp) && Possible(hp, Construct(h, o, ok))
    ensures Sound(Apply(hp, Construct(h, o, ok))) <==> ok
  {
    var hp' := Apply(hp, Construct(h, o, ok));
    NewHasNoUsers(hp, o);
    if ok {
      forall x | x in hp'.cells
        ensures CellSound(hp'.cells[x], |Users(hp', x)|)
      {
        UsersSet(hp, hp', h, Some(o), x);
      }
    } else {
      assert Users(hp', o) == Users(hp, o);
      assert !CellSound(hp'.cells[o], |Users(hp', o)|);
    }
  }

  // ----- Every run -----

  predicate Harmless<H, O>(hp: Heap<H, O>, op: Op<H, O>) {
    match op
    case Compile(h, _, _) => Target(hp, h).None?
    case Construct(_, _, ok) => ok
    case _ => true
  }

  lemma ApplyKeepsSoundIff<H, O>(hp: Heap<H, O>, op: Op<H, O>)
    requires Sound(hp) && Possible(hp, op)
    ensures Sound(Apply(hp, op)) <==> Harmless(hp, op)
  {
    match op
    case Default(h) => DefaultKeepsSound(hp, h);
    case Construct(h, o, ok) => ConstructKeepsSoundIff(hp, h, o, ok);
    case Compile(h, o, ok) => CompileKeepsSoundIff(hp, h, o, ok);
    case Copy(h, from) => CopyKeepsSound(hp, h, from);
    case Assign(h, from) => AssignKeepsSound(hp, h, from);
    case Destroy(h) => DestroyKeepsSound(hp, h);
  }

  function Run<H, O>(hp: Heap<H, O>, ops: seq<Op<H, O>>): Heap<H, O>
    decreases |ops|
  {
    if ops == [] then hp else Run(Apply(hp, ops[0]), ops[1..])
  }

  predicate RunPossible<H, O>(hp: Heap<H, O>, ops: seq<Op<H, O>>)
    decreases |ops|
  {
    ops == [] || (Possible(hp, ops[0]) && RunPossible(Apply(hp, ops[0]), ops[1..]))
  }

  ghost predicate SoundThroughout<H, O>(hp: Heap<H, O>, ops: seq<Op<H, O>>)
    decreases |ops|
  {
    Sound(hp) && (ops == [] || SoundThroughout(Apply(hp, ops[0]), ops[1..]))
  }

  predicate AllHarmless<H, O>(hp: Heap<H, O>, ops: seq<Op<H, O>>)
    decreases |ops|
  {
    ops == [] || (Harmless(hp, ops[0]) && AllHarmless(Apply(hp, ops[0]), ops[1..]))
  }

  /** A run keeps the counts right at every point exactly if it compiles only empty handles and
      constructs only from texts that compile. */
  lemma {:induction false} RunSoundIff<H, O>(hp: Heap<H, O>, ops: seq<Op<H, O>>)
    requires Sound(hp) && RunPossible(hp, ops)
    ensures SoundThroughout(hp, ops) <==> AllHarmless(hp, ops)
    decreases |ops|
  {
    if ops != [] {
      ApplyKeepsSoundIff(hp, ops[0]);
      if Sound(Apply(hp, ops[0])) {
        RunSoundIff(Apply(hp, ops[0]), ops[1..]);
      }
    }
  }

  lemma {:induction false} RunEndsSound<H, O>(hp: Heap<H, O>, ops: seq<Op<H, O>>)
    requires Sound(hp) && RunPossible(hp, ops) && AllHarmless(hp, ops)
    ensures Sound(Run(hp, ops))
    decreases |ops|
  {
    if ops != [] {
      ApplyKeepsSoundIff(hp, ops[0]);
      RunEndsSound(Apply(hp, ops[0]), ops[1..]);
    }
  }

  /** When the last handle is gone, every object ever made has been deleted exactly once. */
  lemma AllFreedOnce<H, O>(ops: seq<Op<H, O>>)
    requires RunPossible(Heap(map[], map[]), ops) && AllHarmless(Heap(map[], map[]), ops)
    ensures var hp := Run(Heap(map[], map[]), ops);
      hp.handles == map[] ==> forall o :: o in hp.cells ==> hp.cells[o].frees == 1
  {
    var start: Heap<H, O> := Heap(map[], map[]);
    RunEndsSound(start, ops);
    var hp := Run(start, ops);
    if hp.handles == map[] {
      forall o | o in hp.cells
        ensures hp.cells[o].frees == 1
      {
        assert Users(hp, o) == {};
      }
    }
  }

  /** How the configuration parser uses them: a handle is only compiled right after it was
      made, and none is constructed from a text.  Copies, in temporaries or when a vector
      grows, assignments and destructions may come in any number and order, and any text may
      fail to compile. */
  ghost predicate CompilesFresh<H, O>(before: Option<Op<H, O>>, ops: seq<Op<H, O>>)
    decreases |ops|
  {
    ops == [] ||
    (!ops[0].Construct? && (ops[0].Compile? ==> before == Some(Default(ops[0].h))) &&
     CompilesFresh(Some(ops[0]), ops[1..]))
  }

  lemma {:induction false} FreshIsHarmless<H, O>(hp: Heap<H, O>, before: Option<Op<H, O>>, ops: seq<Op<H, O>>)
    requires CompilesFresh(before, ops)
    requires before.Some? && before.value.Default? ==> Target(hp, before.value.h).None?
    ensures AllHarmless(hp, ops)
    decreases |ops|
  {
    if ops != [] {
      FreshIsHarmless(Apply(hp, ops[0]), Some(ops[0]), ops[1..]);
    }
  }

  /** So in every such run each count is right at each point, and when the last handle is gone
      every object has been deleted exactly once. */
  lemma ParserRuns<H, O>(ops: seq<Op<H, O>>)
    requires RunPossible(Heap(map[], map[]), ops) && CompilesFresh(None, ops)
    ensures SoundThroughout(Heap(map[], map[]), ops)
    ensures var hp := Run(Heap(map[], map[]), ops);
      hp.handles == map[] ==> forall o :: o in hp.cells ==> hp.cells[o].frees == 1
  {
    var start: Heap<H, O> := Heap(map[], map[]);
    FreshIsHarmless(start, None, ops);
    RunSoundIff(start, ops);
    AllFreedOnce(ops);
  }

  /** The shortest of them: compile a fresh handle, copy it into the list of patterns, and let
      the local one go.  What is left is one handle and a count of one. */
  lemma ParserUse<H, O>(hp: Heap<H, O>, local: H, kept: H, o: O)
    requires Sound(hp) && local !in hp.handles && kept !in hp.handles && local != kept && o !in hp.cells
    ensures var ops := [Default(local), Compile(local, o, true), Copy(kept, local), Destroy(local)];
      && RunPossible(hp, ops) && AllHarmless(hp, ops)
      && Run(hp, ops) == Heap(hp.handles[kept := Some(o)], hp.cells[o := Cell(1, 0)])
  {
    var o0: Op<H, O>, o1, o2: Op<H, O>, o3: Op<H, O> :=
      Default(local), Compile(local, o, true), Copy(kept, local), Destroy(local);
    var a := Apply(hp, o0);
    var b := Apply(a, o1);
    var c := Apply(b, o2);
    var d := Apply(c, o3);
    RunOne(c, o3, []);
    RunOne(b, o2, [o3]);
    RunOne(a, o1, [o2, o3]);
    RunOne(hp, o0, [o1, o2, o3]);
    assert [o3] + [] == [o3] && [o2] + [o3] == [o2, o3];
    assert [o1] + [o2, o3] == [o1, o2, o3] && [o0] + [o1, o2, o3] == [o0, o1, o2, o3];
    assert d.handles == hp.handles[kept := Some(o)];
    assert d.cells == hp.cells[o := Cell(1, 0)];
  }

  lemma RunOne<H, O>(hp: Heap<H, O>, op: Op<H, O>, ops: seq<Op<H, O>>)
    ensures Run(hp, [op] + ops) == Run(Apply(hp, op), ops)
    ensures RunPossible(hp, [op] + ops) <==> Possible(hp, op) && RunPossible(Apply(hp, op), ops)
    ensures AllHarmless(hp, [op] + ops) <==> Harmless(hp, op) && AllHarmless(Apply(hp, op), ops)
  {
    assert ([op] + ops)[1..] == ops;
  }
}
