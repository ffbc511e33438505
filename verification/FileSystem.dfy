/** The environment of a log follower: a directory of names, the files they name, and what
    other processes may do to them.

    A `File` is an identity that is never used twice.  Its `Id` is what stat(2) reports, and
    that may be used again once the file is neither linked nor held open.  Files have one
    link, and only grow. */
module FileSystem {
  import opened Wrappers

  type Name = string
  type File = nat
  datatype Id = Id(dev: int, ino: int)

  datatype Fs = Fs(
    dir: map<Name, File>,     // the directory that holds the watched name
    outside: set<File>,       // files linked in other directories of the same file system
    data: map<File, string>,  // contents, of every file there ever was
    ids: map<File, Id>)

  datatype Op =
    | Create(name: Name, file: File, id: Id)
    | Append(file: File, text: string)
    | Unlink(name: Name)
    | Rename(src: Name, dst: Name)   // replaces dst if it exists
    | MoveOut(name: Name)            // to another directory
    | MoveIn(file: File, name: Name) // from another directory; replaces name if it exists

  function Lookup(fs: Fs, name: Name): Option<File> {
    if name in fs.dir then Some(fs.dir[name]) else None
  }

  function Linked(fs: Fs): set<File> {
    fs.dir.Values + fs.outside
  }

  ghost predicate ValidFs(fs: Fs) {
    && (forall m, n :: m in fs.dir && n in fs.dir && fs.dir[m] == fs.dir[n] ==> m == n)
    && (forall n :: n in fs.dir ==> fs.dir[n] in fs.data && fs.dir[n] !in fs.outside)
    && (forall f :: f in fs.outside ==> f in fs.data)
    && fs.ids.Keys == fs.data.Keys
  }

  /** Files that are linked or held open have ids of their own. */
  ghost predicate UniqueIds(fs: Fs, held: set<File>) {
    forall f, g :: f in Linked(fs) + held && g in Linked(fs) + held && f in fs.ids && g in fs.ids && f != g
      ==> fs.ids[f] != fs.ids[g]
  }

  ghost predicate Enabled(fs: Fs, held: set<File>, op: Op) {
    match op
    case Create(name, file, id) =>
      && name !in fs.dir && file !in fs.data
      && (forall f :: f in Linked(fs) + held && f in fs.ids ==> fs.ids[f] != id)
    case Append(file, text) => file in fs.data && text != ""
    case Unlink(name) => name in fs.dir
    case Rename(src, dst) => src in fs.dir && src != dst
    case MoveOut(name) => name in fs.dir
    case MoveIn(file, name) => file in fs.outside
  }

  function Apply(fs: Fs, op: Op): Fs {
    match op
    case Create(name, file, id) =>
      fs.(dir := fs.dir[name := file], data := fs.data[file := ""], ids := fs.ids[file := id])
    case Append(file, text) =>
      if file in fs.data then fs.(data := fs.data[file := fs.data[file] + text]) else fs
    case Unlink(name) => fs.(dir := fs.dir - {name})
    case Rename(src, dst) =>
      if src in fs.dir then fs.(dir := (fs.dir - {src})[dst := fs.dir[src]]) else fs
    case MoveOut(name) =>
      if name in fs.dir then fs.(dir := fs.dir - {name}, outside := fs.outside + {fs.dir[name]}) else fs
    case MoveIn(file, name) => fs.(dir := fs.dir[name := file], outside := fs.outside - {file})
  }

  /** The files whose place in the directory an operation takes away or changes. */
  function Displaced(fs: Fs, op: Op): set<File> {
    match op
    case Create(_, _, _) => {}
    case Append(_, _) => {}
    case Unlink(name) => if name in fs.dir then {fs.dir[name]} else {}
    case Rename(src, dst) =>
      (if src in fs.dir then {fs.dir[src]} else {}) + (if dst in fs.dir then {fs.dir[dst]} else {})
    case MoveOut(name) => if name in fs.dir then {fs.dir[name]} else {}
    case MoveIn(file, name) => {file} + if name in fs.dir then {fs.dir[name]} else {}
  }

  /** The names an operation binds or unbinds. */
  function Touched(op: Op): set<Name> {
    match op
    case Create(name, _, _) => {name}
    case Append(_, _) => {}
    case Unlink(name) => {name}
    case Rename(src, dst) => {src, dst}
    case MoveOut(name) => {name}
    case MoveIn(_, name) => {name}
  }

  /** The text that operations append to a file, in order. */
  function Appended(ops: seq<Op>, x: File): string {
    if ops == [] then ""
    else (if ops[0].Append? && ops[0].file == x then ops[0].text else "") + Appended(ops[1..], x)
  }

  predicate AppendsTo(ops: seq<Op>, x: File) {
    exists i :: 0 <= i < |ops| && ops[i].Append? && ops[i].file == x
  }

  // ----- What every operation keeps -----

  lemma ApplyValid(fs: Fs, held: set<File>, op: Op)
    requires ValidFs(fs) && Enabled(fs, held, op)
    ensures ValidFs(Apply(fs, op))
  {
  }

  /** Contents only grow. */
  lemma ApplyGrows(fs: Fs, op: Op, held: set<File>, f: File)
    requires ValidFs(fs) && Enabled(fs, held, op) && f in fs.data
    ensures f in Apply(fs, op).data && fs.data[f] <= Apply(fs, op).data[f]
    ensures Apply(fs, op).data[f] != fs.data[f] ==> op.Append? && op.file == f
    ensures f in Apply(fs, op).ids && Apply(fs, op).ids[f] == fs.ids[f]
  {
  }

  /** Only a touched name can come to mean something else. */
  lemma ApplyLookup(fs: Fs, held: set<File>, op: Op, name: Name)
    requires ValidFs(fs) && Enabled(fs, held, op) && name !in Touched(op)
    ensures Lookup(Apply(fs, op), name) == Lookup(fs, name)
    ensures Lookup(fs, name).Some? ==> Lookup(fs, name).value !in Displaced(fs, op)
  {
  }

  /** An id cannot pass to another file while its file is linked or held. */
  lemma ApplyUniqueIds(fs: Fs, held: set<File>, op: Op)
    requires ValidFs(fs) && held <= fs.data.Keys && Enabled(fs, held, op) && UniqueIds(fs, held)
    ensures UniqueIds(Apply(fs, op), held)
  {
    var after := Apply(fs, op);
    forall f | f in Linked(after) + held && !(op.Create? && f == op.file)
      ensures f in Linked(fs) + held && (f in after.ids ==> f in fs.ids && after.ids[f] == fs.ids[f])
    {
    }
  }

  // ----- Appending -----

  lemma ApplyAppends(fs: Fs, held: set<File>, op: Op, x: File)
    requires ValidFs(fs) && Enabled(fs, held, op) && x in fs.data
    ensures x in Apply(fs, op).data && Apply(fs, op).data[x] == fs.data[x] + Appended([op], x)
  {
    var text := if op.Append? && op.file == x then op.text else "";
    assert [op][1..] == [];
    assert Appended([op], x) == text + "" == text;
  }

  lemma {:induction false} AppendedConcat(a: seq<Op>, b: seq<Op>, x: File)
    ensures Appended(a + b, x) == Appended(a, x) + Appended(b, x)
  {
    if a == [] {
      assert a + b == b;
    } else {
      assert (a + b)[1..] == a[1..] + b;
      AppendedConcat(a[1..], b, x);
    }
  }

  /** Nobody appends nothing. */
  predicate AppendSomething(ops: seq<Op>) {
    forall i :: 0 <= i < |ops| && ops[i].Append? ==> ops[i].text != ""
  }

  /** Something was appended exactly if somebody appended. */
  lemma {:induction false} AppendedIff(ops: seq<Op>, x: File)
    requires AppendSomething(ops)
    ensures Appended(ops, x) != "" <==> AppendsTo(ops, x)
  {
    if ops != [] {
      AppendedIff(ops[1..], x);
      assert AppendsTo(ops[1..], x) ==> AppendsTo(ops, x) by {
        assert forall i :: 0 <= i < |ops[1..]| ==> ops[1..][i] == ops[i + 1];
      }
      if AppendsTo(ops, x) {
        var i :| 0 <= i < |ops| && ops[i].Append? && ops[i].file == x;
        assert 0 < i ==> ops[1..][i - 1] == ops[i];
      }
    }
  }
}
