/** What the two kinds of log follower have in common: an open file, a position in it, a
    line under assembly, and the loop that reads on to the end of the file. */
module Following {
  import opened Wrappers
  import opened Lines
  import opened FileSystem

  /** `fp` and the position in it, the partial line, and the lines handed to processLine. */
  datatype Follow = Follow(fp: Option<File>, pos: nat, line: string, out: seq<string>)

  const IDLE := Follow(None, 0, "", [])

  function Buf(f: Follow): Buffer { Buffer(f.out, f.line) }

  function Rest(f: Follow, contents: string): string {
    if f.pos <= |contents| then contents[f.pos..] else ""
  }

  /** Reading on to the end of `contents`. */
  function ReadOn(f: Follow, contents: string): Follow {
    var b := Feed(Buf(f), Rest(f, contents));
    f.(pos := f.pos + |Rest(f, contents)|, line := b.line, out := b.out)
  }

  /** An unfinished line is delivered as it is. */
  function Flush(f: Follow): Follow {
    if f.line == "" then f else f.(line := "", out := f.out + [f.line])
  }

  // ----- Sessions -----

  /** A stretch of one file that was followed from open to close: `cause` is what closed it,
      `len` the length of the file at that moment.  Sessions are history: a follower does not
      keep them. */
  datatype Session<C> = Session(file: File, start: nat, end: nat, len: nat, cause: C)

  predicate SessionFits<C>(fs: Fs, x: Session<C>) {
    x.file in fs.data && x.start <= x.end <= x.len <= |fs.data[x.file]|
  }

  predicate SessionsFit<C>(fs: Fs, xs: seq<Session<C>>) {
    forall i :: 0 <= i < |xs| ==> SessionFits(fs, xs[i])
  }

  function SessionText<C>(fs: Fs, x: Session<C>): string {
    if SessionFits(fs, x) then fs.data[x.file][x.start..x.end] else ""
  }

  /** The lines of finished sessions, each split on its own. */
  function Delivered<C>(fs: Fs, xs: seq<Session<C>>): seq<string> {
    if xs == [] then [] else Delivered(fs, xs[..|xs| - 1]) + AllLines(SessionText(fs, xs[|xs| - 1]))
  }

  predicate Grows(fs: Fs, fs': Fs) {
    forall x :: x in fs.data ==> x in fs'.data && fs.data[x] <= fs'.data[x]
  }

  /** Growing files leave finished sessions as they were. */
  lemma {:induction false} DeliveredStable<C>(fs: Fs, fs': Fs, xs: seq<Session<C>>)
    requires SessionsFit(fs, xs) && Grows(fs, fs')
    ensures Delivered(fs', xs) == Delivered(fs, xs) && SessionsFit(fs', xs)
  {
    if xs != [] {
      var last := xs[|xs| - 1];
      DeliveredStable(fs, fs', xs[..|xs| - 1]);
      assert SessionFits(fs, last);
      assert SessionText(fs', last) == SessionText(fs, last);
    }
  }

  lemma DeliveredOneMore<C>(fs: Fs, xs: seq<Session<C>>, x: Session<C>)
    ensures Delivered(fs, xs + [x]) == Delivered(fs, xs) + AllLines(SessionText(fs, x))
  {
    assert (xs + [x])[..|xs|] == xs;
  }

  // ----- Reading -----

  lemma SliceJoin(text: string, i: nat, j: nat)
    requires i <= j <= |text|
    ensures text[i..] == text[i..j] + text[j..]
  {
  }

  lemma SliceOfLonger(text: string, longer: string, i: nat, j: nat)
    requires text <= longer
    ensures i <= j <= |text| ==> longer[i..j] == text[i..j]
  {
  }

  /** Ending a session delivers all the lines of its text, whole or not. */
  lemma FlushDelivers(before: seq<string>, text: string, f: Follow)
    requires Buf(f) == Feed(Buffer(before, ""), text)
    ensures Flush(f).out == before + AllLines(text)
  {
    FeedFrame(Buffer(before, ""), text);
    assert Flush(f).out == f.out + if f.line == "" then [] else [f.line];
  }

  /** State and reading loop common to both kinds of follower. */
  class WatcherImplementation {
    var fp: Option<File>
    var pos: nat
    var line: string
    var delivered: seq<string> // what processLine has been called with

    constructor ()
      ensures View() == IDLE
    {
      fp, pos, line, delivered := None, 0, "", [];
    }

    function View(): Follow
      reads this
    {
      Follow(fp, pos, line, delivered)
    }

    method ProcessLine(l: string)
      modifies this`delivered
      ensures delivered == old(delivered) + [l]
    {
      delivered := delivered + [l];
    }

    /** Reads the open file, whose contents are given, to its present end. */
    method ReadLines(contents: string)
      requires fp.Some? && pos <= |contents|
      modifies this`pos, this`line, this`delivered
      ensures View() == ReadOn(old(View()), contents)
    {
      ghost var goal := Feed(Buf(View()), contents[pos..]);
      while true
        invariant pos <= |contents| && Feed(Buf(View()), contents[pos..]) == goal
        decreases |contents| - pos
      {
        // Read the line up to the next newline or end of file.
        var newline := false;
        while pos < |contents|
          invariant pos <= |contents| && !newline && old(pos) <= pos
          invariant Feed(Buf(View()), contents[pos..]) == goal
        {
          var c := contents[pos];
          ghost var rest := contents[pos..];
          assert rest[1..] == contents[pos + 1..];
          pos := pos + 1;
          line := line + [c];
          if c == '\n' {
            newline := true;
            break;
          }
        }
        if newline {
          ProcessLine(line);
          line := "";
        } else {
          return;
        }
      }
    }

    /** The first half of closeFile: an unfinished line is delivered as it is. */
    method FlushLine()
      modifies this`line, this`delivered
      ensures View() == Flush(old(View()))
    {
      if line != "" {
        ProcessLine(line);
        line := "";
      }
    }
  }
}
