/** How a stream of bytes becomes lines.

    `Feed` is the byte-at-a-time view of the follower's reading loop.  `IsSplit` is an
    independent description of what it should produce: it never mentions an order of
    reading, and `SplitUnique` shows that it pins the answer down. */
module Lines {

  /** Lines delivered so far, and the partial line still being assembled. */
  datatype Buffer = Buffer(out: seq<string>, line: string)

  function Flatten(parts: seq<string>): string {
    if parts == [] then "" else parts[0] + Flatten(parts[1..])
  }

  /** A newline at the end, and nowhere else. */
  predicate IsLine(l: string) {
    l != "" && l[|l| - 1] == '\n' && '\n' !in l[..|l| - 1]
  }

  /** `text` cut after each newline: whole lines `ls`, then a newline-free `rest`. */
  ghost predicate IsSplit(text: string, ls: seq<string>, rest: string) {
    && Flatten(ls) + rest == text
    && (forall i :: 0 <= i < |ls| ==> IsLine(ls[i]))
    && '\n' !in rest
  }

  function Push(b: Buffer, c: char): Buffer {
    if c == '\n' then Buffer(b.out + [b.line + [c]], "") else Buffer(b.out, b.line + [c])
  }

  function Feed(b: Buffer, text: string): Buffer
    decreases |text|
  {
    if text == "" then b else Feed(Push(b, text[0]), text[1..])
  }

  /** Feeding one chunk after another. */
  function FeedAll(b: Buffer, chunks: seq<string>): Buffer
    decreases |chunks|
  {
    if chunks == [] then b else FeedAll(Feed(b, chunks[0]), chunks[1..])
  }

  function Split(text: string): Buffer {
    Feed(Buffer([], ""), text)
  }

  /** The lines of a text that has ended: an unfinished last line counts. */
  function AllLines(text: string): seq<string> {
    var b := Split(text);
    b.out + if b.line == "" then [] else [b.line]
  }

  // ----- Facts about concatenation -----

  lemma {:induction false} FlattenAppend(a: seq<string>, b: seq<string>)
    ensures Flatten(a + b) == Flatten(a) + Flatten(b)
  {
    if a == [] {
      assert a + b == b;
    } else {
      assert (a + b)[1..] == a[1..] + b;
      FlattenAppend(a[1..], b);
    }
  }

  lemma FlattenOne(s: string)
    ensures Flatten([s]) == s
  {
    assert [s][1..] == [];
    assert Flatten([s]) == s + "";
  }

  lemma {:induction false} FeedAppend(b: Buffer, s: string, t: string)
    ensures Feed(b, s + t) == Feed(Feed(b, s), t)
    decreases |s|
  {
    if s == "" {
      assert s + t == t;
    } else {
      assert (s + t)[1..] == s[1..] + t;
      FeedAppend(Push(b, s[0]), s[1..], t);
    }
  }

  /** What was already delivered is left alone and does not influence what follows. */
  lemma {:induction false} FeedFrame(b: Buffer, text: string)
    ensures Feed(b, text) == Buffer(b.out + Feed(Buffer([], b.line), text).out, Feed(Buffer([], b.line), text).line)
    decreases |text|
  {
    if text == "" {
      assert b.out + [] == b.out;
    } else {
      var p, p0 := Push(b, text[0]), Push(Buffer([], b.line), text[0]);
      assert p.out == b.out + p0.out && p.line == p0.line;
      FeedFrame(p, text[1..]);
      FeedFrame(p0, text[1..]);
      var rest := Feed(Buffer([], p.line), text[1..]).out;
      assert (b.out + p0.out) + rest == b.out + (p0.out + rest);
    }
  }

  // ----- The reading loop agrees with the one-shot split -----

  /** All the text that has gone into a buffer. */
  function TextOf(b: Buffer): string {
    Flatten(b.out) + b.line
  }

  predicate WellFormed(b: Buffer) {
    (forall i :: 0 <= i < |b.out| ==> IsLine(b.out[i])) && '\n' !in b.line
  }

  lemma PushKeeps(b: Buffer, c: char)
    requires WellFormed(b)
    ensures WellFormed(Push(b, c)) && TextOf(Push(b, c)) == TextOf(b) + [c]
  {
    var l := b.line + [c];
    FlattenAppend(b.out, [l]);
    FlattenOne(l);
    assert Flatten(b.out) + b.line + [c] == Flatten(b.out) + l;
    assert l[..|l| - 1] == b.line;
  }

  /** Feeding a well-formed buffer yields exactly the split of everything it has seen. */
  lemma {:induction false} FeedSplits(b: Buffer, text: string)
    requires WellFormed(b)
    ensures IsSplit(TextOf(b) + text, Feed(b, text).out, Feed(b, text).line)
    decreases |text|
  {
    if text == "" {
      assert TextOf(b) + text == TextOf(b);
    } else {
      PushKeeps(b, text[0]);
      FeedSplits(Push(b, text[0]), text[1..]);
      assert TextOf(b) + text == TextOf(b) + [text[0]] + text[1..];
    }
  }

  lemma SplitIsSplit(text: string)
    ensures IsSplit(text, Split(text).out, Split(text).line)
  {
    FeedSplits(Buffer([], ""), text);
    assert TextOf(Buffer([], "")) + text == text;
  }

  /** In a split, the first newline of the text ends the first line. */
  lemma FirstLine(text: string, ls: seq<string>, rest: string, n: nat)
    requires IsSplit(text, ls, rest)
    requires n < |text| && text[n] == '\n' && '\n' !in text[..n]
    ensures ls != [] && ls[0] == text[..n + 1]
    ensures IsSplit(text[n + 1..], ls[1..], rest)
  {
    assert ls == [] ==> text == rest;
    assert ls != [];
    var l, more := ls[0], Flatten(ls[1..]) + rest;
    assert text == l + more;
    assert l[|l| - 1] == text[|l| - 1];
    assert forall k :: 0 <= k < n ==> text[k] == text[..n][k];
    assert forall k :: 0 <= k < |l| - 1 ==> text[k] == l[..|l| - 1][k];
    assert n == |l| - 1;
    assert text[n + 1..] == more;
  }

  /** `IsSplit` has one solution only. */
  lemma {:induction false} SplitUnique(text: string, ls: seq<string>, rest: string, ks: seq<string>, left: string)
    requires IsSplit(text, ls, rest) && IsSplit(text, ks, left)
    ensures ls == ks && rest == left
    decreases |ls|
  {
    if ls == [] && ks == [] {
      assert text == rest && text == left;
    } else {
      var n := FirstNewline(text, if ls != [] then ls else ks, if ls != [] then rest else left);
      FirstLine(text, ls, rest, n);
      FirstLine(text, ks, left, n);
      SplitUnique(text[n + 1..], ls[1..], rest, ks[1..], left);
      assert ls == [ls[0]] + ls[1..] && ks == [ks[0]] + ks[1..];
    }
  }

  lemma FirstNewline(text: string, ls: seq<string>, rest: string) returns (n: nat)
    requires IsSplit(text, ls, rest) && ls != []
    ensures n < |text| && text[n] == '\n' && '\n' !in text[..n]
  {
    n := |ls[0]| - 1;
    assert text == ls[0] + (Flatten(ls[1..]) + rest);
    assert text[..n] == ls[0][..n];
  }

  /** However the text is cut into reads, the lines are those of the text as a whole. */
  lemma {:induction false} ChunkingIrrelevant(b: Buffer, chunks: seq<string>)
    ensures FeedAll(b, chunks) == Feed(b, Flatten(chunks))
    decreases |chunks|
  {
    if chunks != [] {
      ChunkingIrrelevant(Feed(b, chunks[0]), chunks[1..]);
      FeedAppend(b, chunks[0], Flatten(chunks[1..]));
    }
  }

  /** The reading loop refines the split: any schedule of reads that adds up to `text`
      delivers the one and only splitting of `text`. */
  lemma ReadsRefineSplit(chunks: seq<string>, ls: seq<string>, rest: string)
    ensures IsSplit(Flatten(chunks), ls, rest) <==> FeedAll(Buffer([], ""), chunks) == Buffer(ls, rest)
  {
    var text := Flatten(chunks);
    ChunkingIrrelevant(Buffer([], ""), chunks);
    SplitIsSplit(text);
    if IsSplit(text, ls, rest) {
      SplitUnique(text, ls, rest, Split(text).out, Split(text).line);
    }
  }

  /** Lines of a finished text put back together give the text. */
  lemma AllLinesConserve(text: string)
    ensures Flatten(AllLines(text)) == text
  {
    SplitIsSplit(text);
    var b := Split(text);
    FlattenAppend(b.out, if b.line == "" then [] else [b.line]);
    FlattenOne(b.line);
  }
}
