/** Splitting a byte stream into lines while it arrives in arbitrary pieces. */
module LineWriter {
  import opened Text

  /** A text cut at its newlines: the closed lines, and what no newline closes yet. */
  datatype Cut = Cut(closed: seq<string>, open: string)

  function Put(c: Cut, ch: char): Cut {
    if ch == '\n' then Cut(c.closed + [c.open], "") else c.(open := c.open + [ch])
  }

  function Feed(c: Cut, s: string): Cut
    decreases |s|
  {
    if s == "" then c else Feed(Put(c, s[0]), s[1..])
  }

  function Split(s: string): Cut {
    Feed(Cut([], ""), s)
  }

  function TrimReturns(s: string): string {
    if s == "" || s[|s| - 1] != '\r' then s else TrimReturns(s[..|s| - 1])
  }

  /** What a closed line hands to the callback: it without trailing returns, unless blank. */
  function EmitLine(line: string): seq<string> {
    if Trim(TrimReturns(line)) == "" then [] else [TrimReturns(line)]
  }

  function Emit(closed: seq<string>): seq<string> {
    if closed == [] then [] else Emit(closed[..|closed| - 1]) + EmitLine(closed[|closed| - 1])
  }

  lemma EmitOneMore(closed: seq<string>, line: string)
    ensures Emit(closed + [line]) == Emit(closed) + EmitLine(line)
  {
    assert (closed + [line])[..|closed|] == closed;
  }

  lemma {:induction false} TrimReturnsMeans(line: string) returns (tail: string)
    ensures line == TrimReturns(line) + tail && forall c :: c in tail ==> c == '\r'
    ensures TrimReturns(line) != "" ==> TrimReturns(line)[|TrimReturns(line)| - 1] != '\r'
  {
    tail := "";
    if line != "" && line[|line| - 1] == '\r' {
      var rest := TrimReturnsMeans(line[..|line| - 1]);
      tail := rest + ['\r'];
      assert line == line[..|line| - 1] + ['\r'];
    }
  }

  /** A closed line is dropped if it is blank, and else emitted without the returns at its end, and with
      nothing else changed. */
  lemma EmittedLine(line: string) returns (tail: string)
    ensures forall c :: c in tail ==> c == '\r'
    ensures AllBlank(line) ==> EmitLine(line) == []
    ensures !AllBlank(line) ==>
              && |EmitLine(line)| == 1 && EmitLine(line)[0] != "" && line == EmitLine(line)[0] + tail
              && EmitLine(line)[0][|EmitLine(line)[0]| - 1] != '\r'
  {
    tail := TrimReturnsMeans(line);
    TrimsToNothing(TrimReturns(line));
    assert BLANKS[3] == '\r';
  }

  /** Lines are emitted in the order they are closed in. */
  lemma {:induction false} EmitsInOrder(a: seq<string>, b: seq<string>)
    ensures Emit(a + b) == Emit(a) + Emit(b)
  {
    if b == [] {
      assert a + b == a;
    } else {
      var k := |b| - 1;
      assert (a + b)[..|a + b| - 1] == a + b[..k];
      EmitsInOrder(a, b[..k]);
    }
  }

  // -------------------------------------------------------------------------- cutting is lossless

  function Glue(closed: seq<string>): string {
    if closed == [] then "" else Glue(closed[..|closed| - 1]) + closed[|closed| - 1] + "\n"
  }

  lemma PutGlues(c: Cut, ch: char)
    ensures Glue(Put(c, ch).closed) + Put(c, ch).open == Glue(c.closed) + c.open + [ch]
  {
    if ch == '\n' {
      assert (c.closed + [c.open])[..|c.closed|] == c.closed;
    }
  }

  /** Closing every line with a newline again gives back the text, and no line holds a newline, so
      the cut is the only one there is. */
  lemma {:induction false} FeedIsLossless(c: Cut, s: string)
    requires '\n' !in c.open && forall i :: 0 <= i < |c.closed| ==> '\n' !in c.closed[i]
    ensures var r := Feed(c, s);
            && Glue(r.closed) + r.open == Glue(c.closed) + c.open + s
            && '\n' !in r.open && (forall i :: 0 <= i < |r.closed| ==> '\n' !in r.closed[i])
    decreases |s|
  {
    if s != "" {
      PutGlues(c, s[0]);
      FeedIsLossless(Put(c, s[0]), s[1..]);
      assert Glue(c.closed) + c.open + s == Glue(c.closed) + c.open + [s[0]] + s[1..];
    }
  }

  // ---------------------------------------------------------------------------------- in pieces

  lemma {:induction false} FeedAppend(c: Cut, s: string, t: string)
    ensures Feed(c, s + t) == Feed(Feed(c, s), t)
    decreases |s|
  {
    if s == "" {
      assert s + t == t;
    } else {
      assert (s + t)[0] == s[0] && (s + t)[1..] == s[1..] + t;
      FeedAppend(Put(c, s[0]), s[1..], t);
    }
  }

  lemma {:induction false} FeedPlain(c: Cut, s: string)
    requires '\n' !in s
    ensures Feed(c, s) == c.(open := c.open + s)
    decreases |s|
  {
    if s == "" {
      assert c.open + s == c.open;
    } else {
      assert s[0] in s && s == [s[0]] + s[1..];
      FeedPlain(Put(c, s[0]), s[1..]);
      assert c.open + [s[0]] + s[1..] == c.open + s;
    }
  }

  /** Feeding up to the first newline closes one line. */
  lemma FeedLine(closed: seq<string>, s: string, i: nat)
    requires i < |s| && s[i] == '\n' && '\n' !in s[..i]
    ensures Feed(Cut(closed, ""), s) == Feed(Cut(closed + [s[..i]], ""), s[i + 1..])
  {
    var tail := s[i..];
    assert s == s[..i] + tail;
    FeedAppend(Cut(closed, ""), s[..i], tail);
    FeedPlain(Cut(closed, ""), s[..i]);
    assert "" + s[..i] == s[..i];
    assert tail[0] == '\n' && tail[1..] == s[i + 1..];
  }

  /** Starting over from the open text is the same as going on. */
  lemma FeedResumes(closed: seq<string>, open: string, p: string)
    requires '\n' !in open
    ensures Feed(Cut(closed, ""), open + p) == Feed(Cut(closed, open), p)
  {
    FeedAppend(Cut(closed, ""), open, p);
    FeedPlain(Cut(closed, ""), open);
    assert "" + open == open;
  }

  class Writer {
    const hasSink: bool
    var buf: string
    /** The lines handed to the callback so far. */
    var emitted: seq<string>
    /** Everything ever written. */
    ghost var stream: string

    ghost predicate Valid()
      reads this
    {
      && buf == Split(stream).open
      && emitted == if hasSink then Emit(Split(stream).closed) else []
    }

    constructor (hasSink: bool)
      ensures Valid() && this.hasSink == hasSink && stream == "" && emitted == []
    {
      this.hasSink := hasSink;
      buf, emitted, stream := "", [], "";
    }

    method IndexNewline() returns (i: int)
      ensures -1 <= i < |buf|
      ensures i < 0 ==> '\n' !in buf
      ensures i >= 0 ==> buf[i] == '\n' && '\n' !in buf[..i]
    {
      i := 0;
      while i < |buf|
        invariant 0 <= i <= |buf| && '\n' !in buf[..i]
      {
        if buf[i] == '\n' {
          return;
        }
        i := i + 1;
      }
      i := -1;
    }

    /** However the stream is cut into writes, the lines emitted are those of the whole stream and
        the buffer is what follows its last newline. */
    method Write(p: string) returns (n: nat)
      requires Valid()
      modifies this
      ensures Valid() && stream == old(stream) + p && n == |p|
    {
      ghost var closed := Split(stream).closed;
      FeedIsLossless(Cut([], ""), stream);
      FeedAppend(Cut([], ""), stream, p);
      FeedResumes(closed, buf, p);
      stream := stream + p;
      buf := buf + p;
      ghost var whole := Split(stream);
      var i := IndexNewline();
      while i >= 0
        invariant -1 <= i < |buf|
        invariant i < 0 ==> '\n' !in buf
        invariant i >= 0 ==> buf[i] == '\n' && '\n' !in buf[..i]
        invariant stream == old(stream) + p && Feed(Cut(closed, ""), buf) == whole
        invariant emitted == if hasSink then Emit(closed) else []
        decreases |buf|
      {
        FeedLine(closed, buf, i);
        EmitOneMore(closed, buf[..i]);
        closed := closed + [buf[..i]];
        var line := TrimReturns(buf[..i]);
        buf := buf[i + 1..];
        if hasSink && Trim(line) != "" {
          emitted := emitted + [line];
        }
        i := IndexNewline();
      }
      FeedPlain(Cut(closed, ""), buf);
      assert "" + buf == buf;
      n := |p|;
    }
  }

  ghost function Concat(chunks: seq<string>): string {
    if chunks == [] then "" else Concat(chunks[..|chunks| - 1]) + chunks[|chunks| - 1]
  }

  /** Any two ways of cutting the same stream give the same lines and leave the same remainder. */
  method WriteAll(w: Writer, chunks: seq<string>)
    requires w.Valid() && w.stream == "" && w.hasSink
    modifies w
    ensures w.Valid() && w.emitted == Emit(Split(Concat(chunks)).closed) && w.buf == Split(Concat(chunks)).open
  {
    for i := 0 to |chunks|
      invariant w.Valid() && w.stream == Concat(chunks[..i])
    {
      assert chunks[..i + 1][..i] == chunks[..i];
      var _ := w.Write(chunks[i]);
    }
    assert chunks[..|chunks|] == chunks;
  }
}
