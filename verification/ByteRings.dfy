/** The fixed-size circular buffer a session replays to a client that resumes. */
module ByteRings {

  type byte = b: int | 0 <= b < 256

  /** The last n elements, or everything when there are fewer. */
  function LastN<T>(s: seq<T>, n: nat): seq<T> {
    if |s| <= n then s else s[|s| - n..]
  }

  lemma LastNOfTail<T>(x: seq<T>, y: seq<T>, n: nat)
    requires n <= |y|
    ensures LastN(x + y, n) == LastN(y, n)
  {
    assert (x + y)[|x + y| - n..] == y[|y| - n..];
  }

  /** Keeping only the last n of what was kept before loses nothing that the last n need. */
  lemma LastNAppend<T>(s: seq<T>, t: seq<T>, n: nat)
    ensures LastN(LastN(s, n) + t, n) == LastN(s + t, n)
  {
    if |s| > n {
      var x, y := s[..|s| - n], s[|s| - n..];
      assert s + t == x + (y + t);
      LastNOfTail(x, y + t, n);
    }
  }

  ghost function Rotated(bytes: seq<byte>, pos: nat, full: bool): seq<byte>
    requires pos <= |bytes|
  {
    if full then bytes[pos..] + bytes[..pos] else bytes[..pos]
  }

  lemma StoreSplits(bytes: seq<byte>, pos: nat, b: byte)
    requires pos < |bytes|
    ensures var next := bytes[pos := b];
            next[..pos + 1] == bytes[..pos] + [b] && next[pos + 1..] == bytes[pos + 1..]
  {
  }

  lemma OldestFirst(bytes: seq<byte>, pos: nat)
    requires pos < |bytes|
    ensures (bytes[pos..] + bytes[..pos])[1..] == bytes[pos + 1..] + bytes[..pos]
  {
  }

  lemma DropOldest(was: seq<byte>, b: byte)
    requires |was| > 0
    ensures LastN(was + [b], |was|) == was[1..] + [b]
  {
  }

  lemma RingStepFull(bytes: seq<byte>, pos: nat, b: byte)
    requires pos < |bytes|
    ensures bytes[pos := b][pos + 1..] + bytes[pos := b][..pos + 1]
            == LastN(bytes[pos..] + bytes[..pos] + [b], |bytes|)
  {
    var was := bytes[pos..] + bytes[..pos];
    StoreSplits(bytes, pos, b);
    OldestFirst(bytes, pos);
    assert |was| == |bytes|;
    DropOldest(was, b);
    assert bytes[pos + 1..] + (bytes[..pos] + [b]) == (bytes[pos + 1..] + bytes[..pos]) + [b];
  }

  /** Storing one byte at the write position appends it to the contents and, once the buffer has
      filled up, drops the oldest byte; the exact wrap point is no exception. */
  lemma RingStep(bytes: seq<byte>, pos: nat, full: bool, b: byte)
    requires pos < |bytes|
    ensures var wraps := pos + 1 == |bytes|;
            Rotated(bytes[pos := b], if wraps then 0 else pos + 1, full || wraps)
            == LastN(Rotated(bytes, pos, full) + [b], |bytes|)
  {
    var next := bytes[pos := b];
    if pos + 1 == |bytes| {
      assert Rotated(next, 0, true) == next[pos + 1..] + next[..pos + 1];
    }
    if full {
      RingStepFull(bytes, pos, b);
    } else {
      StoreSplits(bytes, pos, b);
    }
  }

  lemma NextPosition(pos: nat, size: nat)
    requires pos < size
    ensures (pos + 1) % size == if pos + 1 == size then 0 else pos + 1
  {
  }

  lemma FullAfter(w: seq<byte>, b: byte, n: nat, bytes: seq<byte>, pos: nat, full: bool)
    requires pos < |bytes| == n && Rotated(bytes, pos, full) == LastN(w, n) && (full <==> |w| >= n)
    ensures full || pos + 1 == n <==> |w + [b]| >= n
  {
    assert !full ==> |w| == pos;
  }

  /** What a ring of these fields holds of everything written. */
  ghost predicate Holds(bytes: seq<byte>, pos: nat, full: bool, written: seq<byte>) {
    && pos < |bytes| && Rotated(bytes, pos, full) == LastN(written, |bytes|)
    && (full <==> |written| >= |bytes|)
  }

  lemma StoreHolds(bytes: seq<byte>, pos: nat, full: bool, written: seq<byte>, b: byte)
    requires Holds(bytes, pos, full, written)
    ensures var next := (pos + 1) % |bytes|;
            Holds(bytes[pos := b], next, full || next == 0, written + [b])
  {
    NextPosition(pos, |bytes|);
    RingStep(bytes, pos, full, b);
    LastNAppend(written, [b], |bytes|);
    FullAfter(written, b, |bytes|, bytes, pos, full);
  }

  class ByteRing {
    var buf: array<byte>
    var size: int
    var pos: int
    var full: bool
    /** Everything ever written. */
    ghost var written: seq<byte>

    ghost predicate Valid()
      reads this, buf
    {
      && size == buf.Length > 0 && 0 <= pos < size
      && Contents() == LastN(written, size)
      && (full <==> |written| >= size)
    }

    /** What the two halves of the buffer hold, oldest byte first. */
    ghost function Contents(): seq<byte>
      requires 0 <= pos <= buf.Length
      reads this, buf
    {
      Rotated(buf[..], pos, full)
    }

    constructor (n: int)
      ensures Valid() && fresh(buf) && written == []
      ensures size == if n < 1024 then 1024 else n
    {
      var m := if n < 1024 then 1024 else n;
      buf := new byte[m];
      size, pos, full := m, 0, false;
      written := [];
    }

    method WriteByte(b: byte)
      requires Valid()
      modifies this`pos, this`full, this`written, buf
      ensures Valid() && written == old(written) + [b]
    {
      ghost var bytes := buf[..][pos := b];
      StoreHolds(buf[..], pos, full, written, b);
      buf[pos] := b;
      assert buf[..] == bytes;
      pos := (pos + 1) % size;
      if pos == 0 {
        full := true;
      }
      written := written + [b];
    }

    /** Writing keeps exactly the last `size` bytes of everything ever written, wherever it wraps. */
    method Write(p: seq<byte>)
      requires Valid()
      modifies this`pos, this`full, this`written, buf
      ensures Valid() && written == old(written) + p
    {
      for i := 0 to |p|
        invariant Valid() && written == old(written) + p[..i]
      {
        WriteByte(p[i]);
        assert p[..i + 1] == p[..i] + [p[i]];
      }
      assert p[..|p|] == p;
    }

    method Snapshot() returns (out: seq<byte>)
      requires Valid()
      ensures out == LastN(written, size)
    {
      if !full && pos == 0 {
        return [];
      }
      if !full {
        return buf[..pos];
      }
      assert Contents() == buf[pos..] + buf[..pos];
      return buf[pos..] + buf[..pos];
    }
  }

  /** After any sequence of writes a snapshot is the last `size` bytes of all of them together. */
  method ReplayAfterWrites(ring: ByteRing, chunks: seq<seq<byte>>) returns (out: seq<byte>)
    requires ring.Valid()
    modifies ring, ring.buf
    ensures ring.Valid() && ring.written == old(ring.written) + Concat(chunks)
    ensures out == LastN(old(ring.written) + Concat(chunks), ring.size)
  {
    var buf := ring.buf;
    for i := 0 to |chunks|
      invariant ring.Valid() && ring.buf == buf
      invariant ring.written == old(ring.written) + Concat(chunks[..i])
    {
      ring.Write(chunks[i]);
      assert chunks[..i + 1][..i] == chunks[..i];
    }
    assert chunks[..|chunks|] == chunks;
    out := ring.Snapshot();
  }

  ghost function Concat<T>(chunks: seq<seq<T>>): seq<T> {
    if chunks == [] then [] else Concat(chunks[..|chunks| - 1]) + chunks[|chunks| - 1]
  }
}
