/**
  The aggregate read cursor: a FIFO deque of byte chunks, read as the
  concatenation of the chunks in arrival order. The same type is declared
  twice in the repository (src/body/aggregate.rs and src/aggregate.rs, line
  for line alike); this one class models both.
 */
module Aggregates {
  import opened Chunks

  /** Appending a prefix of the unread part to the read part extends the read part. */
  lemma PrefixStep(whole: seq<Byte>, m: nat, b: seq<Byte>, c: seq<Byte>)
    requires m <= |whole| && b == whole[..m]
    requires c <= whole[m..]
    ensures m + |c| <= |whole| && b + c == whole[..m + |c|]
  {
    assert c == whole[m..m + |c|];
  }

  class Aggregate {
    /** The deque of chunks, front first. */
    var bufs: seq<seq<Byte>>

    /** No retained chunk is exhausted. */
    ghost predicate Valid()
      reads this
    {
      AllNonEmpty(bufs)
    }

    /** The bytes a reader has still to see. */
    ghost function Content(): seq<Byte>
      reads this
    {
      Concat(bufs)
    }

    constructor ()
      ensures Valid() && bufs == [] && Content() == []
    {
      bufs := [];
    }

    /** Appends a chunk at the back; an empty chunk is a bug in the caller. */
    method Push(buf: seq<Byte>)
      requires Valid()
      requires |buf| > 0
      modifies this
      ensures Valid()
      ensures bufs == old(bufs) + [buf]
      ensures Content() == old(Content()) + buf
    {
      ConcatAppend(bufs, buf);
      bufs := bufs + [buf];
    }

    /** The number of bytes left: the sum of the chunks' lengths. */
    function Remaining(): (n: nat)
      reads this
      ensures n == |Content()|
    {
      TotalLengthIsLength(bufs);
      TotalLength(bufs)
    }

    /** The first contiguous slice: the front chunk, or nothing. */
    function Chunk(): (c: seq<Byte>)
      reads this
      ensures c <= Content()
      ensures Valid() ==> (c == [] <==> Content() == [])
    {
      if |bufs| == 0 then [] else bufs[0]
    }

    /** Consumes `cnt` bytes from the front, popping every chunk it uses up. */
    method Advance(cnt: nat)
      requires Valid()
      requires cnt <= |Content()|
      modifies this
      ensures Valid()
      ensures bufs == Drop(old(bufs), cnt)
      ensures Content() == old(Content())[cnt..]
      ensures cnt == 0 ==> bufs == old(bufs)
    {
      ghost var start := bufs;
      assert cnt <= |Concat(start)| && AllNonEmpty(start);
      var left: nat := cnt;
      while left > 0
        invariant left <= cnt <= |Concat(start)|
        invariant bufs == Drop(start, cnt - left)
      {
        DropStep(start, cnt - left, left);
        var front := bufs[0];
        var rem := |front|;
        if rem > left {
          bufs := bufs[0 := front[left..]];
          DropContent(start, cnt);
          DropNonEmpty(start, cnt);
          return;
        } else {
          bufs := bufs[0 := front[rem..]];
          left := left - rem;
        }
        bufs := bufs[1..];
      }
      DropContent(start, cnt);
      DropNonEmpty(start, cnt);
    }

    /**
      Fills the I/O slots of `dst` from successive chunks, one chunk per slot,
      and returns how many slots it filled.
     */
    method ChunksVectored(dst: array<seq<Byte>>) returns (vecs: nat)
      requires Valid()
      modifies dst
      ensures vecs == if dst.Length < |bufs| then dst.Length else |bufs|
      ensures forall i :: 0 <= i < vecs ==> dst[i] == bufs[i]
      ensures forall i :: vecs <= i < dst.Length ==> dst[i] == old(dst[i])
      ensures Concat(dst[..vecs]) <= Content()
    {
      if dst.Length == 0 {
        return 0;
      }
      vecs := 0;
      var i := 0;
      while i < |bufs|
        invariant i <= |bufs|
        invariant vecs == i < dst.Length
        invariant forall j :: 0 <= j < vecs ==> dst[j] == bufs[j]
        invariant forall j :: vecs <= j < dst.Length ==> dst[j] == old(dst[j])
      {
        var buf := bufs[i];
        // A chunk's own `chunks_vectored` fills at most the first free slot.
        if |buf| > 0 {
          dst[vecs] := buf;
          vecs := vecs + 1;
        }
        if vecs == dst.Length {
          break;
        }
        i := i + 1;
      }
      assert dst[..vecs] == bufs[..vecs];
      ConcatSplit(bufs, vecs);
    }

    /**
      Takes the first `len` bytes out of the cursor: the whole front chunk when
      it has exactly `len` bytes, a prefix of it when it has more, and
      otherwise a copy gathered across chunk boundaries.
     */
    method CopyToBytes(len: nat) returns (b: seq<Byte>)
      requires Valid()
      requires len <= |Content()|
      modifies this
      ensures Valid()
      ensures b == old(Content())[..len]
      ensures Content() == old(Content())[len..]
      ensures bufs == Drop(old(bufs), len)
      ensures old(|bufs| > 0 && |bufs[0]| == len) ==> |bufs| == old(|bufs|) - 1
      ensures old(|bufs| > 0 && |bufs[0]| > len) ==> |bufs| == old(|bufs|)
    {
      if |bufs| > 0 && |bufs[0]| == len {
        b := bufs[0];
        bufs := bufs[1..];
        DropContent(old(bufs), len);
        DropNonEmpty(old(bufs), len);
      } else if |bufs| > 0 && |bufs[0]| > len {
        b := bufs[0][..len];
        bufs := bufs[0 := bufs[0][len..]];
        if len == 0 {
          assert bufs == old(bufs);
        } else {
          assert bufs == [old(bufs)[0][len..]] + old(bufs)[1..];
        }
        DropContent(old(bufs), len);
        DropNonEmpty(old(bufs), len);
      } else {
        b := CopyAcross(len);
      }
    }

    /**
      One round of copying out of `take(limit)`: the visible part of the
      front chunk, cut at `limit`, and the advance past it.
     */
    method PutFront(limit: nat) returns (piece: seq<Byte>)
      requires Valid()
      requires 0 < limit <= |Content()|
      modifies this
      ensures Valid()
      ensures 0 < |piece| <= limit
      ensures piece <= old(Content())
      ensures bufs == Drop(old(bufs), |piece|)
    {
      var c := Chunk();
      var k := if |c| < limit then |c| else limit;
      piece := c[..k];
      Advance(k);
    }

    /**
      The cross-chunk case of `CopyToBytes`: the copy of `take(len)` into a
      fresh buffer, which repeatedly appends the visible part of the front
      chunk and then advances past it.
     */
    method CopyAcross(len: nat) returns (b: seq<Byte>)
      requires Valid()
      requires len <= |Content()|
      modifies this
      ensures Valid()
      ensures b == old(Content())[..len]
      ensures Content() == old(Content())[len..]
      ensures bufs == Drop(old(bufs), len)
    {
      ghost var start := bufs;
      assert len <= |Concat(start)| && AllNonEmpty(start);
      b := [];
      var limit: nat := len;
      while (if Remaining() < limit then Remaining() else limit) > 0
        invariant limit <= len <= |Concat(start)|
        invariant bufs == Drop(start, len - limit)
        invariant b == Concat(start)[..len - limit]
        decreases limit
      {
        ghost var m := len - limit;
        DropContent(start, m);
        DropNonEmpty(start, m);
        var piece := PutFront(limit);
        PrefixStep(Concat(start), m, b, piece);
        b := b + piece;
        limit := limit - |piece|;
        DropDrop(start, m, |piece|);
      }
      DropContent(start, len - limit);
      assert limit == 0;
      DropNonEmpty(start, len);
    }
  }
}
