/**
  Sequences of byte chunks, the state behind the aggregate read cursor.
  A chunk is modelled by the bytes it still has to give: its remaining
  length is its length, and advancing it drops a prefix.
 */
module Chunks {
  /** Rust's `u8`. */
  type Byte = bv8

  /** The logical content: the chunks laid end to end, in order. */
  function Concat(bs: seq<seq<Byte>>): seq<Byte>
  {
    if |bs| == 0 then [] else bs[0] + Concat(bs[1..])
  }

  /** The sum of the chunks' remaining lengths. */
  function TotalLength(bs: seq<seq<Byte>>): nat
  {
    if |bs| == 0 then 0 else |bs[0]| + TotalLength(bs[1..])
  }

  /** No chunk is exhausted: the invariant the aggregate keeps. */
  ghost predicate AllNonEmpty(bs: seq<seq<Byte>>)
  {
    forall i :: 0 <= i < |bs| ==> |bs[i]| > 0
  }

  /**
    The chunks left after consuming `n` bytes from the front: chunks that are
    used up are popped, and a chunk that is only partly used is shortened.
   */
  ghost function Drop(bs: seq<seq<Byte>>, n: nat): seq<seq<Byte>>
    requires n <= |Concat(bs)|
    decreases |bs|
  {
    if n == 0 then bs
    else if |bs[0]| > n then [bs[0][n..]] + bs[1..]
    else Drop(bs[1..], n - |bs[0]|)
  }

  lemma {:induction false} TotalLengthIsLength(bs: seq<seq<Byte>>)
    ensures TotalLength(bs) == |Concat(bs)|
  {
    if |bs| > 0 {
      TotalLengthIsLength(bs[1..]);
    }
  }

  lemma {:induction false} ConcatAppend(bs: seq<seq<Byte>>, x: seq<Byte>)
    ensures Concat(bs + [x]) == Concat(bs) + x
  {
    if |bs| == 0 {
      assert bs + [x] == [x];
      assert Concat([x]) == x + Concat([]);
    } else {
      assert (bs + [x])[1..] == bs[1..] + [x];
      ConcatAppend(bs[1..], x);
    }
  }

  /** Joining two chunk sequences joins their contents. */
  lemma {:induction false} ConcatJoin(a: seq<seq<Byte>>, b: seq<seq<Byte>>)
    ensures Concat(a + b) == Concat(a) + Concat(b)
  {
    if |a| > 0 {
      assert (a + b)[0] == a[0] && (a + b)[1..] == a[1..] + b;
      ConcatJoin(a[1..], b);
    } else {
      assert a + b == b;
    }
  }

  /** Splitting the chunk sequence splits the content at the same place. */
  lemma {:induction false} ConcatSplit(bs: seq<seq<Byte>>, k: nat)
    requires k <= |bs|
    ensures Concat(bs[..k]) + Concat(bs[k..]) == Concat(bs)
  {
    if k > 0 {
      assert bs[..k][1..] == bs[1..][..k - 1];
      assert bs[k..] == bs[1..][k - 1..];
      ConcatSplit(bs[1..], k - 1);
    } else {
      assert bs[..k] == [];
      assert bs[k..] == bs;
    }
  }

  /** Dropping `n` bytes' worth of chunks drops exactly `n` bytes of content. */
  lemma {:induction false} DropContent(bs: seq<seq<Byte>>, n: nat)
    requires n <= |Concat(bs)|
    ensures Concat(Drop(bs, n)) == Concat(bs)[n..]
    decreases |bs|
  {
    if n == 0 {
    } else if |bs[0]| > n {
      assert ([bs[0][n..]] + bs[1..])[1..] == bs[1..];
      assert Concat([bs[0][n..]] + bs[1..]) == bs[0][n..] + Concat(bs[1..]);
    } else {
      DropContent(bs[1..], n - |bs[0]|);
      assert Concat(bs)[n..] == Concat(bs[1..])[n - |bs[0]|..];
    }
  }

  /** Consuming from the front never leaves an exhausted chunk behind. */
  lemma {:induction false} DropNonEmpty(bs: seq<seq<Byte>>, n: nat)
    requires n <= |Concat(bs)|
    requires AllNonEmpty(bs)
    ensures AllNonEmpty(Drop(bs, n))
    decreases |bs|
  {
    if n == 0 {
    } else if |bs[0]| > n {
      var r := [bs[0][n..]] + bs[1..];
      forall i | 0 <= i < |r| ensures |r[i]| > 0 {
        if i > 0 {
          assert r[i] == bs[i];
        }
      }
    } else {
      assert AllNonEmpty(bs[1..]) by {
        forall i | 0 <= i < |bs[1..]| ensures |bs[1..][i]| > 0 {
          assert bs[1..][i] == bs[i + 1];
        }
      }
      DropNonEmpty(bs[1..], n - |bs[0]|);
    }
  }

  /** Consuming `m` bytes and then `k` more is consuming `m + k` bytes. */
  lemma {:induction false} DropDrop(bs: seq<seq<Byte>>, m: nat, k: nat)
    requires m + k <= |Concat(bs)|
    ensures k <= |Concat(Drop(bs, m))|
    ensures Drop(Drop(bs, m), k) == Drop(bs, m + k)
    decreases |bs|
  {
    DropContent(bs, m);
    if m == 0 {
    } else if |bs[0]| > m {
      var r := [bs[0][m..]] + bs[1..];
      assert r[0] == bs[0][m..] && r[1..] == bs[1..];
      if k == 0 {
      } else if |bs[0]| - m > k {
        assert bs[0][m..][k..] == bs[0][m + k..];
      } else {
        assert Drop(r, k) == Drop(bs[1..], k - (|bs[0]| - m));
      }
    } else {
      DropDrop(bs[1..], m - |bs[0]|, k);
      assert m + k - |bs[0]| == (m - |bs[0]|) + k;
    }
  }

  /**
    One step of consuming from the front, after `m` bytes are gone: the front
    chunk is non-empty; if it is longer than the `c` bytes still wanted it is
    shortened, and otherwise consuming all of it pops it.
   */
  lemma DropStep(bs: seq<seq<Byte>>, m: nat, c: nat)
    requires AllNonEmpty(bs)
    requires 0 < c && m + c <= |Concat(bs)|
    ensures var r := Drop(bs, m);
      && |r| > 0 && |r[0]| > 0
      && (|r[0]| > c ==> Drop(bs, m + c) == r[0 := r[0][c..]])
      && (|r[0]| <= c ==> m + |r[0]| <= |Concat(bs)| && Drop(bs, m + |r[0]|) == r[1..])
  {
    var r := Drop(bs, m);
    DropContent(bs, m);
    DropNonEmpty(bs, m);
    assert |r| > 0;
    if |r[0]| > c {
      DropDrop(bs, m, c);
      assert Drop(r, c) == [r[0][c..]] + r[1..];
    } else {
      DropDrop(bs, m, |r[0]|);
      assert Drop(r, |r[0]|) == Drop(r[1..], 0);
    }
  }
}
