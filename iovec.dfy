/** An iovec list by value: the contents of its buffers, in order. A gather
    concatenates them; a scatter of `data` fills them in order, each buffer
    taking as many bytes as it holds, and leaves the bytes past the end of
    `data` as they were. */
module Iovec {
  import opened Bytes

  /** The total size of the buffers. */
  function Total(bufs: seq<seq<byte>>): nat
  {
    if bufs == [] then 0 else |bufs[0]| + Total(bufs[1..])
  }

  /** The buffers' bytes, buffer after buffer. */
  function Concat(bufs: seq<seq<byte>>): (d: seq<byte>)
    ensures |d| == Total(bufs)
  {
    if bufs == [] then [] else bufs[0] + Concat(bufs[1..])
  }

  /** The buffers after `data` is scattered into them. */
  function Scatter(bufs: seq<seq<byte>>, data: seq<byte>): (r: seq<seq<byte>>)
    ensures |r| == |bufs|
  {
    if bufs == [] then []
    else if |data| <= |bufs[0]| then [data + bufs[0][|data|..]] + bufs[1..]
    else [data[..|bufs[0]|]] + Scatter(bufs[1..], data[|bufs[0]|..])
  }

  /** Scattering nothing changes nothing. */
  lemma {:induction false} ScatterNothing(bufs: seq<seq<byte>>)
    ensures Scatter(bufs, []) == bufs
  {
    if bufs != [] {
      assert [] + bufs[0][0..] == bufs[0];
      assert [bufs[0]] + bufs[1..] == bufs;
    }
  }

  /** Scattering keeps every buffer's size. */
  lemma {:induction false} ScatterSizes(bufs: seq<seq<byte>>, data: seq<byte>)
    ensures forall k :: 0 <= k < |bufs| ==> |Scatter(bufs, data)[k]| == |bufs[k]|
  {
    if bufs != [] && |data| > |bufs[0]| {
      ScatterSizes(bufs[1..], data[|bufs[0]|..]);
      assert forall k :: 1 <= k < |bufs| ==> Scatter(bufs, data)[k] == Scatter(bufs[1..], data[|bufs[0]|..])[k - 1];
    }
  }

  /** Data at least as long as the first buffer fills it and the rest goes
      to the buffers after it. */
  lemma ScatterSplit(bufs: seq<seq<byte>>, data: seq<byte>)
    requires bufs != [] && |data| >= |bufs[0]|
    ensures Scatter(bufs, data) == [data[..|bufs[0]|]] + Scatter(bufs[1..], data[|bufs[0]|..])
  {
    if |data| == |bufs[0]| {
      ScatterNothing(bufs[1..]);
      assert data[|bufs[0]|..] == [];
      assert data + bufs[0][|data|..] == data[..|bufs[0]|];
    }
  }

  /** The size of the first `i + 1` buffers. */
  lemma PrefixTotal(bufs: seq<seq<byte>>, i: nat)
    requires 0 < i <= |bufs|
    ensures Total(bufs[..i]) == |bufs[0]| + Total(bufs[1..][..i - 1])
  {
    assert bufs[..i][1..] == bufs[1..][..i - 1];
  }

  /** The first `i + 1` buffers are the first `i` and buffer `i`. */
  lemma {:induction false} TotalSnoc(bufs: seq<seq<byte>>, i: nat)
    requires i < |bufs|
    ensures Total(bufs[..i + 1]) == Total(bufs[..i]) + |bufs[i]|
  {
    if i == 0 {
      assert bufs[..1][1..] == [];
    } else {
      PrefixTotal(bufs, i + 1);
      PrefixTotal(bufs, i);
      TotalSnoc(bufs[1..], i - 1);
    }
  }

  /** The bytes of the first `i + 1` buffers are those of the first `i`
      and then buffer `i`'s. */
  lemma {:induction false} ConcatSnoc(bufs: seq<seq<byte>>, i: nat)
    requires i < |bufs|
    ensures Concat(bufs[..i + 1]) == Concat(bufs[..i]) + bufs[i]
  {
    if i == 0 {
      assert bufs[..1][1..] == [];
      assert bufs[..0] == [];
    } else {
      assert bufs[..i + 1][1..] == bufs[1..][..i];
      assert bufs[..i][1..] == bufs[1..][..i - 1];
      ConcatSnoc(bufs[1..], i - 1);
    }
  }

  /** A prefix of the buffers holds no more than all of them. */
  lemma {:induction false} TotalPrefix(bufs: seq<seq<byte>>, i: nat)
    requires i <= |bufs|
    ensures Total(bufs[..i]) <= Total(bufs)
    decreases |bufs| - i
  {
    if i == |bufs| {
      assert bufs[..i] == bufs;
    } else {
      TotalSnoc(bufs, i);
      TotalPrefix(bufs, i + 1);
    }
  }

  /** When `data` exactly fills the first `i` buffers, buffer `i` is still as
      it was, and scattering `more` bytes (at most what buffer `i` holds) on
      top only rewrites buffer `i`, with `more` in front. */
  lemma {:induction false} ScatterMore(bufs: seq<seq<byte>>, data: seq<byte>, i: nat, more: seq<byte>)
    requires i < |bufs| && |data| == Total(bufs[..i]) && |more| <= |bufs[i]|
    ensures Scatter(bufs, data)[i] == bufs[i]
    ensures Scatter(bufs, data + more) == Scatter(bufs, data)[i := more + bufs[i][|more|..]]
  {
    if i == 0 {
      assert data == [];
      ScatterNothing(bufs);
      assert data + more == more;
    } else {
      PrefixTotal(bufs, i);
      var b0 := |bufs[0]|;
      ScatterSplit(bufs, data);
      ScatterSplit(bufs, data + more);
      assert (data + more)[..b0] == data[..b0];
      assert (data + more)[b0..] == data[b0..] + more;
      ScatterMore(bufs[1..], data[b0..], i - 1, more);
    }
  }

  /** One more step of a scatter that fills the buffers in order from `c`:
      when `c[p0 .. mid]` exactly fills the first `i` buffers and buffer `i`
      then receives `c[mid .. end]` in front while the others keep their
      contents, the buffers hold the scatter of `c[p0 .. end]`. */
  lemma ScatterFill(bufs: seq<seq<byte>>, c: seq<byte>, p0: nat, mid: nat, end: nat, i: nat, now: seq<seq<byte>>)
    requires p0 <= mid <= end <= |c| && i < |bufs| && mid - p0 == Total(bufs[..i])
    requires |now| == |bufs| && end - mid <= |Scatter(bufs, c[p0 .. mid])[i]|
    requires now[i] == c[mid .. end] + Scatter(bufs, c[p0 .. mid])[i][end - mid..]
    requires forall k :: 0 <= k < |now| && k != i ==> now[k] == Scatter(bufs, c[p0 .. mid])[k]
    ensures Scatter(bufs, c[p0 .. mid])[i] == bufs[i]
    ensures now == Scatter(bufs, c[p0 .. end])
    ensures Total(bufs[..i + 1]) == mid - p0 + |bufs[i]|
  {
    ScatterMore(bufs, c[p0 .. mid], i, []);
    ScatterMore(bufs, c[p0 .. mid], i, c[mid .. end]);
    assert c[p0 .. mid] + c[mid .. end] == c[p0 .. end];
    TotalSnoc(bufs, i);
  }

  /** Scattering into a single buffer that is large enough puts the data
      at its front. */
  lemma ScatterOne(b: seq<byte>, data: seq<byte>)
    requires |data| <= |b|
    ensures Scatter([b], data) == [data + b[|data|..]]
  {
  }

  /** Gather after scatter: the buffers' bytes begin with the data scattered
      into them, when it fits. */
  lemma {:induction false} ScatterThenGather(bufs: seq<seq<byte>>, data: seq<byte>)
    requires |data| <= Total(bufs)
    ensures Total(Scatter(bufs, data)) == Total(bufs)
    ensures Concat(Scatter(bufs, data))[..|data|] == data
  {
    if bufs != [] {
      if |data| <= |bufs[0]| {
        assert Concat(Scatter(bufs, data)) == (data + bufs[0][|data|..]) + Concat(bufs[1..]);
      } else {
        var rest := Scatter(bufs[1..], data[|bufs[0]|..]);
        ScatterThenGather(bufs[1..], data[|bufs[0]|..]);
        assert Scatter(bufs, data)[1..] == rest;
        assert Concat(Scatter(bufs, data)) == data[..|bufs[0]|] + Concat(rest);
      }
    }
  }
}
