/** The byte-level view of a GridFS file: its contents as one sequence of
    bytes, and what a positioned write and a positioned read do to it. */
module Bytes {
  import opened ChunkMath

  newtype byte = x: int | 0 <= x < 256

  /** `k` zero bytes: the padding a write beginning past the end of the file
      puts in front of its data. */
  function Zeros(k: nat): (z: seq<byte>)
    ensures |z| == k
    ensures forall i :: 0 <= i < k ==> z[i] == 0
  {
    if k == 0 then [] else Zeros(k - 1) + [0]
  }

  /** The contents after writing `d` at offset `pos` of contents `s`: bytes
      before `pos` are kept, `d` replaces the bytes it spans, bytes after it
      are kept, and a gap between the old end and `pos` is zero-filled. */
  function Overwrite(s: seq<byte>, pos: nat, d: seq<byte>): seq<byte>
  {
    var padded := if pos <= |s| then s else s + Zeros(pos - |s|);
    padded[..pos] + d + (if pos + |d| < |s| then s[pos + |d|..] else [])
  }

  /** The bytes a read of at most `cap` bytes at offset `pos` delivers: none
      at or past the end, otherwise up to the end of the file. */
  function ReadRange(s: seq<byte>, pos: nat, cap: nat): (r: seq<byte>)
    ensures |r| == if pos >= |s| then 0 else Min(cap, |s| - pos)
    ensures forall k :: 0 <= k < |r| ==> r[k] == s[pos + k]
  {
    if pos >= |s| then [] else s[pos .. Min(|s|, pos + cap)]
  }

  /** A read that stays inside the file delivers exactly the bytes it spans. */
  lemma ReadRangeInside(s: seq<byte>, pos: nat, cap: nat)
    requires pos + cap <= |s|
    ensures ReadRange(s, pos, cap) == s[pos .. pos + cap]
  {
    if pos == |s| {
      assert s[pos .. pos + cap] == [];
    }
  }

  /** Byte-wise meaning of `Overwrite`: the new length is the larger of the
      old length and the end of the write; each byte comes from the data, the
      old contents or the zero padding. */
  lemma OverwriteAt(s: seq<byte>, pos: nat, d: seq<byte>)
    ensures |Overwrite(s, pos, d)| == Max(|s|, pos + |d|)
    ensures forall i :: 0 <= i < |Overwrite(s, pos, d)| ==>
      Overwrite(s, pos, d)[i] ==
        if pos <= i < pos + |d| then d[i - pos]
        else if i < |s| then s[i]
        else 0
  {
    var padded := if pos <= |s| then s else s + Zeros(pos - |s|);
    var tail := if pos + |d| < |s| then s[pos + |d|..] else [];
    var r := Overwrite(s, pos, d);
    assert r == padded[..pos] + d + tail;
    forall i | 0 <= i < |r|
      ensures r[i] == if pos <= i < pos + |d| then d[i - pos] else if i < |s| then s[i] else 0
    {
      if i < pos {
        assert r[i] == padded[i];
      } else if i < pos + |d| {
        assert r[i] == d[i - pos];
      } else {
        assert r[i] == tail[i - pos - |d|];
      }
    }
  }

  /** Read after write: reading back the range just written returns exactly
      the data written, whatever the file held before. */
  lemma WriteThenRead(s: seq<byte>, pos: nat, d: seq<byte>)
    ensures ReadRange(Overwrite(s, pos, d), pos, |d|) == d
  {
    OverwriteAt(s, pos, d);
  }

  /** Writing `d` over the middle part `b` of `a + b + c`, when the two are
      equally long, gives `a + d + c`. */
  lemma OverwriteMiddle(a: seq<byte>, b: seq<byte>, c: seq<byte>, d: seq<byte>)
    requires |b| == |d|
    ensures Overwrite(a + b + c, |a|, d) == a + d + c
  {
    var s := a + b + c;
    assert s[..|a|] == a;
    if c != [] {
      assert s[|a| + |d|..] == c;
    }
  }

  /** A write into a file that already spans the written range leaves its
      length unchanged and every byte outside the range as it was. */
  lemma OverwriteInside(s: seq<byte>, pos: nat, d: seq<byte>)
    requires pos + |d| <= |s|
    ensures |Overwrite(s, pos, d)| == |s|
    ensures Overwrite(s, pos, d)[..pos] == s[..pos]
    ensures Overwrite(s, pos, d)[pos + |d|..] == s[pos + |d|..]
  {
    OverwriteAt(s, pos, d);
  }

  /** Writing to an empty file at offset 0 makes the data the whole file. */
  lemma WriteIntoEmpty(d: seq<byte>)
    ensures Overwrite([], 0, d) == d
  {
    OverwriteAt([], 0, d);
  }

  /** Filling a buffer page by page: if `prev` holds `c[p0 .. mid]` in front
      of the untouched rest of `orig`, then copying the `r` bytes
      `c[mid .. end]` in at offset `at` (the `mid - p0` bytes already filled)
      extends the filled front to `c[p0 .. end]`. */
  lemma FillMore(c: seq<byte>, orig: seq<byte>, prev: seq<byte>, now: seq<byte>, p0: nat, at: nat, r: nat, mid: nat, end: nat)
    requires mid == p0 + at && end == mid + r && end <= |c| && at + r <= |orig|
    requires prev == c[p0 .. mid] + orig[mid - p0..]
    requires now == prev[..at] + c[mid .. end] + prev[at + r..]
    ensures now == c[p0 .. end] + orig[end - p0..]
  {
    assert prev[..at] == c[p0 .. mid];
    assert prev[at + r..] == orig[end - p0..];
    assert c[p0 .. mid] + c[mid .. end] == c[p0 .. end];
  }

  /** The ASCII text `t` as bytes. */
  function Ascii(t: string): (b: seq<byte>)
    requires forall k :: 0 <= k < |t| ==> t[k] < 128 as char
    ensures |b| == |t|
    ensures forall k :: 0 <= k < |t| ==> b[k] as int == t[k] as int
  {
    seq(|t|, k requires 0 <= k < |t| => t[k] as int as byte)
  }

  /** The bytes of two ASCII texts one after the other are the bytes of the
      joined text. */
  lemma AsciiAppend(s: string, t: string)
    requires forall k :: 0 <= k < |s| ==> s[k] < 128 as char
    requires forall k :: 0 <= k < |t| ==> t[k] < 128 as char
    ensures forall k :: 0 <= k < |s + t| ==> (s + t)[k] < 128 as char
    ensures Ascii(s + t) == Ascii(s) + Ascii(t)
  {
    assert forall k :: 0 <= k < |s + t| ==> (s + t)[k] == if k < |s| then s[k] else t[k - |s|];
  }
}
