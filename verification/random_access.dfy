/**
 * java.io.RandomAccessFile as the engine uses it: a byte sequence and a file
 * pointer.  Reads past the end fail (EOFException), a seek to a negative
 * offset fails, and a write at or past the end grows the file; the bytes a
 * write skips over when the pointer is beyond the end read as zero.  All
 * I/O failures are the one error Access (the source wraps every IOException
 * into a DBAccessException).
 */
module FileAccess {
  import opened Bytes
  import opened Results

  function Max(a: int, b: int): int { if a >= b then a else b }

  /** The contents after writing w at offset p. */
  function Patch(d: seq<byte>, p: nat, w: seq<byte>): (r: seq<byte>)
    ensures |r| == PatchedLength(d, p, w)
  {
    seq(PatchedLength(d, p, w), i requires 0 <= i < PatchedLength(d, p, w) => PatchedAt(d, p, w, i))
  }

  /** A write grows the file to cover it; writing nothing leaves the length alone. */
  function PatchedLength(d: seq<byte>, p: nat, w: seq<byte>): nat
  {
    if w == [] then |d| else Max(|d|, p + |w|)
  }

  /** Byte i after writing w at offset p: w's byte, else the old byte, else zero padding. */
  function PatchedAt(d: seq<byte>, p: nat, w: seq<byte>, i: nat): byte
  {
    if p <= i < p + |w| then w[i - p] else if i < |d| then d[i] else 0
  }

  lemma PatchIndex(d: seq<byte>, p: nat, w: seq<byte>)
    ensures forall i :: 0 <= i < |Patch(d, p, w)| ==> Patch(d, p, w)[i] == PatchedAt(d, p, w, i)
  {
  }

  /** Two writes back to back are one write of both. */
  lemma PatchThen(d: seq<byte>, p: nat, a: seq<byte>, b: seq<byte>)
    ensures Patch(Patch(d, p, a), p + |a|, b) == Patch(d, p, a + b)
  {
    var l := Patch(Patch(d, p, a), p + |a|, b);
    var r := Patch(d, p, a + b);
    PatchIndex(d, p, a);
    PatchIndex(Patch(d, p, a), p + |a|, b);
    PatchIndex(d, p, a + b);
    assert |l| == |r|;
    forall i | 0 <= i < |l|
      ensures l[i] == r[i]
    {
      if p <= i < p + |a| {
        assert (a + b)[i - p] == a[i - p];
      } else if p + |a| <= i < p + |a| + |b| {
        assert (a + b)[i - p] == b[i - p - |a|];
      }
    }
  }

  /**
   * Back-patching: overwriting the placeholder z inside an earlier write
   * a + z + c gives the write a + w + c.
   */
  lemma PatchOver(d: seq<byte>, p: nat, a: seq<byte>, z: seq<byte>, c: seq<byte>, w: seq<byte>)
    requires |w| == |z|
    ensures Patch(Patch(d, p, a + z + c), p + |a|, w) == Patch(d, p, a + w + c)
  {
    var l := Patch(Patch(d, p, a + z + c), p + |a|, w);
    var r := Patch(d, p, a + w + c);
    PatchIndex(d, p, a + z + c);
    PatchIndex(Patch(d, p, a + z + c), p + |a|, w);
    PatchIndex(d, p, a + w + c);
    assert |l| == |r|;
    forall i | 0 <= i < |l|
      ensures l[i] == r[i]
    {
      if p <= i < p + |a| {
        assert (a + z + c)[i - p] == a[i - p] == (a + w + c)[i - p];
      } else if p + |a| + |w| <= i < p + |a| + |w| + |c| {
        assert (a + z + c)[i - p] == c[i - p - |a| - |w|] == (a + w + c)[i - p];
      } else if p + |a| <= i < p + |a| + |w| {
        assert (a + w + c)[i - p] == w[i - p - |a|];
      }
    }
  }

  /** Writing nothing changes nothing, wherever the pointer is. */
  lemma PatchNothing(d: seq<byte>, p: nat)
    ensures Patch(d, p, []) == d
  {
    PatchIndex(d, p, []);
  }

  /** A write at the end of the file appends. */
  lemma PatchAtEnd(d: seq<byte>, w: seq<byte>)
    ensures Patch(d, |d|, w) == d + w
  {
    PatchIndex(d, |d|, w);
  }

  /**
   * What a write that failed part-way leaves: the file no shorter, and
   * every byte before offset p as it was.
   */
  predicate KeptBelow(g: seq<byte>, d: seq<byte>, p: nat)
  {
    |d| <= |g| && forall i :: 0 <= i < p && i < |d| ==> g[i] == d[i]
  }

  /** A write at p keeps everything below p. */
  lemma PatchKeeps(d: seq<byte>, p: nat, w: seq<byte>)
    ensures KeptBelow(Patch(d, p, w), d, p)
  {
    PatchIndex(d, p, w);
  }

  /** Keeping below p, then below some q >= p, keeps below p. */
  lemma KeptThen(a: seq<byte>, b: seq<byte>, c: seq<byte>, p: nat, q: nat)
    requires KeptBelow(b, a, p) && KeptBelow(c, b, q) && p <= q
    ensures KeptBelow(c, a, p)
  {
  }

  class RandomAccess {
    var data: seq<byte>
    var pos: nat

    constructor (contents: seq<byte>)
      ensures data == contents && pos == 0
    {
      data := contents;
      pos := 0;
    }

    method Seek(p: int) returns (r: Result<()>)
      modifies this
      ensures data == old(data)
      ensures r.Ok? <==> p >= 0
      ensures r.Ok? ==> pos == p
      ensures r.Err? ==> r.error == Access && pos == old(pos)
    {
      if p < 0 {
        return Err(Access);
      }
      pos := p;
      return Ok(());
    }

    method ReadByte() returns (r: Result<byte>)
      modifies this
      ensures data == old(data)
      ensures r.Ok? <==> old(pos) < |data|
      ensures r.Ok? ==> r.value == data[old(pos)] && pos == old(pos) + 1
      ensures r.Err? ==> r.error == Access && pos == old(pos)
    {
      if pos >= |data| {
        return Err(Access);
      }
      r := Ok(data[pos]);
      pos := pos + 1;
    }

    method ReadFully(n: nat) returns (r: Result<seq<byte>>)
      modifies this
      ensures data == old(data)
      ensures r.Ok? <==> old(pos) + n <= |data|
      ensures r.Ok? ==> r.value == data[old(pos)..old(pos) + n] && pos == old(pos) + n
      ensures r.Err? ==> r.error == Access && pos == old(pos)
    {
      if pos + n > |data| {
        return Err(Access);
      }
      r := Ok(data[pos..pos + n]);
      pos := pos + n;
    }

    method ReadLong() returns (r: Result<int>)
      modifies this
      ensures data == old(data)
      ensures r.Ok? <==> old(pos) + 8 <= |data|
      ensures r.Ok? ==> r.value == DecodeLong(data[old(pos)..old(pos) + 8]) && pos == old(pos) + 8
      ensures r.Err? ==> r.error == Access && pos == old(pos)
    {
      var b :- ReadFully(8);
      return Ok(DecodeLong(b));
    }

    method ReadInt() returns (r: Result<int>)
      modifies this
      ensures data == old(data)
      ensures r.Ok? <==> old(pos) + 4 <= |data|
      ensures r.Ok? ==> r.value == DecodeInt(data[old(pos)..old(pos) + 4]) && pos == old(pos) + 4
      ensures r.Err? ==> r.error == Access && pos == old(pos)
    {
      var b :- ReadFully(4);
      return Ok(DecodeInt(b));
    }

    method Write(w: seq<byte>)
      modifies this
      ensures data == Patch(old(data), old(pos), w) && pos == old(pos) + |w|
    {
      data := Patch(data, pos, w);
      pos := pos + |w|;
    }

    method WriteByte(b: byte)
      modifies this
      ensures data == Patch(old(data), old(pos), [b]) && pos == old(pos) + 1
    {
      Write([b]);
    }

    method WriteLong(x: int)
      modifies this
      ensures data == Patch(old(data), old(pos), EncodeLong(x)) && pos == old(pos) + 8
    {
      Write(EncodeLong(x));
    }

    method WriteInt(x: int)
      modifies this
      ensures data == Patch(old(data), old(pos), EncodeInt(x)) && pos == old(pos) + 4
    {
      Write(EncodeInt(x));
    }

    /** skipBytes: at most n bytes, never past the end (and back to the end from beyond it). */
    method SkipBytes(n: int) returns (k: int)
      modifies this
      ensures data == old(data)
      ensures n <= 0 ==> k == 0 && pos == old(pos)
      ensures n > 0 ==> pos == (if old(pos) + n > |data| then |data| else old(pos) + n) && k == pos - old(pos)
    {
      if n <= 0 {
        return 0;
      }
      var target := pos + n;
      if target > |data| {
        target := |data|;
      }
      k := target - pos;
      pos := target;
    }
  }
}
