/**
 * QueryResult.java: the positions a committed selection accepted, in the
 * order they were accepted.  They are kept in memory until the list reaches
 * the spill threshold (Integer.MAX_VALUE in the source, a constructor
 * parameter here), then copied, eight big-endian bytes each, into a side
 * file that takes every later position.
 */
module Queries {
  import opened Bytes
  import opened Results
  import opened FileAccess

  /** The side file's contents for the positions ps: writeLong of each, in order. */
  function LongsOf(ps: seq<int>): (r: seq<byte>)
    ensures |r| == 8 * |ps|
  {
    if ps == [] then [] else LongsOf(ps[..|ps| - 1]) + EncodeLong(ps[|ps| - 1])
  }

  /** The eight bytes at 8 * i of the side file are position i. */
  lemma {:induction false} LongsOfAt(ps: seq<int>, i: nat)
    requires i < |ps|
    ensures LongsOf(ps)[8 * i..8 * i + 8] == EncodeLong(ps[i])
    decreases |ps|
  {
    var init := ps[..|ps| - 1];
    assert LongsOf(ps) == LongsOf(init) + EncodeLong(ps[|ps| - 1]);
    if i < |ps| - 1 {
      LongsOfAt(init, i);
      assert LongsOf(ps)[8 * i..8 * i + 8] == LongsOf(init)[8 * i..8 * i + 8];
    } else {
      assert LongsOf(ps)[8 * i..8 * i + 8] == EncodeLong(ps[i]);
    }
  }

  class QueryResult {
    /** Integer.MAX_VALUE in the source. */
    const threshold: nat
    /** mCount and mRecordCount. */
    var count: int
    var recordCount: int
    /** mSelectedMemberPositions; empty once it has been spilled. */
    var positions: seq<int>
    /** mQueryFileAccess: null until the spill. */
    var side: RandomAccess?
    /** Every position added so far, in order. */
    ghost var added: seq<int>

    ghost predicate Valid()
      reads this, side
    {
      1 <= threshold <= INT_MAX
      && count == |added| && recordCount == |added| && 8 * |added| < TWO_63
      && (forall i :: 0 <= i < |added| ==> IsLong(added[i]))
      && (side == null ==> positions == added && |added| < threshold)
      && (side != null ==> positions == [] && |added| >= threshold && side.data == LongsOf(added) && side.pos == |side.data|)
    }

    constructor (threshold: nat)
      requires 1 <= threshold <= INT_MAX
      ensures Valid() && added == [] && side == null && this.threshold == threshold
    {
      this.threshold := threshold;
      count := 0;
      recordCount := 0;
      positions := [];
      side := null;
      added := [];
    }

    /** getCount() */
    function Count(): (n: int)
      requires Valid()
      reads this, side
      ensures n == |added|
    {
      count
    }

    /** getRecordCount() */
    function RecordCount(): (n: int)
      requires Valid()
      reads this, side
      ensures n == |added|
    {
      recordCount
    }

    /** add(position): count it, keep it, and spill the list the moment it reaches the threshold. */
    method Add(position: int)
      requires Valid() && IsLong(position) && 8 * (|added| + 1) < TWO_63
      modifies this, side
      ensures Valid() && added == old(added) + [position]
      ensures side != null <==> |added| >= threshold
      ensures old(side) != null ==> side == old(side)
      ensures old(side) == null && side != null ==> fresh(side)
    {
      count := count + 1;
      recordCount := recordCount + 1;
      added := added + [position];
      if side == null {
        positions := positions + [position];
        if |positions| == threshold {
          Spill();
        }
      } else {
        PatchAtEnd(side.data, EncodeLong(position));
        side.WriteLong(position);
      }
    }

    /** The spill: a fresh side file holding every position so far, and no list. */
    method Spill()
      requires side == null && 1 <= threshold <= INT_MAX && positions == added && |added| == threshold
      requires count == |added| && recordCount == |added| && 8 * |added| < TWO_63 && forall i :: 0 <= i < |added| ==> IsLong(added[i])
      modifies this
      ensures Valid() && added == old(added) && side != null && fresh(side)
    {
      var file := new RandomAccess([]);
      var i := 0;
      while i < |positions|
        invariant 0 <= i <= |positions|
        invariant file.data == LongsOf(positions[..i]) && file.pos == |file.data|
        modifies file
      {
        PatchAtEnd(file.data, EncodeLong(positions[i]));
        file.WriteLong(positions[i]);
        assert positions[..i + 1][..i] == positions[..i];
        i := i + 1;
      }
      assert positions[..i] == added;
      side := file;
      positions := [];
    }

    /**
     * get(index): from the list ((int) index, out of range an
     * IndexOutOfBoundsException), or the long at index * 8 of the side file,
     * after which the pointer goes back to the end of that file.
     */
    method Get(index: int) returns (r: Result<int>)
      requires Valid() && IsLong(index)
      modifies side
      ensures Valid() && unchanged(this)
      ensures 0 <= index < |added| ==> r == Ok(added[index])
      ensures r.Ok? ==> r.value in added
      ensures side == null && IsInt(index) && !(0 <= index < |added|) ==> r == Err(IndexOutOfBounds)
    {
      if side == null {
        var i := WrapInt(index);
        if 0 <= i < |positions| {
          return Ok(positions[i]);
        }
        return Err(IndexOutOfBounds);
      }
      var at := WrapLong(index * 8);
      var moved := side.Seek(at);
      if moved.Err? {
        return Err(Access);
      }
      var read := side.ReadLong();
      var _ := side.Seek(|side.data|);
      if read.Err? {
        return Err(Access);
      }
      AlignedOffset(index);
      ghost var k := at / 8;
      LongsOfAt(added, k);
      LongRoundTrip(added[k]);
      return Ok(read.value);
    }

    /** onRemoved(position): an empty body, so nothing changes. */
    method OnRemoved(position: int)
      requires Valid()
      ensures Valid()
    {
    }

    /** onModified(position): an empty body, so nothing changes. */
    method OnModified(position: int)
      requires Valid()
      ensures Valid()
    {
    }
  }

  /** index * 8 as a Java long is a multiple of 8, and is index * 8 itself when that fits. */
  lemma AlignedOffset(index: int)
    ensures WrapLong(index * 8) % 8 == 0
    ensures 0 <= index && 8 * index < TWO_63 ==> WrapLong(index * 8) == 8 * index
  {
    var at := WrapLong(index * 8);
    assert (index * 8 - at) % TWO_64 == 0;
    assert TWO_64 == 8 * 0x2000_0000_0000_0000;
  }

  /** Spilling changes where the positions live, not what get returns: the side file holds each at its index. */
  lemma SpillKeepsPositions(ps: seq<int>, i: nat)
    requires i < |ps| && IsLong(ps[i])
    ensures DecodeLong(LongsOf(ps)[8 * i..8 * i + 8]) == ps[i]
  {
    LongsOfAt(ps, i);
    LongRoundTrip(ps[i]);
  }
}
