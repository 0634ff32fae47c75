/**
 * What lands in memory when a wanted block arrives in several reads. The server
 * casts its destination to an int pointer and advances it by the byte count, so
 * each byte read moves the destination by four; two time stamps are taken with a
 * single read that is not repeated. This module says exactly when such reads
 * deliver the data that SocketUtils.ReadData delivers always, and when they stay
 * inside the destination.
 */
module ShortReads {
  import opened Bytes
  import opened Basics
  import SocketUtils

  datatype Cell = Uninitialised | Written(value: byte)

  type Memory = nat -> Cell

  const INT_POINTER := 4
  const BYTE_POINTER := 1

  /** A variable on the stack: the time stamps and the size of a tag. */
  function Fresh(): Memory
  {
    (i: nat) => Uninitialised
  }

  /** A buffer from calloc: the text of a tag. */
  function Zeroed(): Memory
  {
    (i: nat) => Written(0)
  }

  function Store(mem: Memory, at: nat, bytes: seq<byte>): Memory
  {
    (i: nat) => if at <= i < at + |bytes| then Written(bytes[i - at]) else mem(i)
  }

  /** The read loop: each chunk is stored, then the pointer moves by stride bytes per byte read. */
  function Deposit(mem: Memory, at: nat, chunks: seq<seq<byte>>, stride: nat): Memory
    decreases |chunks|
  {
    if chunks == [] then mem
    else Deposit(Store(mem, at, chunks[0]), at + stride * |chunks[0]|, chunks[1..], stride)
  }

  /** Where the pointer stands after the chunks. */
  function Pointer(at: nat, chunks: seq<seq<byte>>, stride: nat): nat
  {
    at + stride * |Flatten(chunks)|
  }

  lemma {:induction false} DepositNext(mem: Memory, at: nat, chunks: seq<seq<byte>>, chunk: seq<byte>, stride: nat)
    ensures Deposit(mem, at, chunks + [chunk], stride)
         == Store(Deposit(mem, at, chunks, stride), Pointer(at, chunks, stride), chunk)
    decreases |chunks|
  {
    if chunks == [] {
      assert chunks + [chunk] == [chunk];
    } else {
      var next := at + stride * |chunks[0]|;
      DepositNext(Store(mem, at, chunks[0]), next, chunks[1..], chunk, stride);
      assert (chunks + [chunk])[1..] == chunks[1..] + [chunk];
      assert Pointer(next, chunks[1..], stride) == Pointer(at, chunks, stride);
    }
  }

  /**
   * The read loop with its pointer: every read that returns stores its bytes and
   * moves the pointer by stride times their number. Not filled means the stream
   * ran dry.
   */
  method ReadDataAsWritten(conn: SocketUtils.Connection, mem: Memory, size: nat, stride: nat)
    returns (filled: bool, after: Memory, ghost chunks: seq<seq<byte>>)
    modifies conn`inbound
    ensures after == Deposit(mem, 0, chunks, stride)
    ensures Flatten(chunks) + conn.inbound == old(conn.inbound)
    ensures forall i :: 0 <= i < |chunks| ==> chunks[i] != []
    ensures if filled then |Flatten(chunks)| == size else conn.inbound == [] && |Flatten(chunks)| < size
  {
    var toRead, tmp := size, 0;
    after, chunks := mem, [];
    while toRead > 0
      invariant 0 <= toRead == size - |Flatten(chunks)|
      invariant tmp == Pointer(0, chunks, stride)
      invariant after == Deposit(mem, 0, chunks, stride)
      invariant Flatten(chunks) + conn.inbound == old(conn.inbound)
      invariant forall i :: 0 <= i < |chunks| ==> chunks[i] != []
      decreases toRead
    {
      hide Deposit, Store;
      if conn.inbound == [] {
        return false, after, chunks;
      }
      var chunk := conn.Read(toRead);
      DepositNext(mem, 0, chunks, chunk, stride);
      FlattenAppend(chunks, [chunk]);
      FlattenOne(chunk);
      after := Store(after, tmp, chunk);
      tmp, toRead := tmp + stride * |chunk|, toRead - |chunk|;
      chunks := chunks + [chunk];
    }
    return true, after, chunks;
  }

  // ---------------------------------------------------------------- delivery

  ghost predicate Holds(mem: Memory, at: nat, data: seq<byte>)
  {
    forall i :: 0 <= i < |data| ==> mem(at + i) == Written(data[i])
  }

  lemma {:induction false} DepositKeepsBelow(mem: Memory, at: nat, chunks: seq<seq<byte>>, stride: nat, i: nat)
    requires i < at
    ensures Deposit(mem, at, chunks, stride)(i) == mem(i)
    decreases |chunks|
  {
    if chunks != [] {
      assert stride * |chunks[0]| >= 0;
      DepositKeepsBelow(Store(mem, at, chunks[0]), at + stride * |chunks[0]|, chunks[1..], stride, i);
    }
  }

  /** With a byte pointer every fragmentation delivers the data. */
  lemma {:induction false} BytePointerDelivers(mem: Memory, at: nat, chunks: seq<seq<byte>>)
    ensures Holds(Deposit(mem, at, chunks, BYTE_POINTER), at, Flatten(chunks))
    decreases |chunks|
  {
    if chunks != [] {
      var first := chunks[0];
      var stored, next := Store(mem, at, first), at + |first|;
      var after := Deposit(mem, at, chunks, BYTE_POINTER);
      BytePointerDelivers(stored, next, chunks[1..]);
      forall i | 0 <= i < |Flatten(chunks)|
        ensures after(at + i) == Written(Flatten(chunks)[i])
      {
        if i < |first| {
          DepositKeepsBelow(stored, next, chunks[1..], BYTE_POINTER, at + i);
        } else {
          assert next + (i - |first|) == at + i;
        }
      }
    }
  }

  /** No read was empty, and there was one. */
  predicate Reads(chunks: seq<seq<byte>>)
  {
    chunks != [] && forall i :: 0 <= i < |chunks| ==> chunks[i] != []
  }

  lemma FirstOfMany(chunks: seq<seq<byte>>)
    requires Reads(chunks)
    ensures Flatten(chunks) == chunks[0] + Flatten(chunks[1..]) && chunks[0] != []
    ensures |chunks| == 1 <==> Flatten(chunks[1..]) == []
  {
  }

  /** Which byte of the data the int pointer stores in cell p; none lands in front of its place. */
  function Landing(chunks: seq<seq<byte>>, p: nat): (q: Option<nat>)
    ensures q.Some? ==> q.value < |Flatten(chunks)| && q.value <= p
    ensures q.Some? && p >= |chunks[0]| ==> |chunks[0]| <= q.value <= p - 3 * |chunks[0]|
    decreases |chunks|
  {
    if chunks == [] then None
    else
      var first := |chunks[0]|;
      if p < first then Some(p)
      else if p < 4 * first then None
      else
        match Landing(chunks[1..], p - 4 * first)
        case None => None
        case Some(q) => Some(first + q)
  }

  lemma {:induction false} DepositLands(mem: Memory, at: nat, chunks: seq<seq<byte>>, p: nat)
    ensures Deposit(mem, at, chunks, INT_POINTER)(at + p) ==
      match Landing(chunks, p) case None => mem(at + p) case Some(q) => Written(Flatten(chunks)[q])
    decreases |chunks|
  {
    if chunks != [] {
      var first, next := chunks[0], at + 4 * |chunks[0]|;
      var stored := Store(mem, at, first);
      if p < 4 * |first| {
        DepositKeepsBelow(stored, next, chunks[1..], INT_POINTER, at + p);
      } else {
        DepositLands(stored, next, chunks[1..], p - 4 * |first|);
      }
    }
  }

  /** Cell i ends up with byte i of the data: one equal to it lands there, or none does and it was there before. */
  predicate EndsRight(mem: Memory, chunks: seq<seq<byte>>, i: nat)
    requires i < |Flatten(chunks)|
  {
    match Landing(chunks, i)
    case None => mem(i) == Written(Flatten(chunks)[i])
    case Some(q) => Flatten(chunks)[q] == Flatten(chunks)[i]
  }

  /**
   * Whatever was in memory, the int pointer delivers the data exactly when every
   * cell no byte lands on held its byte already, and every byte that lands is
   * equal to the one whose place it takes.
   */
  lemma IntPointerDeliversExactly(mem: Memory, chunks: seq<seq<byte>>)
    ensures Holds(Deposit(mem, 0, chunks, INT_POINTER), 0, Flatten(chunks))
       <==> forall i :: 0 <= i < |Flatten(chunks)| ==> EndsRight(mem, chunks, i)
  {
    hide Deposit, Flatten, Landing;
    var data, after := Flatten(chunks), Deposit(mem, 0, chunks, INT_POINTER);
    forall i | 0 <= i < |data| ensures EndsRight(mem, chunks, i) <==> after(0 + i) == Written(data[i]) {
      DepositLands(mem, 0, chunks, i);
    }
  }

  /** Into unset memory the int pointer delivers the data exactly when one read brings all of it. */
  lemma UnsetDeliversExactly(chunks: seq<seq<byte>>)
    requires Reads(chunks)
    ensures Holds(Deposit(Fresh(), 0, chunks, INT_POINTER), 0, Flatten(chunks)) <==> |chunks| == 1
  {
    hide Deposit, Flatten, Holds;
    var first, data := |chunks[0]|, Flatten(chunks);
    FirstOfMany(chunks);
    IntPointerDeliversExactly(Fresh(), chunks);
    if |chunks| > 1 {
      assert !EndsRight(Fresh(), chunks, first);
    }
  }

  predicate AllZero(bytes: seq<byte>)
  {
    forall i :: 0 <= i < |bytes| ==> bytes[i] == 0
  }

  /** Delivered behind the first read means zero: each byte would have to come from one before it. */
  lemma {:induction false} OnlyZeroBehindTheFirst(chunks: seq<seq<byte>>, i: nat)
    requires Reads(chunks) && |chunks[0]| <= i < |Flatten(chunks)|
    requires forall j :: 0 <= j < |Flatten(chunks)| ==> EndsRight(Zeroed(), chunks, j)
    ensures Flatten(chunks)[i] == 0
    decreases i
  {
    hide Flatten;
    assert EndsRight(Zeroed(), chunks, i);
    var landing := Landing(chunks, i);
    if landing.Some? {
      assert chunks[0] != [];
      OnlyZeroBehindTheFirst(chunks, landing.value);
    }
  }

  /**
   * Into zeroed memory the int pointer delivers the data exactly when every byte
   * behind the first read is zero.
   */
  lemma ZeroedDeliversExactly(chunks: seq<seq<byte>>)
    requires Reads(chunks)
    ensures Holds(Deposit(Zeroed(), 0, chunks, INT_POINTER), 0, Flatten(chunks)) <==> AllZero(Flatten(chunks[1..]))
  {
    hide Flatten, Deposit, Holds;
    var first, data, rest := |chunks[0]|, Flatten(chunks), Flatten(chunks[1..]);
    FirstOfMany(chunks);
    IntPointerDeliversExactly(Zeroed(), chunks);
    if forall i :: 0 <= i < |data| ==> EndsRight(Zeroed(), chunks, i) {
      forall j | 0 <= j < |rest| ensures rest[j] == 0 {
        OnlyZeroBehindTheFirst(chunks, first + j);
        assert data[first + j] == rest[j];
      }
    }
    if AllZero(rest) {
      forall i | 0 <= i < |data| ensures EndsRight(Zeroed(), chunks, i) {
        assert forall j :: first <= j < |data| ==> data[j] == rest[j - first];
      }
    }
  }

  /** A tag's text arrives exactly when one read brings all of it, or a second one only its NUL. */
  lemma TagArrivesExactly(name: seq<byte>, chunks: seq<seq<byte>>)
    requires Reads(chunks) && Flatten(chunks) == name + [0] && 0 !in name
    ensures Holds(Deposit(Zeroed(), 0, chunks, INT_POINTER), 0, name + [0])
       <==> |chunks| == 1 || (|chunks| == 2 && chunks[1] == [0])
  {
    hide Deposit, Holds, Flatten;
    ZeroedDeliversExactly(chunks);
    FirstOfMany(chunks);
    var first, rest := chunks[0], Flatten(chunks[1..]);
    assert first + rest == name + [0];
    if |chunks| > 1 {
      assert Reads(chunks[1..]);
      FirstOfMany(chunks[1..]);
      assert chunks[1..][1..] == chunks[2..];
      if |rest| > 1 {
        assert rest[0] == (first + rest)[|first|] == (name + [0])[|first|] == name[|first|];
        assert rest[0] in name;
        assert !AllZero(rest);
      }
      if |chunks| == 2 && chunks[1] == [0] {
        FlattenOne(chunks[1]);
        assert chunks[1..] == [chunks[1]];
      }
      if AllZero(rest) {
        assert |rest| == 1;
        assert |chunks[1..]| == 1;
        FlattenOne(chunks[1]);
        assert chunks[1..] == [chunks[1]];
        assert chunks[1] == rest == [0];
      }
    }
  }

  /**
   * Whatever was in memory, a single read delivers the data exactly when the bytes
   * it does not bring were in their places already.
   */
  lemma SingleReadDeliversExactly(mem: Memory, chunk: seq<byte>, data: seq<byte>)
    requires chunk <= data
    ensures Holds(Store(mem, 0, chunk), 0, data) <==> Holds(mem, |chunk|, data[|chunk|..])
  {
    var after, missing := Store(mem, 0, chunk), data[|chunk|..];
    forall i | 0 <= i < |missing|
      ensures after(0 + (|chunk| + i)) == mem(|chunk| + i) && data[|chunk| + i] == missing[i]
    {
    }
    if Holds(mem, |chunk|, missing) {
      forall i | 0 <= i < |data| ensures after(0 + i) == Written(data[i]) {
        if i >= |chunk| {
          assert mem(|chunk| + (i - |chunk|)) == Written(missing[i - |chunk|]);
        }
      }
    }
  }

  /** Into unset memory a single read delivers the data exactly when it brings all of it. */
  lemma UnsetSingleReadExactly(chunk: seq<byte>, data: seq<byte>)
    requires chunk <= data
    ensures Holds(Store(Fresh(), 0, chunk), 0, data) <==> chunk == data
  {
    hide Store;
    SingleReadDeliversExactly(Fresh(), chunk, data);
    if |chunk| < |data| {
      assert Fresh()(|chunk| + 0) != Written(data[|chunk|..][0]);
    }
  }

  /** A time stamp that arrives one byte first and seven bytes later is not delivered. */
  lemma SplitTimeStampIsLost()
    ensures !Holds(Deposit(Fresh(), 0, [[1], [2, 3, 4, 5, 6, 7, 8]], INT_POINTER), 0, [1, 2, 3, 4, 5, 6, 7, 8])
  {
    var chunks: seq<seq<byte>> := [[1], [2, 3, 4, 5, 6, 7, 8]];
    UnsetDeliversExactly(chunks);
    assert chunks[1..] == [chunks[1]] && chunks[1..][1..] == [];
    assert Flatten(chunks) == [1, 2, 3, 4, 5, 6, 7, 8];
  }

  // ---------------------------------------------------------------- staying inside

  /** The end of the part of memory that the chunks are written to. */
  function Reach(at: nat, chunks: seq<seq<byte>>, stride: nat): nat
    decreases |chunks|
  {
    if chunks == [] then 0
    else
      var here, later := at + |chunks[0]|, Reach(at + stride * |chunks[0]|, chunks[1..], stride);
      if here > later then here else later
  }

  /** Nothing at or behind the reach is written, and the cell in front of it is. */
  lemma {:induction false} ReachIsWritten(mem: Memory, at: nat, chunks: seq<seq<byte>>, stride: nat, i: nat)
    requires Reads(chunks) && stride > 0
    ensures var after, reach := Deposit(mem, at, chunks, stride), Reach(at, chunks, stride);
      && reach > 0 && after(reach - 1).Written?
      && (i >= reach ==> after(i) == mem(i))
    decreases |chunks|
  {
    var first := chunks[0];
    var stored, next := Store(mem, at, first), at + stride * |first|;
    if |chunks| > 1 {
      ReachIsWritten(stored, next, chunks[1..], stride, i);
      ReachesFurther(next, chunks[1..], stride);
      Moved(stride, |first|, 0);
    }
  }

  lemma ReachesFurther(at: nat, chunks: seq<seq<byte>>, stride: nat)
    requires Reads(chunks)
    ensures Reach(at, chunks, stride) > at
  {
  }

  /** The last read ends furthest out: it starts stride times the bytes before it. */
  lemma {:induction false} LastReadReachesFurthest(at: nat, chunks: seq<seq<byte>>, stride: nat)
    requires Reads(chunks) && stride > 0
    ensures var last := |chunks[|chunks| - 1]|;
      Reach(at, chunks, stride) == at + stride * (|Flatten(chunks)| - last) + last
    decreases |chunks|
  {
    hide Flatten;
    var first, last := |chunks[0]|, |chunks[|chunks| - 1]|;
    FirstOfMany(chunks);
    if |chunks| > 1 {
      LastReadReachesFurthest(at + stride * first, chunks[1..], stride);
      Moved(stride, first, |Flatten(chunks[1..])| - last);
      ReachesFurther(at + stride * first, chunks[1..], stride);
    }
  }

  lemma Moved(stride: nat, x: nat, y: int)
    requires stride > 0
    ensures stride * (x + y) == stride * x + stride * y
    ensures stride * x >= x
  {
  }

  /**
   * Whatever was in memory, the int pointer writes inside the destination only
   * exactly when one read brings all of the data.
   */
  lemma StaysInsideExactly(chunks: seq<seq<byte>>)
    requires Reads(chunks)
    ensures Reach(0, chunks, INT_POINTER) <= |Flatten(chunks)| <==> |chunks| == 1
    ensures Reach(0, chunks, BYTE_POINTER) == |Flatten(chunks)|
  {
    LastReadReachesFurthest(0, chunks, INT_POINTER);
    LastReadReachesFurthest(0, chunks, BYTE_POINTER);
    var last := |chunks[|chunks| - 1]|;
    FirstOfMany(chunks);
    if |chunks| > 1 {
      BytesBeforeTheLast(chunks);
    }
  }

  lemma {:induction false} BytesBeforeTheLast(chunks: seq<seq<byte>>)
    requires Reads(chunks)
    ensures |chunks| > 1 ==> |Flatten(chunks)| > |chunks[|chunks| - 1]|
    ensures |Flatten(chunks)| >= |chunks[|chunks| - 1]|
  {
    if |chunks| > 1 {
      BytesBeforeTheLast(chunks[1..]);
    }
  }
}
