/**
 * The file stream of the socket examples: blocks of at most 100 integers, each
 * preceded by its count; a block of fewer than 100 is the last.
 */
module BlockStream {
  import opened Bytes

  const FILE_INTEGERS := 100
  const INT := 4

  /** Whole integers in a file; the bytes after the last one are not sent. */
  function Integers(file: seq<byte>): nat
  {
    |file| / INT
  }

  /** The part of a file that is made of whole integers. */
  function Whole(file: seq<byte>): (whole: seq<byte>)
    ensures |whole| == INT * Integers(file)
  {
    file[..INT * Integers(file)]
  }

  function Min(a: nat, b: nat): nat
  {
    if a < b then a else b
  }

  /** The count an fread reports, and the block it leaves in the buffer. */
  function NextCount(file: seq<byte>): (n: nat)
    ensures n <= FILE_INTEGERS && INT * n <= |file|
  {
    Min(FILE_INTEGERS, Integers(file))
  }

  function Header(count: nat): (bytes: seq<byte>)
    ensures |bytes| == INT
  {
    LittleEndian(INT, count)
  }

  /** The bytes sent for a file. */
  function Encode(file: seq<byte>): (wire: seq<byte>)
    decreases |file|
  {
    var n := NextCount(file);
    Header(n) + file[..INT * n] + if n == FILE_INTEGERS then Encode(file[INT * n..]) else []
  }

  datatype Received =
    | File(file: seq<byte>, rest: seq<byte>, blocks: nat)
    | Refused                      // a count above the block size ends the program
    | Starved                      // the stream ends inside a block

  /** A count field read as a signed integer. */
  function Count(bytes: seq<byte>): (n: int)
    requires |bytes| == INT
    ensures -0x8000_0000 <= n < 0x8000_0000
  {
    Pow256Values();
    var raw := FromLittleEndian(bytes);
    if raw < 0x8000_0000 then raw else raw - 0x1_0000_0000
  }

  /** What the receiver makes of a byte stream. */
  function Decode(wire: seq<byte>): (r: Received)
    decreases |wire|
  {
    if |wire| < INT then Starved
    else
      var n := Count(wire[..INT]);
      if n > FILE_INTEGERS then Refused
      else if n <= 0 then File([], wire[INT..], 1)
      else if |wire| < INT + INT * n then Starved
      else
        var block, rest := wire[INT..INT + INT * n], wire[INT + INT * n..];
        if n < FILE_INTEGERS then File(block, rest, 1)
        else
          match Decode(rest)
          case File(more, after, blocks) => File(block + more, after, blocks + 1)
          case bad => bad
  }

  // ---------------------------------------------------------------- the two loops

  /** Blocks sent for a file: one for each hundred integers, and one more. */
  function Blocks(file: seq<byte>): nat
  {
    Integers(file) / FILE_INTEGERS + 1
  }

  /** streamFromFile: reads and sends until a block is not full. */
  method StreamFromFile(file: seq<byte>) returns (wire: seq<byte>, blocks: nat)
    ensures wire == Encode(file)
    ensures blocks == |file| / 400 + 1
  {
    hide Header, Encode, Blocks, NextCount, Unsent;
    assert Encode(file) == [] + Unsent(FILE_INTEGERS, file) by {
      UnsentEnds(file);
    }
    wire, blocks := [], 0;
    var left := file;
    var readCounter := FILE_INTEGERS;
    while readCounter == FILE_INTEGERS
      invariant readCounter <= FILE_INTEGERS
      invariant Encode(file) == wire + Unsent(readCounter, left)
      invariant Blocks(file) == blocks + if readCounter == FILE_INTEGERS then Blocks(left) else 0
      decreases |left|, readCounter
    {
      SendBlock(wire, left);
      BlocksLeft(left);
      readCounter := NextCount(left);
      var buffer := left[..INT * readCounter];
      wire := wire + Header(readCounter);
      wire := wire + buffer;
      left := left[INT * readCounter..];
      blocks := blocks + 1;
    }
    UnsentEnds(left);
    assert wire + [] == wire;
    BlocksExactly(file);
  }

  /** The bytes still to be sent, after a block of readCounter integers. */
  function Unsent(readCounter: int, left: seq<byte>): seq<byte>
  {
    if readCounter == FILE_INTEGERS then Encode(left) else []
  }

  lemma UnsentEnds(left: seq<byte>)
    ensures Unsent(FILE_INTEGERS, left) == Encode(left) == [] + Encode(left)
    ensures forall n: int :: n != FILE_INTEGERS ==> Unsent(n, left) == []
  {
    hide Encode;
  }

  lemma SendBlock(wire: seq<byte>, left: seq<byte>)
    ensures var n := NextCount(left);
      wire + Unsent(FILE_INTEGERS, left) == wire + Header(n) + left[..INT * n] + Unsent(n, left[INT * n..])
  {
    hide Header;
    var n := NextCount(left);
    var rest := Unsent(n, left[INT * n..]);
    assert Encode(left) == Header(n) + left[..INT * n] + rest;
    assert wire + (Header(n) + left[..INT * n] + rest) == wire + Header(n) + left[..INT * n] + rest;
  }

  lemma BlocksLeft(file: seq<byte>)
    ensures var n := NextCount(file);
      Blocks(file) == if n == FILE_INTEGERS then Blocks(file[INT * n..]) + 1 else 1
  {
  }

  // ---------------------------------------------------------------- reads that bring less

  /** How many bytes the two reads of one iteration would bring if the stream has them. */
  datatype Take = Take(header: nat, block: nat)

  /** What a read of want bytes brings: the code takes it for all of them. */
  function Brought(left: seq<byte>, want: nat, take: nat): (chunk: seq<byte>)
    ensures |chunk| <= want && chunk <= left
  {
    left[..Min(take, Min(want, |left|))]
  }

  /** A short read leaves the end of its destination as it was. */
  function Overlaid(before: seq<byte>, chunk: seq<byte>): (after: seq<byte>)
    requires |chunk| <= |before|
    ensures |after| == |before|
  {
    chunk + before[|chunk|..]
  }

  type Word = w: seq<byte> | |w| == INT witness [0, 0, 0, 0]

  type Block = b: seq<byte> | |b| == INT * FILE_INTEGERS witness seq(INT * FILE_INTEGERS, _ => 0)

  /** What the receiver makes of a byte stream when its reads bring what takes says. */
  function DecodeAsRead(wire: seq<byte>, counter: Word, buffer: Block, takes: seq<Take>): (r: Received)
    decreases |takes|
  {
    if takes == [] then Starved
    else
      var head := Brought(wire, INT, takes[0].header);
      var count: Word := Overlaid(counter, head);
      var rest, n := wire[|head|..], Count(count);
      if n > FILE_INTEGERS then Refused
      else if n <= 0 then File([], rest, 1)
      else
        var block := Brought(rest, INT * n, takes[0].block);
        var held: Block := Overlaid(buffer, block);
        var after := rest[|block|..];
        if n < FILE_INTEGERS then File(held[..INT * n], after, 1)
        else
          match DecodeAsRead(after, count, held, takes[1..])
          case File(more, last, blocks) => File(held[..INT * n] + more, last, blocks + 1)
          case bad => bad
  }

  /** Every read up to the end of the file brings all that was asked for. */
  predicate AllComplete(wire: seq<byte>, counter: Word, buffer: Block, takes: seq<Take>)
    decreases |takes|
  {
    && takes != []
    && var head := Brought(wire, INT, takes[0].header);
       var count: Word := Overlaid(counter, head);
       var rest, n := wire[|head|..], Count(count);
       && |head| == INT
       && (0 < n <= FILE_INTEGERS ==>
             var block := Brought(rest, INT * n, takes[0].block);
             && |block| == INT * n
             && (n == FILE_INTEGERS ==>
                   AllComplete(rest[|block|..], count, Overlaid(buffer, block), takes[1..])))
  }

  /**
   * streamToFile: two reads to an iteration, neither of them repeated, until a
   * block is not full. The buffer is as malloc left it.
   */
  method StreamToFile(wire: seq<byte>, malloced: Block, takes: seq<Take>) returns (r: Received)
    ensures r == DecodeAsRead(wire, Header(FILE_INTEGERS), malloced, takes)
  {
    hide FromLittleEndian, Header, Brought;
    var counter: Word, buffer: Block := Header(FILE_INTEGERS), malloced;
    HeaderRoundTrip(FILE_INTEGERS);
    var file: seq<byte>, left, blocks := [], wire, 0;
    while Count(counter) == FILE_INTEGERS
      invariant blocks <= |takes| && Count(counter) <= FILE_INTEGERS
      invariant DecodeAsRead(wire, Header(FILE_INTEGERS), malloced, takes) ==
        if Count(counter) != FILE_INTEGERS then File(file, left, blocks)
        else Behind(file, blocks, DecodeAsRead(left, counter, buffer, takes[blocks..]))
      decreases |takes| - blocks, Count(counter)
    {
      hide Count, DecodeAsRead;
      if blocks == |takes| {
        assert takes[blocks..] == [];
        NothingRead(left, counter, buffer);
        return Starved;
      }
      OneIteration(left, counter, buffer, takes[blocks..]);
      assert takes[blocks..][1..] == takes[blocks + 1..];
      var head := Brought(left, INT, takes[blocks].header);
      counter := Overlaid(counter, head);
      left := left[|head|..];
      var readCounter := Count(counter);
      if readCounter > 0 {
        if readCounter > FILE_INTEGERS {
          return Refused;
        }
        var block := Brought(left, INT * readCounter, takes[blocks].block);
        buffer := Overlaid(buffer, block);
        left := left[|block|..];
        ghost var rest := DecodeAsRead(left, counter, buffer, takes[blocks + 1..]);
        BehindBoth(file, blocks, buffer[..INT * readCounter], rest);
        file := file + buffer[..INT * readCounter];
      } else {
        assert file + [] == file;
      }
      blocks := blocks + 1;
    }
    return File(file, left, blocks);
  }

  /** The outcome of a receiver that has written file already. */
  function Behind(file: seq<byte>, blocks: nat, r: Received): Received
  {
    match r
    case File(more, after, n) => File(file + more, after, blocks + n)
    case bad => bad
  }

  lemma BehindBoth(file: seq<byte>, blocks: nat, block: seq<byte>, r: Received)
    ensures Behind(file, blocks, Behind(block, 1, r)) == Behind(file + block, blocks + 1, r)
  {
    if r.File? {
      assert file + (block + r.file) == file + block + r.file;
    }
  }

  lemma NothingRead(left: seq<byte>, counter: Word, buffer: Block)
    ensures DecodeAsRead(left, counter, buffer, []) == Starved
  {
  }

  lemma OneIteration(left: seq<byte>, counter: Word, buffer: Block, takes: seq<Take>)
    requires takes != []
    ensures var head := Brought(left, INT, takes[0].header);
      var count: Word := Overlaid(counter, head);
      var rest, n := left[|head|..], Count(count);
      DecodeAsRead(left, counter, buffer, takes) ==
        if n > FILE_INTEGERS then Refused
        else if n <= 0 then File([], rest, 1)
        else
          var block := Brought(rest, INT * n, takes[0].block);
          var held: Block := Overlaid(buffer, block);
          var after := rest[|block|..];
          if n < FILE_INTEGERS then File(held[..INT * n], after, 1)
          else Behind(held[..INT * n], 1, DecodeAsRead(after, count, held, takes[1..]))
  {
    hide Count, Brought, Overlaid;
  }

  /** With complete reads the outcome is Decode's, whatever was in memory. */
  lemma {:induction false} CompleteIsDecode(wire: seq<byte>, counter: Word, buffer: Block, takes: seq<Take>)
    requires AllComplete(wire, counter, buffer, takes)
    ensures DecodeAsRead(wire, counter, buffer, takes) == Decode(wire)
    decreases |takes|
  {
    hide Count;
    var head := Brought(wire, INT, takes[0].header);
    var count: Word := Overlaid(counter, head);
    assert count == head == wire[..INT];
    var rest, n := wire[INT..], Count(count);
    if 0 < n <= FILE_INTEGERS {
      var block := Brought(rest, INT * n, takes[0].block);
      assert block == rest[..INT * n] == wire[INT..INT + INT * n];
      var held: Block := Overlaid(buffer, block);
      assert held[..INT * n] == block;
      assert rest[|block|..] == wire[INT + INT * n..];
      if n == FILE_INTEGERS {
        CompleteIsDecode(rest[|block|..], count, held, takes[1..]);
      }
    }
  }

  /**
   * The bytes asked for are those of the counts and of the file; as many are
   * consumed exactly when all reads are complete.
   */
  lemma {:induction false} AskedAndConsumed(wire: seq<byte>, counter: Word, buffer: Block, takes: seq<Take>)
    requires DecodeAsRead(wire, counter, buffer, takes).File?
    ensures var r := DecodeAsRead(wire, counter, buffer, takes);
      && r.blocks == Blocks(r.file)
      && |wire| - |r.rest| <= INT * r.blocks + |r.file|
      && (|wire| - |r.rest| == INT * r.blocks + |r.file| <==> AllComplete(wire, counter, buffer, takes))
    decreases |takes|
  {
    hide Count, Brought;
    OneIteration(wire, counter, buffer, takes);
    var head := Brought(wire, INT, takes[0].header);
    var count: Word := Overlaid(counter, head);
    var rest, n := wire[|head|..], Count(count);
    if n == FILE_INTEGERS {
      var block := Brought(rest, INT * n, takes[0].block);
      var held: Block := Overlaid(buffer, block);
      AskedAndConsumed(rest[|block|..], count, held, takes[1..]);
    }
  }

  // ---------------------------------------------------------------- round trip

  lemma HeaderRoundTrip(count: nat)
    requires count <= FILE_INTEGERS
    ensures Count(Header(count)) == count
  {
    Pow256Values();
    LittleEndianRoundTrip(INT, count);
  }

  /**
   * Whatever follows on the stream, the receiver rebuilds the whole integers of
   * the file, stops exactly behind the bytes sent, and runs as many iterations
   * as the sender: one for each hundred integers, and one more.
   */
  lemma {:induction false} StreamRoundTrip(file: seq<byte>, rest: seq<byte>)
    ensures Decode(Encode(file) + rest) == File(Whole(file), rest, Blocks(file))
    decreases |file|
  {
    hide LittleEndian, Header, Count;
    var n := NextCount(file);
    var tail := file[INT * n..];
    var next := (if n == FILE_INTEGERS then Encode(tail) else []) + rest;
    var wire := Encode(file) + rest;
    assert wire == Header(n) + (file[..INT * n] + next);
    assert wire[..INT] == Header(n);
    assert wire[INT..] == file[..INT * n] + next;
    assert wire[INT..INT + INT * n] == file[..INT * n];
    assert wire[INT + INT * n..] == next;
    HeaderRoundTrip(n);
    BlocksLeft(file);
    if n == FILE_INTEGERS {
      StreamRoundTrip(tail, rest);
      WholeNext(file);
    } else {
      assert next == rest;
      assert n == 0 ==> Whole(file) == [];
    }
  }

  lemma WholeNext(file: seq<byte>)
    requires Integers(file) >= FILE_INTEGERS
    ensures Whole(file) == file[..INT * FILE_INTEGERS] + Whole(file[INT * FILE_INTEGERS..])
  {
  }

  /** The file arrives unchanged exactly when it is made of whole integers. */
  lemma FileSurvivesExactly(file: seq<byte>, rest: seq<byte>)
    ensures Decode(Encode(file) + rest).File?
    ensures Decode(Encode(file) + rest).file == file <==> |file| % INT == 0
  {
    hide Encode, Decode;
    StreamRoundTrip(file, rest);
  }

  lemma {:induction false} EncodedLength(file: seq<byte>)
    ensures |Encode(file)| == INT * Blocks(file) + |Whole(file)|
    decreases |file|
  {
    hide Header;
    BlocksLeft(file);
    if NextCount(file) == FILE_INTEGERS {
      EncodedLength(file[INT * FILE_INTEGERS..]);
      WholeNext(file);
    }
  }

  /**
   * Whatever the reads bring and whatever was in memory, the receiver rebuilds
   * the file and stops exactly behind the bytes sent exactly when every read
   * brings all that was asked for.
   */
  lemma RebuiltExactly(file: seq<byte>, rest: seq<byte>, malloced: Block, takes: seq<Take>)
    ensures var wire := Encode(file) + rest;
      var r := DecodeAsRead(wire, Header(FILE_INTEGERS), malloced, takes);
      r == File(Whole(file), rest, Blocks(file)) <==> AllComplete(wire, Header(FILE_INTEGERS), malloced, takes)
  {
    hide Encode, DecodeAsRead, AllComplete, Header;
    var wire := Encode(file) + rest;
    EncodedLength(file);
    StreamRoundTrip(file, rest);
    if AllComplete(wire, Header(FILE_INTEGERS), malloced, takes) {
      CompleteIsDecode(wire, Header(FILE_INTEGERS), malloced, takes);
    }
    if DecodeAsRead(wire, Header(FILE_INTEGERS), malloced, takes) == File(Whole(file), rest, Blocks(file)) {
      AskedAndConsumed(wire, Header(FILE_INTEGERS), malloced, takes);
    }
  }

  lemma BlocksExactly(file: seq<byte>)
    ensures Blocks(file) == |file| / 400 + 1
  {
  }

  /** Reads that could bring more than is asked for bring all of it, for as many blocks as were sent. */
  lemma {:induction false} LongReadsAreComplete(file: seq<byte>, rest: seq<byte>, counter: Word, buffer: Block,
                                                takes: seq<Take>)
    requires |takes| >= Blocks(file) && forall i :: 0 <= i < |takes| ==> takes[i].header >= 4 && takes[i].block >= 400
    ensures AllComplete(Encode(file) + rest, counter, buffer, takes)
    decreases |file|
  {
    hide Header, Count;
    var n := NextCount(file);
    var wire, tail := Encode(file) + rest, file[INT * n..];
    var next := (if n == FILE_INTEGERS then Encode(tail) else []) + rest;
    assert wire == Header(n) + (file[..INT * n] + next);
    HeaderRoundTrip(n);
    var head := Brought(wire, INT, takes[0].header);
    assert head == Header(n);
    var count: Word := Overlaid(counter, head);
    assert count == head;
    var block := Brought(wire[INT..], INT * n, takes[0].block);
    assert wire[INT..] == file[..INT * n] + next;
    assert |block| == INT * n;
    BlocksLeft(file);
    if n == FILE_INTEGERS {
      assert wire[INT..][|block|..] == next;
      LongReadsAreComplete(tail, rest, count, Overlaid(buffer, block), takes[1..]);
    }
  }
}
