// Linear ext4 directories of several blocks with checksums: each block ends with a tail of its own,
// and the reader stops at the first of them.
module DirectoryBlocks {
  import opened Basics
  import opened Directory

  /** The records of one block, the last of them and no other a tail. */
  predicate IsBlock(records: seq<Record>, context: Context) {
    && records != [] && (forall r <- records :: Valid(r, context))
    && (forall i :: 0 <= i < |records| - 1 ==> !IsTail(records[i]))
    && IsTail(records[|records| - 1])
  }

  predicate AreBlocks(blocks: seq<seq<Record>>, context: Context) {
    forall block <- blocks :: IsBlock(block, context)
  }

  /** The block's tail has the checksum of what is before it in the block. */
  predicate RightChecksum(records: seq<Record>, context: Context)
    requires IsBlock(records, context)
  {
    context.prefix.Some? ==>
      var bytes := Print(records);
      |bytes| >= 12 && Le(bytes, |bytes| - 4, 4) == context.crc(context.prefix.value, bytes[..|bytes| - 12])
  }

  function PrintBlocks(blocks: seq<seq<Record>>, context: Context): seq<Byte>
    requires AreBlocks(blocks, context)
  {
    if blocks == [] then []
    else
      assert blocks[0] in blocks;
      Print(blocks[0]) + PrintBlocks(blocks[1..], context)
  }

  /** The live entries of all blocks in order. */
  function LiveInBlocks(blocks: seq<seq<Record>>, context: Context): seq<DirEntry>
    requires AreBlocks(blocks, context)
  {
    if blocks == [] then []
    else
      assert blocks[0] in blocks;
      Live(blocks[0], context) + LiveInBlocks(blocks[1..], context)
  }

  predicate NoLiveRecord(records: seq<Record>) {
    forall r <- records :: r.inode == 0
  }

  lemma {:induction false} NoneLive(records: seq<Record>, context: Context)
    requires forall r <- records :: Valid(r, context)
    ensures Live(records, context) == [] <==> NoLiveRecord(records)
  {
    if records != [] {
      NoneLive(records[1..], context);
      assert records == [records[0]] + records[1..];
    }
  }

  lemma {:induction false} NoneLiveInBlocks(blocks: seq<seq<Record>>, context: Context)
    requires AreBlocks(blocks, context)
    ensures LiveInBlocks(blocks, context) == [] <==> forall block <- blocks :: NoLiveRecord(block)
  {
    hide IsBlock, NoLiveRecord, Live;
    if blocks != [] {
      NoneLiveInBlocks(blocks[1..], context);
      BlockIsValid(blocks[0], context);
      NoneLive(blocks[0], context);
      assert blocks == [blocks[0]] + blocks[1..];
    }
  }

  lemma BlockIsValid(records: seq<Record>, context: Context)
    requires IsBlock(records, context)
    ensures forall r <- records :: Valid(r, context)
  {
  }

  lemma FirstBlockConsists(blocks: seq<seq<Record>>, context: Context)
    requires blocks != [] && AreBlocks(blocks, context) && RightChecksum(blocks[0], context)
    ensures Consists(PrintBlocks(blocks, context), 0, blocks[0], context)
  {
    hide Le, Valid, Print, IsTail;
    assert blocks[0] in blocks;
    ValidMeans(blocks[0], context);
    var data, bytes := PrintBlocks(blocks, context), Print(blocks[0]);
    assert data[0..] == data && bytes == data[..|bytes|];
    if context.prefix.Some? {
      assert data[..|bytes| - 12] == bytes[..|bytes| - 12];
      LeOfPrefix(data, bytes, |bytes| - 4, 4);
    }
  }

  lemma {:induction false} LeOfPrefix(data: seq<Byte>, bytes: seq<Byte>, at: nat, width: nat)
    requires bytes <= data && at + width <= |bytes|
    ensures Le(data, at, width) == Le(bytes, at, width)
    decreases width
  {
    if width > 0 {
      LeOfPrefix(data, bytes, at + 1, width - 1);
    }
  }

  /**
   * Of a directory of blocks the reader returns the live entries of the first. These are all live
   * entries exactly if no block behind the first one has a live record.
   */
  lemma OnlyFirstBlock(blocks: seq<seq<Record>>, context: Context)
    requires blocks != [] && AreBlocks(blocks, context) && RightChecksum(blocks[0], context)
    ensures (forall r <- blocks[0] :: Valid(r, context))
            && ParseFrom(PrintBlocks(blocks, context), 0, context) == Ok(Live(blocks[0], context))
    ensures ParseFrom(PrintBlocks(blocks, context), 0, context) == Ok(LiveInBlocks(blocks, context))
            <==> forall block <- blocks[1..] :: NoLiveRecord(block)
  {
    hide Consists, ParseFrom, Live, NoLiveRecord, RightChecksum;
    FirstBlockConsists(blocks, context);
    PrintThenParse(PrintBlocks(blocks, context), 0, blocks[0], context);
    NoneLiveInBlocks(blocks[1..], context);
    BlockIsValid(blocks[0], context);
    var first, others := Live(blocks[0], context), LiveInBlocks(blocks[1..], context);
    assert |first + others| == |first| + |others|;
    if others == [] {
      assert first + others == first;
    }
  }

  // ---------------------------------------------------------------- an input that shows it

  /** The tail of a block with these bytes before it. */
  function TailFor(context: Context, before: seq<Byte>): Record {
    Record(0, TAIL_TYPE, [], ToLe(if context.prefix.Some? then context.crc(context.prefix.value, before) else 0, 4))
  }

  /** An empty block, and one with a file named with one letter. */
  function TwoBlocks(context: Context): seq<seq<Record>> {
    var file := Record(12, 1, [97], [0, 0, 0]);
    [[TailFor(context, [])], [file, TailFor(context, PrintRecord(file))]]
  }

  lemma {:induction false} PrintConcat(a: seq<Record>, b: seq<Record>)
    requires (forall r <- a :: |r.name| <= 255) && (forall r <- b :: |r.name| <= 255)
    ensures Print(a + b) == Print(a) + Print(b)
  {
    hide PrintRecord;
    if a == [] {
      assert a + b == b;
    } else {
      assert (a + b)[1..] == a[1..] + b;
      PrintConcat(a[1..], b);
    }
  }

  lemma TailIsTail(context: Context, before: seq<Byte>)
    ensures var tail := TailFor(context, before);
            && Valid(tail, context) && IsTail(tail)
            && |PrintRecord(tail)| == 12 && PrintRecord(tail)[8..] == tail.padding
  {
    hide ToLe;
  }

  lemma TailIsRight(context: Context, records: seq<Record>, before: seq<Byte>)
    requires (forall r <- records :: Valid(r, context) && |r.name| <= 255) && (forall r <- records :: !IsTail(r))
    requires before == Print(records)
    ensures var block := records + [TailFor(context, before)]; IsBlock(block, context) && RightChecksum(block, context)
  {
    hide Le, ToLe, Valid, IsTail, Print, PrintRecord;
    var tail := TailFor(context, before);
    var block := records + [tail];
    TailIsTail(context, before);
    NamesAreShort(records, tail, context);
    PrintConcat(records, [tail]);
    PrintFirst([tail]);
    var bytes := Print(block);
    assert bytes == before + PrintRecord(tail);
    if context.prefix.Some? {
      var sum := context.crc(context.prefix.value, before);
      assert bytes[..|bytes| - 12] == before;
      assert bytes[|bytes| - 4..|bytes| - 4 + 4] == PrintRecord(tail)[8..] == ToLe(sum, 4);
      WidthsFit(sum, 0);
      LeRoundTrip(bytes, |bytes| - 4, sum, 4);
    }
  }

  lemma NamesAreShort(records: seq<Record>, tail: Record, context: Context)
    requires (forall r <- records :: Valid(r, context)) && Valid(tail, context)
    ensures forall r <- records + [tail] :: Valid(r, context) && |r.name| <= 255
    ensures |tail.name| <= 255
  {
  }

  /** Both blocks are right, and the file is dropped without an error. */
  lemma SecondBlockIsDropped(context: Context)
    requires context.decode([97]).Some?
    ensures var blocks := TwoBlocks(context);
            && AreBlocks(blocks, context) && RightChecksum(blocks[0], context) && RightChecksum(blocks[1], context)
            && ParseFrom(PrintBlocks(blocks, context), 0, context) == Ok([])
            && |LiveInBlocks(blocks, context)| == 1
  {
    hide Le, ToLe, ParseFrom, LiveInBlocks, PrintBlocks, Live;
    var blocks, file := TwoBlocks(context), Record(12, 1, [97], [0, 0, 0]);
    TailIsRight(context, [], []);
    PrintFirst([file]);
    TailIsRight(context, [file], PrintRecord(file));
    assert [file] + [TailFor(context, PrintRecord(file))] == blocks[1] && [] + [TailFor(context, [])] == blocks[0];
    assert forall block <- blocks :: block == blocks[0] || block == blocks[1];
    OnlyFirstBlock(blocks, context);
    NoneLive(blocks[0], context);
    LiveInTwo(blocks, file, TailFor(context, PrintRecord(file)), context);
  }

  lemma LiveInTwo(blocks: seq<seq<Record>>, file: Record, tail: Record, context: Context)
    requires AreBlocks(blocks, context) && |blocks| == 2 && blocks[1] == [file, tail] && file.inode != 0 && tail.inode == 0
    requires NoLiveRecord(blocks[0])
    ensures |LiveInBlocks(blocks, context)| == 1
  {
    assert blocks[0] in blocks && blocks[1] in blocks;
    NoneLive(blocks[0], context);
    hide Valid, IsTail;
    assert blocks[1..] == [blocks[1]] && blocks[1..][1..] == [];
    assert blocks[1][1..] == [tail] && [tail][1..] == [];
    assert Live([tail], context) == [];
    assert Live(blocks[1], context) == [EntryOf(file, context)];
    assert LiveInBlocks(blocks[1..], context) == [EntryOf(file, context)] + LiveInBlocks([], context);
    assert LiveInBlocks(blocks, context) == [] + LiveInBlocks(blocks[1..], context);
  }
}
