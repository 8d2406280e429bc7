// Linear ext4 directories: packed records, the optional checksum tail, and the reader that walks them.
module Directory {
  import opened Basics

  const HEADER: nat := 8
  const TAIL_TYPE: Byte := 0xDE

  datatype FileType = RegularFile | Subdirectory | CharacterDevice | BlockDevice | Fifo | Socket | SymbolicLink

  datatype DirEntry = DirEntry(inode: U32, name: string, fileType: FileType)

  /** One on-disk record; the padding fills it up to its recorded length. */
  datatype Record = Record(inode: U32, typeHint: Byte, name: seq<Byte>, padding: seq<Byte>)

  datatype DirError = Truncated | TooShort | NameTooLong | BeyondEnd | BadName | BadType | BadChecksum | NoChecksum

  /** The inode's checksum prefix if the filesystem has checksums, the checksum, and UTF-8 decoding. */
  datatype Context = Context(prefix: Option<U32>, crc: (U32, seq<Byte>) -> U32, decode: seq<Byte> -> Option<string>)

  function FromDirHint(hint: Byte): Option<FileType> {
    match hint
    case 1 => Some(RegularFile)
    case 2 => Some(Subdirectory)
    case 3 => Some(CharacterDevice)
    case 4 => Some(BlockDevice)
    case 5 => Some(Fifo)
    case 6 => Some(Socket)
    case 7 => Some(SymbolicLink)
    case _ => None
  }

  /** The hint byte of each file type. */
  function HintOf(fileType: FileType): Byte {
    match fileType
    case RegularFile => 1
    case Subdirectory => 2
    case CharacterDevice => 3
    case BlockDevice => 4
    case Fifo => 5
    case Socket => 6
    case SymbolicLink => 7
  }

  /** Each type is read from its own hint, and no other byte is one. */
  lemma HintsMean(hint: Byte, fileType: FileType)
    ensures FromDirHint(hint) == Some(fileType) <==> hint == HintOf(fileType)
    ensures FromDirHint(hint).Some? <==> 1 <= hint <= 7
  {
  }

  // ---------------------------------------------------------------- printing

  function RecordLength(r: Record): nat {
    HEADER + |r.name| + |r.padding|
  }

  predicate Valid(r: Record, context: Context) {
    && |r.name| <= 255 && HEADER < RecordLength(r) <= U16_MAX
    && (r.inode != 0 ==> context.decode(r.name).Some? && FromDirHint(r.typeHint).Some?)
  }

  function PrintRecord(r: Record): (bytes: seq<Byte>)
    requires |r.name| <= 255
    ensures |bytes| == RecordLength(r)
  {
    ToLe(r.inode, 4) + ToLe(RecordLength(r), 2) + [|r.name|, r.typeHint] + r.name + r.padding
  }

  function Print(records: seq<Record>): seq<Byte>
    requires forall r <- records :: |r.name| <= 255
  {
    if records == [] then [] else PrintRecord(records[0]) + Print(records[1..])
  }

  /** The record that ends a directory with checksums; its padding is the checksum. */
  predicate IsTail(r: Record) {
    r.inode == 0 && r.typeHint == TAIL_TYPE && r.name == [] && RecordLength(r) == 12
  }

  /** The live entries in order. */
  function Live(records: seq<Record>, context: Context): seq<DirEntry>
    requires forall r <- records :: Valid(r, context)
  {
    if records == [] then [] else LiveEntry(records[0], context) + Live(records[1..], context)
  }

  function LiveEntry(r: Record, context: Context): seq<DirEntry>
    requires Valid(r, context)
  {
    if r.inode == 0 then [] else [EntryOf(r, context)]
  }

  function EntryOf(r: Record, context: Context): DirEntry
    requires Valid(r, context) && r.inode != 0
  {
    DirEntry(r.inode, context.decode(r.name).value, FromDirHint(r.typeHint).value)
  }

  /**
   * From offset `at` the data consists of these records: either up to its end, without checksums,
   * or up to a tail, whose checksum covers everything before it.
   */
  ghost predicate Consists(data: seq<Byte>, at: nat, records: seq<Record>, context: Context) {
    && records != [] && at <= |data|
    && (forall r <- records :: Valid(r, context))
    && (forall i :: 0 <= i < |records| - 1 ==> !IsTail(records[i]))
    && Print(records) <= data[at..]
    && var end, last := at + |Print(records)|, records[|records| - 1];
       if IsTail(last) then
         context.prefix.Some? && end >= 12 ==> Le(data, end - 4, 4) == context.crc(context.prefix.value, data[..end - 12])
       else end == |data| && context.prefix.None?
  }

  // ---------------------------------------------------------------- reading one record

  /** The record at `at`, with the checks in the reader's order. */
  function RecordAt(data: seq<Byte>, at: nat, context: Context): Result<Record, DirError> {
    if at > |data| || |data| - at < HEADER then Err(Truncated)
    else
      var inode, length, nameLength, hint := Le(data, at, 4), Le(data, at + 4, 2), data[at + 6], data[at + 7];
      if length <= 8 then Err(TooShort)
      else if length < HEADER + nameLength then Err(NameTooLong)
      else if at + length > |data| then Err(BeyondEnd)
      else
        var name := data[at + HEADER..at + HEADER + nameLength];
        if inode != 0 && context.decode(name).None? then Err(BadName)
        else if inode != 0 && FromDirHint(hint).None? then Err(BadType)
        else
          Width4(data, at);
          Ok(Record(inode, hint, name, data[at + HEADER + nameLength..at + length]))
  }

  lemma Width4(data: seq<Byte>, at: nat)
    requires at + 6 <= |data|
    ensures Le(data, at, 4) <= U32_MAX && Le(data, at + 4, 2) <= U16_MAX
  {
    LeBound(data, at, 4);
    LeBound(data, at + 4, 2);
    assert Pow256(4) == 256 * (256 * (256 * (256 * Pow256(0))));
    assert Pow256(2) == 256 * (256 * Pow256(0));
  }

  lemma PrintedParts(r: Record)
    requires |r.name| <= 255
    ensures var bytes := PrintRecord(r);
            && bytes[0..4] == ToLe(r.inode, 4) && bytes[4..6] == ToLe(RecordLength(r), 2)
            && bytes[6] == |r.name| && bytes[7] == r.typeHint
            && bytes[8..8 + |r.name|] == r.name && bytes[8 + |r.name|..|bytes|] == r.padding
  {
    hide ToLe;
  }

  lemma Part(data: seq<Byte>, at: nat, bytes: seq<Byte>, i: nat, j: nat)
    requires at + |bytes| <= |data| && data[at..at + |bytes|] == bytes && i <= j <= |bytes|
    ensures data[at + i..at + j] == bytes[i..j]
  {
    assert forall k :: 0 <= k < |bytes| ==> data[at + k] == bytes[k];
  }

  /** A printed record is read back. */
  lemma RecordReadBack(data: seq<Byte>, at: nat, r: Record, context: Context)
    requires Valid(r, context) && at + RecordLength(r) <= |data| && data[at..at + RecordLength(r)] == PrintRecord(r)
    ensures RecordAt(data, at, context) == Ok(r)
  {
    hide ToLe, Le, PrintRecord;
    var bytes, n := PrintRecord(r), RecordLength(r);
    PrintedParts(r);
    Part(data, at, bytes, 0, 4);
    Part(data, at, bytes, 4, 6);
    Part(data, at, bytes, 8, 8 + |r.name|);
    Part(data, at, bytes, 8 + |r.name|, n);
    assert data[at + 6] == data[at..at + n][6] && data[at + 7] == data[at..at + n][7];
    WidthsFit(r.inode, n);
    LeRoundTrip(data, at, r.inode, 4);
    LeRoundTrip(data, at + 4, n, 2);
  }

  lemma WidthsFit(inode: U32, length: nat)
    requires length <= U16_MAX
    ensures inode < Pow256(4) && length < Pow256(2)
  {
    assert Pow256(4) == 256 * (256 * (256 * (256 * Pow256(0))));
    assert Pow256(2) == 256 * (256 * Pow256(0));
  }

  /** A record that is read is valid and printing it gives back its bytes. */
  lemma RecordPrints(data: seq<Byte>, at: nat, context: Context)
    requires RecordAt(data, at, context).Ok?
    ensures var r := RecordAt(data, at, context).value;
            Valid(r, context) && at + RecordLength(r) <= |data| && PrintRecord(r) == data[at..at + RecordLength(r)]
  {
    var r := RecordAt(data, at, context).value;
    var n := RecordLength(r);
    Width4(data, at);
    LeInverse(data, at, 4);
    LeInverse(data, at + 4, 2);
    hide ToLe, Le;
    assert data[at..at + n] == data[at..at + 4] + data[at + 4..at + 6] + [data[at + 6], data[at + 7]]
                              + data[at + 8..at + 8 + |r.name|] + data[at + 8 + |r.name|..at + n];
  }

  /** The record of a file gives its inode, its decoded name and its type. */
  lemma FileRecordGives(inode: U32, name: seq<Byte>, text: string, fileType: FileType, padding: seq<Byte>, context: Context)
    requires inode > 0 && |name| <= 255 && context.decode(name) == Some(text)
    requires 8 < 8 + |name| + |padding| <= U16_MAX
    ensures var r := Record(inode, HintOf(fileType), name, padding);
            Valid(r, context) && !IsTail(r) && LiveEntry(r, context) == [DirEntry(inode, text, fileType)]
  {
  }

  /** The tail is known by its first eight bytes. */
  lemma TailBytes(data: seq<Byte>, at: nat, context: Context)
    requires RecordAt(data, at, context).Ok?
    ensures IsTail(RecordAt(data, at, context).value) <==> data[at..at + 8] == [0, 0, 0, 0, 12, 0, 0, 0xDE]
  {
    hide Le, Half, Word;
    FieldsAreNumbers(data, at);
    FieldsAreNumbers(data, at + 4);
    ZeroWord(data, at);
    TwelveHalf(data, at + 4);
    EightBytes(data, at);
  }

  lemma ZeroWord(data: seq<Byte>, at: nat)
    requires at + 4 <= |data|
    ensures Word(data, at) == 0 <==> data[at] == 0 && data[at + 1] == 0 && data[at + 2] == 0 && data[at + 3] == 0
  {
  }

  lemma TwelveHalf(data: seq<Byte>, at: nat)
    requires at + 2 <= |data|
    ensures Half(data, at) == 12 <==> data[at] == 12 && data[at + 1] == 0
  {
  }

  lemma EightBytes(data: seq<Byte>, at: nat)
    requires at + 8 <= |data|
    ensures data[at..at + 8] == [0, 0, 0, 0, 12, 0, 0, 0xDE] <==>
              && data[at] == 0 && data[at + 1] == 0 && data[at + 2] == 0 && data[at + 3] == 0
              && data[at + 4] == 12 && data[at + 5] == 0 && data[at + 6] == 0 && data[at + 7] == 0xDE
  {
    var first := data[at..at + 8];
    assert first[0] == data[at] && first[1] == data[at + 1] && first[2] == data[at + 2] && first[3] == data[at + 3];
    assert first[4] == data[at + 4] && first[5] == data[at + 5] && first[6] == data[at + 6] && first[7] == data[at + 7];
  }

  // ---------------------------------------------------------------- reading all records

  /** The result of the whole, given the entries before and the result of what follows. */
  function After(dirs: seq<DirEntry>, rest: Result<seq<DirEntry>, DirError>): Result<seq<DirEntry>, DirError> {
    match rest
    case Err(error) => Err(error)
    case Ok(more) => Ok(dirs + more)
  }

  function ParseFrom(data: seq<Byte>, at: nat, context: Context): Result<seq<DirEntry>, DirError>
    decreases |data| - at
  {
    match RecordAt(data, at, context)
    case Err(error) => Err(error)
    case Ok(r) =>
      RecordPrints(data, at, context);
      var next := at + RecordLength(r);
      if IsTail(r) then
        if context.prefix.Some? && Le(data, at + 8, 4) != context.crc(context.prefix.value, data[..at]) then Err(BadChecksum)
        else Ok([])
      else if next >= |data| then
        if context.prefix.Some? then Err(NoChecksum) else Ok(LiveEntry(r, context))
      else
        After(LiveEntry(r, context), ParseFrom(data, next, context))
  }

  lemma PrintFirst(records: seq<Record>)
    requires records != [] && forall r <- records :: |r.name| <= 255
    ensures Print(records) == PrintRecord(records[0]) + Print(records[1..])
    ensures |records| == 1 ==> Print(records) == PrintRecord(records[0])
  {
    if |records| == 1 {
      assert records[1..] == [];
    }
  }

  /** The first of the records that data consists of, and how its end is the end of all if it is the only one. */
  lemma ConsistsFirst(data: seq<Byte>, at: nat, records: seq<Record>, context: Context)
    requires Consists(data, at, records, context)
    ensures var r := records[0]; var next := at + RecordLength(r);
            && Valid(r, context) && next <= |data| && data[at..next] == PrintRecord(r)
            && (|records| == 1 && !IsTail(r) ==> next == |data| && context.prefix.None?)
            && (|records| == 1 && IsTail(r) && context.prefix.Some? ==>
                  Le(data, at + 8, 4) == context.crc(context.prefix.value, data[..at]))
            && (|records| > 1 ==> !IsTail(r))
  {
    hide Le, PrintRecord, Valid, Print;
    ValidMeans(records, context);
    PrintFirst(records);
    assert Print(records) == data[at..at + |Print(records)|];
    assert PrintRecord(records[0]) == Print(records)[..RecordLength(records[0])];
  }

  lemma ConsistsRest(data: seq<Byte>, at: nat, records: seq<Record>, context: Context)
    requires Consists(data, at, records, context) && |records| > 1
    ensures var next := at + RecordLength(records[0]); next < |data| && Consists(data, next, records[1..], context)
  {
    hide Le, PrintRecord, Valid, Print, IsTail;
    var r, rest := records[0], records[1..];
    var next := at + RecordLength(r);
    ValidMeans(records, context);
    PrintFirst(records);
    PrintFirst(rest);
    assert rest[0] in records && forall q <- rest :: q in records;
    assert Print(records) == data[at..at + |Print(records)|];
    assert Print(rest) == data[next..next + |Print(rest)|];
    assert rest[|rest| - 1] == records[|records| - 1];
    forall i | 0 <= i < |rest| - 1 ensures !IsTail(rest[i]) {
      assert rest[i] == records[i + 1];
    }
  }

  lemma ValidMeans(records: seq<Record>, context: Context)
    requires forall r <- records :: Valid(r, context)
    ensures forall r <- records :: |r.name| <= 255 && RecordLength(r) > HEADER
  {
  }

  /** Printing a directory and parsing it gives its live entries in order. */
  lemma {:induction false} PrintThenParse(data: seq<Byte>, at: nat, records: seq<Record>, context: Context)
    requires Consists(data, at, records, context)
    ensures ParseFrom(data, at, context) == Ok(Live(records, context))
    decreases |records|
  {
    hide Le, RecordAt, PrintRecord, Consists, Valid, EntryOf;
    AllValid(data, at, records, context);
    ConsistsFirst(data, at, records, context);
    RecordReadBack(data, at, records[0], context);
    if |records| > 1 {
      ConsistsRest(data, at, records, context);
      PrintThenParse(data, at + RecordLength(records[0]), records[1..], context);
    } else {
      assert Live(records[1..], context) == [];
      assert Live(records, context) == LiveEntry(records[0], context);
    }
  }

  lemma AllValid(data: seq<Byte>, at: nat, records: seq<Record>, context: Context)
    requires Consists(data, at, records, context)
    ensures records != [] && forall r <- records :: Valid(r, context)
  {
  }

  /** One more record in front of data that consists of records. */
  lemma ConsistsMore(data: seq<Byte>, at: nat, r: Record, rest: seq<Record>, context: Context)
    requires Valid(r, context) && !IsTail(r) && at + RecordLength(r) <= |data|
    requires data[at..at + RecordLength(r)] == PrintRecord(r)
    requires Consists(data, at + RecordLength(r), rest, context)
    ensures Consists(data, at, [r] + rest, context)
  {
    hide Le, PrintRecord, Valid, Print, IsTail;
    var records, next := [r] + rest, at + RecordLength(r);
    assert records[1..] == rest;
    ValidMeans(rest, context);
    ValidMeans([r], context);
    PrintFirst(records);
    assert Print(rest) == data[next..next + |Print(rest)|];
    assert Print(records) == data[at..at + |Print(records)|];
    assert records[|records| - 1] == rest[|rest| - 1];
  }

  lemma ConsistsLast(data: seq<Byte>, at: nat, r: Record, context: Context)
    requires Valid(r, context) && at + RecordLength(r) <= |data| && data[at..at + RecordLength(r)] == PrintRecord(r)
    requires if IsTail(r) then context.prefix.Some? ==> Le(data, at + 8, 4) == context.crc(context.prefix.value, data[..at])
             else at + RecordLength(r) == |data| && context.prefix.None?
    ensures Consists(data, at, [r], context)
  {
    hide Le, PrintRecord, Valid, Print;
    ValidMeans([r], context);
    PrintFirst([r]);
    assert data[at..at + RecordLength(r)] <= data[at..];
  }

  /** Every accepted directory consists of records whose live entries are the result. */
  lemma {:induction false} ParseThenPrint(data: seq<Byte>, at: nat, context: Context) returns (records: seq<Record>)
    requires ParseFrom(data, at, context).Ok?
    ensures Consists(data, at, records, context)
    ensures (forall r <- records :: Valid(r, context)) && ParseFrom(data, at, context).value == Live(records, context)
    decreases |data| - at
  {
    hide Le, RecordAt, PrintRecord, Consists, Valid, LiveEntry, IsTail;
    RecordPrints(data, at, context);
    var r := RecordAt(data, at, context).value;
    var next := at + RecordLength(r);
    if IsTail(r) || next >= |data| {
      records := [r];
      ConsistsLast(data, at, r, context);
      TailHasNoEntry(r, context);
      assert records[1..] == [];
    } else {
      var rest := ParseThenPrint(data, next, context);
      records := [r] + rest;
      assert records[1..] == rest;
      ConsistsMore(data, at, r, rest, context);
    }
  }

  lemma TailHasNoEntry(r: Record, context: Context)
    requires Valid(r, context)
    ensures IsTail(r) ==> LiveEntry(r, context) == []
    ensures IsTail(r) ==> RecordLength(r) == 12
  {
  }

  // ---------------------------------------------------------------- the reader

  /** The bytes of one record header and name at a cursor. */
  method ReadRecord(data: seq<Byte>, read: nat, context: Context) returns (r: Result<Record, DirError>, cursor: nat)
    ensures r == RecordAt(data, read, context)
    ensures r.Ok? ==> cursor == read + HEADER + |r.value.name|
  {
    hide Le;
    cursor := read;
    if read > |data| || |data| - read < HEADER {
      return Err(Truncated), cursor;
    }
    Width4(data, read);
    var childInode := Le(data, cursor, 4);
    cursor := cursor + 4;
    var recLen := Le(data, cursor, 2);
    cursor := cursor + 2;
    if recLen <= 8 {
      return Err(TooShort), cursor;
    }
    var nameLen: nat := data[cursor];
    var fileType := data[cursor + 1];
    cursor := cursor + 2;
    if recLen < 8 + nameLen {
      return Err(NameTooLong), cursor;
    }
    var recordEnd := read + recLen;
    if recordEnd > |data| {
      return Err(BeyondEnd), cursor;
    }
    var name := data[cursor..cursor + nameLen];
    cursor := cursor + nameLen;
    if childInode != 0 {
      if context.decode(name).None? {
        return Err(BadName), cursor;
      }
      if FromDirHint(fileType).None? {
        return Err(BadType), cursor;
      }
    }
    r := Ok(Record(childInode, fileType, name, data[cursor..recordEnd]));
  }

  /**
   * Reads a directory's records. It succeeds exactly if the data consists of valid records, up to
   * the end or to a tail with a right checksum, and returns their live entries in order.
   */
  method ReadDirectory(data: seq<Byte>, context: Context) returns (r: Result<seq<DirEntry>, DirError>)
    ensures r == ParseFrom(data, 0, context)
    ensures r.Ok? <==> exists records :: Consists(data, 0, records, context)
    ensures forall records :: Consists(data, 0, records, context) ==>
              (forall q <- records :: Valid(q, context)) && r == Ok(Live(records, context))
  {
    hide Le, RecordAt, Consists, Valid, Live;
    ExactlyWhenConsists(data, context);
    var dirs: seq<DirEntry> := [];
    AfterSteps(dirs, dirs, ParseFrom(data, 0, context));
    var read, cursor := 0, 0;
    while true
      invariant cursor == read <= |data|
      invariant ParseFrom(data, 0, context)
             == After(dirs, ParseFrom(data, read, context))
      decreases |data| - read
    {
      var record;
      record, cursor := ReadRecord(data, read, context);
      if record.Err? {
        return Err(record.error);
      }
      RecordPrints(data, read, context);
      RecordBounds(record.value, context);
      var q := record.value;
      var next := read + RecordLength(q);
      AfterSteps(dirs, LiveEntry(q, context), if next < |data| then ParseFrom(data, next, context) else Ok([]));
      if q.inode != 0 {
        dirs := dirs + [EntryOf(q, context)];
      } else if IsTail(q) {
        if context.prefix.Some? {
          var expected := Le(data, cursor, 4);
          if expected != context.crc(context.prefix.value, data[..read]) {
            return Err(BadChecksum);
          }
        }
        return Ok(dirs);
      }
      var recordEnd := read + RecordLength(q);
      cursor := cursor + RecordLength(q) - |q.name| - 4 - 2 - 1 - 1;
      read := recordEnd;
      if read >= |data| {
        if context.prefix.Some? {
          return Err(NoChecksum);
        }
        return Ok(dirs);
      }
    }
  }

  lemma AfterSteps(dirs: seq<DirEntry>, entry: seq<DirEntry>, rest: Result<seq<DirEntry>, DirError>)
    ensures After([], rest) == rest
    ensures After(dirs, After(entry, rest)) == After(dirs + entry, rest)
    ensures After(dirs, Ok([])) == Ok(dirs) && After(dirs, Ok(entry)) == Ok(dirs + entry)
  {
    assert dirs + [] == dirs;
    if rest.Ok? {
      assert [] + rest.value == rest.value;
      assert dirs + (entry + rest.value) == (dirs + entry) + rest.value;
    }
  }

  lemma RecordBounds(r: Record, context: Context)
    requires Valid(r, context)
    ensures RecordLength(r) > HEADER && (IsTail(r) ==> r.inode == 0 && |r.name| == 0 && RecordLength(r) == 12)
  {
  }

  /** The parser accepts exactly the data that consists of records. */
  lemma ExactlyWhenConsists(data: seq<Byte>, context: Context)
    ensures ParseFrom(data, 0, context).Ok? <==> exists records :: Consists(data, 0, records, context)
    ensures forall records :: Consists(data, 0, records, context) ==>
              (forall q <- records :: Valid(q, context)) && ParseFrom(data, 0, context) == Ok(Live(records, context))
  {
    hide ParseFrom, Consists, Valid, Live;
    forall records | Consists(data, 0, records, context)
      ensures (forall q <- records :: Valid(q, context)) && ParseFrom(data, 0, context) == Ok(Live(records, context))
    {
      AllValid(data, 0, records, context);
      PrintThenParse(data, 0, records, context);
    }
    if ParseFrom(data, 0, context).Ok? {
      var records := ParseThenPrint(data, 0, context);
    }
  }
}
