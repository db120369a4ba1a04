/** `crates/lib/stones/src/sstable.rs`: one on-disk sorted run. The encoder
    writes each entry of a sorted map as `le32(|key|) ++ le32(|value|) ++ key
    ++ value`, in key order, with no header or footer. The decoder loops while
    a 4-byte read succeeds, but that read DISCARDS its 4 bytes before the
    record is read, so it expects every record to be preceded by 4 bytes the
    encoder never writes. `Decode` models the decoder as written;
    `DecodeIntended` is the loop with the probe folded into the key-length
    read. */
module SSTable {
  import opened Wrappers
  import opened Lex
  import opened SortedMap
  import opened FileSystem

  const U32_MODULUS: nat := 0x1_0000_0000

  /** `u32::to_le_bytes`. */
  function U32ToLe(n: nat): (b: Bytes)
    requires n < U32_MODULUS
    ensures |b| == 4
  {
    var n1 := n / 0x100;
    var n2 := n1 / 0x100;
    var n3 := n2 / 0x100;
    [(n % 0x100) as u8, (n1 % 0x100) as u8, (n2 % 0x100) as u8, (n3 % 0x100) as u8]
  }

  /** `u32::from_le_bytes`. */
  function U32FromLe(b: Bytes): (n: nat)
    requires |b| == 4
    ensures n < U32_MODULUS
  {
    b[0] as int + 0x100 * (b[1] as int + 0x100 * (b[2] as int + 0x100 * b[3] as int))
  }

  /** Splitting a number into its low byte and the rest. */
  lemma ByteSplit(low: int, high: nat)
    requires 0 <= low < 0x100
    ensures (low + 0x100 * high) % 0x100 == low
    ensures (low + 0x100 * high) / 0x100 == high
  {
  }

  lemma U32RoundTrip(n: nat)
    requires n < U32_MODULUS
    ensures U32FromLe(U32ToLe(n)) == n
  {
    var n1 := n / 0x100;
    var n2 := n1 / 0x100;
    var n3 := n2 / 0x100;
    assert n3 < 0x100;
  }

  lemma U32ToLeFromLe(b: Bytes)
    requires |b| == 4
    ensures U32ToLe(U32FromLe(b)) == b
  {
    var n2 := b[2] as int + 0x100 * b[3] as int;
    var n1 := b[1] as int + 0x100 * n2;
    var n := b[0] as int + 0x100 * n1;
    ByteSplit(b[0] as int, n1);
    ByteSplit(b[1] as int, n2);
    ByteSplit(b[2] as int, b[3] as int);
    assert b[3] as int / 0x100 == 0;
  }

  /** One record. `len() as u32` keeps the low 32 bits of each length. */
  function EncodeRecord(e: Entry): Bytes
  {
    U32ToLe(|e.key| % U32_MODULUS) + U32ToLe(|e.value| % U32_MODULUS) + e.key + e.value
  }

  /** Both lengths fit in the 32-bit length fields, so the cast loses nothing. */
  predicate Encodable(e: Entry)
  {
    |e.key| < U32_MODULUS && |e.value| < U32_MODULUS
  }

  /** `SSTable::create`'s byte stream: the records of the map in iteration order. */
  function Encode(es: seq<Entry>): Bytes
    decreases |es|
  {
    if |es| == 0 then [] else EncodeRecord(es[0]) + Encode(es[1..])
  }

  /** Bytes an encoding takes: 8 bytes of lengths plus the key and the value, per entry. */
  function EncodedSize(es: seq<Entry>): nat
    decreases |es|
  {
    if |es| == 0 then 0 else 8 + |es[0].key| + |es[0].value| + EncodedSize(es[1..])
  }

  lemma {:induction false} EncodedLength(es: seq<Entry>)
    ensures |Encode(es)| == EncodedSize(es)
    ensures |es| == 0 <==> Encode(es) == []
    decreases |es|
  {
    if |es| > 0 {
      EncodedLength(es[1..]);
    }
  }

  /** The read shared by both decoders: key length, value length, key, value.
      Any short read is an error. On success it also returns the bytes after
      the record. */
  function ReadRecord(s: Bytes): (r: Result<(Entry, Bytes), IoError>)
    ensures r.Ok? ==> |r.value.1| < |s|
  {
    if |s| < 4 then Err(IoError)
    else
      var keyLen := U32FromLe(s[..4]);
      var afterKeyLen := s[4..];
      if |afterKeyLen| < 4 then Err(IoError)
      else
        var valueLen := U32FromLe(afterKeyLen[..4]);
        var body := afterKeyLen[4..];
        if |body| < keyLen then Err(IoError)
        else
          var key := body[..keyLen];
          var afterKey := body[keyLen..];
          if |afterKey| < valueLen then Err(IoError)
          else Ok((Entry(key, afterKey[..valueLen]), afterKey[valueLen..]))
  }

  /** A sequence is its first `n` elements followed by the rest. */
  lemma SplitAt(s: Bytes, n: nat)
    requires n <= |s|
    ensures s == s[..n] + s[n..]
  {
  }

  /** Where the fields of an encoded record sit, whatever follows it. */
  lemma RecordFields(e: Entry, rest: Bytes)
    requires Encodable(e)
    ensures var s := EncodeRecord(e) + rest;
      && s[..4] == U32ToLe(|e.key|)
      && s[4..][..4] == U32ToLe(|e.value|)
      && s[4..][4..] == e.key + (e.value + rest)
  {
    var k, v := e.key, e.value;
    assert |k| % U32_MODULUS == |k| && |v| % U32_MODULUS == |v|;
    var s := EncodeRecord(e) + rest;
    assert s == U32ToLe(|k|) + (U32ToLe(|v|) + (k + (v + rest)));
    var afterKeyLen := s[4..];
    assert afterKeyLen == U32ToLe(|v|) + (k + (v + rest));
  }

  /** `ReadRecord` undoes `EncodeRecord`, whatever follows the record. */
  lemma ReadEncodedRecord(e: Entry, rest: Bytes)
    requires Encodable(e)
    ensures ReadRecord(EncodeRecord(e) + rest) == Ok((e, rest))
  {
    var k, v := e.key, e.value;
    var s := EncodeRecord(e) + rest;
    RecordFields(e, rest);
    U32RoundTrip(|k|);
    U32RoundTrip(|v|);
    var body := s[4..][4..];
    assert body[..|k|] == k;
    var afterKey := body[|k|..];
    assert afterKey == v + rest;
    assert afterKey[..|v|] == v;
    assert afterKey[|v|..] == rest;
  }

  /** A successful `ReadRecord` consumed exactly one encoded record. */
  lemma ReadRecordConsumesRecord(s: Bytes)
    requires ReadRecord(s).Ok?
    ensures Encodable(ReadRecord(s).value.0)
    ensures s == EncodeRecord(ReadRecord(s).value.0) + ReadRecord(s).value.1
  {
    var e := ReadRecord(s).value.0;
    var rest := ReadRecord(s).value.1;
    var afterKeyLen := s[4..];
    var body := afterKeyLen[4..];
    var keyLen := U32FromLe(s[..4]);
    var valueLen := U32FromLe(afterKeyLen[..4]);
    var afterKey := body[keyLen..];
    assert e.key == body[..keyLen] && e.value == afterKey[..valueLen] && rest == afterKey[valueLen..];
    U32ToLeFromLe(s[..4]);
    U32ToLeFromLe(afterKeyLen[..4]);
    SplitAt(afterKey, valueLen);
    SplitAt(body, keyLen);
    SplitAt(afterKeyLen, 4);
    SplitAt(s, 4);
    assert s == s[..4] + (afterKeyLen[..4] + (e.key + (e.value + rest)));
    RecordFields(e, rest);
    SplitAt(EncodeRecord(e) + rest, 4);
    SplitAt((EncodeRecord(e) + rest)[4..], 4);
  }

  /** A record whose value length, as read, is beyond the end of the input
      cannot be read. */
  lemma ReadRecordOverrun(s: Bytes)
    requires |s| >= 8 && U32FromLe(s[4..][..4]) > |s|
    ensures ReadRecord(s).Err?
  {
  }

  /** `SSTable::read`'s loop, as written. Each iteration first reads 4 bytes
      and throws them away (the loop condition), then reads one record. Fewer
      than 4 bytes left ends the loop and they are ignored; a short read after
      that is an error for the whole call, so no partial map is returned.
      Records are inserted as read, so a repeated key keeps its last value. */
  function DecodeFrom(s: Bytes, acc: Table): Result<Table, IoError>
    decreases |s|
  {
    if |s| < 4 then Ok(acc)
    else
      match ReadRecord(s[4..])
      case Err(e) => Err(e)
      case Ok((entry, rest)) => DecodeFrom(rest, Insert(acc, entry.key, entry.value))
  }

  /** The decoder as written, starting from an empty map. */
  function Decode(s: Bytes): Result<Table, IoError>
  {
    DecodeFrom(s, [])
  }

  /** The loop as evidently intended: the 4-byte read that tests for more
      data IS the key-length read. */
  function DecodeIntendedFrom(s: Bytes, acc: Table): Result<Table, IoError>
    decreases |s|
  {
    if |s| < 4 then Ok(acc)
    else
      match ReadRecord(s)
      case Err(e) => Err(e)
      case Ok((entry, rest)) => DecodeIntendedFrom(rest, Insert(acc, entry.key, entry.value))
  }

  function DecodeIntended(s: Bytes): Result<Table, IoError>
  {
    DecodeIntendedFrom(s, [])
  }

  predicate AllEncodable(es: seq<Entry>)
  {
    forall i :: 0 <= i < |es| ==> Encodable(es[i])
  }

  /** The corrected decoder reads back exactly what the encoder wrote, whatever
      it is appended to. */
  lemma {:induction false} DecodeIntendedEncoded(es: seq<Entry>, acc: Table)
    requires AllEncodable(es)
    ensures DecodeIntendedFrom(Encode(es), acc) == Ok(InsertAll(acc, es))
    decreases |es|
  {
    if |es| > 0 {
      EncodedLength(es);
      assert Encode(es) == EncodeRecord(es[0]) + Encode(es[1..]);
      ReadEncodedRecord(es[0], Encode(es[1..]));
      DecodeIntendedEncoded(es[1..], Insert(acc, es[0].key, es[0].value));
    }
  }

  /** Round trip of the corrected decoder: decoding an encoded map gives the map. */
  lemma DecodeIntendedRoundTrip(t: Table)
    requires AllEncodable(t)
    ensures DecodeIntended(Encode(t)) == Ok(t)
  {
    DecodeIntendedEncoded(t, []);
    InsertAllIntoEmpty(t);
  }

  /** What the decoder as written actually parses: 4 bytes it skips, then a record. */
  datatype Frame = Frame(probe: Bytes, entry: Entry)

  predicate FrameOk(f: Frame)
  {
    |f.probe| == 4 && Encodable(f.entry)
  }

  function FrameBytes(f: Frame): Bytes
  {
    f.probe + EncodeRecord(f.entry)
  }

  function Layout(frames: seq<Frame>): Bytes
    decreases |frames|
  {
    if |frames| == 0 then [] else FrameBytes(frames[0]) + Layout(frames[1..])
  }

  function FrameEntries(frames: seq<Frame>): (es: seq<Entry>)
    ensures |es| == |frames|
    ensures forall i :: 0 <= i < |frames| ==> es[i] == frames[i].entry
  {
    seq(|frames|, i requires 0 <= i < |frames| => frames[i].entry)
  }

  predicate AllFramesOk(frames: seq<Frame>)
  {
    forall i :: 0 <= i < |frames| ==> FrameOk(frames[i])
  }

  /** Decoding a stream of well-formed frames inserts their records in order
      and carries on with whatever follows. */
  lemma {:induction false} DecodeFrames(frames: seq<Frame>, rest: Bytes, acc: Table)
    requires AllFramesOk(frames)
    ensures DecodeFrom(Layout(frames) + rest, acc) == DecodeFrom(rest, InsertAll(acc, FrameEntries(frames)))
    decreases |frames|
  {
    if |frames| == 0 {
      assert Layout(frames) + rest == rest;
    } else {
      var f := frames[0];
      var s := Layout(frames) + rest;
      var after := Layout(frames[1..]) + rest;
      FirstFrame(frames, rest);
      ReadEncodedRecord(f.entry, after);
      var acc' := Insert(acc, f.entry.key, f.entry.value);
      ProbeThenRecord(s, acc, f.entry, after);
      DecodeFrames(frames[1..], rest, acc');
      assert FrameEntries(frames[1..]) == FrameEntries(frames)[1..];
    }
  }

  /** The first frame's record follows its 4 probe bytes. */
  lemma FirstFrame(frames: seq<Frame>, rest: Bytes)
    requires |frames| > 0 && FrameOk(frames[0])
    ensures |Layout(frames) + rest| >= 4
    ensures (Layout(frames) + rest)[4..] == EncodeRecord(frames[0].entry) + (Layout(frames[1..]) + rest)
  {
    var f := frames[0];
    assert Layout(frames) + rest == f.probe + (EncodeRecord(f.entry) + (Layout(frames[1..]) + rest));
  }

  /** After a successful probe, a record read inserts the record and the loop
      carries on after it. */
  lemma ProbeThenRecord(s: Bytes, acc: Table, e: Entry, after: Bytes)
    requires |s| >= 4 && ReadRecord(s[4..]) == Ok((e, after))
    ensures DecodeFrom(s, acc) == DecodeFrom(after, Insert(acc, e.key, e.value))
  {
  }

  /** The decoder as written accepts the frame layout: frames then fewer than 4
      trailing bytes decode to the frames' records, inserted in order (for a
      repeated key, the later record's value is kept). */
  lemma DecodeFrameLayout(frames: seq<Frame>, tail: Bytes)
    requires AllFramesOk(frames) && |tail| < 4
    ensures Decode(Layout(frames) + tail) == Ok(InsertAll([], FrameEntries(frames)))
    ensures ToMap(Decode(Layout(frames) + tail).value) == ToMap(FrameEntries(frames))
  {
    DecodeFrames(frames, tail, []);
    InsertAllLaterWins([], FrameEntries(frames));
    assert [] + FrameEntries(frames) == FrameEntries(frames);
  }

  /** An empty file, or one of fewer than 4 bytes, decodes to the empty map. */
  lemma DecodeShortInput(s: Bytes)
    requires |s| < 4
    ensures Decode(s) == Ok([])
  {
  }

  /** When a stream repeats a key, the decoded map keeps the later value. */
  lemma DecodeRepeatedKey(first: Frame, second: Frame)
    requires FrameOk(first) && FrameOk(second) && first.entry.key == second.entry.key
    ensures Decode(FrameBytes(first) + FrameBytes(second)) == Ok([second.entry])
  {
    var frames := [first, second];
    assert Layout(frames) + [] == FrameBytes(first) + FrameBytes(second) by {
      assert frames[1..] == [second] && frames[1..][1..] == [];
      assert Layout(frames[1..]) == FrameBytes(second) + Layout([]);
      assert Layout(frames) == FrameBytes(first) + Layout(frames[1..]);
    }
    DecodeFrameLayout(frames, []);
    var k := first.entry.key;
    var once := Insert([], k, first.entry.value);
    var twice := Insert(once, k, second.entry.value);
    assert InsertAll([], FrameEntries(frames)) == twice by {
      var es := FrameEntries(frames);
      assert es == [first.entry, second.entry];
      assert InsertAll([], es) == InsertAll(once, es[1..]);
      assert InsertAll(once, es[1..]) == InsertAll(twice, es[1..][1..]);
      assert es[1..][1..] == [];
    }
    assert ToMap([second.entry]) == map[k := second.entry.value];
    TableExtensional(twice, [second.entry]);
  }

  /** Round trip of the decoder as written, for the layout it expects: a
      table written with 4 arbitrary bytes in front of each record decodes to
      the table. */
  lemma DecodePaddedTable(t: Table, frames: seq<Frame>)
    requires AllFramesOk(frames)
    requires FrameEntries(frames) == t
    ensures Decode(Layout(frames)) == Ok(t)
  {
    DecodeFrames(frames, [], []);
    assert Layout(frames) + [] == Layout(frames);
    InsertAllIntoEmpty(t);
  }

  /** A record cut short anywhere is a read error. */
  lemma ReadTruncatedRecord(e: Entry, n: nat)
    requires Encodable(e) && n < |EncodeRecord(e)|
    ensures ReadRecord(EncodeRecord(e)[..n]).Err?
  {
    var whole := EncodeRecord(e);
    var s := whole[..n];
    if n >= 8 {
      RecordFields(e, []);
      assert whole + [] == whole;
      U32RoundTrip(|e.key|);
      U32RoundTrip(|e.value|);
      assert s[..4] == whole[..4];
      assert s[4..][..4] == whole[4..][..4];
      ReadShortRecord(s);
    }
  }

  /** A record whose two lengths, as read, need more bytes than there are
      cannot be read. */
  lemma ReadShortRecord(s: Bytes)
    requires |s| >= 8 && |s| < 8 + U32FromLe(s[..4]) + U32FromLe(s[4..][..4])
    ensures ReadRecord(s).Err?
  {
  }

  /** Once the 4-byte probe succeeds, a record cut short makes the whole decode
      fail, however many records were read before it. */
  lemma DecodeTruncatedFrame(frames: seq<Frame>, f: Frame, n: nat)
    requires AllFramesOk(frames) && FrameOk(f)
    requires 4 <= n < |FrameBytes(f)|
    ensures Decode(Layout(frames) + FrameBytes(f)[..n]).Err?
  {
    var partial := FrameBytes(f)[..n];
    DecodeFrames(frames, partial, []);
    TruncatedFrameRecord(f, n);
    ReadTruncatedRecord(f.entry, n - 4);
    ProbeThenFailedRead(partial, InsertAll([], FrameEntries(frames)));
  }

  /** Past its probe, a cut frame is its record cut 4 bytes earlier. */
  lemma TruncatedFrameRecord(f: Frame, n: nat)
    requires FrameOk(f) && 4 <= n <= |FrameBytes(f)|
    ensures FrameBytes(f)[..n][4..] == EncodeRecord(f.entry)[..n - 4]
  {
  }

  /** After a successful probe, a failed record read fails the decode. */
  lemma ProbeThenFailedRead(s: Bytes, acc: Table)
    requires |s| >= 4 && ReadRecord(s[4..]).Err?
    ensures DecodeFrom(s, acc).Err?
  {
  }

  /** The decoder as written cannot read what the encoder writes: for the
      first record it takes the value length for the key length and the first
      4 key bytes for the value length. Whenever those 4 bytes, read as a
      number, exceed the whole file's length, the value read runs off the end
      of the file. */
  lemma DecodeMisreadsEncoding(t: Table)
    requires |t| > 0 && AllEncodable(t) && |t[0].key| >= 4
    requires U32FromLe(t[0].key[..4]) > |Encode(t)|
    ensures Decode(Encode(t)).Err?
  {
    var k := t[0].key;
    var s := Encode(t);
    assert s == EncodeRecord(t[0]) + Encode(t[1..]);
    RecordFields(t[0], Encode(t[1..]));
    var afterProbe := s[4..];
    assert afterProbe[4..][..4] == k[..4];
    ReadRecordOverrun(afterProbe);
    ProbeThenFailedRead(s, []);
  }

  /** `"key1"`, `"value1"`, `"key2"`, `"value2"` as bytes. */
  const KEY1: Bytes := [0x6B, 0x65, 0x79, 0x31]
  const VALUE1: Bytes := [0x76, 0x61, 0x6C, 0x75, 0x65, 0x31]
  const KEY2: Bytes := [0x6B, 0x65, 0x79, 0x32]
  const VALUE2: Bytes := [0x76, 0x61, 0x6C, 0x75, 0x65, 0x32]

  /** The map of the repository's create-and-read test. */
  function CreateAndReadTestMap(): (t: Table)
    ensures ToMap(t) == map[KEY1 := VALUE1, KEY2 := VALUE2]
  {
    assert BytesLess(KEY1, KEY2) by {
      assert KEY1[1..][1..][1..] == [0x31] && KEY2[1..][1..][1..] == [0x32];
    }
    var t := [Entry(KEY1, VALUE1), Entry(KEY2, VALUE2)];
    assert KEY1 != KEY2 by { assert KEY1[3] != KEY2[3]; }
    assert t[1..] == [Entry(KEY2, VALUE2)];
    assert ToMap(t[1..]) == map[KEY2 := VALUE2] by { assert t[1..][1..] == []; }
    t
  }

  /** The round trip the create-and-read test asserts fails: reading back the
      file written for `{key1: value1, key2: value2}` is an I/O error. */
  lemma CreateAndReadTestFails()
    ensures Decode(Encode(CreateAndReadTestMap())).Err?
    ensures DecodeIntended(Encode(CreateAndReadTestMap())) == Ok(CreateAndReadTestMap())
  {
    var t := CreateAndReadTestMap();
    EncodedLength(t);
    assert EncodedSize(t) == 36;
    assert U32FromLe(t[0].key[..4]) == 0x3179_656B;
    DecodeMisreadsEncoding(t);
    DecodeIntendedRoundTrip(t);
  }

  /** `SSTable`: a handle on one file path. */
  datatype SSTable = SSTable(filePath: Path)

  /** `SSTable::create`: `File::create` opens the path, creating or truncating
      it (refused if the path is a directory or the environment refuses it),
      then the records are written; a write that fails part-way leaves the
      bytes written so far. */
  function Create(table: SSTable, fs: Fs, data: Table, fault: WriteFault): (r: Effect<()>)
    ensures r.fs.dirs == fs.dirs
    ensures forall p :: p != table.filePath ==> (p in r.fs.files <==> p in fs.files)
    ensures forall p :: p != table.filePath && p in fs.files ==> r.fs.files[p] == fs.files[p]
    ensures r.result.Ok? <==>
      table.filePath !in fs.dirs && !fault.OpenFails? && !(fault.WriteFailsAfter? && fault.written < |Encode(data)|)
    ensures r.result.Ok? ==> table.filePath in r.fs.files && r.fs.files[table.filePath] == Encode(data)
    ensures r.result.Err? && r.fs != fs ==>
      && fault.WriteFailsAfter? && fault.written < |Encode(data)|
      && table.filePath in r.fs.files && r.fs.files[table.filePath] == Encode(data)[..fault.written]
  {
    var path := table.filePath;
    if path in fs.dirs || fault.OpenFails? then Effect(Err(IoError), fs)
    else
      var bytes := Encode(data);
      if fault.WriteFailsAfter? && fault.written < |bytes| then
        Effect(Err(IoError), Fs(fs.files[path := bytes[..fault.written]], fs.dirs))
      else Effect(Ok(()), Fs(fs.files[path := bytes], fs.dirs))
  }

  /** `SSTable::read`: a regular file's bytes are decoded. Opening a missing
      path fails. A directory opens (as on Unix), but the first probe read
      fails and the probe's failure only ends the loop, so it reads as the
      empty map. */
  function Read(table: SSTable, fs: Fs): (r: Result<Table, IoError>)
    ensures table.filePath in fs.files ==> r == Decode(fs.files[table.filePath])
    ensures table.filePath !in fs.files && table.filePath in fs.dirs ==> r == Ok([])
    ensures table.filePath !in fs.files && table.filePath !in fs.dirs ==> r.Err?
  {
    if table.filePath in fs.files then Decode(fs.files[table.filePath])
    else if table.filePath in fs.dirs then Ok([])
    else Err(IoError)
  }

  /** `SSTable::delete`: `remove_file` removes a regular file and fails on
      anything else, a missing path included. */
  function Delete(table: SSTable, fs: Fs): (r: Effect<()>)
    ensures r.result.Ok? <==> table.filePath in fs.files
    ensures r.fs.dirs == fs.dirs
    ensures r.fs.files == fs.files - {table.filePath}
  {
    if table.filePath in fs.files then Effect(Ok(()), Fs(fs.files - {table.filePath}, fs.dirs))
    else Effect(Err(IoError), fs)
  }

  /** `SSTable::exists`: `Path::exists` holds for files and directories alike. */
  function Exists(table: SSTable, fs: Fs): bool
  {
    table.filePath in fs.files || table.filePath in fs.dirs
  }

  /** A successful create leaves a file that reads back as the decoder makes
      of the encoding, whatever the path held before: create replaces. */
  lemma ReadAfterCreate(table: SSTable, fs: Fs, data: Table, fault: WriteFault)
    requires Create(table, fs, data, fault).result.Ok?
    ensures Exists(table, Create(table, fs, data, fault).fs)
    ensures Read(table, Create(table, fs, data, fault).fs) == Decode(Encode(data))
  {
  }

  /** Create keeps files and directories apart. */
  lemma CreateKeepsValid(table: SSTable, fs: Fs, data: Table, fault: WriteFault)
    requires Valid(fs)
    ensures Valid(Create(table, fs, data, fault).fs)
  {
  }

  /** After a successful delete the table no longer exists. */
  lemma DeleteThenNotExists(table: SSTable, fs: Fs)
    requires Valid(fs)
    requires Delete(table, fs).result.Ok?
    ensures !Exists(table, Delete(table, fs).fs)
  {
  }
}
