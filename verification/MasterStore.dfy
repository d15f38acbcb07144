/** Saving and loading the sqlite_master copy through compressed, encrypted
    streams: the buffers, the chunks they are read and written in, and the
    round trip. */
module MasterStore {
  import opened RepairNumbers
  import opened MasterFile

  /** Compression and encryption.  A byte is encrypted according to its place in the stream; without a key enc and dec
      are identities. */
  datatype Codec = Codec(deflate: Bytes -> Bytes, inflate: Bytes -> Bytes, enc: (nat, Byte) -> Byte,
      dec: (nat, Byte) -> Byte)

  ghost predicate Inverse(c: Codec) {
    && (forall x :: c.inflate(c.deflate(x)) == x)
    && (forall i, b :: c.dec(i, c.enc(i, b)) == b)
  }

  // A piece of the stream that begins at place at.
  function Crypt(f: (nat, Byte) -> Byte, data: Bytes, at: nat): (r: Bytes)
    ensures |r| == |data| && forall i :: 0 <= i < |data| ==> r[i] == f(at + i, data[i])
  {
    seq(|data|, i requires 0 <= i < |data| => f(at + i, data[i]))
  }

  /** Encrypting piece by piece is encrypting the whole. */
  lemma {:induction false} CryptJoin(f: (nat, Byte) -> Byte, x: Bytes, y: Bytes, at: nat)
    ensures Crypt(f, x + y, at) == Crypt(f, x, at) + Crypt(f, y, at + |x|)
  {
    forall i | 0 <= i < |x + y| ensures Crypt(f, x + y, at)[i] == (Crypt(f, x, at) + Crypt(f, y, at + |x|))[i] {
      if i >= |x| { assert at + |x| + (i - |x|) == at + i; }
    }
  }

  lemma Decrypted(c: Codec, data: Bytes, at: nat)
    requires Inverse(c)
    ensures Crypt(c.dec, Crypt(c.enc, data, at), at) == data
  {
  }

  // struct master_file_header
  function FileHeader(entities: nat, salt: Bytes): (h: Bytes)
    requires |salt| == 16
    ensures |h| == HEADER_SIZE
  {
    MAGIC + LittleEndian(VERSION, 2) + LittleEndian(entities, 4) + salt
  }

  predicate HeaderOk(file: Bytes) {
    |file| >= HEADER_SIZE && file[..6] == MAGIC && FromLittleEndian(file[6..8]) == VERSION
  }

  function SavedFile(c: Codec, rows: seq<Row>, salt: Bytes): Bytes
    requires |salt| == 16 && AllWritable(Kept(rows))
  {
    FileHeader(|Kept(rows)|, salt) + Crypt(c.enc, c.deflate(Stream(Kept(rows))), 0)
  }

  // What loading a file gives: the map and the salt.
  function LoadFile(c: Codec, file: Bytes, filter: Filter): Outcome<(Master, Bytes)> {
    if !HeaderOk(file) then Damaged
    else
      var plain := c.inflate(Crypt(c.dec, file[HEADER_SIZE..], 0));
      match LoadFrom(Initial(filter), filter, plain, FromLittleEndian(file[8..12]))
      case Ok(m) => Ok((m, file[12..HEADER_SIZE]))
      case Damaged => Damaged
      case Misuse => Misuse
      case Undefined => Undefined
  }

  /** The rows that can be saved: every kept one has strings within the limits, and its entity fits the buffer. */
  predicate Savable(rows: seq<Row>) {
    && (forall i :: 0 <= i < |rows| ==>
          RowOk(rows[i]) && (IsKept(rows[i]) ==> Writable(rows[i]) && FitsBuffer(rows[i])))
    && |rows| < U32
  }

  lemma {:induction false} SavableKept(rows: seq<Row>)
    requires Savable(rows)
    ensures |Kept(rows)| < U32 && AllWritable(Kept(rows))
    ensures forall i :: 0 <= i < |Kept(rows)| ==> RowOk(Kept(rows)[i]) && IsKept(Kept(rows)[i])
  {
    KeptRows(rows);
    assert forall r :: r in Kept(rows) ==> IsKept(r) && r in rows;
    hide RowOk, IsKept, Writable, Kept, FitsBuffer;
    forall i | 0 <= i < |Kept(rows)| ensures RowOk(Kept(rows)[i]) && IsKept(Kept(rows)[i]) && Writable(Kept(rows)[i]) {
      assert Kept(rows)[i] in Kept(rows);
    }
  }

  lemma HeaderRead(entities: nat, salt: Bytes, body: Bytes)
    requires |salt| == 16 && entities < U32
    ensures var file := FileHeader(entities, salt) + body;
            && HeaderOk(file) && FromLittleEndian(file[8..12]) == entities && file[12..HEADER_SIZE] == salt
            && file[HEADER_SIZE..] == body
  {
    Powers();
    hide Pow256, LittleEndian, FromLittleEndian;
    LittleEndianInverse(VERSION, 2);
    LittleEndianInverse(entities, 4);
    var file := FileHeader(entities, salt) + body;
    assert file[6..8] == LittleEndian(VERSION, 2) && file[8..12] == LittleEndian(entities, 4);
    assert file[..6] == MAGIC;
  }

  /** Loading what was saved rebuilds exactly the table and index rows that are not system rows, those of wanted tables
      only, over the placeholders; and gives the salt back. */
  lemma {:induction false} SaveThenLoad(c: Codec, rows: seq<Row>, salt: Bytes, filter: Filter)
    requires Inverse(c) && Savable(rows) && |salt| == 16
    ensures AllWritable(Kept(rows))
    ensures LoadFile(c, SavedFile(c, rows, salt), filter) == Ok((Overlay(Initial(filter), filter, Kept(rows)), salt))
  {
    SavableKept(rows);
    var z := c.deflate(Stream(Kept(rows)));
    hide RowOk, IsKept, Writable, Kept, Savable, Stream, FileHeader;
    HeaderRead(|Kept(rows)|, salt, Crypt(c.enc, z, 0));
    Decrypted(c, z, 0);
    StreamLoads(Initial(filter), filter, Kept(rows));
  }

  /** The compressor as an object.  It is going to be fed total; z is its whole output.  How much of it comes out at
      each call is up to the compressor. */
  class Deflater {
    const z: Bytes
    var emitted: nat

    constructor (z: Bytes)
      ensures this.z == z && emitted == 0
    {
      this.z, emitted := z, 0;
    }

    // deflate: at most availOut bytes; when finishing, a buffer that is not filled means the end.
    method Deflate(availOut: nat, finish: bool) returns (chunk: Bytes)
      requires emitted <= |z| && availOut > 0
      modifies this
      ensures old(emitted) <= emitted <= |z| && chunk == z[old(emitted)..emitted] && |chunk| <= availOut
      ensures finish && |chunk| < availOut ==> emitted == |z|
    {
      var rest := |z| - emitted;
      var most := if rest < availOut then rest else availOut;
      var n :| 0 <= n <= most;
      if finish { n := most; }
      chunk := z[emitted..emitted + n];
      emitted := emitted + n;
    }
  }

  const OUT_BUF := 2048

  // The loop around deflate: encrypt and write each chunk, while the output buffer was filled.
  method WriteChunks(d: Deflater, enc: (nat, Byte) -> Byte, finish: bool, file: Bytes) returns (file': Bytes)
    requires d.emitted <= |d.z| && file == Crypt(enc, d.z[..d.emitted], 0)
    modifies d
    ensures d.emitted <= |d.z| && file' == Crypt(enc, d.z[..d.emitted], 0)
    ensures finish ==> d.emitted == |d.z|
  {
    file' := file;
    var filled := true;
    while filled
      invariant d.emitted <= |d.z| && file' == Crypt(enc, d.z[..d.emitted], 0)
      invariant !filled && finish ==> d.emitted == |d.z|
      decreases |d.z| - d.emitted, filled
    {
      var before := d.emitted;
      var chunk := d.Deflate(OUT_BUF, finish);
      CryptJoin(enc, d.z[..before], chunk, 0);
      assert d.z[..d.emitted] == d.z[..before] + chunk;
      file' := file' + Crypt(enc, chunk, before);
      filled := |chunk| == OUT_BUF;
    }
  }

  /** How saving a row ends the loop early: a string over its limit, or an entity over its buffer. */
  datatype Saved = SavedOk(file: Bytes) | TooLong | Overrun

  // Row i is the first that is kept and cannot be written.
  predicate StopsAt(rows: seq<Row>, i: nat)
    requires i < |rows|
  {
    && IsKept(rows[i]) && !(Writable(rows[i]) && FitsBuffer(rows[i]))
    && forall j :: 0 <= j < i && IsKept(rows[j]) ==> Writable(rows[j]) && FitsBuffer(rows[j])
  }

  // sqliterk_save_master, the file's body being written behind a header that comes last
  method SaveMaster(c: Codec, rows: seq<Row>, salt: Bytes) returns (r: Saved)
    requires |salt| == 16 && |rows| < U32
    ensures r.SavedOk? <==> forall i :: 0 <= i < |rows| && IsKept(rows[i]) ==> Writable(rows[i]) && FitsBuffer(rows[i])
    ensures r.SavedOk? ==> AllWritable(Kept(rows)) && r.file == SavedFile(c, rows, salt)
    ensures !r.SavedOk? ==> exists i :: 0 <= i < |rows| && StopsAt(rows, i) && (r.TooLong? <==> !Writable(rows[i]))
  {
    hide Writable, FitsBuffer, IsKept, Kept, Stream, Crypt;
    var stream: Bytes, entities: nat := [], 0;    // what is fed to the compressor
    var i := 0;
    NoRows();
    while i < |rows|
      invariant 0 <= i <= |rows| && AllWritable(Kept(rows[..i]))
      invariant stream == Stream(Kept(rows[..i])) && entities == |Kept(rows[..i])| <= i
      invariant forall j :: 0 <= j < i && IsKept(rows[j]) ==> Writable(rows[j]) && FitsBuffer(rows[j])
    {
      KeptSnoc(rows, i);
      if IsKept(rows[i]) {
        assert !(Writable(rows[i]) && FitsBuffer(rows[i])) ==> StopsAt(rows, i);
        if !Writable(rows[i]) { return TooLong; }
        if !FitsBuffer(rows[i]) { return Overrun; }
        StreamSnoc(Kept(rows[..i]), rows[i]);
        stream := stream + Head(rows[i]) + (rows[i].name + [0] + rows[i].tblName + [0]) + (rows[i].sql + [0]);
        Pieces(Stream(Kept(rows[..i])), rows[i]);
        entities := entities + 1;
      }
      i := i + 1;
    }
    assert rows[..i] == rows;
    var body := Compress(c, stream);
    r := SavedOk(FileHeader(entities, salt) + body);
  }

  lemma NoRows()
    ensures Kept([]) == [] && Stream([]) == []
  {
  }

  lemma KeptSnoc(rows: seq<Row>, i: nat)
    requires i < |rows|
    ensures Kept(rows[..i + 1]) == if IsKept(rows[i]) then Kept(rows[..i]) + [rows[i]] else Kept(rows[..i])
  {
    assert rows[..i + 1][..i] == rows[..i];
  }

  // An entity is written as its head and names, and then the sql text.
  lemma Pieces(before: Bytes, r: Row)
    requires Writable(r)
    ensures before + Head(r) + (r.name + [0] + r.tblName + [0]) + (r.sql + [0]) == before + Entity(r)
  {
    hide Head;
  }

  // The compressor fed, flushed and finished: the chunks in the file are the encrypted output as a whole.
  method Compress(c: Codec, stream: Bytes) returns (file: Bytes)
    ensures file == Crypt(c.enc, c.deflate(stream), 0)
  {
    var d := new Deflater(c.deflate(stream));
    assert d.z[..0] == [];
    file := WriteChunks(d, c.enc, false, []);
    file := WriteChunks(d, c.enc, true, file);
    assert d.z[..d.emitted] == d.z;
  }

  /** The decompressor as an object: z is the compressed stream, plain what it inflates to.  How much it takes and gives
      at each call is up to it, but it makes progress unless it starves for input. */

  datatype Ret = Z_OK | Z_STREAM_END | Z_BUF_ERROR

  class Inflater {
    const z: Bytes
    const plain: Bytes
    var consumed: nat
    var pos: nat

    ghost predicate Valid()
      reads this
    {
      consumed <= |z| && pos <= |plain|
    }

    constructor (z: Bytes, plain: Bytes)
      ensures this.z == z && this.plain == plain && consumed == 0 && pos == 0 && Valid()
    {
      this.z, this.plain, consumed, pos := z, plain, 0, 0;
    }

    // inflate
    method Inflate(avail: Bytes, availOut: nat) returns (used: nat, chunk: Bytes, ret: Ret)
      requires Valid() && consumed + |avail| <= |z| && avail == z[consumed..consumed + |avail|] && availOut > 0
      modifies this
      ensures Valid() && used <= |avail| && consumed == old(consumed) + used
      ensures old(pos) <= pos && chunk == plain[old(pos)..pos] && |chunk| <= availOut
      ensures ret == Z_OK ==> used > 0 || |chunk| > 0
      ensures ret == Z_STREAM_END ==> pos == |plain|
      ensures ret == Z_BUF_ERROR ==> avail == [] && old(consumed) < |z|
    {
      var most := if |plain| - pos < availOut then |plain| - pos else availOut;
      var a :| 0 <= a <= |avail|;
      var b :| 0 <= b <= most;
      if a == 0 && b == 0 {
        if |avail| > 0 { a := 1; } else if consumed == |z| && pos < |plain| { b := 1; }
      }
      chunk := plain[pos..pos + b];
      used, consumed, pos := a, consumed + a, pos + b;
      ret := if consumed == |z| && pos == |plain| then Z_STREAM_END else if a == 0 && b == 0 then Z_BUF_ERROR else Z_OK;
    }
  }

  const IN_BUF_SIZE := 4096
  const STR_BUF := 65536 + 512

  datatype ReadRc = READ_OK | READ_DAMAGED

  /** The file behind its header, read in blocks, decrypted in place and handed to the decompressor. */
  class MasterReader {
    const body: Bytes
    const dec: (nat, Byte) -> Byte
    const strm: Inflater
    var fpos: nat
    var feof: bool
    var avail: Bytes

    ghost predicate Valid()
      reads this, strm
    {
      && strm.Valid() && strm.z == Crypt(dec, body, 0)
      && fpos <= |body| && strm.consumed + |avail| == fpos && avail == strm.z[strm.consumed..fpos]
      && (feof ==> fpos == |body|)
    }

    constructor (c: Codec, body: Bytes)
      ensures Valid() && fresh(strm) && strm.pos == 0 && strm.plain == c.inflate(Crypt(c.dec, body, 0))
    {
      this.body, dec := body, c.dec;
      strm := new Inflater(Crypt(c.dec, body, 0), c.inflate(Crypt(c.dec, body, 0)));
      fpos, feof, avail := 0, false, [];
    }

    // Refill the input buffer if it is empty.
    method Refill()
      requires Valid()
      modifies this`fpos, this`feof, this`avail
      ensures Valid() && old(fpos) <= fpos && (avail == [] ==> fpos == |body|)
    {
      if |avail| == 0 && !feof {
        var n := if |body| - fpos < IN_BUF_SIZE then |body| - fpos else IN_BUF_SIZE;
        if n < IN_BUF_SIZE { feof := true; }
        avail := Crypt(dec, body[fpos..fpos + n], fpos);
        fpos := fpos + n;
        assert avail == strm.z[strm.consumed..fpos];
      }
    }

    // inflate_read: the next size bytes of the stream, or DAMAGED if it has no more so many
    method InflateRead(size: nat) returns (rc: ReadRc, buf: Bytes)
      requires Valid()
      modifies this`fpos, this`feof, this`avail, strm
      ensures Valid() && strm.pos <= |strm.plain|
      ensures rc == READ_OK <==> old(strm.pos) + size <= |strm.plain|
      ensures rc == READ_OK ==> strm.pos == old(strm.pos) + size && buf == strm.plain[old(strm.pos)..strm.pos]
    {
      buf := [];
      if size == 0 { return READ_OK, buf; }
      hide Crypt;
      ghost var start := strm.pos;
      var ret := Z_OK;
      while |buf| < size && ret != Z_STREAM_END
        invariant Valid() && start <= strm.pos && buf == strm.plain[start..strm.pos] && |buf| <= size
        invariant ret == Z_STREAM_END ==> strm.pos == |strm.plain|
        decreases |body| - strm.consumed + |strm.plain| - strm.pos, ret != Z_STREAM_END
      {
        Refill();
        var used, chunk;
        used, chunk, ret := strm.Inflate(avail, size - |buf|);
        avail := avail[used..];
        buf := buf + chunk;
        if ret == Z_BUF_ERROR { return READ_DAMAGED, buf; }
      }
      rc := if |buf| < size then READ_DAMAGED else READ_OK;
    }
  }

  // Reading on: from the second byte position on, what is left of the stream.
  lemma Rest(plain: Bytes, pos: nat, n: nat)
    requires pos + n <= |plain|
    ensures plain[pos..][..n] == plain[pos..pos + n] && plain[pos..][n..] == plain[pos + n..]
  {
  }

  // The stream still holds a whole entity.
  predicate HasEntity(rest: Bytes) {
    |rest| >= ENTITY_SIZE && |rest| - ENTITY_SIZE >= StringsSize(ParseHead(rest[..ENTITY_SIZE]))
  }

  lemma LoadStops(m: Master, filter: Filter, plain: Bytes, count: nat)
    requires count > 0 && !HasEntity(plain)
    ensures LoadFrom(m, filter, plain, count) == Damaged
  {
    hide ParseHead, AddEntity;
  }

  lemma LoadGoesOn(m: Master, filter: Filter, plain: Bytes, count: nat, h: EntityHead, b: Bytes)
    requires count > 0 && HasEntity(plain) && h == ParseHead(plain[..ENTITY_SIZE])
    requires |b| == StringsSize(h) && b == plain[ENTITY_SIZE..][..StringsSize(h)]
    ensures var added := AddEntity(m, filter, h, b);
            LoadFrom(m, filter, plain, count) ==
              if added.Ok? then LoadFrom(added.value, filter, plain[ENTITY_SIZE + |b|..], count - 1) else added
  {
    hide ParseHead, AddEntity;
    assert plain[ENTITY_SIZE..][StringsSize(h)..] == plain[ENTITY_SIZE + |b|..];
  }

  // The strings of an entity fit the buffer they are read into.
  lemma StringsFit(b: Bytes)
    requires |b| == ENTITY_SIZE
    ensures StringsSize(ParseHead(b)) <= STR_BUF
  {
    var s := b[8..10];
    assert s[1..][1..] == [];
    assert FromLittleEndian(s[1..]) == s[1];
  }

  // One entity, head and strings, from the stream
  method ReadEntity(rd: MasterReader) returns (ok: bool, h: EntityHead, strings: Bytes)
    requires rd.Valid() && rd.strm.pos <= |rd.strm.plain|
    modifies rd`fpos, rd`feof, rd`avail, rd.strm
    ensures rd.Valid() && rd.strm.pos <= |rd.strm.plain|
    ensures var rest := rd.strm.plain[old(rd.strm.pos)..];
            && ok == HasEntity(rest)
            && (ok ==> h == ParseHead(rest[..ENTITY_SIZE]) && |strings| == StringsSize(h)
                       && strings == rest[ENTITY_SIZE..][..StringsSize(h)]
                       && rd.strm.plain[rd.strm.pos..] == rest[ENTITY_SIZE + |strings|..])
  {
    hide ParseHead, MasterReader.Valid;
    ghost var plain, pos := rd.strm.plain, rd.strm.pos;
    var rc, headBytes := rd.InflateRead(ENTITY_SIZE);
    h, strings := EntityHead(0, 0, 0, 0, 0), [];
    if rc == READ_DAMAGED { return false, h, strings; }
    Rest(plain, pos, ENTITY_SIZE);
    h := ParseHead(headBytes);
    StringsFit(headBytes);
    rc, strings := rd.InflateRead(StringsSize(h));
    if rc == READ_DAMAGED { return false, h, strings; }
    Rest(plain, pos + ENTITY_SIZE, StringsSize(h));
    ok := true;
  }

  // The result is what loading the rest of the stream gives.
  ghost predicate Loading(all: Outcome<Master>, m: Master, filter: Filter, rest: Bytes, left: nat) {
    all == LoadFrom(m, filter, rest, left)
  }

  // One entity more, or the end.
  lemma LoadStep(all: Outcome<Master>, m: Master, filter: Filter, rest: Bytes, left: nat, h: EntityHead, b: Bytes)
    requires left > 0 && Loading(all, m, filter, rest, left)
    ensures !HasEntity(rest) ==> all == Damaged
    ensures HasEntity(rest) && h == ParseHead(rest[..ENTITY_SIZE]) && |b| == StringsSize(h)
            && b == rest[ENTITY_SIZE..][..StringsSize(h)] ==>
              var added := AddEntity(m, filter, h, b);
              if added.Ok? then Loading(all, added.value, filter, rest[ENTITY_SIZE + |b|..], left - 1) else all == added
  {
    hide ParseHead, AddEntity, LoadFrom;
    if HasEntity(rest) {
      if h == ParseHead(rest[..ENTITY_SIZE]) && |b| == StringsSize(h) && b == rest[ENTITY_SIZE..][..StringsSize(h)] {
        LoadGoesOn(m, filter, rest, left, h, b);
      }
    } else {
      LoadStops(m, filter, rest, left);
    }
  }

  lemma LoadStart(m: Master, filter: Filter, plain: Bytes, entities: nat)
    ensures Loading(LoadFrom(m, filter, plain, entities), m, filter, plain[0..], entities)
  {
    assert plain[0..] == plain;
  }

  // One round of the entity loop: the map with the next entity, or how the loop ends
  method LoadEntity(rd: MasterReader, master: Master, filter: Filter, ghost left: nat, ghost all: Outcome<Master>)
    returns (added: Outcome<Master>)
    requires rd.Valid() && rd.strm.pos <= |rd.strm.plain|
    requires left > 0 && Loading(all, master, filter, rd.strm.plain[rd.strm.pos..], left)
    modifies rd`fpos, rd`feof, rd`avail, rd.strm
    ensures rd.Valid() && rd.strm.pos <= |rd.strm.plain|
    ensures if added.Ok? then Loading(all, added.value, filter, rd.strm.plain[rd.strm.pos..], left - 1)
        else all == added
  {
    hide *;
    ghost var rest := rd.strm.plain[rd.strm.pos..];
    var ok, h, strings := ReadEntity(rd);
    LoadStep(all, master, filter, rest, left, h, strings);
    added := if ok then AddEntity(master, filter, h, strings) else Damaged;
  }

  // The entity loop of sqliterk_load_master
  method LoadEntities(rd: MasterReader, filter: Filter, entities: nat) returns (r: Outcome<Master>)
    requires rd.Valid() && rd.strm.pos == 0
    modifies rd`fpos, rd`feof, rd`avail, rd.strm
    ensures r == LoadFrom(Initial(filter), filter, rd.strm.plain, entities)
  {
    hide *;
    var left := entities;
    ghost var all := LoadFrom(Initial(filter), filter, rd.strm.plain, entities);
    LoadStart(Initial(filter), filter, rd.strm.plain, entities);
    r := Ok(Initial(filter));
    while left > 0 && r.Ok?
      invariant rd.Valid() && rd.strm.pos <= |rd.strm.plain|
      invariant if r.Ok? then Loading(all, r.value, filter, rd.strm.plain[rd.strm.pos..], left) else all == r
    {
      r := LoadEntity(rd, r.value, filter, left, all);
      left := left - 1;
    }
    if r.Ok? { LoadDone(all, r.value, filter, rd.strm.plain[rd.strm.pos..]); }
  }

  lemma LoadDone(all: Outcome<Master>, m: Master, filter: Filter, plain: Bytes)
    requires Loading(all, m, filter, plain, 0)
    ensures all == Ok(m)
  {
  }

  // sqliterk_load_master
  method LoadMaster(c: Codec, file: Bytes, filter: Filter) returns (r: Outcome<(Master, Bytes)>)
    ensures r == LoadFile(c, file, filter)
  {
    if |file| < HEADER_SIZE { return Damaged; }
    if file[..6] != MAGIC || FromLittleEndian(file[6..8]) != VERSION { return Damaged; }
    hide LoadFrom, FromLittleEndian, Crypt;
    var rd := new MasterReader(c, file[HEADER_SIZE..]);
    var m := LoadEntities(rd, filter, FromLittleEndian(file[8..12]));
    match m {
      case Ok(master) => r := Ok((master, file[12..HEADER_SIZE]));
      case Damaged => r := Damaged;
      case Misuse => r := Misuse;
      case Undefined => r := Undefined;
    }
  }
}
