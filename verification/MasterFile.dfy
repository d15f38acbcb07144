/** The file that keeps a copy of sqlite_master for later repair: its entities,
    how they are written and how they are loaded into a map.  Compression and
    encryption are abstract inverses. */
module MasterFile {
  import opened RepairNumbers

  type Bytes = seq<Byte>

  // A row of sqlite_master; the texts hold no NUL.
  datatype Row = Row(kind: Bytes, name: Bytes, tblName: Bytes, rootPage: nat, sql: Bytes)

  const SQLITE_PREFIX: Bytes := [115, 113, 108, 105, 116, 101, 95]    // sqlite_
  const TABLE_TEXT: Bytes := [116, 97, 98, 108, 101]                  // table
  const INDEX_TEXT: Bytes := [105, 110, 100, 101, 120]                // index
  const TYPE_TABLE := 1
  const TYPE_INDEX := 2
  const MAGIC: Bytes := [0, 100, 66, 109, 83, 116]                    // \0dBmSt
  const VERSION := 1
  const ENTITY_SIZE := 10
  const HEADER_SIZE := 28
  const IN_BUF := 520                // the buffer an entity is put together in
  const U32 := 0x1_0000_0000

  predicate NoNul(t: Bytes) {
    forall i :: 0 <= i < |t| ==> t[i] != 0
  }

  predicate RowOk(r: Row) {
    NoNul(r.kind) && NoNul(r.name) && NoNul(r.tblName) && NoNul(r.sql) && r.rootPage < U32
  }

  /** Which rows are written. */

  predicate IsSystem(r: Row) {
    SQLITE_PREFIX <= r.name
  }

  predicate IsKept(r: Row) {
    !IsSystem(r) && (r.kind == TABLE_TEXT || r.kind == INDEX_TEXT)
  }

  function Kept(rows: seq<Row>): seq<Row> {
    if rows == [] then []
    else Kept(rows[..|rows| - 1]) + if IsKept(rows[|rows| - 1]) then [rows[|rows| - 1]] else []
  }

  predicate Writable(r: Row) {
    |r.name| <= 255 && |r.tblName| <= 255 && |r.sql| <= 65535
  }

  // The entity's head and names are put together inside their buffer.
  predicate FitsBuffer(r: Row) {
    ENTITY_SIZE + |r.name| + 1 + |r.tblName| + 1 <= IN_BUF
  }

  /** Not every pair of names within the length check fits: exactly those that have 508 bytes together at most. */
  lemma {:induction false} BufferBound(r: Row)
    requires Writable(r)
    ensures FitsBuffer(r) <==> |r.name| + |r.tblName| <= 508
  {
  }

  // A table and its own name, 255 bytes "a" each.
  function LongNamedTable(): Row {
    Row(TABLE_TEXT, seq(255, _ => 97), seq(255, _ => 97), 2, [])
  }

  /** This row of a table is written, passes the length checks, and does not fit. */
  lemma {:induction false} LongNamesDoNotFit()
    ensures var r := LongNamedTable(); RowOk(r) && IsKept(r) && Writable(r) && !FitsBuffer(r)
  {
    var r := LongNamedTable();
    assert r.name[0] != SQLITE_PREFIX[0];
  }

  /** Entities. */

  function LittleEndian(v: nat, n: nat): (b: Bytes)
    ensures |b| == n
  {
    if n == 0 then [] else [v % 256] + LittleEndian(v / 256, n - 1)
  }

  function FromLittleEndian(b: Bytes): nat {
    if b == [] then 0 else b[0] + 256 * FromLittleEndian(b[1..])
  }

  lemma {:induction false} LittleEndianInverse(v: nat, n: nat)
    requires v < Pow256(n)
    ensures FromLittleEndian(LittleEndian(v, n)) == v
  {
    if n > 0 {
      assert LittleEndian(v, n)[1..] == LittleEndian(v / 256, n - 1);
      LittleEndianInverse(v / 256, n - 1);
    }
  }

  function TypeCode(r: Row): Byte {
    if r.kind == TABLE_TEXT then TYPE_TABLE else TYPE_INDEX
  }

  // struct master_file_entity
  function Head(r: Row): (b: Bytes)
    requires Writable(r)
    ensures |b| == ENTITY_SIZE
  {
    LittleEndian(r.rootPage, 4) + [TypeCode(r), |r.name|, |r.tblName|, 0] + LittleEndian(|r.sql|, 2)
  }

  function Strings(r: Row): Bytes {
    r.name + [0] + r.tblName + [0] + r.sql + [0]
  }

  function Entity(r: Row): Bytes
    requires Writable(r)
  {
    Head(r) + Strings(r)
  }

  predicate AllWritable(rows: seq<Row>) {
    forall i :: 0 <= i < |rows| ==> Writable(rows[i])
  }

  function Stream(rows: seq<Row>): Bytes
    requires AllWritable(rows)
  {
    if rows == [] then [] else Entity(rows[0]) + Stream(rows[1..])
  }

  lemma {:induction false} StreamSnoc(rows: seq<Row>, r: Row)
    requires AllWritable(rows) && Writable(r)
    ensures AllWritable(rows + [r]) && Stream(rows + [r]) == Stream(rows) + Entity(r)
  {
    hide Entity;
    if rows == [] {
      assert (rows + [r])[1..] == [];
    } else {
      assert (rows + [r])[1..] == rows[1..] + [r];
      StreamSnoc(rows[1..], r);
    }
  }

  /** Loading. */

  datatype Kind = Unknown | Table | Index

  // What is known of a table or an index, keyed by its name.
  datatype Entry = Entry(kind: Kind, sql: Bytes, rootPage: nat)

  type Master = map<Bytes, Entry>

  // The wanted tables, if there is a filter.
  datatype Filter = NoFilter | Tables(names: seq<Bytes>)

  // sqliterk_make_master
  function MakeMaster(names: seq<Bytes>): Master {
    if names == [] then map[] else MakeMaster(names[..|names| - 1])[names[|names| - 1] := Entry(Unknown, [], 0)]
  }

  function Initial(filter: Filter): Master {
    match filter
    case NoFilter => map[]
    case Tables(names) => if names == [] then map[] else MakeMaster(names)
  }

  /** Before anything is loaded the map has a placeholder for each wanted table, and nothing else. */
  lemma {:induction false} Placeholders(names: seq<Bytes>)
    ensures forall n :: n in Initial(Tables(names)) <==> n in names
    ensures forall n :: n in names ==> Initial(Tables(names))[n] == Entry(Unknown, [], 0)
    ensures Initial(NoFilter) == map[]
    decreases |names|
  {
    if names != [] {
      var k := |names| - 1;
      Placeholders(names[..k]);
      assert names == names[..k] + [names[k]];
    }
  }

  predicate Wanted(filter: Filter, tblName: Bytes) {
    match filter
    case NoFilter => true
    case Tables(names) => names == [] || tblName in names
  }

  // An entity head as it is read back.
  datatype EntityHead = EntityHead(rootPage: nat, kind: Byte, nameLen: nat, tblNameLen: nat, sqlLen: nat)

  function ParseHead(b: Bytes): EntityHead
    requires |b| == ENTITY_SIZE
  {
    EntityHead(FromLittleEndian(b[..4]), b[4], b[5], b[6], FromLittleEndian(b[8..10]))
  }

  function StringsSize(h: EntityHead): nat {
    h.nameLen + h.tblNameLen + h.sqlLen + 3
  }

  // The C string at the start of a buffer.
  function CString(b: Bytes): Bytes {
    if b == [] || b[0] == 0 then [] else [b[0]] + CString(b[1..])
  }

  function KindOf(code: Byte): Kind {
    if code == TYPE_TABLE then Table else if code == TYPE_INDEX then Index else Unknown
  }

  // What one entity does to the map: nothing if the string terminators are not in place.
  function AddEntity(m: Master, filter: Filter, h: EntityHead, b: Bytes): Outcome<Master>
    requires |b| == StringsSize(h)
  {
    var tbl, sql := b[h.nameLen + 1..], b[h.nameLen + h.tblNameLen + 2..];
    if b[h.nameLen] != 0 || tbl[h.tblNameLen] != 0 || sql[h.sqlLen] != 0 then Damaged
    else if Wanted(filter, CString(tbl)) then Ok(m[CString(b) := Entry(KindOf(h.kind), CString(sql), h.rootPage)])
    else Ok(m)
  }

  // The entity loop of sqliterk_load_master over the inflated bytes.
  function LoadFrom(m: Master, filter: Filter, plain: Bytes, count: nat): Outcome<Master>
    decreases count
  {
    if count == 0 then Ok(m)
    else if |plain| < ENTITY_SIZE then Damaged
    else
      var h := ParseHead(plain[..ENTITY_SIZE]);
      var rest := plain[ENTITY_SIZE..];
      if |rest| < StringsSize(h) then Damaged
      else
        match AddEntity(m, filter, h, rest[..StringsSize(h)])
        case Ok(m') => LoadFrom(m', filter, rest[StringsSize(h)..], count - 1)
        case Damaged => Damaged
        case Misuse => Misuse
        case Undefined => Undefined
  }

  function EntryOf(r: Row): Entry {
    Entry(if r.kind == TABLE_TEXT then Table else Index, r.sql, r.rootPage)
  }

  /** What loading should give: the rows in order overlay the placeholders. */
  function Overlay(m: Master, filter: Filter, rows: seq<Row>): Master
    decreases |rows|
  {
    if rows == [] then m
    else Overlay(if Wanted(filter, rows[0].tblName) then m[rows[0].name := EntryOf(rows[0])] else m, filter, rows[1..])
  }

  // No wanted row from number i on has this name.
  predicate NoneFrom(filter: Filter, rows: seq<Row>, name: Bytes, i: nat) {
    forall j :: i <= j < |rows| ==> rows[j].name != name || !Wanted(filter, rows[j].tblName)
  }

  lemma NoneShift(filter: Filter, rows: seq<Row>, name: Bytes, i: nat)
    requires rows != [] && NoneFrom(filter, rows, name, i + 1)
    ensures NoneFrom(filter, rows[1..], name, i)
  {
    hide Wanted;
    forall j | i <= j < |rows[1..]| ensures rows[1..][j].name != name || !Wanted(filter, rows[1..][j].tblName) {
      assert rows[1..][j] == rows[j + 1];
    }
  }

  /** Names of no wanted row are as before. */
  lemma {:induction false} OverlayKeeps(m: Master, filter: Filter, rows: seq<Row>, name: Bytes)
    requires NoneFrom(filter, rows, name, 0)
    ensures name in Overlay(m, filter, rows) <==> name in m
    ensures name in m ==> Overlay(m, filter, rows)[name] == m[name]
    decreases |rows|
  {
    if rows != [] {
      NoneShift(filter, rows, name, 0) by { assert NoneFrom(filter, rows, name, 1); }
      OverlayKeeps(if Wanted(filter, rows[0].tblName) then m[rows[0].name := EntryOf(rows[0])] else m, filter,
          rows[1..], name);
    }
  }

  /** A name stands for the last wanted row of that name: later duplicates win. */
  lemma {:induction false} OverlayLast(m: Master, filter: Filter, rows: seq<Row>, i: nat)
    requires i < |rows| && Wanted(filter, rows[i].tblName) && NoneFrom(filter, rows, rows[i].name, i + 1)
    ensures rows[i].name in Overlay(m, filter, rows) && Overlay(m, filter, rows)[rows[i].name] == EntryOf(rows[i])
    decreases |rows|
  {
    var m1 := if Wanted(filter, rows[0].tblName) then m[rows[0].name := EntryOf(rows[0])] else m;
    NoneShift(filter, rows, rows[i].name, i);
    if i == 0 {
      OverlayKeeps(m1, filter, rows[1..], rows[0].name);
    } else {
      OverlayLast(m1, filter, rows[1..], i - 1);
    }
  }

  /** An empty list of tables is no filter. */
  lemma {:induction false} EmptyListIsNoFilter(m: Master, rows: seq<Row>)
    ensures Initial(Tables([])) == Initial(NoFilter) && Overlay(m, Tables([]), rows) == Overlay(m, NoFilter, rows)
    decreases |rows|
  {
    if rows != [] { EmptyListIsNoFilter(m[rows[0].name := EntryOf(rows[0])], rows[1..]); }
  }

  /** Loading inverts writing. */

  lemma {:induction false} CStringRead(t: Bytes, rest: Bytes)
    requires NoNul(t)
    ensures CString(t + [0] + rest) == t
  {
    var b := t + [0] + rest;
    if t == [] {
      assert b[0] == 0;
    } else {
      assert b[0] == t[0] && b[1..] == t[1..] + [0] + rest;
      CStringRead(t[1..], rest);
    }
  }

  lemma {:induction false} HeadRead(r: Row)
    requires RowOk(r) && Writable(r)
    ensures ParseHead(Head(r)) == EntityHead(r.rootPage, TypeCode(r), |r.name|, |r.tblName|, |r.sql|)
  {
    Powers();
    hide Pow256;
    var root, size := LittleEndian(r.rootPage, 4), LittleEndian(|r.sql|, 2);
    assert Head(r)[..4] == root && Head(r)[8..10] == size;
    LittleEndianInverse(r.rootPage, 4);
    LittleEndianInverse(|r.sql|, 2);
  }

  // The three strings of an entity as C strings.
  lemma StringsRead(r: Row)
    requires RowOk(r)
    ensures var b, n, t := Strings(r), |r.name|, |r.tblName|;
            && |b| == n + t + |r.sql| + 3
            && b[n] == 0 && b[n + 1..][t] == 0 && b[n + t + 2..][|r.sql|] == 0
            && CString(b) == r.name && CString(b[n + 1..]) == r.tblName && CString(b[n + t + 2..]) == r.sql
  {
    hide NoNul, CString;
    var b := Strings(r);
    assert b == r.name + [0] + (r.tblName + [0] + r.sql + [0]);
    assert b[|r.name| + 1..] == r.tblName + [0] + (r.sql + [0]);
    assert b[|r.name| + |r.tblName| + 2..] == r.sql + [0] + [];
    CStringRead(r.name, r.tblName + [0] + r.sql + [0]);
    CStringRead(r.tblName, r.sql + [0]);
    CStringRead(r.sql, []);
  }

  lemma EntityAdded(m: Master, filter: Filter, r: Row)
    requires RowOk(r) && Writable(r) && IsKept(r)
    ensures var h := ParseHead(Head(r));
            && |Strings(r)| == StringsSize(h)
            && AddEntity(m, filter, h, Strings(r))
                == Ok(if Wanted(filter, r.tblName) then m[r.name := EntryOf(r)] else m)
  {
    HeadRead(r);
    StringsRead(r);
    hide ParseHead, Head, Wanted, NoNul, CString, Strings, RowOk;
  }

  lemma LoadOne(m: Master, filter: Filter, r: Row, rest: Bytes, count: nat)
    requires RowOk(r) && Writable(r) && IsKept(r) && count > 0
    ensures LoadFrom(m, filter, Entity(r) + rest, count)
         == LoadFrom(if Wanted(filter, r.tblName) then m[r.name := EntryOf(r)] else m, filter, rest, count - 1)
  {
    EntityAdded(m, filter, r);
    hide ParseHead, Head, Strings, Wanted, AddEntity, IsKept, RowOk;
    var plain := Entity(r) + rest;
    assert plain[..ENTITY_SIZE] == Head(r);
    assert plain[ENTITY_SIZE..] == Strings(r) + rest;
    assert (Strings(r) + rest)[..|Strings(r)|] == Strings(r) && (Strings(r) + rest)[|Strings(r)|..] == rest;
  }

  lemma {:induction false} StreamLoads(m: Master, filter: Filter, rows: seq<Row>)
    requires AllWritable(rows) && forall i :: 0 <= i < |rows| ==> RowOk(rows[i]) && IsKept(rows[i])
    ensures LoadFrom(m, filter, Stream(rows), |rows|) == Ok(Overlay(m, filter, rows))
    decreases |rows|
  {
    hide *;
    StreamFirst(rows);
    OverlayFirst(m, filter, rows);
    if rows == [] {
      LoadNone(m, filter, Stream(rows));
    } else {
      LoadOne(m, filter, rows[0], Stream(rows[1..]), |rows|);
      StreamLoads(if Wanted(filter, rows[0].tblName) then m[rows[0].name := EntryOf(rows[0])] else m, filter,
          rows[1..]);
    }
  }

  lemma StreamFirst(rows: seq<Row>)
    requires AllWritable(rows)
    ensures rows != [] ==> AllWritable(rows[1..]) && Writable(rows[0])
                           && Stream(rows) == Entity(rows[0]) + Stream(rows[1..])
  {
    hide Writable, Entity;
  }

  lemma OverlayFirst(m: Master, filter: Filter, rows: seq<Row>)
    ensures Overlay(m, filter, rows) ==
            if rows == [] then m
            else Overlay(if Wanted(filter, rows[0].tblName) then m[rows[0].name := EntryOf(rows[0])] else m, filter,
                     rows[1..])
  {
    hide Wanted, EntryOf;
  }

  lemma LoadNone(m: Master, filter: Filter, plain: Bytes)
    ensures LoadFrom(m, filter, plain, 0) == Ok(m)
  {
  }

  lemma {:induction false} KeptRows(rows: seq<Row>)
    ensures |Kept(rows)| <= |rows|
    ensures forall r :: r in Kept(rows) <==>
              r in rows && !(SQLITE_PREFIX <= r.name) && (r.kind == TABLE_TEXT || r.kind == INDEX_TEXT)
  {
    if rows != [] { KeptRows(rows[..|rows| - 1]); }
  }
}
