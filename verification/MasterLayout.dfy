/** The bytes of the saved file, and which streams can be loaded: exactly those
    that hold the announced number of whole entities with their terminators. */
module MasterLayout {
  import opened RepairNumbers
  import opened MasterFile
  import opened MasterStore

  // Two and four bytes as a number, the lowest first.
  function Short(a: nat, b: nat): nat {
    a + 0x100 * b
  }

  function Long(a: nat, b: nat, c: nat, d: nat): nat {
    a + 0x100 * b + 0x1_0000 * c + 0x100_0000 * d
  }

  /** The bytes of an entity's head: page number, type, the two name lengths, padding, length of the sql text. */
  lemma {:induction false} HeadBytes(r: Row)
    requires RowOk(r) && Writable(r)
    ensures var h := Head(r);
            && Long(h[0], h[1], h[2], h[3]) == r.rootPage
            && h[4] == (if r.kind == TABLE_TEXT then 1 else 2) && h[5] == |r.name| && h[6] == |r.tblName| && h[7] == 0
            && Short(h[8], h[9]) == |r.sql|
  {
    FourBytes(r.rootPage);
    TwoBytes(|r.sql|);
    hide LittleEndian, NoNul;
  }

  lemma TwoBytes(v: nat)
    requires v < 0x1_0000
    ensures var b := LittleEndian(v, 2); |b| == 2 && Short(b[0], b[1]) == v
  {
    assert LittleEndian(v, 2) == [v % 256] + LittleEndian(v / 256, 1);
    assert LittleEndian(v / 256, 1) == [v / 256 % 256] + LittleEndian(v / 256 / 256, 0);
  }

  lemma FourBytes(v: nat)
    requires v < U32
    ensures var b := LittleEndian(v, 4); |b| == 4 && Long(b[0], b[1], b[2], b[3]) == v
  {
    var w := v / 256 / 256;
    assert LittleEndian(v, 4) == [v % 256] + LittleEndian(v / 256, 3);
    assert LittleEndian(v / 256, 3) == [v / 256 % 256] + LittleEndian(w, 2);
    TwoBytes(w);
  }

  lemma HeaderParts(v: Bytes, n: Bytes, salt: Bytes, h: Bytes)
    requires |v| == 2 && |n| == 4 && h == MAGIC + v + n + salt
    ensures |h| == 12 + |salt| && h[..6] == MAGIC && h[6] == v[0] && h[7] == v[1] && h[12..] == salt
    ensures h[8] == n[0] && h[9] == n[1] && h[10] == n[2] && h[11] == n[3]
  {
    assert |MAGIC| == 6;
  }

  lemma OneAsBytes(a: Byte, b: Byte)
    requires Short(a, b) == 1
    ensures a == 1 && b == 0
  {
  }

  /** The bytes of the file's header: magic, version, number of entities, salt. */
  lemma {:induction false} HeaderBytes(entities: nat, salt: Bytes)
    requires |salt| == 16 && entities < U32
    ensures var h := FileHeader(entities, salt);
            && h[..6] == [0, 100, 66, 109, 83, 116] && h[6] == 1 && h[7] == 0
            && Long(h[8], h[9], h[10], h[11]) == entities && h[12..] == salt
  {
    var v, n, h := LittleEndian(VERSION, 2), LittleEndian(entities, 4), FileHeader(entities, salt);
    TwoBytes(VERSION);
    FourBytes(entities);
    hide LittleEndian, Short, Long;
    HeaderParts(v, n, salt, h);
    OneAsBytes(v[0], v[1]);
  }

  // The C string in a buffer is what comes before the first NUL.
  lemma {:induction false} CStringCuts(b: Bytes)
    ensures CString(b) <= b && NoNul(CString(b)) && (|CString(b)| < |b| ==> b[|CString(b)|] == 0)
  {
    if b != [] && b[0] != 0 { CStringCuts(b[1..]); }
  }

  /** Entities as bytes; a string may hold NULs, which cut it short. */
  datatype Raw = Raw(head: Bytes, name: Bytes, tblName: Bytes, sql: Bytes)

  predicate Shaped(e: Raw) {
    && |e.head| == ENTITY_SIZE && |e.name| == e.head[5] && |e.tblName| == e.head[6]
    && |e.sql| == Short(e.head[8], e.head[9])
  }

  function Texts(e: Raw): Bytes {
    e.name + [0] + e.tblName + [0] + e.sql + [0]
  }

  // What the entity does to the map.
  function Apply(m: Master, filter: Filter, e: Raw): Master
    requires Shaped(e)
  {
    if Wanted(filter, CString(e.tblName + [0])) then
      m[CString(e.name + [0]) :=
        Entry(if e.head[4] == 1 then Table else if e.head[4] == 2 then Index else Unknown, CString(e.sql + [0]),
            Long(e.head[0], e.head[1], e.head[2], e.head[3]))]
    else m
  }

  // The bytes begin with these entities.
  predicate Holds(plain: Bytes, es: seq<Raw>)
    decreases |es|
  {
    es != [] ==>
      var e := es[0];
      Shaped(e) && e.head + Texts(e) <= plain && Holds(plain[|e.head + Texts(e)|..], es[1..])
  }

  function ApplyAll(m: Master, filter: Filter, es: seq<Raw>): Master
    requires forall i :: 0 <= i < |es| ==> Shaped(es[i])
    decreases |es|
  {
    if es == [] then m else ApplyAll(Apply(m, filter, es[0]), filter, es[1..])
  }

  lemma {:induction false} AllShaped(plain: Bytes, es: seq<Raw>)
    requires Holds(plain, es)
    ensures forall i :: 0 <= i < |es| ==> Shaped(es[i])
    decreases |es|
  {
    hide Shaped, Texts;
    if es != [] { AllShaped(plain[|es[0].head + Texts(es[0])|..], es[1..]); }
  }

  lemma ParsedHead(b: Bytes)
    requires |b| == ENTITY_SIZE
    ensures ParseHead(b) == EntityHead(Long(b[0], b[1], b[2], b[3]), b[4], b[5], b[6],
        Short(b[8], b[9]))
  {
    var x, y := b[..4], b[8..10];
    assert x[1..][1..][1..][1..] == [] && y[1..][1..] == [];
    assert FromLittleEndian(y) == y[0] + 256 * FromLittleEndian(y[1..]);
    assert FromLittleEndian(y[1..]) == y[1] + 256 * FromLittleEndian(y[1..][1..]);
    assert FromLittleEndian(x) == x[0] + 256 * FromLittleEndian(x[1..]);
    assert FromLittleEndian(x[1..]) == x[1] + 256 * FromLittleEndian(x[1..][1..]);
    assert FromLittleEndian(x[1..][1..]) == x[2] + 256 * FromLittleEndian(x[1..][1..][1..]);
    assert FromLittleEndian(x[1..][1..][1..]) == x[3] + 256 * FromLittleEndian(x[1..][1..][1..][1..]);
  }

  // A C string ends at its terminator, whatever comes after it.
  lemma {:induction false} CStringEnds(t: Bytes, rest: Bytes)
    ensures CString(t + [0] + rest) == CString(t + [0])
  {
    var b, c := t + [0] + rest, t + [0];
    if t != [] {
      assert b[1..] == t[1..] + [0] + rest && c[1..] == t[1..] + [0];
      CStringEnds(t[1..], rest);
    }
  }

  // The C strings in the texts of an entity.
  lemma TextsRead(e: Raw)
    ensures var b, n, t := Texts(e), |e.name|, |e.tblName|;
            && |b| == n + t + |e.sql| + 3
            && b[n] == 0 && b[n + 1..][t] == 0 && b[n + t + 2..][|e.sql|] == 0
            && CString(b) == CString(e.name + [0]) && CString(b[n + 1..]) == CString(e.tblName + [0])
            && CString(b[n + t + 2..]) == CString(e.sql + [0])
  {
    hide CString;
    var b, n, t := Texts(e), |e.name|, |e.tblName|;
    assert b == e.name + [0] + (e.tblName + [0] + e.sql + [0]);
    assert b[n + 1..] == e.tblName + [0] + (e.sql + [0]);
    assert b[n + t + 2..] == e.sql + [0] + [];
    CStringEnds(e.name, e.tblName + [0] + e.sql + [0]);
    CStringEnds(e.tblName, e.sql + [0]);
    CStringEnds(e.sql, []);
  }

  // Whole entities are added to the map.
  lemma RawAdded(m: Master, filter: Filter, e: Raw)
    requires Shaped(e)
    ensures |Texts(e)| == StringsSize(ParseHead(e.head))
    ensures AddEntity(m, filter, ParseHead(e.head), Texts(e)) == Ok(Apply(m, filter, e))
  {
    ParsedHead(e.head);
    TextsRead(e);
    hide ParseHead, CString, Wanted, Texts;
  }

  // An entity that is added is whole.
  lemma AddedRaw(m: Master, filter: Filter, head: Bytes, b: Bytes) returns (e: Raw)
    requires |head| == ENTITY_SIZE && |b| == StringsSize(ParseHead(head))
    requires AddEntity(m, filter, ParseHead(head), b) != Damaged
    ensures Shaped(e) && e.head == head && Texts(e) == b
  {
    ParsedHead(head);
    hide ParseHead, CString, Wanted, Texts;
    var n, t, l := ParseHead(head).nameLen, ParseHead(head).tblNameLen, ParseHead(head).sqlLen;
    e := Raw(head, b[..n], b[n + 1..n + 1 + t], b[n + t + 2..n + t + 2 + l]);
    assert b[n] == 0 && b[n + 1 + t] == 0 && b[n + t + 2 + l] == 0;
    CutTexts(e, b, n, t, l);
  }

  lemma CutTexts(e: Raw, b: Bytes, n: nat, t: nat, l: nat)
    requires |b| == n + t + l + 3 && b[n] == 0 && b[n + 1 + t] == 0 && b[n + t + 2 + l] == 0
    requires e.name == b[..n] && e.tblName == b[n + 1..n + 1 + t] && e.sql == b[n + t + 2..n + t + 2 + l]
    ensures Texts(e) == b
  {
  }

  lemma AddsOrDamaged(m: Master, filter: Filter, h: EntityHead, b: Bytes)
    requires |b| == StringsSize(h)
    ensures AddEntity(m, filter, h, b).Ok? || AddEntity(m, filter, h, b) == Damaged
  {
    hide CString, Wanted;
  }

  lemma HoldsMore(plain: Bytes, e: Raw, es: seq<Raw>)
    requires Shaped(e) && e.head + Texts(e) <= plain && Holds(plain[|e.head + Texts(e)|..], es)
    ensures Holds(plain, [e] + es)
  {
    hide Shaped, Texts;
    assert ([e] + es)[1..] == es;
  }

  lemma {:induction false} LoadAccepts(m: Master, filter: Filter, plain: Bytes, count: nat) returns (es: seq<Raw>)
    ensures LoadFrom(m, filter, plain, count) != Damaged ==>
              && |es| == count && Holds(plain, es) && (forall i :: 0 <= i < |es| ==> Shaped(es[i]))
              && LoadFrom(m, filter, plain, count) == Ok(ApplyAll(m, filter, es))
    decreases count
  {
    hide ParseHead, AddEntity, Shaped, Texts, Apply, StringsSize;
    es := [];
    if count > 0 && HasEntity(plain) {
      var head, h := plain[..ENTITY_SIZE], ParseHead(plain[..ENTITY_SIZE]);
      var b := plain[ENTITY_SIZE..][..StringsSize(h)];
      LoadGoesOn(m, filter, plain, count, h, b);
      AddsOrDamaged(m, filter, h, b);
      if AddEntity(m, filter, h, b).Ok? {
        var e := AddedRaw(m, filter, head, b);
        RawAdded(m, filter, e);
        assert head + b <= plain && plain[|head + b|..] == plain[ENTITY_SIZE + |b|..];
        var rest := LoadAccepts(Apply(m, filter, e), filter, plain[ENTITY_SIZE + |b|..], count - 1);
        es := [e] + rest;
        if LoadFrom(m, filter, plain, count) != Damaged {
          HoldsMore(plain, e, rest);
          assert es[1..] == rest;
        }
      }
    } else if count > 0 {
      LoadStops(m, filter, plain, count);
    }
  }

  // The first entity, as the loop cuts it off.
  lemma FirstHeld(plain: Bytes, es: seq<Raw>)
    requires es != [] && Holds(plain, es)
    ensures var e := es[0]; var b := Texts(e);
            && Shaped(e) && |e.head| == ENTITY_SIZE && |plain| >= ENTITY_SIZE + |b|
            && plain[..ENTITY_SIZE] == e.head && plain[ENTITY_SIZE..][..|b|] == b
            && Holds(plain[ENTITY_SIZE + |b|..], es[1..])
  {
    hide Texts;
    var e := es[0];
    var all := e.head + Texts(e);
    assert plain[..|all|] == all;
    assert plain[..ENTITY_SIZE] == all[..ENTITY_SIZE] && plain[ENTITY_SIZE..][..|Texts(e)|] == all[ENTITY_SIZE..];
  }

  lemma ApplyFirst(m: Master, filter: Filter, es: seq<Raw>)
    requires es != [] && forall i :: 0 <= i < |es| ==> Shaped(es[i])
    ensures ApplyAll(m, filter, es) == ApplyAll(Apply(m, filter, es[0]), filter, es[1..])
  {
    hide Shaped, Apply;
  }

  lemma HasWhole(plain: Bytes, b: Bytes)
    requires |plain| >= ENTITY_SIZE + |b| && |b| == StringsSize(ParseHead(plain[..ENTITY_SIZE]))
    ensures HasEntity(plain)
  {
  }

  lemma NothingHeld(m: Master, filter: Filter, plain: Bytes)
    ensures LoadFrom(m, filter, plain, 0) == Ok(ApplyAll(m, filter, []))
  {
  }

  lemma {:induction false} HeldLoads(m: Master, filter: Filter, plain: Bytes, es: seq<Raw>)
    requires Holds(plain, es)
    ensures forall i :: 0 <= i < |es| ==> Shaped(es[i])
    ensures LoadFrom(m, filter, plain, |es|) == Ok(ApplyAll(m, filter, es))
    decreases |es|
  {
    hide *;
    AllShaped(plain, es);
    if es == [] {
      NothingHeld(m, filter, plain);
    } else {
      var e := es[0];
      var b := Texts(e);
      FirstHeld(plain, es);
      RawAdded(m, filter, e);
      HasWhole(plain, b);
      LoadGoesOn(m, filter, plain, |es|, ParseHead(e.head), b);
      HeldLoads(Apply(m, filter, e), filter, plain[ENTITY_SIZE + |b|..], es[1..]);
      ApplyFirst(m, filter, es);
    }
  }

  /** Loading succeeds exactly if the bytes begin with as many whole entities as announced, and then applies them in
      order; otherwise the file is damaged. */
  lemma {:induction false} LoadsExactly(m: Master, filter: Filter, plain: Bytes, count: nat, m': Master)
    ensures LoadFrom(m, filter, plain, count) == Ok(m')
            <==> exists es :: |es| == count && Holds(plain, es) && (forall i :: 0 <= i < |es| ==> Shaped(es[i]))
                    && m' == ApplyAll(m, filter, es)
    ensures LoadFrom(m, filter, plain, count).Ok? || LoadFrom(m, filter, plain, count) == Damaged
  {
    hide *;
    var es := LoadAccepts(m, filter, plain, count);
    forall es' | |es'| == count && Holds(plain, es')
      ensures (forall i :: 0 <= i < |es'| ==> Shaped(es'[i]))
              && LoadFrom(m, filter, plain, count) == Ok(ApplyAll(m, filter, es'))
    {
      HeldLoads(m, filter, plain, es');
    }
  }
}
