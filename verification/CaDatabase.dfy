/** The certificate index in memory and on disk: the load check, the two lookup indexes, insertion and expiry
    marking. */
module CaDatabase {
  import opened Wrappers
  import opened Chars
  import opened Asn1Time
  import opened Calendar
  import opened SerialText
  import opened Revocation
  import TxtDb

  const FIELDS := 6
  const REVOKED := 'R'
  const EXPIRED := 'E'
  const VALID := 'V'

  /** One line of the index; `typ` is the status and only its first character counts. */
  datatype Row = Row(typ: string, expiry: string, revoked: string, serial: string, file: string, name: string)

  function TypeOf(r: Row): char {
    if r.typ == "" then '\0' else r.typ[0]
  }

  /** Writes one status character and a terminator. The fields of a loaded row lie back to back,
      so an empty status leaves room for the character only and the terminator falls on the expiry date. */
  function SetType(r: Row, c: char): Row {
    if r.typ == "" then r.(typ := [c], expiry := "") else r.(typ := [c])
  }

  function ToFields(r: Row): TxtDb.Fields {
    [r.typ, r.expiry, r.revoked, r.serial, r.file, r.name]
  }

  function FromFields(f: TxtDb.Fields): Row
    requires |f| == FIELDS
  {
    Row(f[0], f[1], f[2], f[3], f[4], f[5])
  }

  // ----- what a load accepts -----

  predicate RowOk(r: Row, objects: ObjectTable) {
    && (TypeOf(r) != REVOKED ==> r.revoked == "")
    && (TypeOf(r) == REVOKED ==> Unpack(r.revoked, objects).Some?)
    && TimeCheck(r.expiry)
    && SerialOk(r.serial)
  }

  predicate RowsOk(rows: seq<Row>, objects: ObjectTable) {
    forall i :: 0 <= i < |rows| ==> RowOk(rows[i], objects)
  }

  predicate SerialsDistinct(rows: seq<Row>) {
    forall i, j :: 0 <= i < j < |rows| ==> Key(rows[i].serial) != Key(rows[j].serial)
  }

  predicate Active(r: Row) { TypeOf(r) == VALID }

  predicate ActiveNamesDistinct(rows: seq<Row>) {
    forall i, j :: 0 <= i < j < |rows| && Active(rows[i]) && Active(rows[j]) ==> rows[i].name != rows[j].name
  }

  /** Every field check passes and both lookup indexes can be built. */
  predicate Acceptable(rows: seq<Row>, unique: bool, objects: ObjectTable) {
    RowsOk(rows, objects) && SerialsDistinct(rows) && (unique ==> ActiveNamesDistinct(rows))
  }

  function AllFields(rows: seq<Row>): (f: seq<TxtDb.Fields>)
    ensures |f| == |rows| && TxtDb.AllNonempty(f)
    ensures forall i :: 0 <= i < |rows| ==> f[i] == ToFields(rows[i])
  {
    seq(|rows|, i requires 0 <= i < |rows| => ToFields(rows[i]))
  }

  function FromAll(f: seq<TxtDb.Fields>): (rows: seq<Row>)
    requires forall i :: 0 <= i < |f| ==> |f[i]| == FIELDS
    ensures |rows| == |f| && forall i :: 0 <= i < |f| ==> rows[i] == FromFields(f[i])
  {
    seq(|f|, i requires 0 <= i < |f| => FromFields(f[i]))
  }

  function Save(rows: seq<Row>): string {
    TxtDb.Write(AllFields(rows))
  }

  predicate RowStorable(r: Row) { TxtDb.Storable(ToFields(r), FIELDS) }

  predicate Storable(rows: seq<Row>) {
    forall i :: 0 <= i < |rows| ==> RowStorable(rows[i])
  }

  /** The start of every run: parse the file, check the fields, build the indexes. */
  function Load(text: string, unique: bool, objects: ObjectTable): Option<seq<Row>> {
    var f := TxtDb.Read(text, FIELDS);
    if f.None? || (exists i :: 0 <= i < |f.value| && |f.value[i]| != FIELDS) then None
    else
      var rows := FromAll(f.value);
      if Acceptable(rows, unique, objects) then Some(rows) else None
  }

  lemma FieldsAreRows(rows: seq<Row>, f: seq<TxtDb.Fields>)
    requires forall i :: 0 <= i < |f| ==> |f[i]| == FIELDS
    ensures FromAll(f) == rows <==> f == AllFields(rows)
  {
    if FromAll(f) == rows {
      forall i | 0 <= i < |f| ensures f[i] == AllFields(rows)[i] {
        assert ToFields(FromFields(f[i])) == f[i];
      }
    }
    if f == AllFields(rows) {
      forall i | 0 <= i < |f| ensures FromAll(f)[i] == rows[i] {}
    }
  }

  lemma StorableFields(rows: seq<Row>)
    ensures Storable(rows) <==> TxtDb.AllStorable(AllFields(rows), FIELDS)
  {
    hide TxtDb.Storable;
    assert forall i :: 0 <= i < |rows| ==> (RowStorable(rows[i]) <==> TxtDb.Storable(AllFields(rows)[i], FIELDS));
  }

  /** A saved index loads again, unchanged, exactly when its rows are acceptable and storable. */
  lemma SavedLoadsExactly(rows: seq<Row>, unique: bool, objects: ObjectTable)
    ensures Load(Save(rows), unique, objects) == Some(rows)
       <==> Acceptable(rows, unique, objects) && Storable(rows)
  {
    hide Acceptable, Storable, TxtDb.AllStorable, TxtDb.Read, TxtDb.Write;
    var f := AllFields(rows);
    TxtDb.RoundTripExactly(f, FIELDS);
    StorableFields(rows);
    FieldsAreRows(rows, f);
    var g := TxtDb.Read(Save(rows), FIELDS);
    if g.Some? && Load(Save(rows), unique, objects) == Some(rows) {
      FieldsAreRows(rows, g.value);
    }
  }

  /** The name is on one line and the status does not look like a comment: true of every row the tool makes. */
  predicate WellShaped(r: Row) { '\n' !in r.name && (r.typ != "" ==> r.typ[0] != TxtDb.COMMENT) }

  /** A saved index of such rows loads unchanged or not at all. */
  lemma SavedLoadsOrIsRefused(rows: seq<Row>, unique: bool, objects: ObjectTable)
    requires forall i :: 0 <= i < |rows| ==> WellShaped(rows[i])
    ensures Load(Save(rows), unique, objects)
         == if Acceptable(rows, unique, objects) && Storable(rows) then Some(rows) else None
  {
    var f := AllFields(rows);
    forall i | 0 <= i < |f|
      ensures |f[i]| == FIELDS && '\n' !in f[i][FIELDS - 1] && (f[i][0] != "" ==> f[i][0][0] != TxtDb.COMMENT)
    {
      assert f[i] == ToFields(rows[i]);
    }
    TxtDb.UnchangedOrRefused(f, FIELDS);
    StorableFields(rows);
    hide Acceptable, Storable, TxtDb.AllStorable, TxtDb.Read, TxtDb.Write;
    FieldsAreRows(rows, f);
  }

  /** A loaded index can always be saved and loads to the same rows again. */
  lemma LoadedIsStorable(text: string, unique: bool, objects: ObjectTable)
    requires Load(text, unique, objects).Some?
    ensures Storable(Load(text, unique, objects).value)
    ensures Acceptable(Load(text, unique, objects).value, unique, objects)
  {
    TxtDb.ReadYieldsStorable(text, FIELDS);
    var f := TxtDb.Read(text, FIELDS).value;
    var rows := Load(text, unique, objects).value;
    forall i | 0 <= i < |rows| ensures RowStorable(rows[i]) {
      assert TxtDb.Storable(f[i], FIELDS) && ToFields(rows[i]) == f[i];
    }
  }

  // ----- the state between steps -----

  /** Rows with the names the name index still answers for: all active rows, and rows that were active when it was
      built. */
  datatype State = State(rows: seq<Row>, unique: bool, names: set<string>)

  function ActiveNames(rows: seq<Row>): set<string> {
    set i | 0 <= i < |rows| && Active(rows[i]) :: rows[i].name
  }

  function Fresh(rows: seq<Row>, unique: bool): State {
    State(rows, unique, if unique then ActiveNames(rows) else {})
  }

  /** A run keeps this after every step; it is what the next load needs. */
  predicate Good(s: State, objects: ObjectTable) {
    && Acceptable(s.rows, s.unique, objects)
    && (s.unique ==> ActiveNames(s.rows) <= s.names)
  }

  function Find(rows: seq<Row>, key: string): (r: Option<nat>)
    ensures r.Some? ==> r.value < |rows| && Key(rows[r.value].serial) == key
    ensures r.None? ==> forall i :: 0 <= i < |rows| ==> Key(rows[i].serial) != key
  {
    if rows == [] then None
    else if Key(rows[|rows| - 1].serial) == key then Some(|rows| - 1)
    else Find(rows[..|rows| - 1], key)
  }

  predicate CanInsert(s: State, r: Row) {
    && Find(s.rows, Key(r.serial)).None?
    && (s.unique && Active(r) ==> r.name !in s.names)
  }

  function Inserted(s: State, r: Row): State {
    State(s.rows + [r], s.unique, if s.unique && Active(r) then s.names + {r.name} else s.names)
  }

  lemma LookupIsUnique(rows: seq<Row>, i: nat)
    requires i < |rows| && SerialsDistinct(rows)
    ensures Find(rows, Key(rows[i].serial)) == Some(i)
  {
    var r := Find(rows, Key(rows[i].serial));
    if r.Some? && r.value < i {} else if r.Some? && i < r.value {}
  }

  /** A good state with one more row is good exactly when that row passes its own check. */
  lemma InsertKeepsGoodExactly(s: State, r: Row, objects: ObjectTable)
    requires Good(s, objects) && CanInsert(s, r)
    ensures var t := Inserted(s, r);
            && (Good(t, objects) <==> RowOk(r, objects))
            && SerialsDistinct(t.rows)
            && (t.unique ==> ActiveNamesDistinct(t.rows) && ActiveNames(t.rows) <= t.names)
  {
    hide RowOk, Key;
    var t := Inserted(s, r);
    assert t.rows[|s.rows|] == r && t.rows[..|s.rows|] == s.rows;
    if s.unique {
      forall i | 0 <= i < |s.rows| && Active(s.rows[i]) ensures s.rows[i].name in s.names {
        assert s.rows[i].name in ActiveNames(s.rows);
      }
      forall x | x in ActiveNames(t.rows) ensures x in t.names {
        var i :| 0 <= i < |t.rows| && Active(t.rows[i]) && t.rows[i].name == x;
        if i < |s.rows| { assert t.rows[i] == s.rows[i]; }
      }
    }
    if RowsOk(t.rows, objects) { assert RowOk(t.rows[|s.rows|], objects); }
  }

  // ----- expiry -----

  /** Order of two times; -2, which is not an order, for a time that cannot be moved to Greenwich. */
  function Compare(p: Parsed, now: int): int {
    if !Converts(p) then -2 else if Instant(p) > now then 1 else if Instant(p) < now then -1 else 0
  }

  /** What the loop takes for expired. */
  predicate Expires(r: Row, now: int) {
    Active(r) && TimeCheck(r.expiry) && Compare(ReadTime(r.expiry).value, now) <= 0
  }

  function Expire(r: Row, now: int): Row {
    if Expires(r, now) then SetType(r, EXPIRED) else r
  }

  function MarkExpired(rows: seq<Row>, now: int): (m: seq<Row>)
    ensures |m| == |rows|
    ensures forall i :: 0 <= i < |rows| ==> m[i] == Expire(rows[i], now)
  {
    seq(|rows|, i requires 0 <= i < |rows| => Expire(rows[i], now))
  }

  function CountExpired(rows: seq<Row>, now: int): nat {
    if rows == [] then 0
    else CountExpired(rows[..|rows| - 1], now) + if Expires(rows[|rows| - 1], now) then 1 else 0
  }

  lemma MarkOneMore(rows: seq<Row>, r: Row, now: int)
    ensures MarkExpired(rows + [r], now) == MarkExpired(rows, now) + [Expire(r, now)]
    ensures CountExpired(rows + [r], now) == CountExpired(rows, now) + if Expires(r, now) then 1 else 0
  {
    hide Expire, Expires;
    assert (rows + [r])[..|rows|] == rows;
  }

  /** Marking again later is the same as marking once later, and the two counts add up. */
  lemma {:induction false} MarkingTwice(rows: seq<Row>, now: int, later: int)
    requires now <= later
    ensures MarkExpired(MarkExpired(rows, now), later) == MarkExpired(rows, later)
    ensures CountExpired(rows, now) + CountExpired(MarkExpired(rows, now), later) == CountExpired(rows, later)
  {
    if rows != [] {
      var n := |rows| - 1;
      MarkingTwice(rows[..n], now, later);
      assert MarkExpired(rows, now)[..n] == MarkExpired(rows[..n], now);
    }
  }

  /** Right after marking no row would be marked again. */
  lemma MarkingLeavesNone(rows: seq<Row>, now: int)
    ensures CountExpired(MarkExpired(rows, now), now) == 0
    ensures forall i :: 0 <= i < |rows| ==> !Expires(MarkExpired(rows, now)[i], now)
  {
    MarkingTwice(rows, now, now);
  }

  // ----- whether the right rows are marked -----

  predicate PastDate(r: Row, now: int) {
    Active(r) && TimeCheck(r.expiry) && Instant(ReadTime(r.expiry).value) <= now
  }

  /** The date falls behind the year 9999, as it can in a zone west of Greenwich. */
  predicate BeyondYears(r: Row) {
    Active(r) && TimeCheck(r.expiry) && Instant(ReadTime(r.expiry).value) >= END
  }

  lemma ExpiresExactly(r: Row, now: int)
    requires FIRST <= now < END
    ensures Expires(r, now) <==> PastDate(r, now) || BeyondYears(r)
    ensures BeyondYears(r) ==> !PastDate(r, now)
  {
    if TimeCheck(r.expiry) {
      var p := ReadTime(r.expiry).value;
      ReadIsReadable(if UtcCheck(r.expiry) then Utc else Generalized, false, r.expiry);
      ConvertsExactly(p);
      ReadableInstants(p);
    }
    hide Instant, Converts, ReadTime;
  }

  /** A clock in the years 1900 to 9999 marks exactly the active rows past their date if and only if no active row
      has a date behind the year 9999. */
  lemma MarkingIsRightExactly(rows: seq<Row>, now: Tm)
    requires ValidTm(now) && 1900 <= now.year <= 9999
    ensures var at := Instant(Parsed(now, 0));
            (forall i :: 0 <= i < |rows| ==>
               MarkExpired(rows, at)[i] == if PastDate(rows[i], at) then SetType(rows[i], EXPIRED) else rows[i])
            <==> (forall i :: 0 <= i < |rows| ==> !BeyondYears(rows[i]))
  {
    ClockInstants(now);
    var at := Instant(Parsed(now, 0));
    forall i | 0 <= i < |rows|
      ensures MarkExpired(rows, at)[i] == (if PastDate(rows[i], at) then SetType(rows[i], EXPIRED) else rows[i])
         <==> !BeyondYears(rows[i])
    {
      ExpiresExactly(rows[i], at);
      assert Active(rows[i]) ==> SetType(rows[i], EXPIRED) != rows[i];
      hide Expires, PastDate, BeyondYears;
    }
    hide PastDate, BeyondYears, MarkExpired;
  }

  /** A row of a certificate that ends in the year 10000 passes its check and is marked expired whatever the clock
      says. */
  lemma WestRowIsMarked(r: Row, now: int, objects: ObjectTable)
    requires Active(r) && r.expiry == WEST && r.revoked == "" && SerialOk(r.serial)
    ensures RowOk(r, objects) && Expires(r, now) && Instant(ReadTime(r.expiry).value) >= END
  {
    LastSecondOfTheWest();
    hide ReadTime, Instant, Converts, Unpack;
    assert TimeCheck(WEST);
  }

  lemma ExpireKeeps(r: Row, now: int, objects: ObjectTable)
    ensures var e := Expire(r, now);
            && e.serial == r.serial && e.name == r.name
            && (Active(e) ==> e == r)
            && (RowOk(r, objects) ==> RowOk(e, objects))
            && (RowStorable(r) ==> RowStorable(e))
  {
    hide TimeCheck, SerialOk, Unpack, ReadTime, Instant;
    var f, g := ToFields(r), ToFields(Expire(r, now));
    assert forall k :: 1 <= k < FIELDS ==> g[k] == f[k];
  }

  lemma MarkingKeepsGood(s: State, now: int, objects: ObjectTable)
    requires Good(s, objects)
    ensures Good(s.(rows := MarkExpired(s.rows, now)), objects)
    ensures Storable(s.rows) ==> Storable(MarkExpired(s.rows, now))
  {
    hide RowOk, RowStorable, Expire, Key;
    var m := MarkExpired(s.rows, now);
    forall i | 0 <= i < |m|
      ensures m[i].serial == s.rows[i].serial && (Active(m[i]) ==> m[i] == s.rows[i])
      ensures RowOk(m[i], objects) && (RowStorable(s.rows[i]) ==> RowStorable(m[i]))
    {
      ExpireKeeps(s.rows[i], now, objects);
    }
    forall x | x in ActiveNames(m) ensures x in ActiveNames(s.rows) {
      var i :| 0 <= i < |m| && Active(m[i]) && m[i].name == x;
      assert Active(s.rows[i]);
    }
  }

  // ----- the lookup indexes -----

  ghost predicate SerialIndexOk(rows: seq<Row>, index: map<string, nat>) {
    && (forall i :: 0 <= i < |rows| ==> Key(rows[i].serial) in index && index[Key(rows[i].serial)] == i)
    && (forall k :: k in index ==> index[k] < |rows| && Key(rows[index[k]].serial) == k)
  }

  /** Every active row is found under its name; rows that are no longer active may still be found. */
  ghost predicate NameIndexOk(rows: seq<Row>, index: map<string, nat>) {
    && (forall i :: 0 <= i < |rows| && Active(rows[i]) ==> rows[i].name in index && index[rows[i].name] == i)
    && (forall n :: n in index ==> index[n] < |rows| && rows[index[n]].name == n)
  }

  method BuildSerialIndex(rows: seq<Row>) returns (ok: bool, index: map<string, nat>)
    ensures ok <==> SerialsDistinct(rows)
    ensures ok ==> SerialIndexOk(rows, index)
  {
    hide Key;
    index := map[];
    for i := 0 to |rows|
      invariant SerialIndexOk(rows[..i], index)
    {
      var key := Key(rows[i].serial);
      if key in index {
        assert rows[..i][index[key]] == rows[index[key]];
        return false, index;
      }
      index := index[key := i];
    }
    assert rows[..|rows|] == rows;
    return true, index;
  }

  method BuildNameIndex(rows: seq<Row>) returns (ok: bool, index: map<string, nat>)
    ensures ok <==> ActiveNamesDistinct(rows)
    ensures ok ==> NameIndexOk(rows, index) && index.Keys == ActiveNames(rows)
  {
    hide Active;
    index := map[];
    for i := 0 to |rows|
      invariant NameIndexOk(rows[..i], index)
      invariant forall n :: n in index ==> Active(rows[index[n]])
    {
      if Active(rows[i]) {
        var name := rows[i].name;
        if name in index {
          assert rows[..i][index[name]] == rows[index[name]];
          return false, index;
        }
        index := index[name := i];
      }
    }
    assert rows[..|rows|] == rows;
    forall n ensures n in index.Keys <==> n in ActiveNames(rows) {
      if n in ActiveNames(rows) { var j :| 0 <= j < |rows| && Active(rows[j]) && rows[j].name == n; }
    }
    return true, index;
  }

  lemma InsertKeepsIndexes(rows: seq<Row>, serials: map<string, nat>, names: map<string, nat>, r: Row)
    requires SerialIndexOk(rows, serials) && Key(r.serial) !in serials
    ensures SerialIndexOk(rows + [r], serials[Key(r.serial) := |rows|])
    ensures NameIndexOk(rows, names) && r.name !in names ==> NameIndexOk(rows + [r], names[r.name := |rows|])
    ensures NameIndexOk(rows, names) && !Active(r) ==> NameIndexOk(rows + [r], names)
  {
    hide Key, Active;
  }

  /** Rows after some of them were marked expired: found under the same keys as before. */
  predicate MarkedFrom(was: seq<Row>, rows: seq<Row>) {
    |rows| == |was| && forall i :: 0 <= i < |rows| ==> rows[i] == was[i] || rows[i] == SetType(was[i], EXPIRED)
  }

  lemma MarkedKeepIndexes(was: seq<Row>, rows: seq<Row>, serials: map<string, nat>, names: map<string, nat>)
    requires MarkedFrom(was, rows)
    ensures SerialIndexOk(was, serials) ==> SerialIndexOk(rows, serials)
    ensures NameIndexOk(was, names) ==> NameIndexOk(rows, names)
  {
    hide Key;
    assert forall i :: 0 <= i < |rows| ==> rows[i].serial == was[i].serial && rows[i].name == was[i].name;
    assert forall i :: 0 <= i < |rows| && Active(rows[i]) ==> rows[i] == was[i];
  }

  lemma ReplaceFirst(m: seq<Row>, r: seq<Row>, x: Row)
    requires r != []
    ensures (m + r)[|m|] == r[0] && (m + r)[|m| := x] == m + [x] + r[1..]
    ensures m + r == m + [r[0]] + r[1..]
  {
  }

  lemma HalfMarked(was: seq<Row>, i: nat, at: int)
    requires i <= |was|
    ensures MarkedFrom(was, MarkExpired(was[..i], at) + was[i..])
  {
    hide Expires, SetType;
  }

  /** The loop over the rows: each one read is either left or overwritten in place. */
  method MarkRows(was: seq<Row>, at: int) returns (rows: seq<Row>, count: int)
    ensures MarkedFrom(was, rows)
    ensures (forall i :: 0 <= i < |was| && Active(was[i]) ==> TimeCheck(was[i].expiry)) ==>
              rows == MarkExpired(was, at) && count == CountExpired(was, at)
    ensures !(forall i :: 0 <= i < |was| && Active(was[i]) ==> TimeCheck(was[i].expiry)) ==> count == -1
  {
    hide ReadTime, SetType, Compare;
    rows, count := was, 0;
    assert MarkExpired(was[..0], at) + was[0..] == was;
    for i := 0 to |was|
      invariant rows == MarkExpired(was[..i], at) + was[i..] && count == CountExpired(was[..i], at)
      invariant forall j :: 0 <= j < i && Active(was[j]) ==> TimeCheck(was[j].expiry)
    {
      ghost var done := MarkExpired(was[..i], at);
      ReplaceFirst(done, was[i..], Expire(was[i], at));
      MarkOneMore(was[..i], was[i], at);
      assert was[..i + 1] == was[..i] + [was[i]] && was[i..][1..] == was[i + 1..];
      hide MarkExpired, CountExpired;
      if Active(rows[i]) {
        if !TimeCheck(rows[i].expiry) {
          HalfMarked(was, i, at);
          return rows, -1;
        }
        if Compare(ReadTime(rows[i].expiry).value, at) <= 0 {
          rows := rows[i := SetType(rows[i], EXPIRED)];
          count := count + 1;
        }
      }
    }
    HalfMarked(was, |was|, at);
    assert was[..|was|] == was && was[|was|..] == [] && MarkExpired(was, at) + [] == MarkExpired(was, at);
  }

  // ----- the database object -----

  class CaDb {
    var rows: seq<Row>
    var unique: bool
    var serialIndex: map<string, nat>
    var nameIndex: map<string, nat>

    constructor (rows: seq<Row>, unique: bool)
      ensures this.rows == rows && this.unique == unique && serialIndex == map[] && nameIndex == map[]
    {
      this.rows, this.unique, serialIndex, nameIndex := rows, unique, map[], map[];
    }

    /** Both indexes point at rows with the key asked for, and every row that must be found is. */
    ghost predicate Indexed()
      reads this
    {
      && SerialIndexOk(rows, serialIndex)
      && (if unique then NameIndexOk(rows, nameIndex) else nameIndex == map[])
    }

    function Value(): State
      reads this
    {
      State(rows, unique, nameIndex.Keys)
    }

    /** The field checks of the load; the number of the first bad row is reported. */
    method CheckRows(objects: ObjectTable) returns (bad: Option<nat>)
      ensures bad.None? <==> RowsOk(rows, objects)
      ensures bad.Some? ==> bad.value < |rows| && !RowOk(rows[bad.value], objects) && RowsOk(rows[..bad.value], objects)
    {
      hide TimeCheck, Unpack, AllHex;
      for i := 0 to |rows|
        invariant RowsOk(rows[..i], objects)
      {
        var r := rows[i];
        if TypeOf(r) != REVOKED && r.revoked != "" { return Some(i); }
        if TypeOf(r) == REVOKED {
          var info := UnpackRevinfo(r.revoked, objects);
          if info.None? { return Some(i); }
        }
        if !TimeCheck(r.expiry) { return Some(i); }
        var p := r.serial;
        if p != "" && p[0] == '-' { p := p[1..]; }
        if |p| % 2 == 1 || |p| < 2 || !AllHex(p) { return Some(i); }
        assert rows[..i + 1] == rows[..i] + [r];
      }
      assert rows[..|rows|] == rows;
      return None;
    }

    /** Builds both lookup indexes; a clash in either one is an error. */
    method BuildIndex() returns (ok: bool)
      modifies this`serialIndex, this`nameIndex
      ensures ok <==> SerialsDistinct(rows) && (unique ==> ActiveNamesDistinct(rows))
      ensures ok ==> Indexed() && Value() == Fresh(rows, unique)
    {
      ok, serialIndex := BuildSerialIndex(rows);
      nameIndex := map[];
      if ok && unique {
        ok, nameIndex := BuildNameIndex(rows);
      }
    }

    /** Lookup by serial key through the index. */
    method GetBySerial(serial: string) returns (r: Option<nat>)
      requires Indexed()
      ensures r == Find(rows, Key(serial))
    {
      var key := Key(serial);
      if key in serialIndex { r := Some(serialIndex[key]); } else { r := None; }
    }

    /** Appends a row unless one of the indexes already answers for it. */
    method Insert(r: Row) returns (ok: bool)
      requires Indexed()
      modifies this
      ensures Indexed()
      ensures ok <==> CanInsert(old(Value()), r)
      ensures Value() == if ok then Inserted(old(Value()), r) else old(Value())
    {
      var found := GetBySerial(r.serial);
      if found.Some? { return false; }
      if unique && Active(r) && r.name in nameIndex { return false; }
      InsertKeepsIndexes(rows, serialIndex, nameIndex, r);
      serialIndex := serialIndex[Key(r.serial) := |rows|];
      if unique && Active(r) { nameIndex := nameIndex[r.name := |rows|]; }
      rows := rows + [r];
      return true;
    }

    /** Marks every active row past its date; stops with -1 at a date that cannot be read. */
    method UpdateDb(now: Tm) returns (count: int)
      requires Indexed()
      modifies this`rows
      ensures Indexed()
      ensures (forall i :: 0 <= i < |old(rows)| && Active(old(rows)[i]) ==> TimeCheck(old(rows)[i].expiry)) ==>
                rows == MarkExpired(old(rows), Instant(Parsed(now, 0)))
                && count == CountExpired(old(rows), Instant(Parsed(now, 0)))
      ensures !(forall i :: 0 <= i < |old(rows)| && Active(old(rows)[i]) ==> TimeCheck(old(rows)[i].expiry)) ==>
                count == -1
    {
      hide SerialIndexOk, NameIndexOk, Instant, MarkExpired, CountExpired, TimeCheck;
      var marked;
      marked, count := MarkRows(rows, Instant(Parsed(now, 0)));
      MarkedKeepIndexes(rows, marked, serialIndex, nameIndex);
      rows := marked;
    }

    /** The answer to a status request: the status character of the row with that serial number. */
    method CertificateStatus(query: string) returns (status: Option<char>)
      requires Indexed()
      ensures var r := Find(rows, Key(StatusQuery(query)));
              status == if r.Some? && TypeOf(rows[r.value]) in {VALID, REVOKED, EXPIRED, 'S'}
                        then Some(TypeOf(rows[r.value])) else None
    {
      var r := GetBySerial(StatusQuery(query));
      if r.None? { return None; }
      var t := TypeOf(rows[r.value]);
      if t == VALID || t == REVOKED || t == EXPIRED || t == 'S' { return Some(t); }
      return None;
    }
  }

  predicate PlainSerials(rows: seq<Row>) {
    forall i :: 0 <= i < |rows| ==> SerialOk(rows[i].serial) && Plain(rows[i].serial)
  }

  /** In an index of plain serials, such as the tool prints, a status request finds exactly the row with that number,
      if a request with a sign has whole bytes without a zero byte in front. */
  lemma StatusFindsByNumber(rows: seq<Row>, query: string, i: nat)
    requires SerialsDistinct(rows) && PlainSerials(rows) && i < |rows| && IsNumber(query)
    ensures Find(rows, Key(StatusQuery(query))) == Some(i)
       <==> SerialValue(rows[i].serial) == Number(query) && WholeWhenSigned(query)
  {
    StatusMatchesExactly(query, rows[i].serial);
    if Key(StatusQuery(query)) == Key(rows[i].serial) { LookupIsUnique(rows, i); }
  }
}
