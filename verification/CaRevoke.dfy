/** Revoking a certificate: find its row by serial number, insert the row first when it is missing, then mark it. */
module CaRevoke {
  import opened Wrappers
  import opened Asn1Time
  import opened Calendar
  import opened SerialText
  import opened Revocation
  import opened CaDatabase

  /** What revocation reads from a certificate; an empty subject is replaced by the serial number. */
  datatype Cert = Cert(subject: string, serial: int, notAfter: string)

  function RowName(c: Cert): string {
    if c.subject == "" then SerialHex(c.serial) else c.subject
  }

  function NewRow(c: Cert): Row {
    Row([VALID], c.notAfter, "", SerialHex(c.serial), "unknown", RowName(c))
  }

  function RevokedRow(r: Row, text: string): Row {
    SetType(r, REVOKED).(revoked := text)
  }

  /** Success flag and state in memory after an attempt on the row at `i`. */
  function RevokeAt(s: State, i: nat, c: Cert, now: string, request: Request, objects: ObjectTable): (bool, State)
    requires i < |s.rows|
  {
    if || s.rows[i].name != RowName(c) || request.Valid?
       || TypeOf(s.rows[i]) == REVOKED || Parts(request, objects).None? then
      (false, s)
    else
      (true, s.(rows := s.rows[i := RevokedRow(s.rows[i], Join(now, Parts(request, objects).value))]))
  }

  function Revoke(s: State, c: Cert, now: string, request: Request, objects: ObjectTable): (bool, State) {
    var i := Find(s.rows, Key(SerialHex(c.serial)));
    if i.Some? then RevokeAt(s, i.value, c, now, request, objects)
    else if !CanInsert(s, NewRow(c)) then (false, s)
    else if request.Valid? then (true, Inserted(s, NewRow(c)))
    else RevokeAt(Inserted(s, NewRow(c)), |s.rows|, c, now, request, objects)
  }

  lemma FoundAfterInsert(s: State, r: Row)
    requires Find(s.rows, Key(r.serial)).None?
    ensures Find(Inserted(s, r).rows, Key(r.serial)) == Some(|s.rows|)
  {
  }

  /** Calls itself once after an insertion; the second call finds the row. */
  method DoRevoke(db: CaDb, c: Cert, now: string, request: Request, objects: ObjectTable) returns (ok: bool)
    requires db.Indexed()
    modifies db
    ensures db.Indexed()
    ensures (ok, db.Value()) == Revoke(old(db.Value()), c, now, request, objects)
    decreases if Find(db.rows, Key(SerialHex(c.serial))).None? then 1 else 0
  {
    hide Parts, Key, Join, SerialIndexOk, NameIndexOk;
    ghost var s := db.Value();
    var row := NewRow(c);
    var found := db.GetBySerial(row.serial);
    if found.None? {
      var inserted := db.Insert(row);
      if !inserted { return false; }
      FoundAfterInsert(s, row);
      if request.Valid? { return true; }
      ok := DoRevoke(db, c, now, request, objects);
      return;
    }
    var i := found.value;
    if row.name != db.rows[i].name { return false; }
    if request.Valid? { return false; }
    if TypeOf(db.rows[i]) == REVOKED { return false; }
    var text, _ := MakeRevocationStr(now, request, objects);
    if text.None? { return false; }
    RevokedRowKeepsIndexes(db.rows, db.serialIndex, db.nameIndex, i, text.value);
    db.rows := db.rows[i := RevokedRow(db.rows[i], text.value)];
    return true;
  }

  lemma RevokedRowKeepsIndexes(rows: seq<Row>, serials: map<string, nat>, names: map<string, nat>, i: nat, text: string)
    requires i < |rows|
    ensures SerialIndexOk(rows, serials) ==> SerialIndexOk(rows[i := RevokedRow(rows[i], text)], serials)
    ensures NameIndexOk(rows, names) ==> NameIndexOk(rows[i := RevokedRow(rows[i], text)], names)
  {
    hide Key;
  }

  // ----- what a successful revocation leaves -----

  /** Rows of the certificate. */
  predicate IsRowOf(r: Row, c: Cert) { Key(r.serial) == Key(SerialHex(c.serial)) }

  /** After success with anything but -valid: exactly one row has the serial number, it is revoked with the text
      asked for, every other row is as before, and at most one row was added, at the end. */
  lemma RevokeEffect(s: State, c: Cert, now: string, request: Request, objects: ObjectTable) returns (i: nat)
    requires SerialsDistinct(s.rows) && !request.Valid?
    requires Revoke(s, c, now, request, objects).0
    ensures var t := Revoke(s, c, now, request, objects).1;
            && |s.rows| <= |t.rows| <= |s.rows| + 1
            && i < |t.rows| && (|t.rows| > |s.rows| ==> i == |s.rows|)
            && (forall j :: 0 <= j < |t.rows| ==> (IsRowOf(t.rows[j], c) <==> j == i))
            && TypeOf(t.rows[i]) == REVOKED && t.rows[i].name == RowName(c)
            && Parts(request, objects).Some? && t.rows[i].revoked == Join(now, Parts(request, objects).value)
            && (forall j :: 0 <= j < |s.rows| && j != i ==> t.rows[j] == s.rows[j])
            && (|t.rows| == |s.rows| <==> exists j :: 0 <= j < |s.rows| && IsRowOf(s.rows[j], c))
  {
    hide Parts, Key, Join;
    var f := Find(s.rows, Key(SerialHex(c.serial)));
    if f.Some? {
      i := f.value;
      assert IsRowOf(s.rows[i], c);
      LookupIsUnique(s.rows, i);
    } else {
      i := |s.rows|;
    }
  }

  /** -valid succeeds only for a certificate that is not in the index, and then adds its row, active, at the end. */
  lemma AddValidEffect(s: State, c: Cert, now: string, objects: ObjectTable)
    ensures var r := Revoke(s, c, now, Valid, objects);
            && (r.0 ==> forall j :: 0 <= j < |s.rows| ==> !IsRowOf(s.rows[j], c))
            && (r.0 ==> r.1.rows == s.rows + [NewRow(c)] && Active(NewRow(c)) && IsRowOf(NewRow(c), c))
            && (!r.0 ==> r.1 == s)
  {
    hide Parts, Key, Join;
  }

  /** A second revocation of the same certificate is always refused and changes nothing. */
  lemma RevokeTwiceRefused(s: State, c: Cert, now: string, request: Request, objects: ObjectTable,
                           later: string, again: Request)
    requires SerialsDistinct(s.rows) && !request.Valid?
    requires Revoke(s, c, now, request, objects).0
    ensures var t := Revoke(s, c, now, request, objects).1; Revoke(t, c, later, again, objects) == (false, t)
  {
    hide Parts, Key, Join;
    var i := RevokeEffect(s, c, now, request, objects);
    var t := Revoke(s, c, now, request, objects).1;
    var f := Find(t.rows, Key(SerialHex(c.serial)));
    assert IsRowOf(t.rows[i], c);
    assert f.Some? && IsRowOf(t.rows[f.value], c);
  }

  // ----- whether the next run accepts what was left -----

  /** The row that will hold the certificate: the one found, or the one to be inserted. */
  function Target(s: State, c: Cert): Row {
    var i := Find(s.rows, Key(SerialHex(c.serial)));
    if i.Some? then s.rows[i.value] else NewRow(c)
  }

  /** The state before the row is marked: the one given, or the one with the new row. */
  function WithRow(s: State, c: Cert): State {
    if Find(s.rows, Key(SerialHex(c.serial))).Some? then s else Inserted(s, NewRow(c))
  }

  /** A revoked row passes the load check exactly when its field can be read back, and its date and number are good. */
  lemma RevokedRowOkExactly(r: Row, now: string, request: Request, objects: ObjectTable)
    requires Parts(request, objects).Some? && NoComma(now)
    ensures RowOk(RevokedRow(r, Join(now, Parts(request, objects).value)), objects)
       <==> UtcCheck(now) && r.typ != "" && TimeCheck(r.expiry) && SerialOk(r.serial)
  {
    WrittenReadsBackExactly(now, request, objects);
    hide Parts, Join, Unpack, SerialOk;
    EmptyIsNoTime();
  }

  lemma EmptyIsNoTime()
    ensures !TimeCheck("")
  {
  }

  /** When the row was already there: a good state stays good exactly while the clock prints UTCTime
      and the row had a status character to overwrite. */
  lemma RevokeFoundKeepsGoodExactly(s: State, c: Cert, now: Tm, request: Request, objects: ObjectTable)
    requires ValidTm(now) && 0 <= now.year <= 9999
    requires Good(s, objects) && Find(s.rows, Key(SerialHex(c.serial))).Some?
    requires Revoke(s, c, Print(now), request, objects).0
    ensures Good(Revoke(s, c, Print(now), request, objects).1, objects)
       <==> UtcYear(now.year) && Target(s, c).typ != ""
  {
    PrintHasNoComma(now);
    PrintIsUtcExactly(now);
    var i := Find(s.rows, Key(SerialHex(c.serial))).value;
    assert RowOk(s.rows[i], objects);
    RevokedRowOkExactly(s.rows[i], Print(now), request, objects);
    MarkKeepsGoodExactly(s, i, Join(Print(now), Parts(request, objects).value), objects);
  }

  /** Replacing one row by its revoked form keeps a state good exactly when that row passes its check. */
  lemma MarkKeepsGoodExactly(s: State, i: nat, text: string, objects: ObjectTable)
    requires i < |s.rows| && SerialsDistinct(s.rows)
    requires s.unique ==> ActiveNamesDistinct(s.rows) && ActiveNames(s.rows) <= s.names
    requires forall j :: 0 <= j < |s.rows| && j != i ==> RowOk(s.rows[j], objects)
    ensures Good(s.(rows := s.rows[i := RevokedRow(s.rows[i], text)]), objects)
       <==> RowOk(RevokedRow(s.rows[i], text), objects)
  {
    hide RowOk, Key;
    var r := RevokedRow(s.rows[i], text);
    var m := s.rows[i := r];
    assert m[i] == r && !Active(r) && r.serial == s.rows[i].serial;
    assert forall j :: 0 <= j < |m| && Active(m[j]) ==> m[j] == s.rows[j];
    forall x | x in ActiveNames(m) ensures x in ActiveNames(s.rows) {
      var j :| 0 <= j < |m| && Active(m[j]) && m[j].name == x;
      assert Active(s.rows[j]);
    }
    if RowsOk(m, objects) { assert RowOk(m[i], objects); }
  }

  lemma PrintHasNoComma(now: Tm)
    requires ValidTm(now) && 0 <= now.year <= 9999
    ensures NoComma(Print(now))
  {
    PrintReadsBack(now);
    TimeCharacters(Print(now));
  }

  /** When the row had to be inserted first: the certificate's own expiry date must be readable too;
      for -valid it is the only thing that matters. */
  lemma RevokeInsertedKeepsGoodExactly(s: State, c: Cert, now: Tm, request: Request, objects: ObjectTable)
    requires ValidTm(now) && 0 <= now.year <= 9999
    requires Good(s, objects) && Find(s.rows, Key(SerialHex(c.serial))).None?
    requires Revoke(s, c, Print(now), request, objects).0
    ensures Good(Revoke(s, c, Print(now), request, objects).1, objects)
       <==> TimeCheck(c.notAfter) && (request.Valid? || UtcYear(now.year))
  {
    SerialHexReads(c.serial);
    var r := NewRow(c);
    var t := Inserted(s, r);
    NewRowOkExactly(c, objects);
    InsertKeepsGoodExactly(s, r, objects);
    if !request.Valid? {
      PrintHasNoComma(now);
      PrintIsUtcExactly(now);
      RevokedRowOkExactly(r, Print(now), request, objects);
      assert t.rows[|s.rows|] == r;
      MarkKeepsGoodExactly(t, |s.rows|, Join(Print(now), Parts(request, objects).value), objects);
    }
  }

  lemma NewRowOkExactly(c: Cert, objects: ObjectTable)
    ensures RowOk(NewRow(c), objects) <==> TimeCheck(c.notAfter)
  {
    hide TimeCheck, Unpack;
    SerialHexReads(c.serial);
  }

  /** Every successful run of -revoke or -valid, both cases in one statement. */
  lemma RevokeKeepsGoodExactly(s: State, c: Cert, now: Tm, request: Request, objects: ObjectTable)
    requires ValidTm(now) && 0 <= now.year <= 9999 && Good(s, objects)
    requires Revoke(s, c, Print(now), request, objects).0
    ensures Good(Revoke(s, c, Print(now), request, objects).1, objects)
       <==> && (request.Valid? || UtcYear(now.year))
            && Target(s, c).typ != "" && TimeCheck(Target(s, c).expiry)
  {
    if Find(s.rows, Key(SerialHex(c.serial))).Some? {
      RevokeFoundKeepsGoodExactly(s, c, now, request, objects);
      assert RowOk(Target(s, c), objects);
    } else {
      RevokeInsertedKeepsGoodExactly(s, c, now, request, objects);
    }
  }

  /** In 2050 the clock changes to GeneralizedTime: a plain revocation succeeds and the next load refuses the index. */
  lemma RevokingIn2050BreaksTheIndex(objects: ObjectTable)
    ensures var c := Cert("/CN=a", 1, Print(Tm(2049, 1, 1, 0, 0, 0)));
            var s := Fresh([NewRow(c)], true);
            var r := Revoke(s, c, Print(Tm(2050, 1, 1, 0, 0, 0)), NoInfo, objects);
            Good(s, objects) && r.0 && !Good(r.1, objects)
  {
    hide Print, TimeCheck, Unpack, SerialHex, Key, SerialOk;
    PrintReadsBack(Tm(2049, 1, 1, 0, 0, 0));
    var c := Cert("/CN=a", 1, Print(Tm(2049, 1, 1, 0, 0, 0)));
    TimeCheckIsReadTime(c.notAfter);
    NewRowOkExactly(c, objects);
    var s := Fresh([NewRow(c)], true);
    LookupIsUnique(s.rows, 0);
    RevokeFoundKeepsGoodExactly(s, c, Tm(2050, 1, 1, 0, 0, 0), NoInfo, objects);
  }

  lemma TimeCheckIsReadTime(s: string)
    ensures TimeCheck(s) <==> ReadTime(s).Some?
  {
    hide ReadTime;
  }
}
