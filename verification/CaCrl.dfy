/** Generating a revocation list from the index: one entry for each revoked row, in serial order. */
module CaCrl {
  import opened Wrappers
  import opened Asn1Time
  import opened Calendar
  import opened SerialText
  import opened Revocation
  import opened CaDatabase
  import opened CaRevoke

  /** A revoked certificate as it stands in the list. */
  datatype Entry = Entry(serial: int, info: Info)

  datatype Crl = Crl(entries: seq<Entry>, version2: bool, number: Option<int>)

  /** An entry has extensions: a reason, and with it possibly a hold instruction or a compromise time. */
  predicate HasExtensions(e: Entry) {
    e.info.reason != NO_STATUS || e.info.hold.Some? || e.info.compromised.Some?
  }

  function EntryOf(r: Row, objects: ObjectTable): Entry
    requires TypeOf(r) == REVOKED && RowOk(r, objects)
  {
    Entry(SerialValue(r.serial), Unpack(r.revoked, objects).value)
  }

  /** Entries in index order. */
  function EntriesOf(rows: seq<Row>, objects: ObjectTable): seq<Entry>
    requires RowsOk(rows, objects)
  {
    if rows == [] then []
    else
      EntriesOf(rows[..|rows| - 1], objects)
      + if TypeOf(rows[|rows| - 1]) == REVOKED then [EntryOf(rows[|rows| - 1], objects)] else []
  }

  // ----- sorting -----

  function Abs(n: int): nat { if n < 0 then -n else n }

  /** Order of the encoded numbers: by magnitude, and of two equal ones the negative last. */
  predicate Before(a: Entry, b: Entry) {
    Abs(a.serial) < Abs(b.serial) || (Abs(a.serial) == Abs(b.serial) && a.serial >= b.serial)
  }

  predicate Sorted(es: seq<Entry>) { forall i, j :: 0 <= i < j < |es| ==> Before(es[i], es[j]) }

  function InsertSorted(es: seq<Entry>, e: Entry): seq<Entry> {
    if es == [] then [e]
    else if Before(es[|es| - 1], e) then es + [e]
    else InsertSorted(es[..|es| - 1], e) + [es[|es| - 1]]
  }

  function Sort(es: seq<Entry>): seq<Entry> {
    if es == [] then [] else InsertSorted(Sort(es[..|es| - 1]), es[|es| - 1])
  }

  lemma {:induction false} InsertKeepsSorted(es: seq<Entry>, e: Entry)
    requires Sorted(es)
    ensures Sorted(InsertSorted(es, e)) && multiset(InsertSorted(es, e)) == multiset(es) + multiset{e}
  {
    if es != [] {
      var n := |es| - 1;
      assert es == es[..n] + [es[n]];
      if !Before(es[n], e) {
        InsertKeepsSorted(es[..n], e);
        var r := InsertSorted(es[..n], e);
        forall i | 0 <= i < |r| ensures Before(r[i], es[n]) {
          assert r[i] in multiset(r);
          if r[i] != e { assert r[i] in es[..n]; }
        }
      }
    }
  }

  lemma {:induction false} SortSorts(es: seq<Entry>)
    ensures Sorted(Sort(es)) && multiset(Sort(es)) == multiset(es)
  {
    hide Sorted, InsertSorted;
    if es == [] {
      NothingIsSorted();
    } else {
      var n := |es| - 1;
      SortSorts(es[..n]);
      InsertKeepsSorted(Sort(es[..n]), es[n]);
      assert es == es[..n] + [es[n]];
    }
  }

  lemma NothingIsSorted()
    ensures Sorted([])
  {
  }

  // ----- the list -----

  /** Reads a revocation field: 0 for an error, 2 when the entry has extensions, else 1. */
  method MakeRevoked(text: string, objects: ObjectTable) returns (code: nat, info: Option<Info>)
    ensures info == Unpack(text, objects)
    ensures code == if info.None? then 0 else if info.value.reason != NO_STATUS then 2 else 1
  {
    info := UnpackRevinfo(text, objects);
    code := if info.None? then 0 else if info.value.reason != NO_STATUS then 2 else 1;
  }

  /** The loop over the rows, the sort, and the version. On rows a load has accepted it cannot fail. */
  method GenCrl(rows: seq<Row>, crlExtensions: bool, number: Option<int>, objects: ObjectTable)
    returns (crl: Option<Crl>)
    requires RowsOk(rows, objects)
    ensures crl.Some?
    ensures Sorted(crl.value.entries) && multiset(crl.value.entries) == multiset(EntriesOf(rows, objects))
    ensures crl.value.version2
       <==> crlExtensions || number.Some? || exists e :: e in crl.value.entries && HasExtensions(e)
    ensures crl.value.number == number && |crl.value.entries| == CountRevoked(rows)
  {
    hide RowOk, Unpack, SerialValue, SerialOk;
    var entries: seq<Entry> := [];
    var version2 := false;
    for i := 0 to |rows|
      invariant RowsOk(rows[..i], objects) && entries == EntriesOf(rows[..i], objects)
      invariant version2 <==> exists e :: e in entries && HasExtensions(e)
    {
      assert rows[..i + 1][..i] == rows[..i] && rows[..i + 1][i] == rows[i];
      assert RowOk(rows[i], objects);
      if TypeOf(rows[i]) == REVOKED {
        ReadableWhenOk(rows[i], objects);
        var code, info := MakeRevoked(rows[i].revoked, objects);
        if code == 0 { return None; }
        OnlyReasonMatters(rows[i].revoked, objects);
        if code == 2 { version2 := true; }
        var e := Entry(SerialValue(rows[i].serial), info.value);
        assert e == EntryOf(rows[i], objects);
        assert forall x :: x in entries + [e] <==> x in entries || x == e;
        entries := entries + [e];
      }
    }
    assert rows[..|rows|] == rows;
    SortSorts(entries);
    OneEntryForEachRow(rows, objects);
    var sorted := Sort(entries);
    SameMembers(sorted, entries);
    assert |multiset(sorted)| == |multiset(entries)|;
    if crlExtensions || number.Some? { version2 := true; }
    return Some(Crl(sorted, version2, number));
  }

  lemma SameMembers(a: seq<Entry>, b: seq<Entry>)
    requires multiset(a) == multiset(b)
    ensures forall e :: e in a <==> e in b
  {
    forall e ensures e in a <==> e in b {
      assert e in a <==> e in multiset(a);
      assert e in b <==> e in multiset(b);
    }
  }

  lemma ReadableWhenOk(r: Row, objects: ObjectTable)
    requires RowOk(r, objects) && TypeOf(r) == REVOKED
    ensures Unpack(r.revoked, objects).Some? && SerialOk(r.serial)
  {
    hide Unpack, SerialOk;
  }

  /** A hold instruction or a compromise time never stands without a reason. */
  lemma OnlyReasonMatters(text: string, objects: ObjectTable)
    requires Unpack(text, objects).Some?
    ensures var info := Unpack(text, objects).value;
            forall n :: HasExtensions(Entry(n, info)) <==> info.reason != NO_STATUS
  {
    hide UtcCheck, GeneralizedCheck, ReasonIndex;
  }

  /** The entries are the revoked rows: an entry is there exactly when a revoked row with its number and meaning is. */
  lemma {:induction false} EntriesAreRevokedRows(rows: seq<Row>, e: Entry, objects: ObjectTable)
    requires RowsOk(rows, objects)
    ensures e in EntriesOf(rows, objects)
       <==> exists i :: 0 <= i < |rows| && TypeOf(rows[i]) == REVOKED && EntryOf(rows[i], objects) == e
  {
    hide RowOk, EntryOf;
    if rows != [] {
      var n := |rows| - 1;
      EntriesAreRevokedRows(rows[..n], e, objects);
      assert forall i :: 0 <= i < n ==> rows[..n][i] == rows[i];
      if i :| 0 <= i < |rows| && TypeOf(rows[i]) == REVOKED && EntryOf(rows[i], objects) == e {
        if i < n { assert EntryOf(rows[..n][i], objects) == e; }
      }
      if i :| 0 <= i < n && TypeOf(rows[..n][i]) == REVOKED && EntryOf(rows[..n][i], objects) == e {
        assert EntryOf(rows[i], objects) == e;
      }
    }
  }

  function CountRevoked(rows: seq<Row>): nat {
    if rows == [] then 0 else CountRevoked(rows[..|rows| - 1]) + if TypeOf(rows[|rows| - 1]) == REVOKED then 1 else 0
  }

  /** There are as many entries as revoked rows. */
  lemma {:induction false} OneEntryForEachRow(rows: seq<Row>, objects: ObjectTable)
    requires RowsOk(rows, objects)
    ensures |EntriesOf(rows, objects)| == CountRevoked(rows)
  {
    hide RowOk, EntryOf;
    if rows != [] { OneEntryForEachRow(rows[..|rows| - 1], objects); }
  }

  predicate NumbersDiffer(es: seq<Entry>) { forall i, j :: 0 <= i < j < |es| ==> es[i].serial != es[j].serial }

  /** In an index of plain serials no two entries have one number, so entries and revoked rows stand one to one. */
  lemma {:induction false} EntriesHaveTheirOwnNumbers(rows: seq<Row>, objects: ObjectTable)
    requires RowsOk(rows, objects) && SerialsDistinct(rows) && PlainSerials(rows)
    ensures NumbersDiffer(EntriesOf(rows, objects))
  {
    hide RowOk, Plain, SerialOk, SerialValue, Key;
    if rows != [] {
      var n := |rows| - 1;
      EntriesHaveTheirOwnNumbers(rows[..n], objects);
      var es := EntriesOf(rows[..n], objects);
      if TypeOf(rows[n]) == REVOKED {
        forall i | 0 <= i < |es| ensures es[i].serial != EntryOf(rows[n], objects).serial {
          EntriesAreRevokedRows(rows[..n], es[i], objects);
          var k :| 0 <= k < n && TypeOf(rows[..n][k]) == REVOKED && EntryOf(rows[..n][k], objects) == es[i];
          PlainKeysAreNumbers(rows[k].serial, rows[n].serial);
        }
      }
    }
  }

  /** From the command line to the list: a certificate revoked by the tool is listed with its own number
      and with exactly the reason, hold instruction and compromise time the user gave. */
  lemma RevokedIsListed(s: State, c: Cert, now: Tm, request: Request, objects: ObjectTable)
    requires ValidTm(now) && 0 <= now.year <= 9999 && !request.Valid?
    requires Good(s, objects) && Revoke(s, c, Print(now), request, objects).0
    requires Good(Revoke(s, c, Print(now), request, objects).1, objects)
    ensures Entry(c.serial, Meaning(Print(now), request, objects))
         in EntriesOf(Revoke(s, c, Print(now), request, objects).1.rows, objects)
  {
    var t := Revoke(s, c, Print(now), request, objects).1;
    var i := RevokeEffect(s, c, Print(now), request, objects);
    assert RowOk(t.rows[i], objects);
    ClockFieldReadsBackExactly(now, request, objects);
    SerialHexReads(c.serial);
    assert IsRowOf(t.rows[i], c);
    SameKeySameValue(t.rows[i].serial, SerialHex(c.serial));
    EntriesAreRevokedRows(t.rows, Entry(c.serial, Meaning(Print(now), request, objects)), objects);
    hide Revoke, Unpack, Key, SerialOk, Print, Parts, Join, Meaning, SerialValue, SerialHex, Interpret;
    assert EntryOf(t.rows[i], objects) == Entry(c.serial, Meaning(Print(now), request, objects));
  }
}
