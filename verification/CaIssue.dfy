/** Issuing certificates: one request, and a batch of requests from the four sources of one run. */
module CaIssue {
  import opened Wrappers
  import opened Asn1Time
  import opened Calendar
  import opened SerialText
  import opened Revocation
  import opened CaDatabase
  import opened CaNames

  /** When the certificates of a run end: a date given by the user, or a number of days from now. */
  datatype Expiry = EndDate(text: string) | Days(end: Tm)

  function ExpiryText(e: Expiry): Option<string> {
    match e
    case EndDate(text) => StrictText(text)
    case Days(end) => if ValidTm(end) && 1900 <= end.year <= 9999 then Some(Print(end)) else None
  }

  /** What holds for all requests of a run; `fields` is the table of registered objects the policy lines are looked
      up in. */
  datatype Setup = Setup(
    policy: seq<Field>,
    ca: Name,
    preserve: bool,
    emailDn: bool,
    email: Oid,
    batch: bool,
    expiry: Expiry,
    fields: ObjectTable,
    labels: Labels)

  datatype Source = Spkac | SelfSignedCert | Csr(selfSign: bool)

  datatype Verdict = Good | Bad | Trouble

  /** One request: whether it can be read, the checks made on it, its name, and the answers that come from outside. */
  datatype Request = Request(
    source: Source,
    readable: bool,
    keyMatches: bool,
    signature: Verdict,
    entriesOk: bool,
    name: Name,
    extensionsOk: bool,
    confirmed: bool,
    signs: bool)

  datatype Outcome = Fatal | Refused | Issued

  // ----- one request -----

  /** The checks before the body: the three readers differ in which failures end the run. */
  function Precheck(r: Request): Outcome {
    if !r.readable then Fatal
    else match r.source
      case Spkac => if r.signature.Good? then Issued else Fatal
      case SelfSignedCert => if r.signature.Good? then Issued else Refused
      case Csr(selfSign) => if (selfSign ==> r.keyMatches) && r.signature.Good? then Issued else Refused
  }

  function CaName(setup: Setup, r: Request): Name {
    if r.source.Csr? && r.source.selfSign then r.name else setup.ca
  }

  /** The subject of the certificate, or nothing when the policy refuses the request. */
  function CertName(setup: Setup, r: Request): Option<Name> {
    if !PolicyOk(r.name, CaName(setup, r), setup.policy, setup.fields) then None
    else
      var subject := if setup.preserve then r.name
                     else Singles(PolicySubject(Values(r.name), setup.policy, setup.fields));
      Some(if setup.emailDn then subject else Stripped(subject, setup.email, 0))
  }

  /** The row a request leads to under a serial number. */
  function RowFor(setup: Setup, r: Request, serial: int): Option<Row> {
    var name := CertName(setup, r);
    var expiry := ExpiryText(setup.expiry);
    if name.None? || expiry.None? then None
    else
      var text := Oneline(name.value, setup.labels);
      if text.None? then None
      else Some(Row([VALID], expiry.value, "", SerialHex(serial), "unknown",
                    if text.value == "" then SerialHex(serial) else text.value))
  }

  /** Outcome of the body and the row to add; a clash with the index is fatal, an answer other than yes is not. */
  function Body(s: State, setup: Setup, r: Request, serial: int): Outcome {
    var row := RowFor(setup, r, serial);
    if !r.entriesOk || row.None? || !r.extensionsOk || !CanInsert(s, row.value) then Fatal
    else if !setup.batch && !r.source.Spkac? && !r.confirmed then Refused
    else if !r.signs then Fatal
    else Issued
  }

  function Certify(s: State, setup: Setup, r: Request, serial: int): Outcome {
    if Precheck(r).Issued? then Body(s, setup, r, serial) else Precheck(r)
  }

  /** A request that is turned down without ending the run, whatever the index holds and whatever serial it would
      get. */
  predicate TurnedDown(setup: Setup, r: Request) {
    Precheck(r).Refused? || (Precheck(r).Issued? && !setup.batch && !r.source.Spkac? && !r.confirmed)
  }

  lemma RowForKnows(setup: Setup, r: Request, s: State, serial: int)
    ensures Certify(s, setup, r, serial).Issued? ==>
              RowFor(setup, r, serial).Some? && CanInsert(s, RowFor(setup, r, serial).value)
    ensures Certify(s, setup, r, serial).Refused? ==> TurnedDown(setup, r)
    ensures Certify(s, setup, r, serial).Issued? ==> !TurnedDown(setup, r)
  {
    hide RowFor, CanInsert;
  }

  /** Builds the subject by the policy, strips e-mail from it, and makes the row. */
  method MakeRow(setup: Setup, r: Request, serial: int) returns (row: Option<Row>)
    requires GoodSets(r.name)
    ensures row == RowFor(setup, r, serial)
  {
    hide PolicyOk, PolicySubject, Stripped, Oneline, ExpiryText, GoodSets, SingleSets;
    var built := BuildSubject(r.name, CaName(setup, r), setup.policy, setup.fields);
    if built.None? { return None; }
    var subject := built.value;
    SinglesIsUnique(subject);
    SinglesAreGood(subject);
    if setup.preserve { subject := r.name; }
    var expiry := ExpiryText(setup.expiry);
    if expiry.None? { return None; }
    if !setup.emailDn {
      var stripped, _ := StripEmail(subject, setup.email);
      subject := stripped;
    }
    assert CertName(setup, r) == Some(subject);
    var text := Oneline(subject, setup.labels);
    if text.None? { return None; }
    var number := SerialHex(serial);
    row := Some(Row([VALID], expiry.value, "", number, "unknown", if text.value == "" then number else text.value));
  }

  /** Makes the row, looks for a clash in both indexes, asks, signs, and inserts the row. */
  method DoBody(db: CaDb, setup: Setup, r: Request, serial: int) returns (outcome: Outcome)
    requires db.Indexed() && GoodSets(r.name)
    modifies db
    ensures db.Indexed()
    ensures outcome == Body(old(db.Value()), setup, r, serial)
    ensures db.Value() == if outcome.Issued? then Inserted(old(db.Value()), RowFor(setup, r, serial).value)
                          else old(db.Value())
  {
    hide SerialIndexOk, NameIndexOk, GoodSets, Key, CertName, ExpiryText, Oneline;
    if !r.entriesOk { return Fatal; }
    var made := MakeRow(setup, r, serial);
    if made.None? || !r.extensionsOk { return Fatal; }
    var row := made.value;
    var clash := db.unique && row.name in db.nameIndex;
    if !clash {
      var found := db.GetBySerial(row.serial);
      clash := found.Some?;
    }
    assert clash <==> !CanInsert(db.Value(), row);
    if clash { return Fatal; }
    if !setup.batch && !r.source.Spkac? {
      if !r.confirmed { return Refused; }
    }
    if !r.signs { return Fatal; }
    var inserted := db.Insert(row);
    return Issued;
  }

  lemma SinglesAreGood(name: Name)
    requires SingleSets(name)
    ensures GoodSets(name)
  {
  }

  method CertifyOne(db: CaDb, setup: Setup, r: Request, serial: int) returns (outcome: Outcome)
    requires db.Indexed() && GoodSets(r.name)
    modifies db
    ensures db.Indexed()
    ensures outcome == Certify(old(db.Value()), setup, r, serial)
    ensures db.Value() == if outcome.Issued? then Inserted(old(db.Value()), RowFor(setup, r, serial).value)
                          else old(db.Value())
  {
    hide Body, RowFor, Inserted, GoodSets;
    outcome := Precheck(r);
    if outcome.Issued? { outcome := DoBody(db, setup, r, serial); }
  }

  // ----- a batch -----

  /** Requests in the order a run takes them. */
  function InOrder(spkac: Option<Request>, cert: Option<Request>, infile: Option<Request>, rest: seq<Request>)
    : seq<Request>
  {
    (if spkac.Some? then [spkac.value] else []) + (if cert.Some? then [cert.value] else [])
    + (if infile.Some? then [infile.value] else []) + rest
  }

  /** State after some requests: `kept` names the requests that led to a certificate; nothing once a request was
      fatal. */
  datatype Progress = Progress(state: State, serial: int, kept: seq<nat>)

  function Batch(s: State, setup: Setup, rs: seq<Request>, serial: int): Option<Progress> {
    if rs == [] then Some(Progress(s, serial, []))
    else
      var n := |rs| - 1;
      var p := Batch(s, setup, rs[..n], serial);
      if p.None? then None
      else match Certify(p.value.state, setup, rs[n], p.value.serial)
        case Fatal => None
        case Refused => p
        case Issued =>
          RowForKnows(setup, rs[n], p.value.state, p.value.serial);
          var row := RowFor(setup, rs[n], p.value.serial).value;
          Some(Progress(Inserted(p.value.state, row), p.value.serial + 1, p.value.kept + [n]))
  }

  /** The loop over all requests; the serial number moves on only when a certificate was made. */
  method CertifyAll(db: CaDb, setup: Setup, spkac: Option<Request>, cert: Option<Request>, infile: Option<Request>,
                    rest: seq<Request>, start: int)
    returns (ok: bool, serial: int, kept: seq<nat>, totalDone: nat)
    requires db.Indexed() && forall r :: r in InOrder(spkac, cert, infile, rest) ==> GoodSets(r.name)
    modifies db
    ensures db.Indexed()
    ensures var p := Batch(old(db.Value()), setup, InOrder(spkac, cert, infile, rest), start);
            if ok then p == Some(Progress(db.Value(), serial, kept)) && totalDone == |kept| else p.None?
  {
    hide SerialIndexOk, NameIndexOk, Certify, RowFor, Inserted, GoodSets;
    var rs := InOrder(spkac, cert, infile, rest);
    ghost var s := db.Value();
    serial, kept, totalDone := start, [], 0;
    for i := 0 to |rs|
      invariant db.Indexed()
      invariant Batch(s, setup, rs[..i], start) == Some(Progress(db.Value(), serial, kept)) && totalDone == |kept|
    {
      assert rs[..i + 1][..i] == rs[..i];
      var outcome := CertifyOne(db, setup, rs[i], serial);
      if outcome.Fatal? {
        FatalStays(s, setup, rs, start, i + 1);
        return false, serial, kept, totalDone;
      }
      if outcome.Issued? {
        totalDone := totalDone + 1;
        serial := serial + 1;
        kept := kept + [i];
      }
    }
    assert rs[..|rs|] == rs;
    return true, serial, kept, totalDone;
  }

  lemma {:induction false} FatalStays(s: State, setup: Setup, rs: seq<Request>, serial: int, i: nat)
    requires i <= |rs| && Batch(s, setup, rs[..i], serial).None?
    ensures Batch(s, setup, rs, serial).None?
    decreases |rs|
  {
    if i == |rs| {
      assert rs[..i] == rs;
    } else {
      assert rs[..|rs| - 1][..i] == rs[..i];
      FatalStays(s, setup, rs[..|rs| - 1], serial, i);
    }
  }

  // ----- what a batch does -----

  /** Rows after a batch: those from before, then one for each kept request, numbered from `serial` on. */
  predicate RowsAdded(setup: Setup, rs: seq<Request>, serial: int, before: seq<Row>, after: seq<Row>, kept: seq<nat>) {
    && |after| == |before| + |kept| && after[..|before|] == before
    && (forall j :: 0 <= j < |kept| ==>
          kept[j] < |rs| && Some(after[|before| + j]) == RowFor(setup, rs[kept[j]], serial + j))
  }

  /** The kept requests are those not turned down, in order. */
  predicate KeptExactly(setup: Setup, rs: seq<Request>, kept: seq<nat>) {
    && (forall j, k :: 0 <= j < k < |kept| ==> kept[j] < kept[k])
    && (forall j :: 0 <= j < |kept| ==> kept[j] < |rs|)
    && (forall j :: 0 <= j < |rs| ==> (j in kept <==> !TurnedDown(setup, rs[j])))
  }

  lemma KeepOneMore(setup: Setup, rs: seq<Request>, kept: seq<nat>)
    requires rs != [] && KeptExactly(setup, rs[..|rs| - 1], kept)
    ensures !TurnedDown(setup, rs[|rs| - 1]) ==> KeptExactly(setup, rs, kept + [|rs| - 1])
    ensures TurnedDown(setup, rs[|rs| - 1]) ==> KeptExactly(setup, rs, kept)
  {
    hide TurnedDown;
    var n := |rs| - 1;
    var more := kept + [n];
    assert more[|kept|] == n;
    forall j | 0 <= j < n ensures (j in kept <==> !TurnedDown(setup, rs[j])) && (j in more <==> j in kept) {
      assert rs[..n][j] == rs[j];
    }
  }

  lemma AddOneMore(setup: Setup, rs: seq<Request>, serial: int, before: seq<Row>, after: seq<Row>, kept: seq<nat>,
                   row: Row)
    requires rs != [] && RowsAdded(setup, rs[..|rs| - 1], serial, before, after, kept)
    requires RowFor(setup, rs[|rs| - 1], serial + |kept|) == Some(row)
    ensures RowsAdded(setup, rs, serial, before, after + [row], kept + [|rs| - 1])
  {
    hide RowFor;
    var n := |rs| - 1;
    assert (after + [row])[..|before|] == after[..|before|];
    forall j | 0 <= j < |kept| ensures Some(after[|before| + j]) == RowFor(setup, rs[kept[j]], serial + j) {
      assert rs[..n][kept[j]] == rs[kept[j]];
    }
  }

  lemma NothingMoreAdded(setup: Setup, rs: seq<Request>, serial: int, before: seq<Row>, after: seq<Row>, kept: seq<nat>)
    requires rs != [] && RowsAdded(setup, rs[..|rs| - 1], serial, before, after, kept)
    ensures RowsAdded(setup, rs, serial, before, after, kept)
  {
    hide RowFor;
    forall j | 0 <= j < |kept| ensures Some(after[|before| + j]) == RowFor(setup, rs[kept[j]], serial + j) {
      assert rs[..|rs| - 1][kept[j]] == rs[kept[j]];
    }
  }

  /** A batch that is not stopped keeps exactly the requests that are not turned down, numbers them consecutively
      from the start, and adds one row for each of them in the same order; nothing else changes. */
  lemma {:induction false} BatchEffect(s: State, setup: Setup, rs: seq<Request>, serial: int)
    requires Batch(s, setup, rs, serial).Some?
    ensures var p := Batch(s, setup, rs, serial).value;
            && p.serial == serial + |p.kept| && p.state.unique == s.unique
            && KeptExactly(setup, rs, p.kept)
            && RowsAdded(setup, rs, serial, s.rows, p.state.rows, p.kept)
    decreases |rs|
  {
    hide RowFor, Certify, TurnedDown, CanInsert, KeptExactly, RowsAdded;
    if rs == [] {
      NothingKept(setup, s.rows, serial);
    } else {
      var n := |rs| - 1;
      BatchEffect(s, setup, rs[..n], serial);
      var q := Batch(s, setup, rs[..n], serial).value;
      RowForKnows(setup, rs[n], q.state, q.serial);
      KeepOneMore(setup, rs, q.kept);
      if Certify(q.state, setup, rs[n], q.serial).Issued? {
        AddOneMore(setup, rs, serial, s.rows, q.state.rows, q.kept, RowFor(setup, rs[n], q.serial).value);
      } else {
        NothingMoreAdded(setup, rs, serial, s.rows, q.state.rows, q.kept);
      }
    }
  }

  lemma NothingKept(setup: Setup, rows: seq<Row>, serial: int)
    ensures KeptExactly(setup, [], []) && RowsAdded(setup, [], serial, rows, rows, [])
  {
    assert rows[..|rows|] == rows;
  }

  /** The date stored for a new certificate always passes the load check. */
  lemma ExpiryIsChecked(e: Expiry)
    requires ExpiryText(e).Some?
    ensures TimeCheck(ExpiryText(e).value)
  {
    match e
    case EndDate(text) => StrictTextIsChecked(text);
    case Days(end) => PrintReadsBack(end);
  }

  lemma RowForIsOk(setup: Setup, r: Request, serial: int, objects: ObjectTable)
    requires RowFor(setup, r, serial).Some?
    ensures RowOk(RowFor(setup, r, serial).value, objects)
  {
    ExpiryIsChecked(setup.expiry);
    SerialHexReads(serial);
    hide TimeCheck, SerialOk, Unpack, PolicyOk, Oneline, CertName;
  }

  /** A batch leaves an index the next run loads, for every request and every answer. */
  lemma {:induction false} BatchKeepsGood(s: State, setup: Setup, rs: seq<Request>, serial: int, objects: ObjectTable)
    requires CaDatabase.Good(s, objects) && Batch(s, setup, rs, serial).Some?
    ensures CaDatabase.Good(Batch(s, setup, rs, serial).value.state, objects)
    decreases |rs|
  {
    hide RowFor, Certify, CaDatabase.Good;
    if rs != [] {
      var n := |rs| - 1;
      BatchKeepsGood(s, setup, rs[..n], serial, objects);
      var q := Batch(s, setup, rs[..n], serial).value;
      if Certify(q.state, setup, rs[n], q.serial).Issued? {
        RowForKnows(setup, rs[n], q.state, q.serial);
        RowForIsOk(setup, rs[n], q.serial, objects);
        InsertKeepsGoodExactly(q.state, RowFor(setup, rs[n], q.serial).value, objects);
      }
    }
  }

  // ----- the counter -----

  /** The next serial number is above every number in the index. */
  predicate Above(next: int, rows: seq<Row>) {
    forall i :: 0 <= i < |rows| ==> SerialOk(rows[i].serial) && SerialValue(rows[i].serial) < next
  }

  /** The counter stays above every number, old and new, and a number above all is never refused as already issued. */
  lemma {:induction false} BatchKeepsCounterAbove(s: State, setup: Setup, rs: seq<Request>, serial: int)
    requires Above(serial, s.rows) && Batch(s, setup, rs, serial).Some?
    ensures var p := Batch(s, setup, rs, serial).value; Above(p.serial, p.state.rows)
    decreases |rs|
  {
    hide RowFor, Certify, SerialOk, SerialValue, SerialHex;
    if rs != [] {
      var n := |rs| - 1;
      BatchKeepsCounterAbove(s, setup, rs[..n], serial);
      var q := Batch(s, setup, rs[..n], serial).value;
      RowForKnows(setup, rs[n], q.state, q.serial);
      RowForSerial(setup, rs[n], q.serial);
      SerialHexReads(q.serial);
      if Certify(q.state, setup, rs[n], q.serial).Issued? {
        var row := RowFor(setup, rs[n], q.serial).value;
        assert Above(q.serial + 1, q.state.rows + [row]);
      }
    }
  }

  lemma RowForSerial(setup: Setup, r: Request, serial: int)
    ensures RowFor(setup, r, serial).Some? ==> RowFor(setup, r, serial).value.serial == SerialHex(serial)
  {
    hide CertName, ExpiryText, Oneline, SerialHex;
  }

  lemma AboveIsNew(next: int, rows: seq<Row>)
    requires Above(next, rows)
    ensures Find(rows, Key(SerialHex(next))).None?
  {
    SerialHexReads(next);
    var r := Find(rows, Key(SerialHex(next)));
    if r.Some? { SameKeySameValue(rows[r.value].serial, SerialHex(next)); }
  }
}
