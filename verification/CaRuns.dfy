/** Whole runs of the tool over the index file: load, a few steps that each save, and the next load. */
module CaRuns {
  import opened Wrappers
  import opened Chars
  import opened Asn1Time
  import opened Calendar
  import opened SerialText
  import opened Revocation
  import opened CaDatabase
  import opened CaNames
  import opened CaRevoke
  import CaIssue
  import TxtDb

  datatype Step =
    | MarkExpiredRows(now: Tm)
    | Certify(setup: CaIssue.Setup, requests: seq<CaIssue.Request>, start: int, commit: bool)
    | RevokeOrAdd(cert: Cert, now: Tm, request: Revocation.Request)

  /** Times come from a clock. */
  predicate ClockOk(step: Step) {
    !step.Certify? ==> ValidTm(step.now) && 1900 <= step.now.year <= 9999
  }

  predicate DatesReadable(rows: seq<Row>) {
    forall i :: 0 <= i < |rows| && Active(rows[i]) ==> TimeCheck(rows[i].expiry)
  }

  /** State after a step that goes through; nothing when the step ends the run without saving. */
  function Apply(s: State, step: Step, objects: ObjectTable): Option<State>
    requires ClockOk(step)
  {
    match step
    case MarkExpiredRows(now) =>
      if DatesReadable(s.rows) then Some(s.(rows := MarkExpired(s.rows, Instant(Parsed(now, 0))))) else None
    case Certify(setup, requests, start, commit) =>
      var p := CaIssue.Batch(s, setup, requests, start);
      if p.None? || (p.value.kept != [] && !commit) then None else Some(p.value.state)
    case RevokeOrAdd(cert, now, request) =>
      var r := Revoke(s, cert, Print(now), request, objects);
      if r.0 then Some(r.1) else None
  }

  /** Marking and issuing write the file only when something changed. */
  function Saved(text: string, s: State, t: State): string {
    if s.rows == t.rows then text else Save(t.rows)
  }

  /** Text of the index file after the steps of one run, each of which saves before the next begins. */
  function AfterSteps(text: string, s: State, steps: seq<Step>, objects: ObjectTable): string
    requires forall i :: 0 <= i < |steps| ==> ClockOk(steps[i])
    decreases |steps|
  {
    if steps == [] then text
    else
      var t := Apply(s, steps[0], objects);
      if t.None? then text else AfterSteps(Saved(text, s, t.value), t.value, steps[1..], objects)
  }

  /** The state in memory at the end of the run. */
  function FinalState(s: State, steps: seq<Step>, objects: ObjectTable): State
    requires forall i :: 0 <= i < |steps| ==> ClockOk(steps[i])
    decreases |steps|
  {
    if steps == [] then s
    else
      var t := Apply(s, steps[0], objects);
      if t.None? then s else FinalState(t.value, steps[1..], objects)
  }

  type Run = seq<Step>

  predicate ClocksOk(runs: seq<Run>) {
    forall i, k :: 0 <= i < |runs| && 0 <= k < |runs[i]| ==> ClockOk(runs[i][k])
  }

  /** One run after the other; nothing once a load refuses the file the run before has left. */
  function AfterRuns(text: string, unique: bool, runs: seq<Run>, objects: ObjectTable): Option<string>
    requires ClocksOk(runs)
  {
    if runs == [] then Some(text)
    else
      var before := AfterRuns(text, unique, runs[..|runs| - 1], objects);
      if before.None? then None
      else
        var rows := Load(before.value, unique, objects);
        if rows.None? then None
        else Some(AfterSteps(before.value, Fresh(rows.value, unique), runs[|runs| - 1], objects))
  }

  // ----- what must hold of a step's arguments -----

  predicate Writable(text: string) { OneLine(text) && !TxtDb.EndsInBackslash(text) }

  /** A row without a status carries the serial number of the certificate. */
  predicate NamesStatusless(rows: seq<Row>, c: Cert) {
    exists i :: 0 <= i < |rows| && rows[i].typ == "" && IsRowOf(rows[i], c)
  }

  /** What a revocation must keep to: nothing is revoked from 2050 on, the row has a status and a date that can be
      read, a new row has a subject on one line, and a hold instruction can be stored. */
  predicate RevokeSound(s: State, c: Cert, now: Tm, request: Revocation.Request) {
    && (request.Valid? || UtcYear(now.year))
    && Target(s, c).typ != "" && TimeCheck(Target(s, c).expiry)
    && (Find(s.rows, Key(SerialHex(c.serial))).None? ==> OneLine(c.subject))
    && ArgumentWritable(request)
  }

  predicate StepSound(s: State, step: Step) {
    step.RevokeOrAdd? ==> RevokeSound(s, step.cert, step.now, step.request)
  }

  /** Every step of a run that goes through is sound in the state it meets. */
  predicate RunSound(s: State, steps: Run, objects: ObjectTable)
    requires forall i :: 0 <= i < |steps| ==> ClockOk(steps[i])
    decreases |steps|
  {
    steps == []
    || var t := Apply(s, steps[0], objects);
       t.Some? ==> StepSound(s, steps[0]) && RunSound(t.value, steps[1..], objects)
  }

  /** What a run finds when it loads the file the runs before have left. */
  function Loaded(text: string, unique: bool, runs: seq<Run>, objects: ObjectTable): Option<seq<Row>>
    requires ClocksOk(runs)
  {
    var before := AfterRuns(text, unique, runs, objects);
    if before.None? then None else Load(before.value, unique, objects)
  }

  /** The rows in memory when the last run ends. */
  function InMemory(text: string, unique: bool, runs: seq<Run>, objects: ObjectTable): Option<seq<Row>>
    requires ClocksOk(runs)
  {
    if runs == [] then Load(text, unique, objects)
    else
      var rows := Loaded(text, unique, runs[..|runs| - 1], objects);
      if rows.None? then None
      else Some(FinalState(Fresh(rows.value, unique), runs[|runs| - 1], objects).rows)
  }

  /** Every run is sound on the index it loads. */
  predicate RunsSound(text: string, unique: bool, runs: seq<Run>, objects: ObjectTable)
    requires ClocksOk(runs)
  {
    runs == []
    || (&& RunsSound(text, unique, runs[..|runs| - 1], objects)
        && var rows := Loaded(text, unique, runs[..|runs| - 1], objects);
           rows.Some? ==> RunSound(Fresh(rows.value, unique), runs[|runs| - 1], objects))
  }

  /** After each run, the next load finds the rows that were in memory. */
  predicate Reloads(text: string, unique: bool, runs: seq<Run>, objects: ObjectTable)
    requires ClocksOk(runs)
  {
    && Loaded(text, unique, runs, objects).Some?
    && Loaded(text, unique, runs, objects) == InMemory(text, unique, runs, objects)
    && (runs != [] ==> Reloads(text, unique, runs[..|runs| - 1], objects))
  }

  /** Labels of objects stay on one line. */
  ghost predicate LabelsOk(step: Step) { step.Certify? ==> forall o :: OneLine(step.setup.labels(o)) }

  ghost predicate AllLabelsOk(runs: seq<Run>) {
    forall i, k :: 0 <= i < |runs| && 0 <= k < |runs[i]| ==> LabelsOk(runs[i][k])
  }

  predicate ArgumentWritable(r: Revocation.Request) { r.HoldCode? ==> Writable(r.arg) }

  // ----- writing the revocation field -----

  lemma ReasonsAreWritable(i: nat)
    requires i < |REASONS|
    ensures Writable(REASONS[i])
  {
  }

  lemma TimesAreWritable(s: string)
    requires TimeCheck(s) || GeneralizedCheck(s)
    ensures Writable(s)
  {
    ParsedCharacters(if UtcCheck(s) then Utc else Generalized, s);
    hide TimeCheck, GeneralizedCheck;
  }

  /** The field can be stored exactly when the argument can; only a hold instruction is not checked for that. */
  lemma FieldWritableExactly(now: Tm, request: Revocation.Request, objects: ObjectTable)
    requires ValidTm(now) && 0 <= now.year <= 9999 && Parts(request, objects).Some?
    ensures Writable(Join(Print(now), Parts(request, objects).value)) <==> ArgumentWritable(request)
  {
    PrintReadsBack(now);
    TimesAreWritable(Print(now));
    var st := Parts(request, objects).value;
    if st.reason.Some? {
      var i := if request.CrlReason? then ReasonIndex(request.arg, USER_REASONS)
               else if request.HoldCode? then HOLD else if request.KeyCompromise? then KEY_TIME else CA_KEY_TIME;
      ReasonsAreWritable(i);
      if request.KeyCompromise? || request.CaCompromise? { TimesAreWritable(request.arg); }
    }
    SuffixWritable(Print(now), st);
  }

  lemma SuffixWritable(time: string, st: Stored)
    requires Writable(time) && (st.reason.Some? ==> Writable(st.reason.value))
    ensures Writable(Join(time, st)) <==> (st.arg.Some? ==> Writable(st.arg.value))
  {
    var head := time + Suffix(st.reason);
    assert Writable(head);
    if st.arg.Some? {
      var s, a := Join(time, st), st.arg.value;
      assert s[|head| + 1..] == a;
      assert OneLine(s) <==> OneLine(a);
    }
  }

  /** The fields revoking leaves alone can be stored. */
  predicate RestStorable(r: Row) {
    Writable(r.expiry) && Writable(r.serial) && Writable(r.file) && OneLine(r.name)
  }

  lemma RevokedRowStorableExactly(r: Row, text: string)
    requires r.typ != ""
    ensures RowStorable(RevokedRow(r, text)) <==> Writable(text) && RestStorable(r)
    ensures RowStorable(r) ==> RestStorable(r)
  {
    FieldsStorable(RevokedRow(r, text));
    FieldsStorable(r);
  }

  lemma FieldsStorable(r: Row)
    ensures RowStorable(r)
       <==> && Writable(r.typ) && Writable(r.revoked) && RestStorable(r)
            && (r.typ != "" ==> r.typ[0] != TxtDb.COMMENT)
  {
    var f := ToFields(r);
    assert f[0] == r.typ && f[1] == r.expiry && f[2] == r.revoked;
    assert f[3] == r.serial && f[4] == r.file && f[5] == r.name;
  }

  lemma NewRowStorableExactly(c: Cert)
    requires TimeCheck(c.notAfter)
    ensures RowStorable(NewRow(c)) <==> OneLine(c.subject)
    ensures RestStorable(NewRow(c)) <==> OneLine(c.subject)
  {
    TimesAreWritable(c.notAfter);
    SerialIsWritable(c.serial);
    FieldsStorable(NewRow(c));
    hide TimeCheck, SerialHex, RowStorable;
  }

  lemma SerialIsWritable(n: int)
    ensures Writable(SerialHex(n))
  {
    SerialHexReads(n);
    var s := SerialHex(n);
    assert forall i :: 0 <= i < |s| ==> s[i] == '-' || IsHexDigit(s[i]) by {
      assert forall i :: 0 <= i < |Magnitude(s)| ==> IsHexDigit(Magnitude(s)[i]);
      if s[0] == '-' { assert forall i :: 1 <= i < |s| ==> s[i] == Magnitude(s)[i - 1]; }
    }
  }

  // ----- one step -----

  /** What holds between steps: the file loads to the rows in memory, and the rows in memory are good. */
  predicate Synced(text: string, s: State, objects: ObjectTable) {
    && Load(text, s.unique, objects) == Some(s.rows)
    && CaDatabase.Good(s, objects) && Storable(s.rows)
  }

  lemma SavedIsSynced(text: string, s: State, t: State, objects: ObjectTable)
    requires Synced(text, s, objects) && CaDatabase.Good(t, objects) && Storable(t.rows) && t.unique == s.unique
    ensures Synced(Saved(text, s, t), t, objects)
  {
    hide Load, Save, Acceptable;
    SavedLoadsExactly(t.rows, t.unique, objects);
    assert Acceptable(t.rows, t.unique, objects) by { GoodIsAcceptable(t, objects); }
  }

  lemma GoodIsAcceptable(t: State, objects: ObjectTable)
    requires CaDatabase.Good(t, objects)
    ensures Acceptable(t.rows, t.unique, objects)
  {
    hide Acceptable;
  }

  /** Position of the certificate's row once it is there. */
  function Place(s: State, c: Cert): (k: nat)
    ensures k < |WithRow(s, c).rows| && WithRow(s, c).rows[k] == Target(s, c)
  {
    var i := Find(s.rows, Key(SerialHex(c.serial)));
    if i.Some? then i.value else |s.rows|
  }

  lemma RevokeIsMark(s: State, c: Cert, now: string, request: Revocation.Request, objects: ObjectTable)
    requires Revoke(s, c, now, request, objects).0
    ensures var w, k := WithRow(s, c), Place(s, c);
            && (request.Valid? || Parts(request, objects).Some?)
            && Revoke(s, c, now, request, objects).1
            == if request.Valid? then w
               else w.(rows := w.rows[k := RevokedRow(w.rows[k], Join(now, Parts(request, objects).value))])
  {
    hide Parts, Join, Key, SerialHex;
  }

  lemma StorableReplaced(rows: seq<Row>, k: nat, r: Row)
    requires k < |rows| && forall i :: 0 <= i < |rows| && i != k ==> RowStorable(rows[i])
    ensures Storable(rows[k := r]) <==> RowStorable(r)
  {
    hide RowStorable;
    assert rows[k := r][k] == r;
  }

  /** After a successful step the rows can be stored exactly when a new row's subject and a hold instruction can. */
  lemma RevokeStorableExactly(s: State, c: Cert, now: Tm, request: Revocation.Request, objects: ObjectTable)
    requires ValidTm(now) && 0 <= now.year <= 9999
    requires Storable(s.rows) && Target(s, c).typ != "" && TimeCheck(Target(s, c).expiry)
    requires Revoke(s, c, Print(now), request, objects).0
    ensures var t := Revoke(s, c, Print(now), request, objects).1;
            && t.unique == s.unique
            && (Storable(t.rows) <==>
                  && (Find(s.rows, Key(SerialHex(c.serial))).None? ==> OneLine(c.subject))
                  && ArgumentWritable(request))
  {
    hide Revoke, RowStorable, RestStorable, Join, Key, SerialHex, Print, TimeCheck, Parts;
    RevokeIsMark(s, c, Print(now), request, objects);
    var w, k := WithRow(s, c), Place(s, c);
    if Find(s.rows, Key(SerialHex(c.serial))).None? { NewRowStorableExactly(c); }
    StorableReplaced(w.rows, k, w.rows[k]);
    assert w.rows[k := w.rows[k]] == w.rows;
    if !request.Valid? {
      FieldWritableExactly(now, request, objects);
      var text := Join(Print(now), Parts(request, objects).value);
      RevokedRowStorableExactly(w.rows[k], text);
      StorableReplaced(w.rows, k, RevokedRow(w.rows[k], text));
    }
  }

  lemma {:induction false} BatchKeepsStorable(s: State, setup: CaIssue.Setup, rs: seq<CaIssue.Request>, serial: int)
    requires Storable(s.rows) && CaIssue.Batch(s, setup, rs, serial).Some?
    requires forall o :: OneLine(setup.labels(o))
    ensures var t := CaIssue.Batch(s, setup, rs, serial).value.state;
            Storable(t.rows) && t.unique == s.unique
    decreases |rs|
  {
    hide CaIssue.RowFor, CaIssue.Certify, RowStorable;
    if rs != [] {
      var n := |rs| - 1;
      BatchKeepsStorable(s, setup, rs[..n], serial);
      var q := CaIssue.Batch(s, setup, rs[..n], serial).value;
      CaIssue.RowForKnows(setup, rs[n], q.state, q.serial);
      if CaIssue.Certify(q.state, setup, rs[n], q.serial).Issued? { IssuedRowIsStorable(setup, rs[n], q.serial); }
    }
  }

  /** The row of a new certificate can be stored whatever bytes the request put into its name. */
  lemma IssuedRowIsStorable(setup: CaIssue.Setup, r: CaIssue.Request, serial: int)
    requires CaIssue.RowFor(setup, r, serial).Some? && forall o :: OneLine(setup.labels(o))
    ensures RowStorable(CaIssue.RowFor(setup, r, serial).value) && CaIssue.RowFor(setup, r, serial).value.typ != ""
  {
    hide CaIssue.CertName, TimeCheck, CaIssue.ExpiryText, SerialHex, NameText;
    var row := CaIssue.RowFor(setup, r, serial).value;
    var name := CaIssue.CertName(setup, r).value;
    NameIsOneLine(name, |name|, setup.labels);
    CaIssue.ExpiryIsChecked(setup.expiry);
    TimesAreWritable(row.expiry);
    SerialIsWritable(serial);
    FieldsStorable(row);
  }

  /** Every step that goes through leaves memory and file in step, ready for the next load. */
  lemma StepKeepsSynced(text: string, s: State, step: Step, objects: ObjectTable)
    requires Synced(text, s, objects)
    requires ClockOk(step) && LabelsOk(step) && StepSound(s, step) && Apply(s, step, objects).Some?
    ensures var t := Apply(s, step, objects).value; Synced(Saved(text, s, t), t, objects)
  {
    hide Load, Save, CaDatabase.Good, Storable, Print, TimeCheck, DatesReadable, UtcYear;
    hide CaIssue.Batch, Revoke, MarkExpired;
    var t := Apply(s, step, objects).value;
    match step {
      case MarkExpiredRows(now) =>
        MarkingKeepsGood(s, Instant(Parsed(now, 0)), objects);
      case Certify(setup, requests, start, _) =>
        CaIssue.BatchKeepsGood(s, setup, requests, start, objects);
        BatchKeepsStorable(s, setup, requests, start);
      case RevokeOrAdd(cert, now, request) =>
        RevokeKeepsGoodExactly(s, cert, now, request, objects);
        RevokeStorableExactly(s, cert, now, request, objects);
    }
    SavedIsSynced(text, s, t, objects);
  }

  /** The exact price of -revoke and -valid: the saved index loads unchanged exactly when the clock still prints UTCTime
      (or nothing is revoked), the row has a status character and a date that can be read, and a new subject and
      a hold instruction can be stored. */
  lemma RevokedIndexLoadsExactly(s: State, c: Cert, now: Tm, request: Revocation.Request, objects: ObjectTable)
    requires ValidTm(now) && 0 <= now.year <= 9999 && CaDatabase.Good(s, objects) && Storable(s.rows)
    requires Revoke(s, c, Print(now), request, objects).0
    ensures var t := Revoke(s, c, Print(now), request, objects).1;
            Load(Save(t.rows), t.unique, objects) == Some(t.rows) <==> RevokeSound(s, c, now, request)
  {
    var t := Revoke(s, c, Print(now), request, objects).1;
    RevokeKeepsGoodExactly(s, c, now, request, objects);
    if Target(s, c).typ != "" && TimeCheck(Target(s, c).expiry) { RevokeStorableExactly(s, c, now, request, objects); }
    RevokeKeepsNames(s, c, Print(now), request, objects);
    SavedLoadsExactly(t.rows, t.unique, objects);
    hide Revoke, Load, Save, Acceptable, Storable, TimeCheck, Print, UtcYear, Key, SerialHex, Find, ActiveNames;
  }

  lemma RevokeKeepsNames(s: State, c: Cert, now: string, request: Revocation.Request, objects: ObjectTable)
    requires CaDatabase.Good(s, objects) && Revoke(s, c, now, request, objects).0
    ensures var t := Revoke(s, c, now, request, objects).1; t.unique ==> ActiveNames(t.rows) <= t.names
  {
    RevokeIsMark(s, c, now, request, objects);
    var w, k := WithRow(s, c), Place(s, c);
    if Find(s.rows, Key(SerialHex(c.serial))).None? { InsertKeepsGoodExactly(s, NewRow(c), objects); }
    hide Revoke, Join, Key, SerialHex, RowOk, Parts, Find;
    if !request.Valid? && s.unique {
      var r := RevokedRow(w.rows[k], Join(now, Parts(request, objects).value));
      var m := w.rows[k := r];
      forall x | x in ActiveNames(m) ensures x in w.names {
        var j :| 0 <= j < |m| && Active(m[j]) && m[j].name == x;
        assert j != k;
        assert w.rows[j].name in ActiveNames(w.rows);
      }
    }
  }

  /** With a subject on one line, which is how it is printed, the saved index is refused in all other cases. */
  lemma RevokedIndexIsRefusedExactly(s: State, c: Cert, now: Tm, request: Revocation.Request, objects: ObjectTable)
    requires ValidTm(now) && 0 <= now.year <= 9999 && CaDatabase.Good(s, objects) && Storable(s.rows)
    requires Revoke(s, c, Print(now), request, objects).0 && OneLine(c.subject)
    ensures var t := Revoke(s, c, Print(now), request, objects).1;
            Load(Save(t.rows), t.unique, objects).None? <==> !RevokeSound(s, c, now, request)
  {
    var t := Revoke(s, c, Print(now), request, objects).1;
    RevokedIndexLoadsExactly(s, c, now, request, objects);
    RevokedIsWellShaped(s, c, Print(now), request, objects);
    SavedLoadsOrIsRefused(t.rows, t.unique, objects);
    hide Revoke, RevokeSound, Load, Save, Acceptable, Storable, WellShaped;
  }

  lemma StorableIsWellShaped(r: Row)
    requires RowStorable(r)
    ensures WellShaped(r)
  {
    FieldsStorable(r);
    hide RowStorable;
  }

  lemma RevokedIsWellShaped(s: State, c: Cert, now: string, request: Revocation.Request, objects: ObjectTable)
    requires Storable(s.rows) && Revoke(s, c, now, request, objects).0 && OneLine(c.subject)
    ensures var t := Revoke(s, c, now, request, objects).1; forall i :: 0 <= i < |t.rows| ==> WellShaped(t.rows[i])
  {
    RevokeIsMark(s, c, now, request, objects);
    SerialIsWritable(c.serial);
    forall i | 0 <= i < |s.rows| ensures WellShaped(s.rows[i]) { StorableIsWellShaped(s.rows[i]); }
    hide Revoke, Join, Key, SerialHex, RowStorable, Parts, Find;
  }

  /** Rows without a status come from the first index: a certificate that names none of them meets none. */
  lemma StatuslessIsOld(first: seq<Row>, s: State, c: Cert)
    requires Evolves(first, s.rows) && !NamesStatusless(first, c)
    ensures Target(s, c).typ != ""
  {
    hide Key, SerialHex;
    var i := Find(s.rows, Key(SerialHex(c.serial)));
    if i.Some? && i.value < |first| {
      assert RowEvolves(first[i.value], s.rows[i.value]) && IsRowOf(first[i.value], c);
    }
  }

  /** A hold instruction that is registered but cannot be stored: revoking with it leaves an index that is refused,
      whatever else the index holds. */
  lemma HoldTextBreaksTheIndex(s: State, c: Cert, now: Tm, arg: string, objects: ObjectTable)
    requires ValidTm(now) && 0 <= now.year <= 9999 && CaDatabase.Good(s, objects) && Storable(s.rows)
    requires OneLine(c.subject) && !Writable(arg)
    requires Find(s.rows, Key(SerialHex(c.serial))).Some? && TypeOf(Target(s, c)) != REVOKED
    requires Target(s, c).name == RowName(c) && objects(arg).Some?
    ensures var r := Revoke(s, c, Print(now), HoldCode(arg), objects);
            r.0 && Load(Save(r.1.rows), r.1.unique, objects).None?
  {
    hide Print, TimeCheck, Unpack, SerialHex, Key, Load, Save, CaDatabase.Good, Storable;
    RevokedIndexIsRefusedExactly(s, c, now, HoldCode(arg), objects);
  }

  /** Such texts: a line end inside, a backslash at the end. */
  lemma SomeTextsAreNotWritable()
    ensures !Writable("hold\nforever") && !Writable("hold\\")
  {
    assert "hold\nforever"[4] == '\n' && "hold\\"[4] == '\\';
  }

  /** An index of one row in which the row has no status. */
  function Statusless(c: Cert): State { Fresh([NewRow(c).(typ := "")], true) }

  /** Revoking a row without a status goes through and leaves an index that is refused. */
  lemma StatuslessRowBreaksTheIndex(c: Cert, now: Tm, objects: ObjectTable)
    requires TimeCheck(c.notAfter) && OneLine(c.subject) && ValidTm(now) && UtcYear(now.year)
    ensures var r := Revoke(Statusless(c), c, Print(now), NoInfo, objects);
            && CaDatabase.Good(Statusless(c), objects) && r.0
            && Load(Save(r.1.rows), true, objects).None?
  {
    hide Print, TimeCheck, SerialHex, Key, Load, Save, CaDatabase.Good, Storable, OneLine;
    StatuslessIsGood(c, objects);
    LookupIsUnique(Statusless(c).rows, 0);
    RevokedIndexIsRefusedExactly(Statusless(c), c, now, NoInfo, objects);
  }

  lemma StatuslessIsGood(c: Cert, objects: ObjectTable)
    requires TimeCheck(c.notAfter) && OneLine(c.subject)
    ensures CaDatabase.Good(Statusless(c), objects) && Storable(Statusless(c).rows)
  {
    var r := NewRow(c).(typ := "");
    SerialHexReads(c.serial);
    NewRowStorableExactly(c);
    FieldsStorable(r);
    hide TimeCheck, Unpack, SerialHex, SerialOk, Key, RowStorable, OneLine, Writable;
    assert Writable("") by { EmptyIsWritable(); }
    assert RowOk(r, objects) && RowStorable(r);
    assert Statusless(c).rows == [r];
  }

  lemma EmptyIsWritable()
    ensures Writable("")
  {
  }

  /** Adding a certificate whose date cannot be read goes through and leaves an index that is refused. */
  lemma UnreadableDateBreaksTheIndex(c: Cert, now: Tm, objects: ObjectTable)
    requires !TimeCheck(c.notAfter) && OneLine(c.subject) && ValidTm(now) && UtcYear(now.year)
    ensures var r := Revoke(Fresh([], true), c, Print(now), Valid, objects);
            r.0 && Load(Save(r.1.rows), true, objects).None?
  {
    hide Print, TimeCheck, SerialHex, Key, Load, Save;
    RevokedIndexIsRefusedExactly(Fresh([], true), c, now, Valid, objects);
  }

  lemma EmptyIsUnreadable()
    ensures !TimeCheck("")
  {
  }

  // ----- the life of a row -----

  /** Serial, name and file never change; the status only goes from valid to expired and from anything to revoked;
      a revoked row never changes again. An expiry date is lost only when a row without a status is revoked. */
  predicate RowEvolves(a: Row, b: Row) {
    && b.serial == a.serial && b.name == a.name && b.file == a.file
    && (b.expiry == a.expiry || (a.typ == "" && TypeOf(b) == REVOKED && b.expiry == ""))
    && (TypeOf(a) == REVOKED ==> b == a)
    && (TypeOf(b) == TypeOf(a) || TypeOf(b) == REVOKED || (TypeOf(a) == VALID && TypeOf(b) == EXPIRED))
    && (TypeOf(b) != REVOKED ==> b.revoked == a.revoked)
    && (b.typ == "" ==> a.typ == "")
  }

  /** No row is ever removed or moved, and new rows have a status. */
  predicate Evolves(rows: seq<Row>, later: seq<Row>) {
    && |rows| <= |later| && (forall i :: 0 <= i < |rows| ==> RowEvolves(rows[i], later[i]))
    && (forall i :: |rows| <= i < |later| ==> later[i].typ != "")
  }

  lemma EvolvesTransitive(a: seq<Row>, b: seq<Row>, c: seq<Row>)
    requires Evolves(a, b) && Evolves(b, c)
    ensures Evolves(a, c)
  {
    forall i | 0 <= i < |a| ensures RowEvolves(a[i], c[i]) {
      assert RowEvolves(a[i], b[i]) && RowEvolves(b[i], c[i]);
    }
  }

  lemma BatchEvolves(s: State, setup: CaIssue.Setup, requests: seq<CaIssue.Request>, start: int)
    requires CaIssue.Batch(s, setup, requests, start).Some?
    ensures var t := CaIssue.Batch(s, setup, requests, start).value.state;
            Evolves(s.rows, t.rows) && t.unique == s.unique
  {
    hide CaIssue.RowsAdded, CaIssue.KeptExactly, CaIssue.RowFor, Evolves;
    CaIssue.BatchEffect(s, setup, requests, start);
    var p := CaIssue.Batch(s, setup, requests, start).value;
    hide CaIssue.Batch;
    AddedEvolve(setup, requests, start, s.rows, p.state.rows, p.kept);
  }

  lemma AddedEvolve(setup: CaIssue.Setup, requests: seq<CaIssue.Request>, start: int, before: seq<Row>,
                    after: seq<Row>, kept: seq<nat>)
    requires CaIssue.RowsAdded(setup, requests, start, before, after, kept)
    ensures Evolves(before, after)
  {
    hide CaIssue.RowFor;
    assert forall i :: 0 <= i < |before| ==> after[..|before|][i] == after[i];
    forall i | |before| <= i < |after| ensures after[i].typ != "" {
      var j := i - |before|;
      assert Some(after[|before| + j]) == CaIssue.RowFor(setup, requests[kept[j]], start + j);
      RowForTyped(setup, requests[kept[j]], start + j);
    }
  }

  lemma RowForTyped(setup: CaIssue.Setup, r: CaIssue.Request, serial: int)
    ensures CaIssue.RowFor(setup, r, serial).Some? ==> CaIssue.RowFor(setup, r, serial).value.typ != ""
  {
    hide CaIssue.CertName, CaIssue.ExpiryText, SerialHex;
  }

  lemma RevokeEvolves(s: State, c: Cert, now: string, request: Revocation.Request, objects: ObjectTable)
    requires Revoke(s, c, now, request, objects).0
    ensures var t := Revoke(s, c, now, request, objects).1; Evolves(s.rows, t.rows) && t.unique == s.unique
  {
    hide Parts, Join, Key, SerialHex;
  }

  lemma StepEvolves(s: State, step: Step, objects: ObjectTable)
    requires ClockOk(step) && Apply(s, step, objects).Some?
    ensures Evolves(s.rows, Apply(s, step, objects).value.rows) && Apply(s, step, objects).value.unique == s.unique
  {
    match step {
      case MarkExpiredRows(_) =>
        hide Print, TimeCheck, ReadTime, Instant, Parts, Join, Key, CaIssue.Batch, Revoke;
      case Certify(setup, requests, start, _) =>
        hide RowEvolves, CaIssue.Batch, Revoke;
        BatchEvolves(s, setup, requests, start);
      case RevokeOrAdd(cert, now, request) =>
        hide RowEvolves, Revoke, CaIssue.Batch;
        RevokeEvolves(s, cert, Print(now), request, objects);
    }
  }

  // ----- all runs -----

  lemma {:induction false} RunKeepsSynced(text: string, s: State, steps: Run, objects: ObjectTable)
    requires forall i :: 0 <= i < |steps| ==> ClockOk(steps[i]) && LabelsOk(steps[i])
    requires RunSound(s, steps, objects) && Synced(text, s, objects)
    ensures var t := FinalState(s, steps, objects);
            Synced(AfterSteps(text, s, steps, objects), t, objects) && Evolves(s.rows, t.rows) && t.unique == s.unique
    decreases |steps|
  {
    hide Apply, StepSound, Synced, Evolves;
    EvolvesReflexive(s.rows);
    if steps != [] && Apply(s, steps[0], objects).Some? {
      var t := Apply(s, steps[0], objects).value;
      StepKeepsSynced(text, s, steps[0], objects);
      StepEvolves(s, steps[0], objects);
      RunKeepsSynced(Saved(text, s, t), t, steps[1..], objects);
      EvolvesTransitive(s.rows, t.rows, FinalState(t, steps[1..], objects).rows);
    }
  }

  lemma EvolvesReflexive(rows: seq<Row>)
    ensures Evolves(rows, rows)
  {
  }

  lemma LoadedIsSynced(text: string, unique: bool, objects: ObjectTable)
    requires Load(text, unique, objects).Some?
    ensures Synced(text, Fresh(Load(text, unique, objects).value, unique), objects)
  {
    LoadedIsStorable(text, unique, objects);
    hide Load, Acceptable, Storable;
  }

  // ----- what an unsound step leaves is never repaired -----

  /** No later form of the row passes its check and can be stored. */
  predicate Doomed(r: Row, objects: ObjectTable) {
    || !TimeCheck(r.expiry) || !OneLine(r.name)
    || (TypeOf(r) == REVOKED && !(RowOk(r, objects) && RowStorable(r)))
  }

  predicate SomeDoomed(rows: seq<Row>, objects: ObjectTable) {
    exists i :: 0 <= i < |rows| && Doomed(rows[i], objects)
  }

  lemma DoomedIsBad(r: Row, objects: ObjectTable)
    requires Doomed(r, objects)
    ensures !(RowOk(r, objects) && RowStorable(r))
  {
    FieldsStorable(r);
    hide TimeCheck, RowStorable, SerialOk, Unpack;
  }

  lemma DoomedStays(rows: seq<Row>, later: seq<Row>, objects: ObjectTable)
    requires Evolves(rows, later) && SomeDoomed(rows, objects)
    ensures SomeDoomed(later, objects)
  {
    EmptyIsUnreadable();
    hide RowOk, RowStorable, TimeCheck;
    var i :| 0 <= i < |rows| && Doomed(rows[i], objects);
    assert RowEvolves(rows[i], later[i]);
    assert Doomed(later[i], objects);
  }

  lemma DoomedDoesNotReload(rows: seq<Row>, unique: bool, objects: ObjectTable)
    requires SomeDoomed(rows, objects)
    ensures Load(Save(rows), unique, objects) != Some(rows)
  {
    SavedLoadsExactly(rows, unique, objects);
    var i :| 0 <= i < |rows| && Doomed(rows[i], objects);
    DoomedIsBad(rows[i], objects);
    hide Load, Save, RowOk, RowStorable, Doomed;
  }

  /** An unsound step that goes through dooms the row it makes, and changes the rows. */
  lemma UnsoundStepDooms(s: State, step: Step, objects: ObjectTable)
    requires ClockOk(step) && CaDatabase.Good(s, objects) && Storable(s.rows)
    requires Apply(s, step, objects).Some? && !StepSound(s, step)
    ensures var t := Apply(s, step, objects).value; t.rows != s.rows && SomeDoomed(t.rows, objects)
  {
    var c, now, request := step.cert, step.now, step.request;
    var t := Apply(s, step, objects).value;
    RevokeIsMark(s, c, Print(now), request, objects);
    var k := Place(s, c);
    UnsoundTarget(s, c, now, request, objects);
    RevokeChanges(s, c, Print(now), request, objects);
    hide Revoke, Doomed, Find, Key, SerialHex, Join, Parts;
    assert Doomed(t.rows[k], objects);
  }

  lemma RevokeChanges(s: State, c: Cert, now: string, request: Revocation.Request, objects: ObjectTable)
    requires Revoke(s, c, now, request, objects).0
    ensures Revoke(s, c, now, request, objects).1.rows != s.rows
  {
    hide Parts, Join, Key, SerialHex;
    var i := Find(s.rows, Key(SerialHex(c.serial)));
    var t := Revoke(s, c, now, request, objects).1;
    if i.Some? { assert TypeOf(t.rows[i.value]) != TypeOf(s.rows[i.value]); } else { assert |t.rows| > |s.rows|; }
  }

  /** The row at the certificate's place after an unsound revocation. */
  lemma UnsoundTarget(s: State, c: Cert, now: Tm, request: Revocation.Request, objects: ObjectTable)
    requires ValidTm(now) && 0 <= now.year <= 9999 && Storable(s.rows) && CaDatabase.Good(s, objects)
    requires Revoke(s, c, Print(now), request, objects).0 && !RevokeSound(s, c, now, request)
    ensures var r := Target(s, c);
            && (request.Valid? ==> Doomed(r, objects))
            && (!request.Valid? ==> Parts(request, objects).Some?
                                    && Doomed(RevokedRow(r, Join(Print(now), Parts(request, objects).value)), objects))
  {
    RevokeIsMark(s, c, Print(now), request, objects);
    var r := Target(s, c);
    EmptyIsUnreadable();
    if request.Valid? {
      ValidInserts(s, c, Print(now), objects);
      NewNameOnOneLine(c);
    } else {
      var text := Join(Print(now), Parts(request, objects).value);
      PrintHasNoComma(now);
      PrintIsUtcExactly(now);
      RevokedRowOkExactly(r, Print(now), request, objects);
      FieldWritableExactly(now, request, objects);
      if r.typ != "" { RevokedRowStorableExactly(r, text); }
      NewNameOnOneLine(c);
    }
    hide Revoke, Print, TimeCheck, UtcCheck, UtcYear, RowOk, RowStorable;
    hide Key, SerialHex, Parts, Join, OneLine, Writable;
  }

  lemma ValidInserts(s: State, c: Cert, now: string, objects: ObjectTable)
    requires Revoke(s, c, now, Valid, objects).0
    ensures Find(s.rows, Key(SerialHex(c.serial))).None?
  {
    hide Key, SerialHex;
  }

  lemma NewNameOnOneLine(c: Cert)
    ensures !OneLine(c.subject) ==> !OneLine(NewRow(c).name)
  {
  }

  /** Once a row is doomed and the file is the saved rows, no run can bring the two together again. */
  lemma {:induction false} DoomedRunDoesNotReload(text: string, s: State, steps: Run, objects: ObjectTable)
    requires forall i :: 0 <= i < |steps| ==> ClockOk(steps[i])
    requires text == Save(s.rows) && SomeDoomed(s.rows, objects)
    ensures var t := FinalState(s, steps, objects);
            Load(AfterSteps(text, s, steps, objects), s.unique, objects) != Some(t.rows)
    decreases |steps|
  {
    hide Apply, Load, Save, SomeDoomed, Evolves;
    if steps == [] || Apply(s, steps[0], objects).None? {
      DoomedDoesNotReload(s.rows, s.unique, objects);
    } else {
      var t := Apply(s, steps[0], objects).value;
      StepEvolves(s, steps[0], objects);
      DoomedStays(s.rows, t.rows, objects);
      DoomedRunDoesNotReload(Saved(text, s, t), t, steps[1..], objects);
    }
  }

  /** One run: the next load finds the rows in memory if and only if every step that went through was sound. */
  lemma {:induction false} RunReloadsExactly(text: string, s: State, steps: Run, objects: ObjectTable)
    requires forall i :: 0 <= i < |steps| ==> ClockOk(steps[i]) && LabelsOk(steps[i])
    requires Synced(text, s, objects)
    ensures Load(AfterSteps(text, s, steps, objects), s.unique, objects) == Some(FinalState(s, steps, objects).rows)
       <==> RunSound(s, steps, objects)
    decreases |steps|
  {
    hide Apply, Load, Save, SomeDoomed, Evolves, StepSound, CaDatabase.Good, Storable;
    if steps != [] && Apply(s, steps[0], objects).Some? {
      var t := Apply(s, steps[0], objects).value;
      StepEvolves(s, steps[0], objects);
      if StepSound(s, steps[0]) {
        StepKeepsSynced(text, s, steps[0], objects);
        RunReloadsExactly(Saved(text, s, t), t, steps[1..], objects);
      } else {
        UnsoundStepDooms(s, steps[0], objects);
        DoomedRunDoesNotReload(Saved(text, s, t), t, steps[1..], objects);
      }
    }
  }

  /** From any index that loads, over every sequence of runs: each load finds the rows that were in memory if and only
      if every step that went through was sound. */
  lemma {:induction false} RunsReloadExactly(text: string, unique: bool, runs: seq<Run>, objects: ObjectTable)
    requires ClocksOk(runs) && AllLabelsOk(runs) && Load(text, unique, objects).Some?
    ensures Reloads(text, unique, runs, objects) <==> RunsSound(text, unique, runs, objects)
    decreases |runs|
  {
    hide Load, AfterSteps, RunSound, Synced, FinalState;
    if runs != [] {
      var n := |runs| - 1;
      RunsReloadExactly(text, unique, runs[..n], objects);
      if Reloads(text, unique, runs[..n], objects) {
        var before := AfterRuns(text, unique, runs[..n], objects).value;
        LoadedIsSynced(before, unique, objects);
        RunReloadsExactly(before, Fresh(Load(before, unique, objects).value, unique), runs[n], objects);
      }
    }
  }

  /** From any index the load accepts, every sequence of sound runs leaves, after each run, an index the next load
      accepts; over all of them no row is lost and each row only moves forward through its life. */
  lemma {:induction false} EveryRunLoads(text: string, unique: bool, runs: seq<Run>, objects: ObjectTable)
    requires ClocksOk(runs) && AllLabelsOk(runs) && Load(text, unique, objects).Some?
    requires RunsSound(text, unique, runs, objects)
    ensures Loaded(text, unique, runs, objects).Some?
    ensures Evolves(Load(text, unique, objects).value, Loaded(text, unique, runs, objects).value)
    decreases |runs|
  {
    hide Load, Evolves, AfterSteps, RunSound, Synced, FinalState;
    var first := Load(text, unique, objects).value;
    if runs == [] {
      EvolvesReflexive(first);
    } else {
      var n := |runs| - 1;
      EveryRunLoads(text, unique, runs[..n], objects);
      var rows := Loaded(text, unique, runs[..n], objects).value;
      var before := AfterRuns(text, unique, runs[..n], objects).value;
      LoadedIsSynced(before, unique, objects);
      RunKeepsSynced(before, Fresh(rows, unique), runs[n], objects);
      SyncedLoads(AfterSteps(before, Fresh(rows, unique), runs[n], objects),
                  FinalState(Fresh(rows, unique), runs[n], objects), objects);
      EvolvesTransitive(first, rows, FinalState(Fresh(rows, unique), runs[n], objects).rows);
    }
  }

  lemma SyncedLoads(text: string, s: State, objects: ObjectTable)
    requires Synced(text, s, objects)
    ensures Load(text, s.unique, objects) == Some(s.rows)
  {
  }
}
