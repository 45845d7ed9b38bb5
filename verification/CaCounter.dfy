/** The serial counter over a run: issuing keeps it above the index, inserting foreign certificates need not. */
module CaCounter {
  import opened CaDatabase
  import opened CaRevoke
  import opened CaRuns
  import opened Revocation
  import opened SerialText
  import opened Wrappers
  import CaIssue

  /** State and counter after some steps, the serial numbers of certificates whose rows -revoke and -valid have
      inserted, and whether a step has ended the run. */
  datatype Tally = Tally(state: State, next: int, inserted: seq<int>, ended: bool)

  /** In counter mode a batch begins at the counter. */
  function FromCounter(step: Step, next: int): Step {
    if step.Certify? then step.(start := next) else step
  }

  function NextAfter(s: State, step: Step, next: int): int {
    if step.Certify? && CaIssue.Batch(s, step.setup, step.requests, next).Some? then
      CaIssue.Batch(s, step.setup, step.requests, next).value.serial
    else next
  }

  /** The serial number a step inserts besides those it issues. */
  function InsertedBy(s: State, step: Step): seq<int> {
    if step.RevokeOrAdd? && Find(s.rows, Key(SerialHex(step.cert.serial))).None? then [step.cert.serial] else []
  }

  function Count(s: State, next: int, steps: Run, objects: ObjectTable): Tally
    requires forall i :: 0 <= i < |steps| ==> ClockOk(steps[i])
  {
    if steps == [] then Tally(s, next, [], false)
    else
      var p := Count(s, next, steps[..|steps| - 1], objects);
      var step := FromCounter(steps[|steps| - 1], p.next);
      var t := Apply(p.state, step, objects);
      if p.ended then p
      else if t.None? then p.(ended := true)
      else Tally(t.value, NextAfter(p.state, step, p.next), p.inserted + InsertedBy(p.state, step), false)
  }

  /** Every number of the index is below the counter or was inserted. */
  predicate BelowOrInserted(rows: seq<Row>, next: int, inserted: seq<int>) {
    forall i :: 0 <= i < |rows| ==>
      SerialOk(rows[i].serial) && (SerialValue(rows[i].serial) < next || SerialValue(rows[i].serial) in inserted)
  }

  predicate Has(rows: seq<Row>, n: int) {
    exists i :: 0 <= i < |rows| && SerialOk(rows[i].serial) && SerialValue(rows[i].serial) == n
  }

  predicate HasAll(rows: seq<Row>, inserted: seq<int>) {
    forall k :: 0 <= k < |inserted| ==> Has(rows, inserted[k])
  }

  lemma HasStays(rows: seq<Row>, later: seq<Row>, inserted: seq<int>)
    requires Evolves(rows, later) && HasAll(rows, inserted)
    ensures HasAll(later, inserted)
  {
    hide SerialOk, SerialValue;
    forall k | 0 <= k < |inserted| ensures Has(later, inserted[k]) {
      var i :| 0 <= i < |rows| && SerialOk(rows[i].serial) && SerialValue(rows[i].serial) == inserted[k];
      assert RowEvolves(rows[i], later[i]);
    }
  }

  /** The row has the printed number of some certificate below the counter. */
  ghost predicate IssuedBelow(r: Row, next: int) { exists n :: n < next && r.serial == SerialHex(n) }

  lemma BatchRowsBelow(s: State, setup: CaIssue.Setup, requests: seq<CaIssue.Request>, start: int)
    requires CaIssue.Batch(s, setup, requests, start).Some?
    ensures var p := CaIssue.Batch(s, setup, requests, start).value;
            start <= p.serial && forall i :: |s.rows| <= i < |p.state.rows| ==> IssuedBelow(p.state.rows[i], p.serial)
  {
    hide CaIssue.RowFor, CaIssue.KeptExactly, CaIssue.RowsAdded, IssuedBelow;
    CaIssue.BatchEffect(s, setup, requests, start);
    var p := CaIssue.Batch(s, setup, requests, start).value;
    hide CaIssue.Batch;
    AddedLength(setup, requests, start, s.rows, p.state.rows, p.kept);
    forall i | |s.rows| <= i < |p.state.rows| ensures IssuedBelow(p.state.rows[i], p.serial) {
      IssuedRowBelow(setup, requests, start, s.rows, p.state.rows, p.kept, i - |s.rows|);
    }
  }

  lemma AddedLength(setup: CaIssue.Setup, requests: seq<CaIssue.Request>, start: int, before: seq<Row>, after: seq<Row>,
                    kept: seq<nat>)
    requires CaIssue.RowsAdded(setup, requests, start, before, after, kept)
    ensures |after| == |before| + |kept|
  {
  }

  lemma IssuedRowBelow(setup: CaIssue.Setup, requests: seq<CaIssue.Request>, start: int, before: seq<Row>,
                       after: seq<Row>, kept: seq<nat>, j: nat)
    requires CaIssue.RowsAdded(setup, requests, start, before, after, kept) && j < |kept|
    ensures IssuedBelow(after[|before| + j], start + |kept|)
  {
    hide CaIssue.RowFor, SerialHex;
    assert Some(after[|before| + j]) == CaIssue.RowFor(setup, requests[kept[j]], start + j);
    CaIssue.RowForSerial(setup, requests[kept[j]], start + j);
  }

  lemma MarkAddsNothing(s: State, step: Step, objects: ObjectTable)
    requires ClockOk(step) && step.MarkExpiredRows? && Apply(s, step, objects).Some?
    ensures |Apply(s, step, objects).value.rows| == |s.rows|
  {
  }

  lemma RevokeAdds(s: State, step: Step, objects: ObjectTable)
    requires ClockOk(step) && step.RevokeOrAdd? && Apply(s, step, objects).Some?
    ensures var t := Apply(s, step, objects).value;
            && |t.rows| == |s.rows| + |InsertedBy(s, step)|
            && (InsertedBy(s, step) != [] ==> t.rows[|s.rows|].serial == SerialHex(step.cert.serial))
  {
    hide Key, SerialHex, Parts, Join;
  }

  /** Rows that a step adds: issued ones are below the new counter, any other one is the inserted one. */
  lemma AddedRows(s: State, step: Step, next: int, i: int, objects: ObjectTable)
    requires ClockOk(step) && (step.Certify? ==> step.start == next) && Apply(s, step, objects).Some?
    requires |s.rows| <= i < |Apply(s, step, objects).value.rows|
    ensures var r := Apply(s, step, objects).value.rows[i].serial;
            exists n :: r == SerialHex(n) && (n < NextAfter(s, step, next) || n in InsertedBy(s, step))
  {
    match step {
      case MarkExpiredRows(_) => MarkAddsNothing(s, step, objects);
      case Certify(setup, requests, start, _) => BatchRowsBelow(s, setup, requests, start);
      case RevokeOrAdd(cert, _, _) => RevokeAdds(s, step, objects);
    }
    hide Apply, CaIssue.Batch, SerialHex, Key;
  }

  lemma StepCounts(s: State, step: Step, next: int, inserted: seq<int>, objects: ObjectTable)
    requires ClockOk(step) && (step.Certify? ==> step.start == next) && Apply(s, step, objects).Some?
    requires BelowOrInserted(s.rows, next, inserted) && HasAll(s.rows, inserted)
    ensures var t, n := Apply(s, step, objects).value, NextAfter(s, step, next);
            && next <= n
            && BelowOrInserted(t.rows, n, inserted + InsertedBy(s, step))
            && HasAll(t.rows, inserted + InsertedBy(s, step))
  {
    StepEvolves(s, step, objects);
    if step.Certify? { BatchRowsBelow(s, step.setup, step.requests, step.start); }
    if step.RevokeOrAdd? { RevokeAdds(s, step, objects); }
    var t, n := Apply(s, step, objects).value, NextAfter(s, step, next);
    var more := inserted + InsertedBy(s, step);
    HasStays(s.rows, t.rows, inserted);
    assert next <= n;
    hide Apply, NextAfter, SerialOk, SerialValue, Key, SerialHex, InsertedBy;
    forall i | 0 <= i < |t.rows|
      ensures SerialOk(t.rows[i].serial) && (SerialValue(t.rows[i].serial) < n || SerialValue(t.rows[i].serial) in more)
    {
      if i < |s.rows| {
        assert RowEvolves(s.rows[i], t.rows[i]);
      } else {
        AddedRows(s, step, next, i, objects);
        var k :| t.rows[i].serial == SerialHex(k) && (k < n || k in InsertedBy(s, step));
        SerialHexReads(k);
      }
    }
    if InsertedBy(s, step) != [] { InsertedIsThere(s, step, t.rows); }
  }

  lemma InsertedIsThere(s: State, step: Step, rows: seq<Row>)
    requires InsertedBy(s, step) != [] && |s.rows| < |rows| && rows[|s.rows|].serial == SerialHex(step.cert.serial)
    ensures HasAll(rows, InsertedBy(s, step))
  {
    SerialHexReads(step.cert.serial);
    hide SerialOk, SerialValue, SerialHex, Key;
  }

  lemma {:induction false} RunCounts(s: State, next: int, steps: Run, objects: ObjectTable)
    requires forall i :: 0 <= i < |steps| ==> ClockOk(steps[i])
    requires CaIssue.Above(next, s.rows)
    ensures var p := Count(s, next, steps, objects);
            next <= p.next && BelowOrInserted(p.state.rows, p.next, p.inserted) && HasAll(p.state.rows, p.inserted)
    decreases |steps|
  {
    hide Apply, NextAfter, InsertedBy, SerialOk, SerialValue;
    if steps != [] {
      var n := |steps| - 1;
      RunCounts(s, next, steps[..n], objects);
      var p := Count(s, next, steps[..n], objects);
      var step := FromCounter(steps[n], p.next);
      if !p.ended && Apply(p.state, step, objects).Some? { StepCounts(p.state, step, p.next, p.inserted, objects); }
    }
  }

  /** A counter above the index before a run is above it after the run if and only if it has passed every serial number
      that -revoke and -valid have inserted. */
  lemma CounterStaysAboveExactly(s: State, next: int, steps: Run, objects: ObjectTable)
    requires forall i :: 0 <= i < |steps| ==> ClockOk(steps[i])
    requires CaIssue.Above(next, s.rows)
    ensures var p := Count(s, next, steps, objects);
            CaIssue.Above(p.next, p.state.rows) <==> forall k :: 0 <= k < |p.inserted| ==> p.inserted[k] < p.next
  {
    RunCounts(s, next, steps, objects);
    var p := Count(s, next, steps, objects);
    hide Count, SerialOk, SerialValue;
    if CaIssue.Above(p.next, p.state.rows) {
      forall k | 0 <= k < |p.inserted| ensures p.inserted[k] < p.next { assert Has(p.state.rows, p.inserted[k]); }
    }
  }

  /** One -revoke or -valid that goes through keeps the counter above the index if and only if the certificate's row was
      there before or its number is below the counter. */
  lemma RevokeKeepsCounterExactly(s: State, next: int, step: Step, objects: ObjectTable)
    requires ClockOk(step) && step.RevokeOrAdd? && Apply(s, step, objects).Some? && CaIssue.Above(next, s.rows)
    ensures CaIssue.Above(next, Apply(s, step, objects).value.rows)
       <==> Find(s.rows, Key(SerialHex(step.cert.serial))).Some? || step.cert.serial < next
  {
    var t := Apply(s, step, objects).value;
    StepCounts(s, step, next, [], objects);
    hide Apply, SerialOk, SerialValue, SerialHex, Key, Evolves;
    if Find(s.rows, Key(SerialHex(step.cert.serial))).None? {
      assert [] + InsertedBy(s, step) == [step.cert.serial];
      OneForeignNumber(t.rows, next, step.cert.serial);
    } else {
      assert [] + InsertedBy(s, step) == [];
    }
  }

  lemma OneForeignNumber(rows: seq<Row>, next: int, n: int)
    requires BelowOrInserted(rows, next, [n]) && HasAll(rows, [n])
    ensures CaIssue.Above(next, rows) <==> n < next
  {
    hide SerialOk, SerialValue;
    assert Has(rows, [n][0]);
  }

  /** Adding a certificate that is not in the index, under a name no active row has, goes through; with a number at or
      above the counter it leaves the counter below the index. */
  lemma ForeignSerialPassesTheCounter(s: State, next: int, c: Cert, step: Step, objects: ObjectTable)
    requires CaIssue.Above(next, s.rows) && next <= c.serial && CanInsert(s, NewRow(c))
    requires step.RevokeOrAdd? && ClockOk(step) && step.cert == c && step.request == Valid
    ensures var p := Count(s, next, [step], objects);
            !p.ended && p.state.rows == s.rows + [NewRow(c)] && !CaIssue.Above(p.next, p.state.rows)
  {
    SerialHexReads(c.serial);
    hide Key, SerialHex, SerialOk, SerialValue;
    assert [step][..0] == [];
    assert Count(s, next, [step][..0], objects) == Tally(s, next, [], false);
    assert (s.rows + [NewRow(c)])[|s.rows|] == NewRow(c);
  }
}
