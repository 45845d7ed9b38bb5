/** Committing a batch to disk: two files are written under new names, then renamed into place one after the other. */
module CaCommit {
  import opened Wrappers
  import opened CaDatabase
  import opened SerialText
  import CaIssue

  /** The serial counter, the index, and the index attributes; each with a new and an old copy. */
  datatype File = Serial | SerialNew | SerialOld | Index | IndexNew | IndexOld | Attr | AttrNew | AttrOld

  datatype Content = Counter(next: int) | Rows(rows: seq<Row>) | Unique(unique: bool)

  type Disk = map<File, Content>

  datatype Errno = Done | NoEntry | Failed

  /** Whether the system call with a given number fails. */
  type Faults = nat -> bool

  function Rename(d: Disk, from: File, to: File, fault: bool): (Errno, Disk) {
    if from !in d then (NoEntry, d)
    else if fault then (Failed, d)
    else (Done, (d - {from})[to := d[from]])
  }

  /** What the next run can take from the disk: the counter is above every number of the index. */
  predicate Safe(d: Disk) {
    Serial in d && Index in d && d[Serial].Counter? && d[Index].Rows? ==> CaIssue.Above(d[Serial].next, d[Index].rows)
  }

  predicate AllSafe(trace: seq<Disk>) { forall i :: 0 <= i < |trace| ==> Safe(trace[i]) }

  /** Result of a few system calls: success, the disk, and every state the disk has passed through, the last
      included. */
  datatype Outcome = Outcome(ok: bool, disk: Disk, trace: seq<Disk>)

  /** One outcome after another. */
  function Then(first: Outcome, next: Outcome): Outcome { Outcome(next.ok, next.disk, first.trace + next.trace) }

  /** The index before the batch, and counter and index after it. */
  datatype Change = Change(oldRows: seq<Row>, next: int, rows: seq<Row>)

  // ----- the calls -----

  function RotateSerial(d: Disk, faults: Faults): Outcome {
    var (e, d1) := Rename(d, Serial, SerialOld, faults(1));
    if e.Failed? then Outcome(false, d, [d])
    else
      var (f, d2) := Rename(d1, SerialNew, Serial, faults(2));
      if f.Done? then Outcome(true, d2, [d1, d2])
      else
        var (_, d3) := Rename(d1, SerialOld, Serial, faults(3));
        Outcome(false, d3, [d1, d3])
  }

  /** Undoes the two renames of the index; each of the two calls may fail again. */
  function TakeBackIndex(d: Disk, faults: Faults, n: nat): seq<Disk> {
    var (_, d1) := Rename(d, Index, IndexNew, faults(n));
    var (_, d2) := Rename(d1, IndexOld, Index, faults(n + 1));
    [d1, d2]
  }

  /** The attribute file follows the index; when that fails the index goes back. */
  function RotateAttr(d: Disk, faults: Faults): Outcome {
    var (e, d1) := Rename(d, Attr, AttrOld, faults(7));
    if e.Failed? then
      var back := TakeBackIndex(d, faults, 8);
      Outcome(false, back[1], back)
    else
      var (f, d2) := Rename(d1, AttrNew, Attr, faults(10));
      if f.Done? then Outcome(true, d2, [d1, d2])
      else
        var (_, d3) := Rename(d1, AttrOld, Attr, faults(13));
        var back := TakeBackIndex(d3, faults, 11);
        Outcome(false, back[1], [d1, d3] + back)
  }

  function RotateIndex(d: Disk, faults: Faults): Outcome {
    var (e, d1) := Rename(d, Index, IndexOld, faults(4));
    if e.Failed? then Outcome(false, d, [d])
    else
      var (f, d2) := Rename(d1, IndexNew, Index, faults(5));
      if f.Done? then
        var r := RotateAttr(d2, faults);
        Outcome(r.ok, r.disk, [d1, d2] + r.trace)
      else
        var (_, d3) := Rename(d1, IndexOld, Index, faults(6));
        Outcome(false, d3, [d1, d3])
  }

  /** The disk with the new counter, and with the new index and its attributes, under their new names. */
  function SaveSerial(d: Disk, c: Change): Disk { d[SerialNew := Counter(c.next)] }

  function SaveIndex(d: Disk, c: Change, unique: bool): Disk { d[IndexNew := Rows(c.rows)][AttrNew := Unique(unique)] }

  /** Saves counter and index under their new names, and writes the certificates. */
  function Stage(d: Disk, c: Change, unique: bool, certsWritten: bool, faults: Faults): Outcome {
    if faults(14) then Outcome(false, d, [d])
    else
      var d1 := SaveSerial(d, c);
      if faults(15) then Outcome(false, d1, [d, d1])
      else
        var d2 := SaveIndex(d1, c, unique);
        Outcome(certsWritten, d2, [d, d1, d2])
  }

  /** The whole commit: stage, then rotate the counter, then the index. */
  function Commit(d: Disk, c: Change, unique: bool, certsWritten: bool, faults: Faults): Outcome {
    var s := Stage(d, c, unique, certsWritten, faults);
    if !s.ok then s
    else
      var r := RotateSerial(s.disk, faults);
      if !r.ok then Then(s, r) else Then(s, Then(r, RotateIndex(r.disk, faults)))
  }

  // ----- what every state has in common -----

  function CounterOf(d: Disk, f: File): Option<int> {
    if f in d && d[f].Counter? then Some(d[f].next) else None
  }

  /** The counter that can come back: the one on disk, or without one that of a left-over backup. */
  function Back(d: Disk): Option<int> {
    if Serial in d then CounterOf(d, Serial) else CounterOf(d, SerialOld)
  }

  /** The counter is the new one or the one that can come back; the index is the old one, or the new one beside the
      new counter. */
  predicate Between(d: Disk, c: Change, back: Option<int>) {
    && (CounterOf(d, Serial).Some? ==> CounterOf(d, Serial) == Some(c.next) || CounterOf(d, Serial) == back)
    && (Index in d ==> d[Index] == Rows(c.oldRows)
                       || (d[Index] == Rows(c.rows) && Serial in d && d[Serial] == Counter(c.next)))
  }

  predicate AllBetween(trace: seq<Disk>, c: Change, back: Option<int>) {
    forall i :: 0 <= i < |trace| ==> Between(trace[i], c, back)
  }

  /** The new counter is above old and new numbers. */
  predicate Grows(c: Change) { CaIssue.Above(c.next, c.oldRows) && CaIssue.Above(c.next, c.rows) }

  /** The index is on disk as the run has loaded it. */
  predicate Loaded(d: Disk, c: Change) { Index in d && d[Index] == Rows(c.oldRows) }

  /** The new copies hold what the batch has made. */
  predicate Staged(d: Disk, c: Change) {
    SerialNew in d && d[SerialNew] == Counter(c.next) && IndexNew in d && d[IndexNew] == Rows(c.rows) && AttrNew in d
  }

  /** The new index and its attributes are in place, and the old index is kept. */
  predicate IndexPlaced(d: Disk, c: Change, attr: Content) {
    && Index in d && d[Index] == Rows(c.rows) && IndexOld in d && d[IndexOld] == Rows(c.oldRows)
    && Attr in d && d[Attr] == attr
  }

  /** The new counter is in place, and the old one, if there was one, is kept. */
  predicate SerialPlaced(d: Disk, c: Change, kept: Option<Content>) {
    && Serial in d && d[Serial] == Counter(c.next)
    && (kept.Some? ==> SerialOld in d && d[SerialOld] == kept.value)
  }

  predicate BackIsSafe(back: Option<int>, c: Change) { back.Some? ==> CaIssue.Above(back.value, c.oldRows) }

  lemma BetweenIsSafe(trace: seq<Disk>, c: Change, back: Option<int>)
    requires AllBetween(trace, c, back) && Grows(c) && BackIsSafe(back, c)
    ensures AllSafe(trace)
  {
    hide CaIssue.Above;
  }

  // ----- the two rotations -----

  function OldCounter(d: Disk): Option<Content> {
    if Serial in d then Some(d[Serial]) else None
  }

  /** Every state of the renames and of the way back lies between old and new; the index is not touched. A failed
      rotation without a second fault leaves the counter file as it was. */
  lemma SerialRotates(d: Disk, c: Change, faults: Faults)
    requires Loaded(d, c) && Staged(d, c)
    ensures var r := RotateSerial(d, faults);
            && AllBetween(r.trace, c, Back(d)) && Between(r.disk, c, Back(d)) && Loaded(r.disk, c)
            && (r.ok ==> && SerialPlaced(r.disk, c, OldCounter(d))
                         && IndexNew in r.disk && r.disk[IndexNew] == Rows(c.rows)
                         && AttrNew in r.disk && r.disk[AttrNew] == d[AttrNew])
            && (!r.ok && !faults(3) && Serial in d ==> Serial in r.disk && r.disk[Serial] == d[Serial])
  {
  }

  /** New index and new counter are in place, and the old index can come back. */
  predicate Beside(d: Disk, c: Change, kept: Option<Content>) {
    && Index in d && d[Index] == Rows(c.rows) && SerialPlaced(d, c, kept)
    && IndexOld in d && d[IndexOld] == Rows(c.oldRows)
  }

  lemma BesideIsBetween(d: Disk, c: Change, back: Option<int>, kept: Option<Content>)
    requires Beside(d, c, kept)
    ensures Between(d, c, back)
  {
  }

  lemma AttrKeepsBeside(d: Disk, from: File, to: File, fault: bool, c: Change, kept: Option<Content>)
    requires Beside(d, c, kept) && from in {Attr, AttrNew, AttrOld} && to in {Attr, AttrNew, AttrOld}
    ensures Beside(Rename(d, from, to, fault).1, c, kept)
  {
  }

  lemma IndexGoesBack(d: Disk, c: Change, faults: Faults, n: nat, back: Option<int>, kept: Option<Content>)
    requires Beside(d, c, kept)
    ensures var t := TakeBackIndex(d, faults, n);
            && AllBetween(t, c, back) && SerialPlaced(t[1], c, kept)
            && (!faults(n) && !faults(n + 1) ==> Loaded(t[1], c))
  {
  }

  lemma AttrRotates(d: Disk, c: Change, faults: Faults, back: Option<int>, kept: Option<Content>)
    requires Beside(d, c, kept) && AttrNew in d
    ensures var r := RotateAttr(d, faults);
            && AllBetween(r.trace, c, back) && SerialPlaced(r.disk, c, kept)
            && (r.ok ==> IndexPlaced(r.disk, c, d[AttrNew]))
            && (!r.ok && !faults(8) && !faults(9) && !faults(11) && !faults(12) ==> Loaded(r.disk, c))
  {
    var (e, d1) := Rename(d, Attr, AttrOld, faults(7));
    var (f, d2) := Rename(d1, AttrNew, Attr, faults(10));
    var (_, d3) := Rename(d1, AttrOld, Attr, faults(13));
    assert f.Done? ==> Attr in d2 && d2[Attr] == d[AttrNew];
    AttrKeepsBeside(d, Attr, AttrOld, faults(7), c, kept);
    AttrKeepsBeside(d1, AttrNew, Attr, faults(10), c, kept);
    AttrKeepsBeside(d1, AttrOld, Attr, faults(13), c, kept);
    BesideIsBetween(d1, c, back, kept);
    BesideIsBetween(d2, c, back, kept);
    BesideIsBetween(d3, c, back, kept);
    IndexGoesBack(d, c, faults, 8, back, kept);
    IndexGoesBack(d3, c, faults, 11, back, kept);
    hide Rename, TakeBackIndex, Between, SerialPlaced, Loaded;
  }

  /** Every state of the renames of index and attributes, and of the ways back, lies between old and new, beside the new
      counter; without further faults a failed rotation leaves the old index in place. */
  lemma IndexRotates(d: Disk, c: Change, faults: Faults, back: Option<int>, kept: Option<Content>)
    requires Loaded(d, c) && SerialPlaced(d, c, kept)
    requires IndexNew in d && d[IndexNew] == Rows(c.rows) && AttrNew in d
    ensures var r := RotateIndex(d, faults);
            && AllBetween(r.trace, c, back) && SerialPlaced(r.disk, c, kept)
            && (r.ok ==> IndexPlaced(r.disk, c, d[AttrNew]))
            && (!r.ok && !faults(6) && !faults(8) && !faults(9) && !faults(11) && !faults(12) ==> Loaded(r.disk, c))
  {
    var (e, d1) := Rename(d, Index, IndexOld, faults(4));
    var (f, d2) := Rename(d1, IndexNew, Index, faults(5));
    if e.Done? && f.Done? { AttrRotates(d2, c, faults, back, kept); }
    hide RotateAttr;
  }

  // ----- the whole commit -----

  /** Every state of a commit lies between old and new; success puts both new files in place and keeps the old ones. */
  lemma CommitStates(d: Disk, c: Change, unique: bool, certsWritten: bool, faults: Faults)
    requires Loaded(d, c)
    ensures var r := Commit(d, c, unique, certsWritten, faults);
            && AllBetween(r.trace, c, Back(d)) && r.trace != [] && r.trace[|r.trace| - 1] == r.disk && r.trace[0] == d
            && (r.ok ==> SerialPlaced(r.disk, c, OldCounter(d)) && IndexPlaced(r.disk, c, Unique(unique)))
  {
    StageStates(d, c, unique, certsWritten, faults);
    var s := Stage(d, c, unique, certsWritten, faults);
    hide Stage, RotateSerial, RotateIndex, Between, Back, IndexPlaced, SerialPlaced;
    if s.ok {
      SerialRotates(s.disk, c, faults);
      var r := RotateSerial(s.disk, faults);
      LastOfTraces(s.disk, faults);
      if r.ok {
        IndexRotates(r.disk, c, faults, Back(d), OldCounter(d));
        LastOfTraces(r.disk, faults);
      }
    }
  }

  lemma StageStates(d: Disk, c: Change, unique: bool, certsWritten: bool, faults: Faults)
    requires Loaded(d, c)
    ensures var s := Stage(d, c, unique, certsWritten, faults);
            && AllBetween(s.trace, c, Back(d)) && s.trace != [] && s.trace[|s.trace| - 1] == s.disk && s.trace[0] == d
            && (s.ok ==> && Loaded(s.disk, c) && Staged(s.disk, c) && s.disk[AttrNew] == Unique(unique)
                         && Back(s.disk) == Back(d) && OldCounter(s.disk) == OldCounter(d))
  {
  }

  lemma LastOfTraces(d: Disk, faults: Faults)
    ensures var r := RotateSerial(d, faults); r.trace != [] && r.trace[|r.trace| - 1] == r.disk
    ensures var r := RotateIndex(d, faults); r.trace != [] && r.trace[|r.trace| - 1] == r.disk
  {
  }

  /** Whichever system calls fail, the counter is above the index in every state the disk passes through, if and
      only if the new counter is above old and new numbers, and the counter that can come back is above the old
      ones. That is the counter on disk; when the run has created the counter, it is that of a backup left over from
      an earlier one. */
  lemma CommitIsSafeExactly(d: Disk, c: Change, unique: bool)
    requires Loaded(d, c)
    ensures (forall certsWritten, faults :: AllSafe(Commit(d, c, unique, certsWritten, faults).trace))
       <==> BackIsSafe(Back(d), c) && Grows(c)
  {
    hide CaIssue.Above, AllBetween;
    if !Grows(c) {
      SmallCounterIsReached(d, c, unique);
    } else if BackIsSafe(Back(d), c) {
      forall certsWritten, faults ensures AllSafe(Commit(d, c, unique, certsWritten, faults).trace) {
        CommitStates(d, c, unique, certsWritten, faults);
        BetweenIsSafe(Commit(d, c, unique, certsWritten, faults).trace, c, Back(d));
      }
    } else {
      BadBackIsReached(d, c, unique);
    }
  }

  const NO_FAULTS: Faults := n => false

  lemma NoFaultsSerial(d: Disk, c: Change)
    requires Loaded(d, c) && Staged(d, c)
    ensures var r := RotateSerial(d, NO_FAULTS);
            && r.ok && |r.trace| == 2 && Loaded(r.disk, c) && Serial in r.disk && r.disk[Serial] == Counter(c.next)
            && IndexNew in r.disk && r.disk[IndexNew] == Rows(c.rows) && AttrNew in r.disk
            && Serial !in r.trace[0] && Index in r.trace[0] && r.trace[1] == r.disk
  {
  }

  lemma NoFaultsIndex(d: Disk, c: Change)
    requires Loaded(d, c) && Serial in d && d[Serial] == Counter(c.next)
    requires IndexNew in d && d[IndexNew] == Rows(c.rows) && AttrNew in d
    ensures var r := RotateIndex(d, NO_FAULTS);
            && r.ok && |r.trace| == 4 && Index in r.disk && r.disk[Index] == Rows(c.rows)
            && Serial in r.disk && r.disk[Serial] == Counter(c.next) && Index !in r.trace[0]
            && (forall i :: 1 <= i < 4 ==> Serial in r.trace[i] && Index in r.trace[i]) && r.trace[3] == r.disk
  {
  }

  /** Without any fault the commit goes through, and puts the new counter beside the old and then beside the new
      index. */
  lemma NoFaultsCommit(d: Disk, c: Change, unique: bool)
    requires Loaded(d, c)
    ensures var r := Commit(d, c, unique, true, NO_FAULTS);
            && r.ok && |r.trace| == 9 && r.trace[8] == r.disk && (forall i :: 0 <= i < 3 ==> Index in r.trace[i])
            && (forall i :: 0 <= i < 3 ==> (Serial in r.trace[i] <==> Serial in d))
            && Serial !in r.trace[3] && Index !in r.trace[5]
            && (forall i :: i in {4, 6, 7, 8} ==> Serial in r.trace[i] && Index in r.trace[i])
            && r.trace[4][Serial] == r.disk[Serial] == Counter(c.next)
            && r.trace[4][Index] == Rows(c.oldRows) && r.disk[Index] == Rows(c.rows)
  {
    StageStates(d, c, unique, true, NO_FAULTS);
    var t := Stage(d, c, unique, true, NO_FAULTS);
    StagedFiles(d, c, unique);
    NoFaultsSerial(t.disk, c);
    var r1 := RotateSerial(t.disk, NO_FAULTS);
    NoFaultsIndex(r1.disk, c);
    var r2 := RotateIndex(r1.disk, NO_FAULTS);
    hide Stage, RotateSerial, RotateIndex, AllBetween;
    var all := Commit(d, c, unique, true, NO_FAULTS).trace;
    assert all == t.trace + (r1.trace + r2.trace);
    assert all[3] == r1.trace[0] && all[4] == r1.trace[1] && all[5] == r2.trace[0];
    assert all[6] == r2.trace[1] && all[7] == r2.trace[2] && all[8] == r2.trace[3];
  }

  lemma StagedFiles(d: Disk, c: Change, unique: bool)
    requires Loaded(d, c)
    ensures var t := Stage(d, c, unique, true, NO_FAULTS);
            && t.ok && |t.trace| == 3
            && forall i :: 0 <= i < 3 ==> Index in t.trace[i] && (Serial in t.trace[i] <==> Serial in d)
  {
  }

  /** A new counter that is not above all numbers is put in place by the commit that goes through. */
  lemma SmallCounterIsReached(d: Disk, c: Change, unique: bool)
    requires Loaded(d, c) && !Grows(c)
    ensures !AllSafe(Commit(d, c, unique, true, NO_FAULTS).trace)
  {
    hide CaIssue.Above;
    NoFaultsCommit(d, c, unique);
    hide Commit;
    var r := Commit(d, c, unique, true, NO_FAULTS);
    assert !Safe(r.trace[4]) || !Safe(r.trace[8]);
  }

  /** A counter created from a random number, without any backup: nothing bad can come back, the commit goes through
      without a fault, and the next run finds the number 5 in the index above its counter. */
  lemma RandomStartIsUnsafe(five: Row, one: Row, unique: bool)
    requires SerialOk(five.serial) && SerialValue(five.serial) == 5
    requires SerialOk(one.serial) && SerialValue(one.serial) == 1
    ensures var d: Disk := map[Index := Rows([five])];
            var c := Change([five], 2, [five, one]);
            var r := Commit(d, c, unique, true, NO_FAULTS);
            Loaded(d, c) && BackIsSafe(Back(d), c) && r.ok && !Safe(r.disk)
  {
    var d: Disk := map[Index := Rows([five])];
    var c := Change([five], 2, [five, one]);
    NoFaultsCommit(d, c, unique);
    hide Commit;
    assert [five, one][0] == five;
  }

  // ----- what a crash leaves -----

  /** The old index is there under its own or its backup name, and so is the old counter if there was one. */
  predicate KeepsOld(d: Disk, c: Change, kept: Option<Content>) {
    && ((Index in d && d[Index] == Rows(c.oldRows)) || (IndexOld in d && d[IndexOld] == Rows(c.oldRows)))
    && (kept.Some? ==> (Serial in d && d[Serial] == kept.value) || (SerialOld in d && d[SerialOld] == kept.value))
  }

  predicate AllKeepOld(trace: seq<Disk>, c: Change, kept: Option<Content>) {
    forall i :: 0 <= i < |trace| ==> KeepsOld(trace[i], c, kept)
  }

  lemma SerialKeepsOld(d: Disk, c: Change, faults: Faults)
    requires Loaded(d, c) && Staged(d, c)
    ensures AllKeepOld(RotateSerial(d, faults).trace, c, OldCounter(d))
  {
  }

  lemma BackKeepsOld(d: Disk, c: Change, faults: Faults, n: nat, kept: Option<Content>)
    requires Beside(d, c, kept)
    ensures AllKeepOld(TakeBackIndex(d, faults, n), c, kept)
  {
  }

  lemma AttrKeepsOld(d: Disk, c: Change, faults: Faults, kept: Option<Content>)
    requires Beside(d, c, kept) && AttrNew in d
    ensures AllKeepOld(RotateAttr(d, faults).trace, c, kept)
  {
    var (e, d1) := Rename(d, Attr, AttrOld, faults(7));
    var (f, d2) := Rename(d1, AttrNew, Attr, faults(10));
    var (_, d3) := Rename(d1, AttrOld, Attr, faults(13));
    AttrKeepsBeside(d, Attr, AttrOld, faults(7), c, kept);
    AttrKeepsBeside(d1, AttrNew, Attr, faults(10), c, kept);
    AttrKeepsBeside(d1, AttrOld, Attr, faults(13), c, kept);
    BackKeepsOld(d, c, faults, 8, kept);
    BackKeepsOld(d3, c, faults, 11, kept);
    hide Rename, TakeBackIndex;
  }

  lemma IndexKeepsOld(d: Disk, c: Change, faults: Faults, kept: Option<Content>)
    requires Loaded(d, c) && SerialPlaced(d, c, kept)
    requires IndexNew in d && d[IndexNew] == Rows(c.rows) && AttrNew in d
    ensures AllKeepOld(RotateIndex(d, faults).trace, c, kept)
  {
    var (e, d1) := Rename(d, Index, IndexOld, faults(4));
    var (f, d2) := Rename(d1, IndexNew, Index, faults(5));
    if e.Done? && f.Done? { AttrKeepsOld(d2, c, faults, kept); }
    hide RotateAttr;
  }

  /** Wherever a commit is stopped, the old index and the old counter are still there. */
  lemma NothingOldIsLost(d: Disk, c: Change, unique: bool, certsWritten: bool, faults: Faults)
    requires Loaded(d, c)
    ensures AllKeepOld(Commit(d, c, unique, certsWritten, faults).trace, c, OldCounter(d))
  {
    StageStates(d, c, unique, certsWritten, faults);
    StageKeepsOld(d, c, unique, certsWritten, faults);
    var s := Stage(d, c, unique, certsWritten, faults);
    hide Stage, RotateSerial, RotateIndex, KeepsOld, AllBetween;
    if s.ok {
      SerialRotates(s.disk, c, faults);
      SerialKeepsOld(s.disk, c, faults);
      var r := RotateSerial(s.disk, faults);
      if r.ok { IndexKeepsOld(r.disk, c, faults, OldCounter(d)); }
    }
  }

  lemma StageKeepsOld(d: Disk, c: Change, unique: bool, certsWritten: bool, faults: Faults)
    requires Loaded(d, c)
    ensures AllKeepOld(Stage(d, c, unique, certsWritten, faults).trace, c, OldCounter(d))
  {
  }

  /** The next run finds both files. */
  predicate Startable(d: Disk) { Serial in d && Index in d }

  /** A commit without faults passes through nine states. A crash leaves a disk the next run can start from in all but
      two: between the two renames of the counter, and between those of the index. */
  lemma CrashStates(d: Disk, c: Change, unique: bool, i: nat)
    requires Loaded(d, c) && Serial in d
    ensures |Commit(d, c, unique, true, NO_FAULTS).trace| == 9
    ensures i < 9 ==> (Startable(Commit(d, c, unique, true, NO_FAULTS).trace[i]) <==> i != 3 && i != 5)
  {
    NoFaultsCommit(d, c, unique);
    hide Commit;
  }

  /** The counter that can come back does so when the new one cannot be renamed. */
  lemma BadBackIsReached(d: Disk, c: Change, unique: bool)
    requires Loaded(d, c) && !BackIsSafe(Back(d), c)
    ensures exists faults :: !AllSafe(Commit(d, c, unique, true, faults).trace)
  {
    hide CaIssue.Above;
    var second: Faults := n => n == 2;
    var r := Commit(d, c, unique, true, second);
    StageStates(d, c, unique, true, second);
    var t := Stage(d, c, unique, true, second);
    var s := RotateSerial(t.disk, second);
    assert !s.ok && r.trace == t.trace + s.trace;
    assert r.trace[4] == s.trace[1] == s.disk;
    assert Serial in s.disk && s.disk[Serial] == Counter(Back(d).value) && s.disk[Index] == Rows(c.oldRows);
    assert !Safe(r.trace[4]);
  }

  // ----- the batch and its commit -----

  /** What a batch hands to the commit fits together whenever the counter was above the index before. */
  lemma BatchGrows(s: State, setup: CaIssue.Setup, rs: seq<CaIssue.Request>, start: int)
    requires CaIssue.Above(start, s.rows) && CaIssue.Batch(s, setup, rs, start).Some?
    ensures var p := CaIssue.Batch(s, setup, rs, start).value;
            && Grows(Change(s.rows, p.serial, p.state.rows))
            && BackIsSafe(Some(start), Change(s.rows, p.serial, p.state.rows))
  {
    CaIssue.BatchKeepsCounterAbove(s, setup, rs, start);
    CaIssue.BatchEffect(s, setup, rs, start);
  }

  /** The order of the two rotations matters: the new index beside the old counter is unsafe after any batch that
      made a certificate. */
  lemma IndexFirstIsUnsafe(d: Disk, s: State, setup: CaIssue.Setup, rs: seq<CaIssue.Request>, start: int)
    requires CaIssue.Batch(s, setup, rs, start).Some? && CaIssue.Batch(s, setup, rs, start).value.kept != []
    requires Serial in d && d[Serial] == Counter(start)
    requires Index in d && d[Index] == Rows(CaIssue.Batch(s, setup, rs, start).value.state.rows)
    ensures !Safe(d)
  {
    CaIssue.BatchEffect(s, setup, rs, start);
    var p := CaIssue.Batch(s, setup, rs, start).value;
    hide CaIssue.Batch, CaIssue.RowFor, CaIssue.TurnedDown;
    assert Some(p.state.rows[|s.rows| + 0]) == CaIssue.RowFor(setup, rs[p.kept[0]], start + 0);
    CaIssue.RowForSerial(setup, rs[p.kept[0]], start);
    SerialHexReads(start);
  }
}
