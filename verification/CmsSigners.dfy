/** Signers, keys and key options of a signing command: how the option loop pairs them. */
module CmsSigners {
  import opened Wrappers

  /** Operations that matter here; signing and re-signing take several signers. */
  datatype Operation = NoOperation | Encrypt | Sign | Resign | OtherOperation

  datatype Opt =
    | Signer(file: string)
    | Inkey(file: string)
    | Keyopt(value: string)
    | Recip(file: string)
    | Mode(operation: Operation)

  /** A node of the parameter list: the key it is for, and the -keyopt options, named by their place on the command
      line. */
  datatype KeyParam = KeyParam(idx: int, options: seq<nat>)

  datatype State = State(
    operation: Operation,
    signerFile: Option<string>,
    keyFile: Option<string>,
    signers: seq<string>,
    keys: seq<string>,
    recipients: seq<string>,
    params: seq<KeyParam>)

  const START := State(NoOperation, None, None, [], [], [], [])

  predicate SignsSeveral(op: Operation) { op.Sign? || op.Resign? }

  // ----- the loop as a function -----

  function KeyOr(key: Option<string>, signer: string): string {
    if key.Some? then key.value else signer
  }

  /** The key index a -keyopt is recorded under. */
  function KeyIndex(s: State): int {
    if s.operation.Encrypt? then |s.recipients| - 1
    else |s.keys| - 1 + if s.keyFile.Some? || s.signerFile.Some? then 1 else 0
  }

  /** Appends to the last node when it is for the same key, else adds a node. */
  function Record(params: seq<KeyParam>, idx: int, place: nat): seq<KeyParam> {
    var n := |params|;
    if n == 0 || params[n - 1].idx != idx then params + [KeyParam(idx, [place])]
    else params[n - 1 := KeyParam(idx, params[n - 1].options + [place])]
  }

  /** One option, at a place on the command line; nothing when the command is refused. */
  function Step(s: State, o: Opt, place: nat): Option<State> {
    match o
    case Mode(op) => Some(s.(operation := op))
    case Signer(file) =>
      if s.signerFile.Some? then
        Some(s.(signers := s.signers + [s.signerFile.value],
                keys := s.keys + [KeyOr(s.keyFile, s.signerFile.value)],
                keyFile := None, signerFile := Some(file)))
      else Some(s.(signerFile := Some(file)))
    case Inkey(file) =>
      if s.keyFile.None? then Some(s.(keyFile := Some(file)))
      else if s.signerFile.None? then None
      else Some(s.(signers := s.signers + [s.signerFile.value], keys := s.keys + [s.keyFile.value],
                   signerFile := None, keyFile := Some(file)))
    case Recip(file) =>
      Some(if s.operation.Encrypt? then s.(recipients := s.recipients + [file]) else s)
    case Keyopt(_) =>
      if KeyIndex(s) < 0 then None else Some(s.(params := Record(s.params, KeyIndex(s), place)))
  }

  function Run(os: seq<Opt>): Option<State> {
    if os == [] then Some(START)
    else
      var s := Run(os[..|os| - 1]);
      if s.None? then None else Step(s.value, os[|os| - 1], |os| - 1)
  }

  /** The end of the options for an operation with several signers: the open signer is appended. */
  function Finish(s: State): Option<State> {
    if !SignsSeveral(s.operation) then None
    else if s.keyFile.Some? && s.signerFile.None? then None
    else
      var t := if s.signerFile.None? then s
               else s.(signers := s.signers + [s.signerFile.value],
                       keys := s.keys + [KeyOr(s.keyFile, s.signerFile.value)]);
      if t.signers == [] then None else Some(t.(signerFile := None, keyFile := None))
  }

  /** The end of the options for an encryption: the remaining arguments become recipients. `otherKey` says whether a
      secret key or a password was given, which may stand in for recipients. */
  function FinishEncryption(s: State, rest: seq<string>, otherKey: bool): Option<State> {
    if !s.operation.Encrypt? || s.signers != [] || s.keys != [] then None
    else if rest == [] && !otherKey && s.recipients == [] then None
    else Some(s.(recipients := s.recipients + rest))
  }

  /** The parameters applied to signer or recipient `i`: those of the first node for it. */
  function Applied(params: seq<KeyParam>, i: int): seq<nat> {
    if params == [] then []
    else if params[0].idx == i then params[0].options
    else Applied(params[1..], i)
  }

  // ----- the loop as the program runs it -----

  class CmsOptions {
    var operation: Operation
    var signerFile: Option<string>
    var keyFile: Option<string>
    var signers: seq<string>
    var keys: seq<string>
    var recipients: seq<string>
    var params: seq<KeyParam>

    constructor ()
      ensures Value() == START
    {
      operation, signerFile, keyFile := NoOperation, None, None;
      signers, keys, recipients, params := [], [], [], [];
    }

    function Value(): State
      reads this
    {
      State(operation, signerFile, keyFile, signers, keys, recipients, params)
    }

    method AddSigner(file: string, ghost place: nat)
      modifies this
      ensures Some(Value()) == Step(old(Value()), Signer(file), place)
    {
      if signerFile.Some? {
        signers := signers + [signerFile.value];
        if keyFile.None? { keyFile := signerFile; }
        keys := keys + [keyFile.value];
        keyFile := None;
      }
      signerFile := Some(file);
    }

    method AddInkey(file: string, ghost place: nat) returns (ok: bool)
      modifies this
      ensures Step(old(Value()), Inkey(file), place) == if ok then Some(Value()) else None
    {
      if keyFile.Some? {
        if signerFile.None? { return false; }
        signers := signers + [signerFile.value];
        signerFile := None;
        keys := keys + [keyFile.value];
      }
      keyFile := Some(file);
      return true;
    }

    method AddRecipient(file: string, ghost place: nat)
      modifies this
      ensures Some(Value()) == Step(old(Value()), Recip(file), place)
    {
      if operation.Encrypt? { recipients := recipients + [file]; }
    }

    method SetMode(op: Operation, ghost place: nat)
      modifies this
      ensures Some(Value()) == Step(old(Value()), Mode(op), place)
    {
      operation := op;
    }

    /** Options are named by their place; `value` is not looked at here. */
    method AddKeyopt(value: string, place: nat) returns (ok: bool)
      modifies this
      ensures Step(old(Value()), Keyopt(value), place) == if ok then Some(Value()) else None
    {
      var keyidx := -1;
      if operation.Encrypt? {
        if |recipients| > 0 { keyidx := keyidx + |recipients|; }
      } else {
        if keyFile.Some? || signerFile.Some? { keyidx := keyidx + 1; }
        keyidx := keyidx + |keys|;
      }
      if keyidx < 0 { return false; }
      var n := |params|;
      if n == 0 || params[n - 1].idx != keyidx {
        params := params + [KeyParam(keyidx, [place])];
      } else {
        params := params[n - 1 := KeyParam(keyidx, params[n - 1].options + [place])];
      }
      return true;
    }

    /** The option loop. */
    method Parse(os: seq<Opt>) returns (ok: bool)
      requires Value() == START
      modifies this
      ensures Run(os) == if ok then Some(Value()) else None
    {
      hide Step, Run;
      EmptyRun(os);
      for i := 0 to |os|
        invariant Run(os[..i]) == Some(Value())
      {
        RunOne(os, i, Value());
        ok := true;
        match os[i] {
          case Mode(op) => SetMode(op, i);
          case Signer(file) => AddSigner(file, i);
          case Inkey(file) => ok := AddInkey(file, i);
          case Recip(file) => AddRecipient(file, i);
          case Keyopt(value) => ok := AddKeyopt(value, i);
        }
        if !ok {
          RefusedStays(os, i + 1);
          return;
        }
      }
      assert os[..|os|] == os;
      return true;
    }

    method Close() returns (ok: bool)
      modifies this
      ensures Finish(old(Value())) == if ok then Some(Value()) else None
    {
      if !SignsSeveral(operation) { return false; }
      if keyFile.Some? && signerFile.None? { return false; }
      if signerFile.Some? {
        signers := signers + [signerFile.value];
        if keyFile.None? { keyFile := signerFile; }
        keys := keys + [keyFile.value];
      }
      if signers == [] { return false; }
      signerFile, keyFile := None, None;
      return true;
    }

    method CloseEncryption(rest: seq<string>, otherKey: bool) returns (ok: bool)
      modifies this
      ensures FinishEncryption(old(Value()), rest, otherKey) == if ok then Some(Value()) else None
    {
      if !operation.Encrypt? || signers != [] || keys != [] { return false; }
      if rest == [] && !otherKey && recipients == [] { return false; }
      for i := 0 to |rest|
        invariant Value() == old(Value()).(recipients := old(recipients) + rest[..i])
      {
        recipients := recipients + [rest[i]];
      }
      assert rest[..|rest|] == rest;
      return true;
    }

    /** The search of both loops through the parameter list. */
    method ParamsFor(i: nat) returns (options: seq<nat>)
      ensures options == Applied(params, i)
    {
      var k := 0;
      while k < |params| && params[k].idx != i
        invariant 0 <= k <= |params|
        invariant Applied(params, i) == Applied(params[k..], i)
      {
        assert params[k..][1..] == params[k + 1..];
        k := k + 1;
      }
      return if k < |params| then params[k].options else [];
    }
  }

  lemma {:induction false} RefusedStays(os: seq<Opt>, i: nat)
    requires i <= |os| && Run(os[..i]).None?
    ensures Run(os).None?
    decreases |os|
  {
    if i == |os| {
      assert os[..i] == os;
    } else {
      assert os[..|os| - 1][..i] == os[..i];
      RefusedStays(os[..|os| - 1], i);
    }
  }

  // ----- what the user means: groups -----

  /** One signer with its own key and options. */
  datatype Group = Group(signer: Option<string>, key: Option<string>, options: seq<nat>)

  /** Groups that are complete, and the one still open. */
  datatype Grouping = Grouping(closed: seq<Group>, open: Option<Group>)

  function All(g: Grouping): seq<Group> {
    g.closed + if g.open.Some? then [g.open.value] else []
  }

  /** A second -signer or a second -inkey opens the next group; a -keyopt belongs to the open one. */
  function GroupStep(g: Grouping, o: Opt, place: nat): Grouping {
    match o
    case Signer(file) =>
      if g.open.Some? && g.open.value.signer.None? then g.(open := Some(g.open.value.(signer := Some(file))))
      else Grouping(All(g), Some(Group(Some(file), None, [])))
    case Inkey(file) =>
      if g.open.Some? && g.open.value.key.None? then g.(open := Some(g.open.value.(key := Some(file))))
      else Grouping(All(g), Some(Group(None, Some(file), [])))
    case Keyopt(_) =>
      if g.open.Some? then g.(open := Some(g.open.value.(options := g.open.value.options + [place]))) else g
    case _ => g
  }

  function Grouped(os: seq<Opt>): Grouping {
    if os == [] then Grouping([], None) else GroupStep(Grouped(os[..|os| - 1]), os[|os| - 1], |os| - 1)
  }

  function Groups(os: seq<Opt>): seq<Group> { All(Grouped(os)) }

  /** The -signer arguments in order. */
  function SignerFiles(os: seq<Opt>): seq<string> {
    if os == [] then []
    else SignerFiles(os[..|os| - 1]) + if os[|os| - 1].Signer? then [os[|os| - 1].file] else []
  }

  function GroupSigners(gs: seq<Group>): seq<string>
    requires forall i :: 0 <= i < |gs| ==> gs[i].signer.Some?
  {
    seq(|gs|, i requires 0 <= i < |gs| => gs[i].signer.value)
  }

  function GroupKeys(gs: seq<Group>): seq<string>
    requires forall i :: 0 <= i < |gs| ==> gs[i].signer.Some?
  {
    seq(|gs|, i requires 0 <= i < |gs| => KeyOr(gs[i].key, gs[i].signer.value))
  }

  predicate AllSigned(gs: seq<Group>) { forall i :: 0 <= i < |gs| ==> gs[i].signer.Some? }

  /** Closed groups are in the two lists, the open one is in the two variables. */
  predicate Matches(s: State, g: Grouping) {
    && AllSigned(g.closed)
    && s.signers == GroupSigners(g.closed) && s.keys == GroupKeys(g.closed)
    && (g.open.None? ==> s.signerFile.None? && s.keyFile.None? && g.closed == [])
    && (g.open.Some? ==> && s.signerFile == g.open.value.signer && s.keyFile == g.open.value.key
                         && (s.signerFile.Some? || s.keyFile.Some?))
  }

  lemma CloseGroup(gs: seq<Group>, g: Group)
    requires AllSigned(gs) && g.signer.Some?
    ensures AllSigned(gs + [g])
    ensures GroupSigners(gs + [g]) == GroupSigners(gs) + [g.signer.value]
    ensures GroupKeys(gs + [g]) == GroupKeys(gs) + [KeyOr(g.key, g.signer.value)]
  {
  }

  lemma StepMatches(s: State, g: Grouping, o: Opt, place: nat)
    requires Matches(s, g) && Step(s, o, place).Some?
    ensures Matches(Step(s, o, place).value, GroupStep(g, o, place))
  {
    if g.open.Some? && g.open.value.signer.Some? { CloseGroup(g.closed, g.open.value); }
    hide GroupSigners, GroupKeys, AllSigned, Record;
    assert g.open.None? ==> All(g) == g.closed;
  }

  lemma {:induction false} RunMatches(os: seq<Opt>)
    requires Run(os).Some?
    ensures Matches(Run(os).value, Grouped(os))
    decreases |os|
  {
    if os != [] {
      var m := |os| - 1;
      RunMatches(os[..m]);
      StepMatches(Run(os[..m]).value, Grouped(os[..m]), os[m], m);
    }
  }

  function OpenSigner(g: Grouping): seq<string> {
    if g.open.Some? && g.open.value.signer.Some? then [g.open.value.signer.value] else []
  }

  lemma StepSigners(g: Grouping, o: Opt, place: nat)
    requires AllSigned(g.closed) && AllSigned(GroupStep(g, o, place).closed)
    requires g.open.None? ==> g.closed == []
    ensures var h := GroupStep(g, o, place);
            GroupSigners(h.closed) + OpenSigner(h)
            == GroupSigners(g.closed) + OpenSigner(g) + if o.Signer? then [o.file] else []
  {
    if g.open.Some? && g.open.value.signer.Some? { CloseGroup(g.closed, g.open.value); }
    assert g.open.None? ==> All(g) == g.closed;
    assert g.open.Some? ==> All(g)[|g.closed|] == g.open.value;
    hide GroupSigners;
  }

  lemma {:induction false} SignersInOrder(os: seq<Opt>)
    requires Run(os).Some?
    ensures AllSigned(Grouped(os).closed)
    ensures SignerFiles(os) == GroupSigners(Grouped(os).closed) + OpenSigner(Grouped(os))
    decreases |os|
  {
    RunMatches(os);
    if os != [] {
      var m := |os| - 1;
      SignersInOrder(os[..m]);
      RunMatches(os[..m]);
      StepSigners(Grouped(os[..m]), os[m], m);
      hide OpenSigner, GroupSigners, Step, GroupStep;
    }
  }

  /** A signing command that is accepted. */
  predicate Accepted(os: seq<Opt>) { Run(os).Some? && Finish(Run(os).value).Some? }

  function Result(os: seq<Opt>): State
    requires Accepted(os)
  {
    Finish(Run(os).value).value
  }

  /** For every accepted command and every order of options: the signers are the -signer arguments in order,
      there are as many keys, and each key is the -inkey of its group or the signer's own file. */
  lemma SignersArePaired(os: seq<Opt>)
    requires Accepted(os)
    ensures AllSigned(Groups(os)) && Groups(os) != []
    ensures Result(os).signers == SignerFiles(os) == GroupSigners(Groups(os))
    ensures Result(os).keys == GroupKeys(Groups(os)) && |Result(os).keys| == |Result(os).signers|
  {
    RunMatches(os);
    SignersInOrder(os);
    var g := Grouped(os);
    CloseGroup(g.closed, g.open.value);
  }

  // ----- which options reach which signer -----

  predicate IsKeyopt(os: seq<Opt>, p: nat) { p < |os| && os[p].Keyopt? }

  /** The group open at a place, or -1. */
  function OpenGroup(os: seq<Opt>, p: nat): int
    requires p <= |os|
  {
    |Groups(os[..p])| - 1
  }

  /** The index computed for the -keyopt at a place. */
  function IndexAt(os: seq<Opt>, p: nat): int
    requires p <= |os|
  {
    if Run(os[..p]).Some? then KeyIndex(Run(os[..p]).value) else -1
  }

  /** The -keyopt is recorded for the open group, or for a key no signer will have. */
  predicate Lands(os: seq<Opt>, p: nat, n: nat)
    requires p <= |os|
  {
    IndexAt(os, p) == OpenGroup(os, p) || (OpenGroup(os, p) == -1 && IndexAt(os, p) >= n)
  }

  ghost predicate AllLand(os: seq<Opt>, n: nat) { forall p :: IsKeyopt(os, p) ==> Lands(os, p, n) }

  /** Every signer gets exactly the options given while its group was open, in order. */
  predicate OptionsReachTheirSigner(os: seq<Opt>, params: seq<KeyParam>) {
    forall i :: 0 <= i < |Groups(os)| ==> Applied(params, i) == Groups(os)[i].options
  }

  /** Nothing is recorded for a later group, and the open group's node is the last one. */
  predicate Ordered(params: seq<KeyParam>, groups: nat, n: nat) {
    && (forall k :: 0 <= k < |params| ==> 0 <= params[k].idx < groups || params[k].idx >= n)
    && (forall k :: 0 <= k < |params| && params[k].idx == groups - 1 ==> k == |params| - 1)
  }

  lemma {:induction false} AppliedAppend(params: seq<KeyParam>, q: KeyParam, i: int)
    requires forall k :: 0 <= k < |params| ==> params[k].idx != i
    ensures Applied(params, i) == [] && Applied(params + [q], i) == if q.idx == i then q.options else []
  {
    if params != [] {
      assert (params + [q])[1..] == params[1..] + [q];
      AppliedAppend(params[1..], q, i);
    }
  }

  lemma {:induction false} AppliedSame(a: seq<KeyParam>, b: seq<KeyParam>, i: int)
    requires |a| <= |b| && forall k :: 0 <= k < |a| ==> a[k] == b[k] || (a[k].idx != i && b[k].idx != i)
    requires forall k :: |a| <= k < |b| ==> b[k].idx != i
    ensures Applied(a, i) == Applied(b, i)
    decreases |b|
  {
    if a != [] {
      AppliedSame(a[1..], b[1..], i);
    } else if b != [] {
      AppliedSame(a, b[1..], i);
    }
  }

  lemma AppliedRecord(params: seq<KeyParam>, idx: int, place: nat, i: int)
    requires forall k :: 0 <= k < |params| && params[k].idx == idx ==> k == |params| - 1
    ensures Applied(Record(params, idx, place), i) == Applied(params, i) + if i == idx then [place] else []
  {
    var r := Record(params, idx, place);
    var n := |params|;
    if i != idx {
      AppliedSame(params, r, i);
    } else if |r| > n {
      AppliedAppend(params, KeyParam(idx, [place]), i);
    } else {
      var head := params[..n - 1];
      assert params == head + [params[n - 1]] && r == head + [r[n - 1]];
      AppliedAppend(head, params[n - 1], i);
      AppliedAppend(head, r[n - 1], i);
    }
  }

  lemma RecordEffect(params: seq<KeyParam>, groups: nat, n: nat, idx: int, place: nat)
    requires Ordered(params, groups, n) && groups <= n
    requires 0 <= idx == groups - 1 || (groups == 0 && idx >= n)
    ensures var r := Record(params, idx, place);
            && Ordered(r, groups, n)
            && (forall i :: 0 <= i < groups ==>
                  Applied(r, i) == Applied(params, i) + if i == idx then [place] else [])
  {
    RecordShape(params, idx, place);
    var r := Record(params, idx, place);
    if groups > 0 {
      forall i | 0 <= i < groups ensures Applied(r, i) == Applied(params, i) + if i == idx then [place] else [] {
        AppliedRecord(params, idx, place, i);
      }
    }
    hide Record, Applied;
    forall k | 0 <= k < |r|
      ensures 0 <= r[k].idx < groups || r[k].idx >= n
      ensures r[k].idx == groups - 1 ==> k == |r| - 1
    {
      if k < |r| - 1 { assert r[k] == params[k]; }
    }
  }

  lemma {:induction false} GroupsGrow(os: seq<Opt>, p: nat)
    requires p <= |os|
    ensures |Groups(os[..p])| <= |Groups(os)|
    decreases |os|
  {
    if p < |os| {
      assert os[..|os| - 1][..p] == os[..p];
      GroupsGrow(os[..|os| - 1], p);
    } else {
      assert os[..p] == os;
    }
  }

  lemma AllLandBefore(os: seq<Opt>, n: nat)
    requires os != [] && AllLand(os, n)
    ensures AllLand(os[..|os| - 1], n)
  {
    var m := |os| - 1;
    forall p: nat | IsKeyopt(os[..m], p) ensures Lands(os[..m], p, n) {
      assert os[..m][..p] == os[..p] && IsKeyopt(os, p);
    }
  }

  /** What holds of the parameter list and the groups while every option lands. */
  predicate Reaching(params: seq<KeyParam>, gs: seq<Group>, n: nat) {
    Ordered(params, |gs|, n) && forall i :: 0 <= i < |gs| ==> Applied(params, i) == gs[i].options
  }

  lemma KeyoptReaches(params: seq<KeyParam>, g: Grouping, idx: int, place: nat, n: nat)
    requires Reaching(params, All(g), n) && |All(g)| <= n && (g.open.None? ==> g.closed == [])
    requires 0 <= idx == |All(g)| - 1 || (All(g) == [] && idx >= n)
    ensures Reaching(Record(params, idx, place), All(GroupStep(g, Keyopt(""), place)), n)
  {
    RecordEffect(params, |All(g)|, n, idx, place);
    hide Ordered, Applied, Record;
    var gs, hs := All(g), All(GroupStep(g, Keyopt(""), place));
    forall i | 0 <= i < |hs| ensures hs[i].options == gs[i].options + if i == idx then [place] else [] {
    }
  }

  lemma OtherReaches(params: seq<KeyParam>, g: Grouping, o: Opt, place: nat, n: nat)
    requires Reaching(params, All(g), n) && !o.Keyopt? && |All(GroupStep(g, o, place))| <= n
    requires g.open.None? ==> g.closed == []
    ensures Reaching(params, All(GroupStep(g, o, place)), n)
  {
    var gs, hs := All(g), All(GroupStep(g, o, place));
    forall i | 0 <= i < |hs| ensures hs[i].options == if i < |gs| then gs[i].options else [] {
      StepOptions(g, o, place, i);
    }
    assert |gs| <= |hs| <= |gs| + 1;
    hide GroupStep, All, Applied;
    if |hs| > |gs| { AppliedAppend(params, KeyParam(-1, []), |gs|); }
  }

  lemma {:induction false} LandingReaches(os: seq<Opt>, n: nat)
    requires Run(os).Some? && |Groups(os)| <= n && AllLand(os, n)
    ensures Reaching(Run(os).value.params, Groups(os), n)
    decreases |os|
  {
    if os != [] {
      var m := |os| - 1;
      AllLandBefore(os, n);
      GroupsGrow(os, m);
      LandingReaches(os[..m], n);
      RunMatches(os[..m]);
      var s, g := Run(os[..m]).value, Grouped(os[..m]);
      if os[m].Keyopt? {
        assert IsKeyopt(os, m);
        KeyoptReaches(s.params, g, KeyIndex(s), m, n);
      } else {
        OtherReaches(s.params, g, os[m], m, n);
      }
    }
  }

  /** Every recorded option is in a node with the index computed for it. */
  ghost predicate Placed(os: seq<Opt>, params: seq<KeyParam>) {
    forall k, j :: 0 <= k < |params| && 0 <= j < |params[k].options| ==>
      IsKeyopt(os, params[k].options[j]) && IndexAt(os, params[k].options[j]) == params[k].idx
  }

  predicate In(p: nat, params: seq<KeyParam>) { exists k :: 0 <= k < |params| && p in params[k].options }

  /** Every option is recorded, and no node is empty. */
  ghost predicate Complete(os: seq<Opt>, params: seq<KeyParam>) {
    && (forall p :: IsKeyopt(os, p) ==> In(p, params))
    && (forall k :: 0 <= k < |params| ==> params[k].options != [])
  }

  /** Nodes stand in order of time. */
  predicate InOrder(params: seq<KeyParam>) {
    forall k, l, i, j :: 0 <= k < l < |params| && 0 <= i < |params[k].options| && 0 <= j < |params[l].options| ==>
      params[k].options[i] < params[l].options[j]
  }

  ghost predicate Recorded(os: seq<Opt>, params: seq<KeyParam>) {
    Placed(os, params) && Complete(os, params) && InOrder(params)
  }

  lemma PrefixIndex(os: seq<Opt>, p: nat)
    requires os != [] && p < |os|
    ensures IndexAt(os[..|os| - 1], p) == IndexAt(os, p) && OpenGroup(os[..|os| - 1], p) == OpenGroup(os, p)
    ensures p < |os| - 1 ==> (IsKeyopt(os[..|os| - 1], p) <==> IsKeyopt(os, p))
  {
    assert os[..|os| - 1][..p] == os[..p];
  }

  lemma {:induction false} RunRecords(os: seq<Opt>)
    requires Run(os).Some?
    ensures Recorded(os, Run(os).value.params)
    decreases |os|
  {
    if os != [] {
      var m := |os| - 1;
      RunRecords(os[..m]);
      var a, b := Run(os[..m]).value.params, Run(os).value.params;
      forall p: nat | p < m
        ensures IndexAt(os[..m], p) == IndexAt(os, p) && (IsKeyopt(os[..m], p) <==> IsKeyopt(os, p))
      {
        PrefixIndex(os, p);
      }
      hide IndexAt;
      if os[m].Keyopt? {
        IndexOfLast(os);
        RecordRecords(os, a);
      }
    }
  }

  lemma IndexOfLast(os: seq<Opt>)
    requires os != [] && Run(os).Some? && os[|os| - 1].Keyopt?
    ensures Run(os).value.params == Record(Run(os[..|os| - 1]).value.params, IndexAt(os, |os| - 1), |os| - 1)
  {
  }

  /** The last option goes to the last node, old or new; all other nodes are as before. */
  lemma RecordShape(a: seq<KeyParam>, idx: int, place: nat)
    ensures var b := Record(a, idx, place);
            && |a| <= |b| <= |a| + 1 && b != []
            && (forall k :: 0 <= k < |b| - 1 ==> b[k] == a[k])
            && b[|b| - 1].idx == idx
            && b[|b| - 1].options == (if |b| == |a| then a[|a| - 1].options else []) + [place]
            && (|b| == |a| ==> a[|a| - 1].idx == idx)
  {
  }

  lemma RecordRecords(os: seq<Opt>, a: seq<KeyParam>)
    requires os != [] && os[|os| - 1].Keyopt? && Recorded(os[..|os| - 1], a)
    requires forall p :: 0 <= p < |os| - 1 ==> IndexAt(os[..|os| - 1], p) == IndexAt(os, p)
    ensures Recorded(os, Record(a, IndexAt(os, |os| - 1), |os| - 1))
  {
    var m := |os| - 1;
    var b := Record(a, IndexAt(os, m), m);
    RecordShape(a, IndexAt(os, m), m);
    hide IndexAt, Record;
    RecordPlaces(os, a, b);
    RecordCompletes(os, a, b);
    RecordKeepsOrder(os, a, b);
  }

  /** What RecordShape says of the list before and after. */
  predicate LastGrows(a: seq<KeyParam>, b: seq<KeyParam>, place: nat) {
    && |a| <= |b| <= |a| + 1 && b != []
    && (forall k :: 0 <= k < |b| - 1 ==> b[k] == a[k])
    && b[|b| - 1].options == (if |b| == |a| then a[|a| - 1].options else []) + [place]
  }

  lemma RecordPlaces(os: seq<Opt>, a: seq<KeyParam>, b: seq<KeyParam>)
    requires os != [] && os[|os| - 1].Keyopt? && Placed(os[..|os| - 1], a) && LastGrows(a, b, |os| - 1)
    requires b[|b| - 1].idx == IndexAt(os, |os| - 1) && (|a| == |b| ==> a[|a| - 1].idx == b[|b| - 1].idx)
    requires forall p :: 0 <= p < |os| - 1 ==> IndexAt(os[..|os| - 1], p) == IndexAt(os, p)
    ensures Placed(os, b)
  {
    hide IndexAt;
    var m, n := |os| - 1, |b| - 1;
    forall k, j | 0 <= k < |b| && 0 <= j < |b[k].options|
      ensures IsKeyopt(os, b[k].options[j]) && IndexAt(os, b[k].options[j]) == b[k].idx
    {
      var p := b[k].options[j];
      if k < n {
        assert p == a[k].options[j] && IsKeyopt(os[..m], p);
      } else if j < |b[n].options| - 1 {
        assert p == a[n].options[j] && IsKeyopt(os[..m], p);
      } else {
        assert p == m;
      }
    }
  }

  lemma RecordCompletes(os: seq<Opt>, a: seq<KeyParam>, b: seq<KeyParam>)
    requires os != [] && Complete(os[..|os| - 1], a) && LastGrows(a, b, |os| - 1)
    ensures Complete(os, b)
  {
    var m, n := |os| - 1, |b| - 1;
    assert b[n].options[|b[n].options| - 1] == m;
    forall p: nat | IsKeyopt(os, p) ensures In(p, b) {
      if p == m {
        assert p in b[n].options;
      } else {
        assert IsKeyopt(os[..m], p) && In(p, a);
        var k :| 0 <= k < |a| && p in a[k].options;
        assert p in b[k].options;
      }
    }
  }

  lemma RecordKeepsOrder(os: seq<Opt>, a: seq<KeyParam>, b: seq<KeyParam>)
    requires os != [] && Placed(os[..|os| - 1], a) && InOrder(a) && LastGrows(a, b, |os| - 1)
    ensures InOrder(b)
  {
    hide IndexAt;
    var n := |b| - 1;
    forall k, l, i, j | 0 <= k < l < |b| && 0 <= i < |b[k].options| && 0 <= j < |b[l].options|
      ensures b[k].options[i] < b[l].options[j]
    {
      assert b[k] == a[k] && IsKeyopt(os[..|os| - 1], a[k].options[i]);
      if l == n && j == |b[n].options| - 1 {
        assert b[l].options[j] == |os| - 1;
      } else {
        assert b[l].options[j] == a[l].options[j];
      }
    }
  }

  lemma {:induction false} OneIsOpen(os: seq<Opt>)
    ensures Grouped(os).open.None? ==> Grouped(os).closed == []
    decreases |os|
  {
    if os != [] { OneIsOpen(os[..|os| - 1]); }
  }

  lemma StepOptions(g: Grouping, o: Opt, place: nat, i: nat)
    requires (g.open.None? ==> g.closed == []) && i < |All(GroupStep(g, o, place))|
    ensures All(GroupStep(g, o, place))[i].options
         == (if i < |All(g)| then All(g)[i].options else []) + if o.Keyopt? && i == |All(g)| - 1 then [place] else []
  {
  }

  lemma {:induction false} GroupOptions(os: seq<Opt>, i: nat, p: nat)
    requires i < |Groups(os)|
    ensures p in Groups(os)[i].options <==> IsKeyopt(os, p) && OpenGroup(os, p) == i
    decreases |os|
  {
    var m := |os| - 1;
    OneIsOpen(os[..m]);
    StepOptions(Grouped(os[..m]), os[m], m, i);
    if p < m { PrefixIndex(os, p); }
    GroupsGrow(os, m);
    if i < |Groups(os[..m])| {
      GroupOptions(os[..m], i, p);
    } else if p < m {
      GroupsGrow(os[..m], p);
      assert os[..m][..p] == os[..p];
    }
  }

  lemma {:induction false} AppliedIsFirst(params: seq<KeyParam>, i: int) returns (k: nat)
    requires exists j :: 0 <= j < |params| && params[j].idx == i
    ensures k < |params| && params[k].idx == i && Applied(params, i) == params[k].options
    ensures forall j :: 0 <= j < k ==> params[j].idx != i
  {
    if params[0].idx == i {
      k := 0;
    } else {
      var j :| 0 <= j < |params| && params[j].idx == i;
      assert params[1..][j - 1].idx == i;
      k := AppliedIsFirst(params[1..], i);
      assert forall j :: 1 <= j < k + 1 ==> params[j] == params[1..][j - 1];
      k := k + 1;
    }
  }

  lemma {:induction false} AppliedAreRecorded(params: seq<KeyParam>, i: int, p: nat)
    requires p in Applied(params, i)
    ensures exists k :: 0 <= k < |params| && params[k].idx == i && p in params[k].options
  {
    if params[0].idx != i {
      AppliedAreRecorded(params[1..], i, p);
      var k :| 0 <= k < |params[1..]| && params[1..][k].idx == i && p in params[1..][k].options;
      assert params[k + 1].idx == i && p in params[k + 1].options;
    }
  }

  /** The first node for a key starts no later than any option recorded for that key. */
  lemma FirstForKey(os: seq<Opt>, params: seq<KeyParam>, p: nat) returns (first: nat)
    requires Recorded(os, params) && IsKeyopt(os, p)
    ensures first in Applied(params, IndexAt(os, p)) && first <= p
  {
    hide IndexAt;
    var e := IndexAt(os, p);
    assert In(p, params);
    var l :| 0 <= l < |params| && p in params[l].options;
    var j :| 0 <= j < |params[l].options| && params[l].options[j] == p;
    assert params[l].idx == e;
    var k := AppliedIsFirst(params, e);
    first := if k < l then params[k].options[0] else p;
  }

  /** An option recorded for another key, or recorded for a signer before any signer was named, is not where it
      belongs. */
  lemma StrayMisses(os: seq<Opt>, p: nat)
    requires Run(os).Some? && IsKeyopt(os, p) && !Lands(os, p, |Groups(os)|)
    ensures !OptionsReachTheirSigner(os, Run(os).value.params)
  {
    RunRecords(os);
    IndexNotNegative(os, p);
    GroupsGrow(os, p);
    hide IndexAt, Run, Groups;
    var params := Run(os).value.params;
    var g, e := OpenGroup(os, p), IndexAt(os, p);
    if g >= 0 {
      GroupOptions(os, g, p);
      if p in Applied(params, g) { AppliedAreRecorded(params, g, p); }
    } else {
      var first := FirstForKey(os, params, p);
      GroupOptions(os, e, first);
      assert os[..p][..first] == os[..first];
      GroupsGrow(os[..p], first);
    }
  }

  lemma {:induction false} IndexNotNegative(os: seq<Opt>, p: nat)
    requires Run(os).Some? && IsKeyopt(os, p)
    ensures IndexAt(os, p) >= 0
    decreases |os|
  {
    var m := |os| - 1;
    if p < m {
      PrefixIndex(os, p);
      IndexNotNegative(os[..m], p);
    }
  }

  /** Each signer gets exactly its own options, in order, exactly when every -keyopt was recorded for the group open
      at that point (or before any group, for a key beyond the last signer). */
  lemma LandingIsPairing(os: seq<Opt>)
    requires Accepted(os)
    ensures OptionsReachTheirSigner(os, Result(os).params) <==> AllLand(os, |Groups(os)|)
  {
    if AllLand(os, |Groups(os)|) {
      LandingReaches(os, |Groups(os)|);
    } else {
      var p :| IsKeyopt(os, p) && !Lands(os, p, |Groups(os)|);
      StrayMisses(os, p);
    }
  }

  // ----- the same, read off the command line -----

  /** The operation in force at a place. */
  function ModeAt(os: seq<Opt>, p: nat): Operation
    requires p <= |os|
  {
    if p == 0 then NoOperation else if os[p - 1].Mode? then os[p - 1].operation else ModeAt(os, p - 1)
  }

  lemma {:induction false} RunMode(os: seq<Opt>)
    requires Run(os).Some?
    ensures Run(os).value.operation == ModeAt(os, |os|)
    decreases |os|
  {
    if os != [] {
      var m := |os| - 1;
      RunMode(os[..m]);
      SameMode(os[..m], os, m);
    }
  }

  lemma {:induction false} SameMode(a: seq<Opt>, b: seq<Opt>, p: nat)
    requires p <= |a| && p <= |b| && a[..p] == b[..p]
    ensures ModeAt(a, p) == ModeAt(b, p)
  {
    if p > 0 {
      assert a[p - 1] == a[..p][p - 1] == b[p - 1];
      assert a[..p - 1] == a[..p][..p - 1];
      assert b[..p - 1] == b[..p][..p - 1];
      SameMode(a, b, p - 1);
    }
  }

  /** The -recip arguments given under -encrypt, in order. */
  function Recipients(os: seq<Opt>): seq<string> {
    if os == [] then []
    else
      var m := |os| - 1;
      Recipients(os[..m]) + if os[m].Recip? && ModeAt(os, m).Encrypt? then [os[m].file] else []
  }

  lemma {:induction false} RunRecipients(os: seq<Opt>)
    requires Run(os).Some?
    ensures Run(os).value.recipients == Recipients(os)
    decreases |os|
  {
    if os != [] {
      var m := |os| - 1;
      RunRecipients(os[..m]);
      RunMode(os[..m]);
      SameMode(os[..m], os, m);
    }
  }

  lemma {:induction false} PrefixRuns(os: seq<Opt>, p: nat)
    requires Run(os).Some? && p <= |os|
    ensures Run(os[..p]).Some?
    decreases |os|
  {
    if p < |os| {
      assert os[..|os| - 1][..p] == os[..p];
      PrefixRuns(os[..|os| - 1], p);
    } else {
      assert os[..p] == os;
    }
  }

  /** As many recipients as groups were named before the option, or no group and more recipients than there will be
      signers. */
  predicate CountsAgree(os: seq<Opt>, p: nat, n: nat)
    requires p <= |os|
  {
    var recipients, groups := |Recipients(os[..p])|, |Groups(os[..p])|;
    recipients == groups || (groups == 0 && recipients > n)
  }

  lemma LandsExactly(os: seq<Opt>, p: nat, n: nat)
    requires Run(os).Some? && IsKeyopt(os, p)
    ensures Lands(os, p, n) <==> (ModeAt(os, p).Encrypt? ==> CountsAgree(os, p, n))
  {
    PrefixRuns(os, p);
    RunMode(os[..p]);
    SameMode(os[..p], os, p);
    RunMatches(os[..p]);
    RunRecipients(os[..p]);
    IndexNotNegative(os, p);
    assert os[..p][..p] == os[..p];
    hide Run, Recipients, ModeAt, Grouped;
  }

  /** For every accepted command: each signer gets exactly the options given while its group was open, in order,
      if and only if at every -keyopt behind -encrypt the counts of recipients and groups agree. */
  lemma OptionsArePairedExactly(os: seq<Opt>)
    requires Accepted(os)
    ensures OptionsReachTheirSigner(os, Result(os).params)
       <==> forall p :: IsKeyopt(os, p) && ModeAt(os, p).Encrypt? ==> CountsAgree(os, p, |Groups(os)|)
  {
    LandingIsPairing(os);
    forall p: nat | IsKeyopt(os, p)
      ensures Lands(os, p, |Groups(os)|) <==> (ModeAt(os, p).Encrypt? ==> CountsAgree(os, p, |Groups(os)|))
    {
      LandsExactly(os, p, |Groups(os)|);
    }
    hide Lands, CountsAgree, Groups;
  }

  /** In particular it holds whenever no -keyopt stands behind -encrypt with no other operation in between. */
  lemma PairedWithoutEncrypt(os: seq<Opt>)
    requires Accepted(os) && forall p :: IsKeyopt(os, p) ==> !ModeAt(os, p).Encrypt?
    ensures OptionsReachTheirSigner(os, Result(os).params)
  {
    OptionsArePairedExactly(os);
  }

  /** An accepted command where a signer gets an option that was given for a recipient. */
  lemma EncryptFirstMixesOptions()
    ensures var os := [Mode(Encrypt), Recip("r"), Keyopt("x"), Mode(Sign), Signer("a")];
            && Accepted(os) && Groups(os) == [Group(Some("a"), None, [])]
            && Applied(Result(os).params, 0) == [2]
  {
    var os := [Mode(Encrypt), Recip("r"), Keyopt("x"), Mode(Sign), Signer("a")];
    var s1 := START.(operation := Encrypt);
    var s2 := s1.(recipients := ["r"]);
    var s3 := s2.(params := [KeyParam(0, [2])]);
    RunOne(os, 0, START);
    RunOne(os, 1, s1);
    assert s1.recipients + ["r"] == s2.recipients;
    RunOne(os, 2, s2);
    assert Record([], 0, 2) == [KeyParam(0, [2])];
    RunOne(os, 3, s3);
    RunOne(os, 4, s3.(operation := Sign));
    assert os[..5] == os;
  }

  lemma EmptyRun(os: seq<Opt>)
    ensures Run(os[..0]) == Some(START)
  {
  }

  lemma RunOne(os: seq<Opt>, i: nat, s: State)
    requires i < |os| && Run(os[..i]) == Some(s)
    ensures Run(os[..i + 1]) == Step(s, os[i], i)
    ensures Grouped(os[..i + 1]) == GroupStep(Grouped(os[..i]), os[i], i)
  {
    assert os[..i + 1][..i] == os[..i];
  }
}
