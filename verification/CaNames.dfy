/** Distinguished names: subject built from a policy, e-mail entries stripped, and the one-line text of the index. */
module CaNames {
  import opened Wrappers
  import opened Chars
  import opened SerialText
  import opened Revocation

  /** An attribute; `typ` is the ASN.1 string type. Two are compared by type and bytes. */
  datatype Value = Value(oid: Oid, typ: nat, data: seq<bv8>)

  /** Entries with one `set` number form one relative distinguished name. */
  datatype Entry = Entry(value: Value, rdn: int)

  type Name = seq<Entry>

  function Values(name: Name): (v: seq<Value>)
    ensures |v| == |name| && forall i :: 0 <= i < |name| ==> v[i] == name[i].value
  {
    seq(|name|, i requires 0 <= i < |name| => name[i].value)
  }

  /** Next entry with the object identifier at or after `from`, or -1. */
  function NextIndex(name: Name, oid: Oid, from: nat): (j: int)
    ensures -1 <= j < |name|
    ensures j >= 0 ==> from <= j && name[j].value.oid == oid && forall k :: from <= k < j ==> name[k].value.oid != oid
    ensures j < 0 ==> forall k :: from <= k < |name| ==> name[k].value.oid != oid
    decreases |name| - from
  {
    if from >= |name| then -1
    else if name[from].value.oid == oid then from
    else NextIndex(name, oid, from + 1)
  }

  // ----- policy -----

  /** One policy line: an object name and how the field is treated. */
  datatype Field = Field(name: string, kind: string)

  const OPTIONAL := "optional"
  const SUPPLIED := "supplied"
  const MATCH := "match"

  /** All values with the object identifier, in order. */
  function Pick(v: seq<Value>, oid: Oid): seq<Value> {
    if v == [] then []
    else Pick(v[..|v| - 1], oid) + if v[|v| - 1].oid == oid then [v[|v| - 1]] else []
  }

  /** The request meets one policy line: the object and the kind are known, a field that must be there is there,
      and every value that must match is one of the CA's. */
  predicate FieldOk(name: Name, ca: Name, f: Field, objects: ObjectTable) {
    && objects(f.name).Some?
    && var wanted := Pick(Values(name), objects(f.name).value);
       && KindKnown(f.kind)
       && (f.kind != OPTIONAL ==> wanted != [])
       && (f.kind == MATCH ==> AllIn(wanted, ca))
  }

  predicate PolicyOk(name: Name, ca: Name, policy: seq<Field>, objects: ObjectTable) {
    forall i :: 0 <= i < |policy| ==> FieldOk(name, ca, policy[i], objects)
  }

  /** What the subject must hold: for each policy line in order, the request's values of that object in request
      order. */
  function PolicySubject(v: seq<Value>, policy: seq<Field>, objects: ObjectTable): seq<Value>
    requires forall i :: 0 <= i < |policy| ==> objects(policy[i].name).Some?
  {
    if policy == [] then []
    else PolicySubject(v, policy[..|policy| - 1], objects) + Pick(v, objects(policy[|policy| - 1].name).value)
  }

  /** Each entry is a relative distinguished name of its own. */
  predicate SingleSets(name: Name) { forall i :: 0 <= i < |name| ==> name[i].rdn == i }

  /** The name that has the values given, one set each. */
  function Singles(v: seq<Value>): (name: Name)
    ensures SingleSets(name) && Values(name) == v
  {
    seq(|v|, i requires 0 <= i < |v| => Entry(v[i], i))
  }

  lemma SinglesIsUnique(name: Name)
    requires SingleSets(name)
    ensures name == Singles(Values(name))
  {
    var t := Singles(Values(name));
    forall i | 0 <= i < |name| ensures name[i] == t[i] {
      assert Values(t)[i] == t[i].value;
    }
  }

  /** Appends a copy of an entry as a new set. */
  function AddEntry(name: Name, v: Value): Name {
    name + [Entry(v, if name == [] then 0 else name[|name| - 1].rdn + 1)]
  }

  lemma PickOne(v: seq<Value>, oid: Oid, from: nat, j: nat)
    requires from <= j < |v| && v[j].oid == oid && forall k :: from <= k < j ==> v[k].oid != oid
    ensures Pick(v[..j + 1], oid) == Pick(v[..from], oid) + [v[j]]
    decreases j - from
  {
    if from < j {
      PickOne(v, oid, from + 1, j);
      assert v[..from + 1][..from] == v[..from];
    } else {
      assert v[..j + 1][..j] == v[..j];
    }
  }

  lemma {:induction false} PickNone(v: seq<Value>, oid: Oid, from: nat)
    requires from <= |v| && forall k :: from <= k < |v| ==> v[k].oid != oid
    ensures Pick(v, oid) == Pick(v[..from], oid)
    decreases |v| - from
  {
    if from < |v| {
      PickNone(v, oid, from + 1);
      assert v[..from + 1][..from] == v[..from];
    } else {
      assert v[..from] == v;
    }
  }

  lemma {:induction false} PickFrom(v: seq<Value>, oid: Oid, from: nat)
    requires from <= |v|
    ensures Pick(v[..from], oid) <= Pick(v, oid)
    ensures forall k :: 0 <= k < |Pick(v, oid)| ==> Pick(v, oid)[k].oid == oid
    decreases |v|
  {
    if v == [] {
    } else if from == |v| {
      PickFrom(v[..|v| - 1], oid, |v| - 1);
      assert v[..from] == v;
    } else {
      PickFrom(v[..|v| - 1], oid, from);
      assert v[..|v| - 1][..from] == v[..from];
    }
  }

  /** Looks for a CA entry equal to the requested value, one occurrence of the object after the other. */
  method FindInCa(ca: Name, wanted: Value) returns (j: int)
    ensures -1 <= j < |ca|
    ensures j >= 0 ==> ca[j].value == wanted
    ensures j >= 0 <==> wanted in Values(ca)
  {
    var last2 := -1;
    while true
      invariant -1 <= last2 < |ca|
      invariant wanted !in Values(ca)[..last2 + 1]
      decreases |ca| - last2
    {
      j := NextIndex(ca, wanted.oid, last2 + 1);
      if j < 0 {
        forall k | 0 <= k < |ca| ensures Values(ca)[k] != wanted {
          if k <= last2 { assert Values(ca)[..last2 + 1][k] == Values(ca)[k]; }
        }
        return;
      }
      last2 := j;
      if ca[j].value == wanted {
        assert Values(ca)[j] == wanted;
        return;
      }
      assert forall k :: 0 <= k <= j ==> Values(ca)[..j + 1][k] == ca[k].value;
    }
  }

  predicate AllIn(wanted: seq<Value>, ca: Name) {
    forall i :: 0 <= i < |wanted| ==> wanted[i] in Values(ca)
  }

  predicate KindKnown(kind: string) { kind == OPTIONAL || kind == SUPPLIED || kind == MATCH }

  /** The entry to push for a request value: the value itself, or the equal one of the CA. */
  method PushFor(kind: string, wanted: Value, ca: Name) returns (push: Option<Value>)
    ensures push.Some? <==> KindKnown(kind) && (kind == MATCH ==> wanted in Values(ca))
    ensures push.Some? ==> push.value == wanted
  {
    if kind == OPTIONAL {
      return Some(wanted);
    } else if kind == SUPPLIED {
      return Some(wanted);
    } else if kind == MATCH {
      var k := FindInCa(ca, wanted);
      return if k < 0 then None else Some(ca[k].value);
    } else {
      return None;
    }
  }

  lemma AddEntryValues(name: Name, v: Value)
    requires SingleSets(name)
    ensures SingleSets(AddEntry(name, v)) && Values(AddEntry(name, v)) == Values(name) + [v]
  {
  }

  /** The search over all request entries of one policy line; each one found is pushed in the form the kind asks for. */
  method AddField(name: Name, ca: Name, f: Field, objects: ObjectTable, subject: Name) returns (r: Option<Name>)
    requires SingleSets(subject)
    ensures r.Some? <==> FieldOk(name, ca, f, objects)
    ensures r.Some? ==>
              Values(r.value) == Values(subject) + Pick(Values(name), objects(f.name).value) && SingleSets(r.value)
  {
    hide Pick, SingleSets, AddEntry;
    if objects(f.name).None? { return None; }
    var oid := objects(f.name).value;
    ghost var v := Values(name);
    var out := subject;
    var last := -1;
    ghost var picked: seq<Value> := [];
    PickNothing(v, oid);
    while true
      invariant -1 <= last < |name|
      invariant picked == Pick(v[..last + 1], oid) && (last >= 0 ==> picked != [] && KindKnown(f.kind))
      invariant SingleSets(out) && Values(out) == Values(subject) + picked
      invariant f.kind == MATCH ==> AllIn(picked, ca)
      decreases |name| - last
    {
      var j := NextIndex(name, oid, last + 1);
      if j < 0 {
        PickNone(v, oid, last + 1);
        if last != -1 { break; }
        if f.kind == OPTIONAL { break; }
        return None;
      }
      PickOne(v, oid, last + 1, j);
      PickFrom(v, oid, j + 1);
      assert (picked + [v[j]])[|picked|] == v[j];
      assert Pick(v, oid)[|picked|] == v[j];
      last := j;
      var push := PushFor(f.kind, name[j].value, ca);
      if push.None? { return None; }
      AddEntryValues(out, push.value);
      out := AddEntry(out, push.value);
      picked := picked + [v[j]];
    }
    return Some(out);
  }

  lemma PickNothing(v: seq<Value>, oid: Oid)
    ensures Pick(v[..0], oid) == []
  {
  }

  /** The whole policy, line by line. */
  method BuildSubject(name: Name, ca: Name, policy: seq<Field>, objects: ObjectTable) returns (r: Option<Name>)
    ensures r.Some? <==> PolicyOk(name, ca, policy, objects)
    ensures r.Some? ==> Values(r.value) == PolicySubject(Values(name), policy, objects) && SingleSets(r.value)
  {
    hide FieldOk, SingleSets;
    FieldOkKnows(name, ca, objects);
    var subject: Name := [];
    EmptySubject(name, objects);
    for i := 0 to |policy|
      invariant PolicyOk(name, ca, policy[..i], objects) && SingleSets(subject)
      invariant forall k :: 0 <= k < i ==> FieldOk(name, ca, policy[k], objects)
      invariant Values(subject) == PolicySubject(Values(name), policy[..i], objects)
    {
      var next := AddField(name, ca, policy[i], objects, subject);
      if next.None? { return None; }
      subject := next.value;
      assert policy[..i + 1][..i] == policy[..i];
    }
    assert policy[..|policy|] == policy;
    return Some(subject);
  }

  lemma FieldOkKnows(name: Name, ca: Name, objects: ObjectTable)
    ensures forall f :: FieldOk(name, ca, f, objects) ==> objects(f.name).Some?
  {
  }

  lemma EmptySubject(name: Name, objects: ObjectTable)
    ensures SingleSets([]) && Values([]) == PolicySubject(Values(name), [], objects)
  {
  }

  // ----- stripping e-mail entries -----

  /** Set numbers start at zero and go up by at most one from entry to entry. */
  predicate GoodSets(name: Name) {
    && (name != [] ==> name[0].rdn == 0)
    && (forall i :: 0 <= i < |name| - 1 ==> name[i].rdn <= name[i + 1].rdn <= name[i].rdn + 1)
    && (forall i, j :: 0 <= i <= j < |name| ==> name[i].rdn <= name[j].rdn)
  }

  function Without<T>(s: seq<T>, i: nat): (r: seq<T>)
    requires i < |s|
    ensures |r| == |s| - 1
    ensures forall k :: 0 <= k < |r| ==> r[k] == if k < i then s[k] else s[k + 1]
  {
    s[..i] + s[i + 1..]
  }

  /** Removes one entry; when its set dies out, the sets behind it are renumbered. */
  function DeleteEntry(name: Name, loc: nat): (r: Name)
    requires loc < |name|
    ensures |r| == |name| - 1
  {
    var rest := Without(name, loc);
    if loc == |rest| then rest
    else
      var before := if loc != 0 then rest[loc - 1].rdn else name[loc].rdn - 1;
      if before + 1 < rest[loc].rdn then
        seq(|rest|, k requires 0 <= k < |rest| =>
          if k < loc then rest[k] else Entry(rest[k].value, rest[k].rdn - 1))
      else rest
  }

  /** `out` holds the entries of `name` at the positions `keep`. */
  predicate KeepsValues(out: Name, name: Name, keep: seq<nat>) {
    |out| == |keep| && forall k :: 0 <= k < |keep| ==> keep[k] < |name| && out[k].value == name[keep[k]].value
  }

  predicate Increasing(keep: seq<nat>) { forall k, l :: 0 <= k < l < |keep| ==> keep[k] < keep[l] }

  /** Entries are grouped into sets as they were. */
  predicate KeepsGroups(out: Name, name: Name, keep: seq<nat>)
    requires KeepsValues(out, name, keep)
  {
    forall k, l :: 0 <= k < l < |keep| ==> (out[k].rdn == out[l].rdn <==> name[keep[k]].rdn == name[keep[l]].rdn)
  }

  predicate KeepsStructure(out: Name, name: Name, keep: seq<nat>) {
    KeepsValues(out, name, keep) && Increasing(keep) && KeepsGroups(out, name, keep)
  }

  /** Where an entry of the list with `loc` removed was before. */
  function Before(k: nat, loc: nat): nat { if k < loc then k else k + 1 }

  /** Whether the sets behind a deleted entry move down: its set had no other entry. */
  predicate SetDies(name: Name, loc: nat)
    requires loc < |name|
  {
    loc + 1 < |name| && (if loc != 0 then name[loc - 1].rdn else name[loc].rdn - 1) + 1 < name[loc + 1].rdn
  }

  lemma DeletedEntries(name: Name, loc: nat)
    requires loc < |name|
    ensures var r := DeleteEntry(name, loc);
            forall k :: 0 <= k < |r| ==>
              && r[k].value == name[Before(k, loc)].value
              && r[k].rdn == name[Before(k, loc)].rdn - if k >= loc && SetDies(name, loc) then 1 else 0
  {
  }

  lemma DeleteKeepsSteps(name: Name, loc: nat, i: nat)
    requires GoodSets(name) && loc < |name| && i + 1 < |name| - 1
    ensures var r := DeleteEntry(name, loc); r[i].rdn <= r[i + 1].rdn <= r[i].rdn + 1
  {
    DeletedEntries(name, loc);
    hide DeleteEntry;
    if i + 1 == loc { assert name[i].rdn <= name[loc].rdn <= name[loc + 1].rdn; }
  }

  lemma DeleteKeepsOrder(name: Name, loc: nat, i: nat, j: nat)
    requires GoodSets(name) && loc < |name| && i <= j < |name| - 1
    ensures var r := DeleteEntry(name, loc); r[i].rdn <= r[j].rdn
  {
    DeletedEntries(name, loc);
    hide DeleteEntry;
    assert name[Before(i, loc)].rdn <= name[Before(j, loc)].rdn;
    if i < loc <= j { assert name[i].rdn <= name[loc - 1].rdn && name[loc + 1].rdn <= name[j + 1].rdn; }
  }

  lemma DeleteKeepsGoodSets(name: Name, loc: nat)
    requires GoodSets(name) && loc < |name|
    ensures GoodSets(DeleteEntry(name, loc))
  {
    DeletedEntries(name, loc);
    var r := DeleteEntry(name, loc);
    hide DeleteEntry;
    forall i | 0 <= i < |r| - 1 ensures r[i].rdn <= r[i + 1].rdn <= r[i].rdn + 1 { DeleteKeepsSteps(name, loc, i); }
    forall i, j | 0 <= i <= j < |r| ensures r[i].rdn <= r[j].rdn { DeleteKeepsOrder(name, loc, i, j); }
    if r != [] && loc == 0 { assert name[0].rdn <= name[1].rdn <= name[0].rdn + 1; }
  }

  lemma DeleteKeepsGroups(name: Name, loc: nat, k: nat, l: nat)
    requires GoodSets(name) && loc < |name| && k < l < |name| - 1
    ensures var r := DeleteEntry(name, loc);
            r[k].rdn == r[l].rdn <==> name[Before(k, loc)].rdn == name[Before(l, loc)].rdn
  {
    DeletedEntries(name, loc);
    hide DeleteEntry;
    if k < loc <= l {
      assert name[k].rdn <= name[loc - 1].rdn && name[loc + 1].rdn <= name[l + 1].rdn;
    }
  }

  lemma DeleteKeepsValues(out: Name, name: Name, keep: seq<nat>, loc: nat)
    requires KeepsValues(out, name, keep) && loc < |out|
    ensures KeepsValues(DeleteEntry(out, loc), name, Without(keep, loc))
  {
    DeletedEntries(out, loc);
    var r, kept := DeleteEntry(out, loc), Without(keep, loc);
    hide DeleteEntry;
    forall k | 0 <= k < |kept| ensures kept[k] < |name| && r[k].value == name[kept[k]].value {
      assert kept[k] == keep[Before(k, loc)] && r[k].value == out[Before(k, loc)].value;
    }
  }

  lemma WithoutIncreases(keep: seq<nat>, loc: nat)
    requires Increasing(keep) && loc < |keep|
    ensures Increasing(Without(keep, loc))
  {
    var kept := Without(keep, loc);
    forall k, l | 0 <= k < l < |kept| ensures kept[k] < kept[l] {
      assert Before(k, loc) < Before(l, loc) && kept[k] == keep[Before(k, loc)] && kept[l] == keep[Before(l, loc)];
    }
  }

  lemma DeleteKeepsPair(out: Name, name: Name, keep: seq<nat>, loc: nat, k: nat, l: nat)
    requires KeepsStructure(out, name, keep) && GoodSets(out) && loc < |out| && k < l < |out| - 1
    requires KeepsValues(DeleteEntry(out, loc), name, Without(keep, loc))
    ensures var r, kept := DeleteEntry(out, loc), Without(keep, loc);
            r[k].rdn == r[l].rdn <==> name[kept[k]].rdn == name[kept[l]].rdn
  {
    DeleteKeepsGroups(out, loc, k, l);
    hide DeleteEntry, GoodSets;
    var i, j := Before(k, loc), Before(l, loc);
    assert i < j && Without(keep, loc)[k] == keep[i] && Without(keep, loc)[l] == keep[j];
    assert out[i].rdn == out[j].rdn <==> name[keep[i]].rdn == name[keep[j]].rdn;
  }

  lemma DeleteKeepsStructure(out: Name, name: Name, keep: seq<nat>, loc: nat)
    requires KeepsStructure(out, name, keep) && GoodSets(out) && loc < |out|
    ensures KeepsStructure(DeleteEntry(out, loc), name, Without(keep, loc)) && GoodSets(DeleteEntry(out, loc))
  {
    DeleteKeepsGoodSets(out, loc);
    DeleteKeepsValues(out, name, keep, loc);
    WithoutIncreases(keep, loc);
    var r, kept := DeleteEntry(out, loc), Without(keep, loc);
    hide DeleteEntry, GoodSets, Increasing;
    forall k, l | 0 <= k < l < |kept| ensures r[k].rdn == r[l].rdn <==> name[kept[k]].rdn == name[kept[l]].rdn {
      DeleteKeepsPair(out, name, keep, loc, k, l);
    }
  }

  /** The scan as a function: find the next e-mail entry, remove it, go on from the same place. */
  function Stripped(name: Name, email: Oid, from: nat): Name
    decreases |name|
  {
    var i := NextIndex(name, email, from);
    if i < 0 then name else Stripped(DeleteEntry(name, i), email, i)
  }

  lemma WithoutCovers(was: seq<nat>, i: nat)
    requires i < |was|
    ensures forall p :: p in was && p != was[i] ==> p in Without(was, i)
    ensures forall p :: p in Without(was, i) ==> p in was
  {
    forall k | 0 <= k < |was| && k != i ensures was[k] in Without(was, i) {
      assert Without(was, i)[if k < i then k else k - 1] == was[k];
    }
  }

  /** No position left out of `keep` holds anything but e-mail. */
  predicate OnlyEmailGone(name: Name, keep: seq<nat>, email: Oid) {
    forall p :: 0 <= p < |name| && p !in keep ==> name[p].value.oid == email
  }

  predicate NoneBefore(name: Name, n: nat, email: Oid)
    requires n <= |name|
  {
    forall k :: 0 <= k < n ==> name[k].value.oid != email
  }

  lemma DeleteStep(out: Name, name: Name, keep: seq<nat>, i: nat, email: Oid)
    requires KeepsStructure(out, name, keep) && GoodSets(out)
    requires i < |out| && out[i].value.oid == email && NoneBefore(out, i, email) && OnlyEmailGone(name, keep, email)
    ensures var r := DeleteEntry(out, i);
            && KeepsStructure(r, name, Without(keep, i)) && GoodSets(r)
            && OnlyEmailGone(name, Without(keep, i), email) && NoneBefore(r, i, email)
  {
    DeleteKeepsStructure(out, name, keep, i);
    DeletedEntries(out, i);
    WithoutCovers(keep, i);
    hide DeleteEntry, GoodSets;
  }

  function Positions(n: nat): (s: seq<nat>)
    ensures |s| == n && forall k :: 0 <= k < n ==> s[k] == k
  {
    seq(n, k => k)
  }

  lemma EverythingKept(name: Name, email: Oid)
    ensures KeepsStructure(name, name, Positions(|name|)) && OnlyEmailGone(name, Positions(|name|), email)
  {
    forall p | 0 <= p < |name| ensures p in Positions(|name|) {
      assert Positions(|name|)[p] == p;
    }
  }

  /** Scans for e-mail entries and deletes each one while scanning, stepping the position back by one. */
  method StripEmail(name: Name, email: Oid) returns (out: Name, ghost keep: seq<nat>)
    requires GoodSets(name)
    ensures out == Stripped(name, email, 0)
    ensures KeepsStructure(out, name, keep) && GoodSets(out)
    ensures forall p :: 0 <= p < |name| ==> (p in keep <==> name[p].value.oid != email)
    ensures forall k :: 0 <= k < |out| ==> out[k].value.oid != email
  {
    hide DeleteEntry, GoodSets, KeepsStructure;
    out := name;
    EverythingKept(name, email);
    keep := Positions(|name|);
    var i := NextIndex(out, email, 0);
    while i >= 0
      invariant -1 <= i < |out| == |keep| && GoodSets(out) && KeepsStructure(out, name, keep)
      invariant NoneBefore(out, if i >= 0 then i else |out|, email) && OnlyEmailGone(name, keep, email)
      invariant i >= 0 ==> out[i].value.oid == email
      invariant Stripped(name, email, 0) == if i < 0 then out else Stripped(DeleteEntry(out, i), email, i)
      decreases |out|
    {
      DeleteStep(out, name, keep, i, email);
      out, keep := DeleteEntry(out, i), Without(keep, i);
      i := i - 1;
      i := NextIndex(out, email, i + 1);
    }
    KeptAreNot(out, name, keep, email);
  }

  lemma KeptAreNot(out: Name, name: Name, keep: seq<nat>, email: Oid)
    requires KeepsStructure(out, name, keep) && NoneBefore(out, |out|, email)
    ensures forall p :: p in keep ==> p < |name| && name[p].value.oid != email
  {
  }

  // ----- one-line text -----

  const GENERAL_STRING := 27
  const ONELINE_MAX := 1024 * 1024

  /** Column `c` of a general string in groups of four bytes holds something. */
  predicate ColumnUsed(data: seq<bv8>, c: nat) { exists j :: 0 <= j < |data| && j % 4 == c && data[j] != 0 }

  /** Bytes that are printed; general strings of four-byte characters skip unused columns. */
  predicate Printed(v: Value, j: nat) {
    if v.typ == GENERAL_STRING && |v.data| % 4 == 0 then
      j % 4 == 3 || ColumnUsed(v.data, 0) || ColumnUsed(v.data, 1) || ColumnUsed(v.data, 2)
    else true
  }

  function EscapeByte(b: bv8): string {
    if b < 0x20 || b > 0x7e then "\\x" + ByteHex(b as int)
    else if b == 0x2f || b == 0x2b then ['\\', b as char]
    else [b as char]
  }

  function EscapeData(v: Value, n: nat): string
    requires n <= |v.data|
  {
    if n == 0 then "" else EscapeData(v, n - 1) + if Printed(v, n - 1) then EscapeByte(v.data[n - 1]) else ""
  }

  type Labels = Oid -> string

  function EntryText(name: Name, i: nat, labels: Labels): string
    requires i < |name|
  {
    var joined := i > 0 && name[i - 1].rdn == name[i].rdn;
    (if joined then "+" else "/") + labels(name[i].value.oid) + "=" + EscapeData(name[i].value, |name[i].value.data|)
  }

  function NameText(name: Name, n: nat, labels: Labels): string
    requires n <= |name|
  {
    if n == 0 then "" else NameText(name, n - 1, labels) + EntryText(name, n - 1, labels)
  }

  function Oneline(name: Name, labels: Labels): Option<string> {
    if || (exists i :: 0 <= i < |name| && |name[i].value.data| > ONELINE_MAX)
       || |NameText(name, |name|, labels)| > ONELINE_MAX
    then None else Some(NameText(name, |name|, labels))
  }

  predicate OneLine(s: string) { '\n' !in s }

  predicate Printable(s: string) { forall i :: 0 <= i < |s| ==> ' ' <= s[i] <= '~' }

  lemma {:induction false} DataIsPrintable(v: Value, n: nat)
    requires n <= |v.data|
    ensures Printable(EscapeData(v, n))
  {
    if n > 0 {
      DataIsPrintable(v, n - 1);
      EscapedByteIsPrintable(v.data[n - 1]);
    }
  }

  lemma EscapedByteIsPrintable(b: bv8)
    ensures Printable(EscapeByte(b))
  {
    if b < 0x20 || b > 0x7e {
      assert forall c :: c in ByteHex(b as int) ==> IsHexDigit(c);
    } else {
      assert 0x20 <= b as int <= 0x7e;
      assert (b as char) as int == b as int;
    }
  }

  /** The name written to the index is printable text on one line, whatever bytes the subject holds;
      it is empty only for an empty name. */
  lemma {:induction false} NameIsOneLine(name: Name, n: nat, labels: Labels)
    requires n <= |name|
    ensures NameText(name, n, labels) == "" <==> n == 0
    ensures (forall i :: 0 <= i < n ==> OneLine(labels(name[i].value.oid))) ==> OneLine(NameText(name, n, labels))
    ensures (forall i :: 0 <= i < n ==> Printable(labels(name[i].value.oid))) ==> Printable(NameText(name, n, labels))
  {
    if n > 0 {
      NameIsOneLine(name, n - 1, labels);
      var v := name[n - 1].value;
      DataIsPrintable(v, |v.data|);
      hide EscapeData;
      assert '\n' !in EscapeData(v, |v.data|);
    }
  }
}
