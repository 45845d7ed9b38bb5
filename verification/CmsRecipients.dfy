/** Recipients and key options of an encrypting command: which -keyopt reaches which recipient. */
module CmsRecipients {
  import opened CmsSigners
  import opened Wrappers

  // ----- what the user means -----

  /** The recipient named last before a place, or -1. */
  function OpenRecipient(os: seq<Opt>, p: nat): int
    requires p <= |os|
  {
    |Recipients(os[..p])| - 1
  }

  /** A -keyopt given under -encrypt is for the recipient named last. */
  predicate ForRecipient(os: seq<Opt>, p: nat, i: int) {
    IsKeyopt(os, p) && ModeAt(os, p).Encrypt? && OpenRecipient(os, p) == i
  }

  /** The options given for a recipient, by their places. */
  function OptionsFor(os: seq<Opt>, i: int): seq<nat> {
    if os == [] then []
    else
      var m := |os| - 1;
      OptionsFor(os[..m], i) + if ForRecipient(os, m, i) then [m] else []
  }

  // ----- the list of parameters, for every command -----

  /** Another key had an option after the first option for this one and before this place. */
  ghost predicate Cut(os: seq<Opt>, p: nat)
    requires p <= |os|
  {
    exists q: nat, x: nat ::
      IsKeyopt(os, q) && IsKeyopt(os, x) && q < x < p && IndexAt(os, q) == IndexAt(os, p) != IndexAt(os, x)
  }

  /** Neighbours in the list are for different keys. */
  predicate Alternating(params: seq<KeyParam>) {
    forall k :: 0 <= k < |params| - 1 ==> params[k].idx != params[k + 1].idx
  }

  predicate Ascending(s: seq<nat>) { forall i, j :: 0 <= i < j < |s| ==> s[i] < s[j] }

  predicate Below(s: seq<nat>, end: nat) { forall p :: p in s ==> p < end }

  predicate NodesAscend(params: seq<KeyParam>, end: nat) {
    forall k :: 0 <= k < |params| ==> Ascending(params[k].options) && Below(params[k].options, end)
  }

  lemma AscendingAppend(s: seq<nat>, end: nat)
    requires Ascending(s) && Below(s, end)
    ensures Ascending(s + [end]) && Below(s + [end], end + 1)
  {
    forall i, j | 0 <= i < j < |s + [end]| ensures (s + [end])[i] < (s + [end])[j] {
      assert s[i] in s;
    }
  }

  lemma RecordAlternates(params: seq<KeyParam>, idx: int, place: nat)
    requires Alternating(params) && NodesAscend(params, place)
    ensures Alternating(Record(params, idx, place)) && NodesAscend(Record(params, idx, place), place + 1)
  {
    AscendingAppend(if params != [] then params[|params| - 1].options else [], place);
    AscendingAppend([], place);
    assert [] + [place] == [place];
    hide Ascending;
  }

  lemma {:induction false} RunAlternates(os: seq<Opt>)
    requires Run(os).Some?
    ensures Alternating(Run(os).value.params) && NodesAscend(Run(os).value.params, |os|)
    decreases |os|
  {
    if os != [] {
      var m := |os| - 1;
      RunAlternates(os[..m]);
      if os[m].Keyopt? {
        IndexOfLast(os);
        RecordAlternates(Run(os[..m]).value.params, IndexAt(os, m), m);
      }
    }
  }

  /** In every command, whatever the operations in it: an option reaches the key it was recorded for exactly when no
      option for another key came in between. */
  lemma AppliedExactly(os: seq<Opt>, i: int, p: nat)
    requires Run(os).Some?
    ensures p in Applied(Run(os).value.params, i) <==> IsKeyopt(os, p) && IndexAt(os, p) == i && !Cut(os, p)
  {
    RunRecords(os);
    RunAlternates(os);
    var params := Run(os).value.params;
    hide Run, IndexAt;
    if p in Applied(params, i) { AppliedAreRecorded(params, i, p); }
    if IsKeyopt(os, p) && IndexAt(os, p) == i { FirstNodeIsUncut(os, params, p); }
  }

  lemma NodeOf(os: seq<Opt>, params: seq<KeyParam>, p: nat) returns (k: nat, j: nat)
    requires Recorded(os, params) && IsKeyopt(os, p)
    ensures k < |params| && j < |params[k].options| && params[k].options[j] == p && params[k].idx == IndexAt(os, p)
  {
    hide IndexAt;
    assert In(p, params);
    k :| 0 <= k < |params| && p in params[k].options;
    j :| 0 <= j < |params[k].options| && params[k].options[j] == p;
  }

  lemma SameNode(os: seq<Opt>, params: seq<KeyParam>, k: nat, q: nat, x: nat, p: nat)
    requires Recorded(os, params) && k < |params| && p in params[k].options
    requires forall j :: 0 <= j < k ==> params[j].idx != params[k].idx
    requires IsKeyopt(os, q) && IsKeyopt(os, x) && q < x < p && IndexAt(os, q) == params[k].idx
    ensures IndexAt(os, x) == params[k].idx
  {
    var kq, jq := NodeOf(os, params, q);
    var kx, jx := NodeOf(os, params, x);
    hide IndexAt, Placed, Complete;
    var j :| 0 <= j < |params[k].options| && params[k].options[j] == p;
    assert kq == k;
    assert kx == k;
  }

  /** The options of the first node for a key stand together. */
  lemma NodeIsUncut(os: seq<Opt>, params: seq<KeyParam>, k: nat, p: nat)
    requires Recorded(os, params) && k < |params| && p in params[k].options
    requires forall j :: 0 <= j < k ==> params[j].idx != params[k].idx
    ensures IsKeyopt(os, p) && !Cut(os, p)
  {
    hide IndexAt;
    assert IsKeyopt(os, p) && IndexAt(os, p) == params[k].idx;
    hide Recorded;
    forall q: nat, x: nat | IsKeyopt(os, q) && IsKeyopt(os, x) && q < x < p && IndexAt(os, q) == IndexAt(os, p)
      ensures IndexAt(os, x) == IndexAt(os, p)
    {
      SameNode(os, params, k, q, x, p);
    }
  }

  lemma FirstNodeIsUncut(os: seq<Opt>, params: seq<KeyParam>, p: nat)
    requires Recorded(os, params) && Alternating(params) && IsKeyopt(os, p)
    ensures p in Applied(params, IndexAt(os, p)) <==> !Cut(os, p)
  {
    hide IndexAt;
    var l, j := NodeOf(os, params, p);
    var k := AppliedIsFirst(params, IndexAt(os, p));
    hide Applied;
    if k == l {
      NodeIsUncut(os, params, k, p);
    } else {
      var q, x := params[k].options[0], params[k + 1].options[0];
      assert k + 1 < l;
      assert IsKeyopt(os, q) && IsKeyopt(os, x) && q < x < p;
      assert IndexAt(os, q) == IndexAt(os, p) != IndexAt(os, x);
    }
  }

  // ----- accepted encryptions -----

  predicate Accepted(os: seq<Opt>, rest: seq<string>, otherKey: bool) {
    Run(os).Some? && FinishEncryption(Run(os).value, rest, otherKey).Some?
  }

  function Result(os: seq<Opt>, rest: seq<string>, otherKey: bool): State
    requires Accepted(os, rest, otherKey)
  {
    FinishEncryption(Run(os).value, rest, otherKey).value
  }

  /** Each recipient gets exactly the options given for it, in order. */
  predicate OptionsReachTheirRecipient(os: seq<Opt>, s: State) {
    forall i :: 0 <= i < |s.recipients| ==> Applied(s.params, i) == OptionsFor(os, i)
  }

  /** The recipients of an accepted encryption are the -recip arguments behind -encrypt, then the remaining
      arguments. */
  lemma RecipientsInOrder(os: seq<Opt>, rest: seq<string>, otherKey: bool)
    requires Accepted(os, rest, otherKey)
    ensures Result(os, rest, otherKey).recipients == Recipients(os) + rest
  {
    RunRecipients(os);
  }

  lemma {:induction false} RecipientsGrow(os: seq<Opt>, p: nat, q: nat)
    requires p <= q <= |os|
    ensures OpenRecipient(os, p) <= OpenRecipient(os, q) < |Recipients(os)|
    decreases |os|
  {
    assert os[..|os|] == os;
    if q < |os| {
      assert os[..|os| - 1][..p] == os[..p] && os[..|os| - 1][..q] == os[..q];
      RecipientsGrow(os[..|os| - 1], p, q);
    } else if p < q {
      assert os[..|os| - 1][..p] == os[..p];
      assert os[..|os| - 1][..|os| - 1] == os[..|os| - 1];
      RecipientsGrow(os[..|os| - 1], p, |os| - 1);
    }
  }

  lemma {:induction false} KeysGrow(os: seq<Opt>, p: nat)
    requires Run(os).Some? && p <= |os|
    ensures Run(os[..p]).Some? && |Run(os[..p]).value.keys| <= |Run(os).value.keys|
    decreases |os|
  {
    if p < |os| {
      assert os[..|os| - 1][..p] == os[..p];
      KeysGrow(os[..|os| - 1], p);
    } else {
      assert os[..p] == os;
    }
  }

  /** Under -encrypt the index is that of the recipient named last; elsewhere it is that of the one signer there can
      be. */
  lemma IndexIsOpenRecipient(os: seq<Opt>, p: nat)
    requires Run(os).Some? && Run(os).value.keys == [] && IsKeyopt(os, p)
    ensures 0 <= IndexAt(os, p) == if ModeAt(os, p).Encrypt? then OpenRecipient(os, p) else 0
  {
    IndexNotNegative(os, p);
    KeysGrow(os, p);
    RunMode(os[..p]);
    SameMode(os[..p], os, p);
    RunRecipients(os[..p]);
  }

  lemma {:induction false} OptionsForExactly(os: seq<Opt>, i: int, p: nat)
    ensures p in OptionsFor(os, i) <==> ForRecipient(os, p, i)
    decreases |os|
  {
    if os != [] {
      var m := |os| - 1;
      OptionsForExactly(os[..m], i, p);
      if p < m {
        assert os[..m][..p] == os[..p];
        SameMode(os[..m], os, p);
      }
    }
  }

  lemma {:induction false} OptionsForAscend(os: seq<Opt>, i: int)
    ensures Ascending(OptionsFor(os, i))
    decreases |os|
  {
    if os != [] {
      var m := |os| - 1;
      OptionsForAscend(os[..m], i);
      forall p: nat | p in OptionsFor(os[..m], i) ensures p < m {
        OptionsForExactly(os[..m], i, p);
        assert IsKeyopt(os[..m], p);
      }
      AscendingAppend(OptionsFor(os[..m], i), m);
    }
  }

  lemma {:induction false} AppliedAscend(params: seq<KeyParam>, i: int, end: nat)
    requires NodesAscend(params, end)
    ensures Ascending(Applied(params, i))
  {
    if params != [] { AppliedAscend(params[1..], i, end); }
  }

  lemma ButLast(s: seq<nat>, p: nat)
    requires Ascending(s) && s != []
    ensures p in s[..|s| - 1] <==> p in s && p != s[|s| - 1]
  {
    assert s == s[..|s| - 1] + [s[|s| - 1]];
  }

  lemma {:induction false} AscendingEqual(a: seq<nat>, b: seq<nat>)
    requires Ascending(a) && Ascending(b) && forall p :: p in a <==> p in b
    ensures a == b
  {
    if a != [] { assert a[0] in b; }
    if b != [] { assert b[0] in a; }
    if a != [] && b != [] {
      var m, n := |a| - 1, |b| - 1;
      assert a[m] in b && b[n] in a;
      assert a[m] == b[n];
      forall p: nat ensures p in a[..m] <==> p in b[..n] {
        ButLast(a, p);
        ButLast(b, p);
      }
      assert Ascending(a[..m]) && Ascending(b[..n]);
      hide Ascending;
      AscendingEqual(a[..m], b[..n]);
      assert a == a[..m] + [a[m]] && b == b[..n] + [b[n]];
    }
  }

  /** One recipient gets its options exactly when the same places are in both lists. */
  lemma SamePlaces(os: seq<Opt>, i: int)
    requires Run(os).Some?
    ensures Applied(Run(os).value.params, i) == OptionsFor(os, i)
       <==> forall p: nat :: p in Applied(Run(os).value.params, i) <==> ForRecipient(os, p, i)
  {
    RunAlternates(os);
    AppliedAscend(Run(os).value.params, i, |os|);
    OptionsForAscend(os, i);
    hide Run, ForRecipient;
    forall p: nat ensures p in OptionsFor(os, i) <==> ForRecipient(os, p, i) {
      OptionsForExactly(os, i, p);
    }
    if forall p: nat :: p in Applied(Run(os).value.params, i) <==> ForRecipient(os, p, i) {
      AscendingEqual(Applied(Run(os).value.params, i), OptionsFor(os, i));
    }
  }

  /** An option outside -encrypt does no harm when both the first recipient and a later one had theirs before it, and
      it does not stand between two options of one later recipient. */
  ghost predicate Harmless(os: seq<Opt>, p: nat) {
    && (exists q: nat, x: nat, i: int :: ForRecipient(os, q, 0) && ForRecipient(os, x, i) && 0 < i && q < x < p)
    && !(exists q: nat, r: nat, i: int :: ForRecipient(os, q, i) && ForRecipient(os, r, i) && 0 < i && q < p < r)
  }

  /** Every option given outside -encrypt does no harm. */
  ghost predicate StraysHarmless(os: seq<Opt>) {
    forall p :: IsKeyopt(os, p) && !ModeAt(os, p).Encrypt? ==> Harmless(os, p)
  }

  lemma BetweenIsHarmful(os: seq<Opt>, q: nat, p: nat, r: nat, i: int)
    requires ForRecipient(os, q, i) && ForRecipient(os, r, i) && 0 < i && q < p < r
    ensures !Harmless(os, p)
  {
  }

  lemma HarmlessReaches(os: seq<Opt>, i: nat, p: nat)
    requires Run(os).Some? && Run(os).value.keys == [] && StraysHarmless(os)
    ensures p in Applied(Run(os).value.params, i) <==> ForRecipient(os, p, i)
  {
    AppliedExactly(os, i, p);
    forall q: nat | IsKeyopt(os, q)
      ensures 0 <= IndexAt(os, q) == if ModeAt(os, q).Encrypt? then OpenRecipient(os, q) else 0
    {
      IndexIsOpenRecipient(os, q);
    }
    forall q: nat, r: nat | q <= r <= |os| ensures OpenRecipient(os, q) <= OpenRecipient(os, r) {
      RecipientsGrow(os, q, r);
    }
    hide Run, IndexAt, OpenRecipient, ModeAt, Applied;
    if IsKeyopt(os, p) && IndexAt(os, p) == i {
      if !ModeAt(os, p).Encrypt? {
        var q: nat, x: nat, k: int :| ForRecipient(os, q, 0) && ForRecipient(os, x, k) && 0 < k && q < x < p;
        assert IndexAt(os, q) == IndexAt(os, p) != IndexAt(os, x);
        assert Cut(os, p);
      } else {
        forall q: nat, x: nat | IsKeyopt(os, q) && IsKeyopt(os, x) && q < x < p && IndexAt(os, q) == i
          ensures IndexAt(os, x) == i
        {
          if i > 0 && !ModeAt(os, x).Encrypt? { BetweenIsHarmful(os, q, x, p, i); }
        }
      }
    }
  }

  /** A stray between two options of a later recipient keeps the second from it. */
  lemma StrayCuts(os: seq<Opt>, q: nat, p: nat, r: nat, i: int)
    requires Run(os).Some? && Run(os).value.keys == [] && q < p < r && 0 < i < |Recipients(os)|
    requires IsKeyopt(os, p) && !ModeAt(os, p).Encrypt? && ForRecipient(os, q, i) && ForRecipient(os, r, i)
    ensures r !in Applied(Run(os).value.params, i)
  {
    IndexIsOpenRecipient(os, q);
    IndexIsOpenRecipient(os, p);
    IndexIsOpenRecipient(os, r);
    AppliedExactly(os, i, r);
    hide IndexAt, Run, Applied;
    assert IndexAt(os, q) == IndexAt(os, r) != IndexAt(os, p);
  }

  /** A stray that stays away from the first recipient comes after options of it and of a later one. */
  lemma StrayHasPast(os: seq<Opt>, p: nat) returns (q: nat, x: nat)
    requires Run(os).Some? && Run(os).value.keys == [] && IsKeyopt(os, p) && !ModeAt(os, p).Encrypt?
    requires forall r: nat :: r in Applied(Run(os).value.params, 0) <==> ForRecipient(os, r, 0)
    ensures ForRecipient(os, q, 0) && IsKeyopt(os, x) && ModeAt(os, x).Encrypt? && OpenRecipient(os, x) > 0 && q < x < p
  {
    AppliedExactly(os, 0, p);
    IndexIsOpenRecipient(os, p);
    assert !ForRecipient(os, p, 0) && Cut(os, p);
    RunRecords(os);
    hide Run, OpenRecipient, ModeAt, Applied, ForRecipient, Recorded, IndexAt;
    var first: nat;
    first, x :| IsKeyopt(os, first) && IsKeyopt(os, x) && first < x < p && IndexAt(os, first) == 0 != IndexAt(os, x);
    q := FirstForKey(os, Run(os).value.params, first);
    IndexIsOpenRecipient(os, x);
  }

  lemma StrayIsHarmless(os: seq<Opt>, p: nat, n: nat)
    requires Run(os).Some? && Run(os).value.keys == [] && 0 < n && |Recipients(os)| <= n
    requires forall i, q: nat :: 0 <= i < n ==> (q in Applied(Run(os).value.params, i) <==> ForRecipient(os, q, i))
    requires IsKeyopt(os, p) && !ModeAt(os, p).Encrypt?
    ensures Harmless(os, p)
  {
    hide Run, Applied, ModeAt;
    var q, x := StrayHasPast(os, p);
    assert ForRecipient(os, q, 0) && ForRecipient(os, x, OpenRecipient(os, x));
    forall q: nat, r: nat, i: int | ForRecipient(os, q, i) && 0 < i && q < p < r ensures !ForRecipient(os, r, i) {
      RecipientsGrow(os, q, q);
      if ForRecipient(os, r, i) { StrayCuts(os, q, p, r, i); }
    }
  }

  /** For every accepted encryption and every order of options: each recipient gets exactly the options given for it
      if and only if there is no recipient at all or every option outside -encrypt does no harm. */
  lemma RecipientsArePairedExactly(os: seq<Opt>, rest: seq<string>, otherKey: bool)
    requires Accepted(os, rest, otherKey)
    ensures OptionsReachTheirRecipient(os, Result(os, rest, otherKey))
       <==> Recipients(os) + rest == [] || StraysHarmless(os)
  {
    RecipientsInOrder(os, rest, otherKey);
    var params, n := Run(os).value.params, |Recipients(os) + rest|;
    assert Result(os, rest, otherKey).params == params;
    forall i: nat ensures Applied(params, i) == OptionsFor(os, i)
                     <==> forall p: nat :: p in Applied(params, i) <==> ForRecipient(os, p, i)
    {
      SamePlaces(os, i);
    }
    hide Run, ForRecipient, Applied, OptionsFor, Harmless;
    if StraysHarmless(os) {
      forall i: nat, p: nat ensures p in Applied(params, i) <==> ForRecipient(os, p, i) {
        HarmlessReaches(os, i, p);
      }
    } else if n > 0 && OptionsReachTheirRecipient(os, Result(os, rest, otherKey)) {
      var p :| IsKeyopt(os, p) && !ModeAt(os, p).Encrypt? && !Harmless(os, p);
      StrayIsHarmless(os, p, n);
    }
  }

  lemma OnlyStrays(os: seq<Opt>, i: int)
    requires forall p :: IsKeyopt(os, p) ==> !ModeAt(os, p).Encrypt?
    ensures OptionsFor(os, i) == []
  {
    OptionsForAscend(os, i);
    hide OptionsFor, ModeAt;
    forall p: nat ensures p !in OptionsFor(os, i) {
      OptionsForExactly(os, i, p);
    }
    AscendingEqual(OptionsFor(os, i), []);
  }

  /** An accepted encryption where the recipient gets an option that was given for a signer. */
  lemma SignerFirstMixesOptions(a: string, x: string, r: string)
    ensures var os := [Signer(a), Keyopt(x), Mode(Encrypt), Recip(r)];
            && Accepted(os, [], false) && OptionsFor(os, 0) == []
            && Applied(Result(os, [], false).params, 0) == [1]
  {
    var os := [Signer(a), Keyopt(x), Mode(Encrypt), Recip(r)];
    var s1 := START.(signerFile := Some(a));
    var s2 := s1.(params := [KeyParam(0, [1])]);
    var s3 := s2.(operation := Encrypt);
    assert ModeAt(os, 1) == NoOperation;
    OnlyStrays(os, 0);
    hide OptionsFor, Run, ModeAt;
    EmptyRun(os);
    RunOne(os, 0, START);
    RunOne(os, 1, s1);
    assert Record([], 0, 1) == [KeyParam(0, [1])];
    RunOne(os, 2, s2);
    RunOne(os, 3, s3);
    assert os[..4] == os;
  }
}
