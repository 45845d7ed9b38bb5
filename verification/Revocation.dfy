/** The revocation field of a row: time[,reason[,argument]], how it is written and how it is read. */
module Revocation {
  import opened Wrappers
  import opened Chars
  import opened Asn1Time
  import opened Calendar

  type Oid = seq<nat>

  /** Names and dotted forms of object identifiers known to the library. */
  type ObjectTable = string -> Option<Oid>

  /** What the user asks for; `Valid` adds a row without revoking it. */
  datatype Request =
    | Valid
    | NoInfo
    | CrlReason(arg: string)
    | HoldCode(arg: string)
    | KeyCompromise(arg: string)
    | CaCompromise(arg: string)

  const REASONS: seq<string> :=
    ["unspecified", "keyCompromise", "CACompromise", "affiliationChanged", "superseded",
     "cessationOfOperation", "certificateHold", "removeFromCRL",
     "holdInstruction", "keyTime", "CAkeyTime"]

  const USER_REASONS := 8
  const HOLD := 8
  const KEY_TIME := 9
  const CA_KEY_TIME := 10

  const NO_STATUS := -1

  /** The codes of section 5.3.1 of RFC 5280 for the reasons a user can name, in the order of the table. */
  const STANDARD_CODES: seq<int> := [0, 1, 2, 3, 4, 5, 6, 8]

  /** What a field says: the time it was written, the reason code of section 5.3.1 of RFC 5280,
      and the optional hold instruction or compromise time. */
  datatype Info = Info(time: string, reason: int, hold: Option<Oid>, compromised: Option<string>)

  /** What is stored behind the time. */
  datatype Stored = Stored(reason: Option<string>, arg: Option<string>)

  /** First of the leading `n` reasons that `s` names in any case, or `n`. */
  function ReasonIndex(s: string, n: nat): (i: nat)
    requires n <= |REASONS|
    ensures i <= n
    ensures i < n ==> SameNoCase(s, REASONS[i])
    ensures forall j :: 0 <= j < i ==> !SameNoCase(s, REASONS[j])
  {
    if n == 0 then 0
    else
      var i := ReasonIndex(s, n - 1);
      if i < n - 1 || SameNoCase(s, REASONS[n - 1]) then i else n
  }

  method FindReason(s: string, n: nat) returns (i: nat)
    requires n <= |REASONS|
    ensures i == ReasonIndex(s, n)
  {
    i := 0;
    while i < n && !SameNoCase(s, REASONS[i])
      invariant i <= n
      invariant forall j :: 0 <= j < i ==> !SameNoCase(s, REASONS[j])
    {
      i := i + 1;
    }
  }

  // ----- writing -----

  /** The reason and argument stored for a request, or nothing when the request is malformed. */
  function Parts(r: Request, objects: ObjectTable): Option<Stored> {
    match r
    case Valid => Some(Stored(None, None))
    case NoInfo => Some(Stored(None, None))
    case CrlReason(arg) =>
      var i := ReasonIndex(arg, USER_REASONS);
      if i < USER_REASONS then Some(Stored(Some(REASONS[i]), None)) else None
    case HoldCode(arg) => if objects(arg).Some? then Some(Stored(Some(REASONS[HOLD]), Some(arg))) else None
    case KeyCompromise(arg) =>
      if GeneralizedCheck(arg) then Some(Stored(Some(REASONS[KEY_TIME]), Some(arg))) else None
    case CaCompromise(arg) =>
      if GeneralizedCheck(arg) then Some(Stored(Some(REASONS[CA_KEY_TIME]), Some(arg))) else None
  }

  function Suffix(part: Option<string>): string {
    if part.None? then "" else "," + part.value
  }

  function Join(time: string, stored: Stored): string {
    time + Suffix(stored.reason) + Suffix(stored.arg)
  }

  /** Bounded copy and append: the text kept in a buffer of `size` characters, one of them the terminator. */
  function Strlcpy(src: string, size: nat): (s: string)
    ensures |src| < size ==> s == src
  {
    if |src| < size then src else if size == 0 then "" else src[..size - 1]
  }

  function Strlcat(dst: string, src: string, size: nat): string
    requires |dst| < size
  {
    dst + Strlcpy(src, size - |dst|)
  }

  /** The size is computed first; the bounded copies then drop nothing. */
  method FillBuffer(now: string, reason: Option<string>, other: Option<string>) returns (str: string, size: nat)
    ensures str == now + Suffix(reason) + Suffix(other)
    ensures size == |str| + 1
  {
    size := |now| + 1;
    if reason.Some? { size := size + |reason.value| + 1; }
    if other.Some? { size := size + |other.value| + 1; }
    str := Strlcpy(now, size);
    if reason.Some? {
      str := Strlcat(str, ",", size);
      str := Strlcat(str, reason.value, size);
    }
    assert str == now + Suffix(reason);
    if other.Some? {
      str := Strlcat(str, ",", size);
      str := Strlcat(str, other.value, size);
    }
  }

  /** Checks the request, computes the buffer size, then fills the buffer with bounded copies. */
  method MakeRevocationStr(now: string, r: Request, objects: ObjectTable) returns (text: Option<string>, size: nat)
    ensures Parts(r, objects).None? ==> text.None?
    ensures Parts(r, objects).Some? ==>
              text == Some(Join(now, Parts(r, objects).value)) && size == |text.value| + 1
  {
    var reason: Option<string>, other: Option<string> := None, None;
    var str;
    match r {
      case Valid =>
      case NoInfo =>
      case CrlReason(arg) =>
        var i := FindReason(arg, USER_REASONS);
        if i == USER_REASONS { return None, 0; }
        reason := Some(REASONS[i]);
      case HoldCode(arg) =>
        if objects(arg).None? { return None, 0; }
        reason, other := Some(REASONS[HOLD]), Some(arg);
      case KeyCompromise(arg) =>
        if !GeneralizedCheck(arg) { return None, 0; }
        reason, other := Some(REASONS[KEY_TIME]), Some(arg);
      case CaCompromise(arg) =>
        if !GeneralizedCheck(arg) { return None, 0; }
        reason, other := Some(REASONS[CA_KEY_TIME]), Some(arg);
    }
    str, size := FillBuffer(now, reason, other);
    text := Some(str);
  }

  // ----- reading -----

  /** Position of the first comma from `i` on, or the length. */
  function Comma(s: string, i: nat): (n: nat)
    requires i <= |s|
    ensures i <= n <= |s|
    ensures n < |s| ==> s[n] == ','
    ensures ',' !in s[i..n]
    decreases |s| - i
  {
    if i == |s| || s[i] == ',' then i
    else
      var n := Comma(s, i + 1);
      assert s[i..n] == [s[i]] + s[i + 1..n];
      n
  }

  /** The code stored in the CRL for an index of the reason table; the pseudo reasons map to real ones. */
  function ReasonCode(i: nat): int {
    if i == 7 then 8
    else if i == HOLD then 6
    else if i == KEY_TIME then 1
    else if i == CA_KEY_TIME then 2
    else i
  }

  /** Reason and argument as found between and after the commas. */
  function Interpret(time: string, reason: Option<string>, arg: Option<string>, objects: ObjectTable): Option<Info> {
    if !UtcCheck(time) then None
    else if reason.None? then Some(Info(time, NO_STATUS, None, None))
    else
      var i := ReasonIndex(reason.value, |REASONS|);
      if i == |REASONS| then None
      else if i == HOLD then
        if arg.None? || objects(arg.value).None? then None
        else Some(Info(time, ReasonCode(i), objects(arg.value), None))
      else if i == KEY_TIME || i == CA_KEY_TIME then
        if arg.None? || !GeneralizedCheck(arg.value) then None
        else Some(Info(time, ReasonCode(i), None, arg))
      else Some(Info(time, ReasonCode(i), None, None))
  }

  function Unpack(s: string, objects: ObjectTable): Option<Info> {
    var p := Comma(s, 0);
    if p == |s| then Interpret(s, None, None, objects)
    else
      var q := Comma(s, p + 1);
      Interpret(s[..p], Some(s[p + 1..q]), if q == |s| then None else Some(s[q + 1..]), objects)
  }

  /** The reader cuts the text at the first two commas and checks the pieces one after the other. */
  method UnpackRevinfo(s: string, objects: ObjectTable) returns (info: Option<Info>)
    ensures info == Unpack(s, objects)
  {
    var time, reason, arg := s, None, None;
    var p := Comma(s, 0);
    if p < |s| {
      time := s[..p];
      var q := Comma(s, p + 1);
      reason := Some(s[p + 1..q]);
      if q < |s| { arg := Some(s[q + 1..]); }
    }
    if !UtcCheck(time) { return None; }
    var code, hold, compromised := NO_STATUS, None, None;
    if reason.Some? {
      var i := FindReason(reason.value, |REASONS|);
      if i == |REASONS| { return None; }
      code := i;
      if code == 7 {
        code := 8;
      } else if code == 8 {
        if arg.None? { return None; }
        code := 6;
        hold := objects(arg.value);
        if hold.None? { return None; }
      } else if code == 9 || code == 10 {
        if arg.None? || !GeneralizedCheck(arg.value) { return None; }
        compromised := arg;
        code := if code == 9 then 1 else 2;
      }
    }
    info := Some(Info(time, code, hold, compromised));
  }

  // ----- the two agree -----

  /** What the user meant, stated without the text. */
  function Meaning(time: string, r: Request, objects: ObjectTable): Info
    requires Parts(r, objects).Some?
  {
    match r
    case Valid => Info(time, NO_STATUS, None, None)
    case NoInfo => Info(time, NO_STATUS, None, None)
    case CrlReason(arg) => Info(time, STANDARD_CODES[ReasonIndex(arg, USER_REASONS)], None, None)
    case HoldCode(arg) => Info(time, 6, objects(arg), None)
    case KeyCompromise(arg) => Info(time, 1, None, Some(arg))
    case CaCompromise(arg) => Info(time, 2, None, Some(arg))
  }

  /** No two reasons are the same in any case, so each stored reason is found at its own place. */
  lemma ReasonFindsItself(i: nat)
    requires i < |REASONS|
    ensures ReasonIndex(REASONS[i], |REASONS|) == i
  {
    var r := LowerAll(REASONS[i]);
    forall j | 0 <= j < |REASONS| && j != i ensures !SameNoCase(REASONS[i], REASONS[j]) {
      if |REASONS[i]| == |REASONS[j]| {
        assert LowerAll(REASONS[i])[0] != LowerAll(REASONS[j])[0];
      } else {
        assert |LowerAll(REASONS[i])| != |LowerAll(REASONS[j])|;
      }
    }
  }

  lemma {:induction false} CommaAt(a: string, b: string, i: nat)
    requires i <= |a| && ',' !in a[i..]
    ensures Comma(a + "," + b, i) == |a| && Comma(a, i) == |a|
    decreases |a| - i
  {
    var s := a + "," + b;
    if i < |a| {
      assert a[i] == a[i..][0] && a[i..][1..] == a[i + 1..];
      assert s[i] == a[i];
      CommaAt(a, b, i + 1);
    } else {
      assert s[i] == ',';
    }
  }

  predicate NoComma(s: string) { ',' !in s }

  lemma ReasonsHaveNoComma(i: nat)
    requires i < |REASONS|
    ensures NoComma(REASONS[i])
  {
  }

  /** The reader cuts a written field where the writer joined it, commas inside the argument included. */
  lemma JoinIsCut(time: string, stored: Stored, objects: ObjectTable)
    requires NoComma(time) && (stored.reason.Some? ==> NoComma(stored.reason.value))
    requires stored.arg.Some? ==> stored.reason.Some?
    ensures Unpack(Join(time, stored), objects) == Interpret(time, stored.reason, stored.arg, objects)
  {
    var s, p := Join(time, stored), |time|;
    if stored.reason.None? {
      assert s == time;
      CommaAt(time, "", 0);
    } else {
      var reason, tail := stored.reason.value, Suffix(stored.arg);
      assert s == time + "," + (reason + tail);
      CommaAt(time, reason + tail, 0);
      assert s[..p] == time;
      var head := time + "," + reason;
      assert head[p + 1..] == reason;
      if stored.arg.None? {
        assert s == head;
        CommaAt(head, "", p + 1);
        assert s[p + 1..|s|] == reason;
      } else {
        assert s == head + "," + stored.arg.value;
        CommaAt(head, stored.arg.value, p + 1);
        assert s[p + 1..|head|] == reason && s[|head| + 1..] == stored.arg.value;
      }
    }
  }

  /** For every request that can be written, reading gives the meaning back exactly when the clock's text is a
      UTCTime. */
  lemma WrittenReadsBackExactly(time: string, r: Request, objects: ObjectTable)
    requires Parts(r, objects).Some? && NoComma(time)
    ensures Unpack(Join(time, Parts(r, objects).value), objects)
         == if UtcCheck(time) then Some(Meaning(time, r, objects)) else None
  {
    var stored := Parts(r, objects).value;
    if stored.reason.Some? {
      var i := StoredReason(r);
      ReasonsHaveNoComma(i);
      ReasonFindsItself(i);
      CodesAreStandard(i);
    }
    JoinIsCut(time, stored, objects);
    InterpretedExactly(time, r, objects);
    hide *;
  }

  /** The pieces of a written field, put in front of the reader's checks. */
  lemma InterpretedExactly(time: string, r: Request, objects: ObjectTable)
    requires Parts(r, objects).Some?
    requires var reason := Parts(r, objects).value.reason; var i := StoredReason(r);
             reason.Some? ==> i < |REASONS| && CodeKnown(i) && ReasonIndex(reason.value, |REASONS|) == i
    ensures var st := Parts(r, objects).value;
            Interpret(time, st.reason, st.arg, objects)
            == if UtcCheck(time) then Some(Meaning(time, r, objects)) else None
  {
    hide UtcCheck, GeneralizedCheck, ReasonIndex;
  }

  predicate CodeKnown(i: nat) { i < USER_REASONS ==> ReasonCode(i) == STANDARD_CODES[i] }

  /** Table index of the reason stored for a request that has one. */
  function StoredReason(r: Request): (i: nat)
    ensures !r.CrlReason? ==> i < |REASONS|
    ensures r.CrlReason? ==> i <= USER_REASONS
  {
    if r.CrlReason? then ReasonIndex(r.arg, USER_REASONS)
    else if r.HoldCode? then HOLD else if r.KeyCompromise? then KEY_TIME else CA_KEY_TIME
  }

  /** The code read for a reason a user can name is its standard code. */
  lemma CodesAreStandard(i: nat)
    ensures CodeKnown(i)
  {
  }

  /** With the clock's own text: the field reads back exactly while the clock is in the years 1950 to 2049. */
  lemma ClockFieldReadsBackExactly(now: Tm, r: Request, objects: ObjectTable)
    requires ValidTm(now) && 0 <= now.year <= 9999 && Parts(r, objects).Some?
    ensures Unpack(Join(Print(now), Parts(r, objects).value), objects)
         == if UtcYear(now.year) then Some(Meaning(Print(now), r, objects)) else None
  {
    PrintReadsBack(now);
    TimeCharacters(Print(now));
    PrintIsUtcExactly(now);
    WrittenReadsBackExactly(Print(now), r, objects);
  }
}
