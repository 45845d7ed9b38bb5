/** The list of configuration sections of the CMP client, read from its end, and the lookup layered over it. */
module CmpSections {
  import opened Wrappers
  import opened Chars

  const NAME_MAX := 40

  predicate IsSeparator(c: char) { c == ',' || IsSpace(c) }

  predicate Plain(s: string) { forall i :: 0 <= i < |s| ==> !IsSeparator(s[i]) }

  predicate Blank(s: string) { forall i :: 0 <= i < |s| ==> IsSeparator(s[i]) }

  // ----- an ordinary split, from the left -----

  function TokenLength(s: string): (n: nat)
    ensures n <= |s| && Plain(s[..n]) && (n < |s| ==> IsSeparator(s[n]))
  {
    if s == "" || IsSeparator(s[0]) then 0 else 1 + TokenLength(s[1..])
  }

  /** The longest pieces without separators, in order. */
  function Tokens(s: string): (ts: seq<string>)
    ensures forall i :: 0 <= i < |ts| ==> ts[i] != "" && Plain(ts[i])
    decreases |s|
  {
    if s == "" then []
    else if IsSeparator(s[0]) then Tokens(s[1..])
    else
      var n := TokenLength(s);
      [s[..n]] + Tokens(s[n..])
  }

  function Cut(s: string): string {
    if |s| > NAME_MAX then s[..NAME_MAX] else s
  }

  /** The tokens last first, each cut to the longest name. */
  function Backwards(ts: seq<string>): (r: seq<string>)
    ensures |r| == |ts| && forall i :: 0 <= i < |ts| ==> r[i] == Cut(ts[|ts| - 1 - i])
  {
    seq(|ts|, i requires 0 <= i < |ts| => Cut(ts[|ts| - 1 - i]))
  }

  predicate EndsInSeparator(s: string) { s != "" && IsSeparator(s[|s| - 1]) }

  /** What the list reads as from its end: one empty item first when it ends in a separator. */
  function Items(s: string): seq<string> {
    (if EndsInSeparator(s) then [""] else []) + Backwards(Tokens(s))
  }

  // ----- the walk from the right -----

  /** The stretch from `beg` to `end` is separators, then an item from `tok` on with a separator or nothing in front;
      before `beg` there is no separator. */
  predicate ItemAt(opt: string, beg: nat, tok: nat, end: nat) {
    && beg < end <= |opt| && beg <= tok <= end
    && !EndsInSeparator(opt[..beg]) && Blank(opt[beg..tok]) && Plain(opt[tok..end])
    && (tok > 0 ==> IsSeparator(opt[tok - 1]))
  }

  class SectionReader {
    /** The name found last, as the static buffer holds it. */
    var item: string

    constructor () { item := ""; }

    /** Moves from `end` to the front of the item before it and of the separators before that. */
    method PrevItem(opt: string, end: nat) returns (r: Option<nat>, ghost tok: nat)
      requires end <= |opt|
      modifies this
      ensures r.None? <==> end == 0
      ensures r.None? ==> item == old(item)
      ensures r.Some? ==> ItemAt(opt, r.value, tok, end) && item == Cut(opt[tok..end]) && |item| <= NAME_MAX
    {
      tok := end;
      if end == 0 { return None, end; }
      var beg := end;
      while beg > 0
        invariant 0 <= beg <= end && Plain(opt[beg..end])
      {
        beg := beg - 1;
        if opt[beg] == ',' || IsSpace(opt[beg]) {
          beg := beg + 1;
          break;
        }
        assert opt[beg..end] == [opt[beg]] + opt[beg + 1..end];
      }
      tok := beg;
      assert tok > 0 ==> IsSeparator(opt[tok - 1]);
      var len := end - beg;
      if len > NAME_MAX { len := NAME_MAX; }
      item := opt[beg..beg + len];
      assert item == Cut(opt[tok..end]) by { assert opt[tok..end][..len] == opt[beg..beg + len]; }
      while beg > 0
        invariant 0 <= beg <= tok && Blank(opt[beg..tok])
        invariant beg == tok && tok > 0 ==> IsSeparator(opt[tok - 1])
        invariant beg < tok || tok < end || tok == end
      {
        beg := beg - 1;
        if opt[beg] != ',' && !IsSpace(opt[beg]) {
          beg := beg + 1;
          break;
        }
        assert opt[beg..tok] == [opt[beg]] + opt[beg + 1..tok];
      }
      return Some(beg), tok;
    }

    /** All items from the end of the list on. */
    method AllItems(opt: string) returns (items: seq<string>)
      modifies this
      ensures items == Items(opt)
    {
      items := [];
      var end: Option<nat> := Some(|opt|);
      assert opt[..|opt|] == opt;
      while end.Some?
        invariant end.Some? ==> end.value <= |opt| && items + Items(opt[..end.value]) == Items(opt)
        invariant end.None? ==> items == Items(opt)
        decreases if end.Some? then end.value + 1 else 0
      {
        var e := end.value;
        ghost var tok;
        end, tok := PrevItem(opt, e);
        if end.Some? {
          OneItem(opt, end.value, tok, e);
          items := items + [item];
        }
      }
    }

    /** The lookup of one name: the sections are asked from the last to the first. */
    method ConfGetString(conf: Conf, groups: string, name: string) returns (r: Option<string>)
      modifies this
      ensures r == Layered(conf, Items(groups), name)
    {
      var end: Option<nat> := Some(|groups|);
      assert groups[..|groups|] == groups;
      while end.Some?
        invariant end.Some? ==> end.value <= |groups|
        invariant end.Some? ==> Layered(conf, Items(groups[..end.value]), name) == Layered(conf, Items(groups), name)
        invariant end.None? ==> Layered(conf, Items(groups), name) == None
        decreases if end.Some? then end.value + 1 else 0
      {
        var e := end.value;
        ghost var tok;
        end, tok := PrevItem(groups, e);
        if end.Some? {
          OneItem(groups, end.value, tok, e);
          assert Items(groups[..e])[1..] == Items(groups[..end.value]);
          r := GetString(conf, item, name);
          if r.Some? { return; }
        }
      }
      return None;
    }
  }

  // ----- the walk equals the split -----

  lemma {:induction false} TokensOfBlank(a: string, b: string)
    requires Blank(b)
    ensures Tokens(a + b) == Tokens(a)
    decreases |a| + |b|
  {
    var s := a + b;
    if a == "" {
      assert s == b;
      if b != "" {
        TokensOfBlank("", b[1..]);
        assert "" + b[1..] == b[1..];
      }
    } else if IsSeparator(a[0]) {
      assert s[1..] == a[1..] + b;
      TokensOfBlank(a[1..], b);
    } else {
      var n := TokenLength(a);
      TokenLengthOf(s, n);
      assert s[..n] == a[..n] && s[n..] == a[n..] + b;
      TokensOfBlank(a[n..], b);
    }
  }

  lemma {:induction false} TokenLengthOf(s: string, n: nat)
    requires n <= |s| && Plain(s[..n]) && (n < |s| ==> IsSeparator(s[n]))
    ensures TokenLength(s) == n
  {
    if n > 0 {
      assert s[0] == s[..n][0] && s[1..][..n - 1] == s[..n][1..];
      TokenLengthOf(s[1..], n - 1);
    }
  }

  lemma {:induction false} TokensOfLast(a: string, tok: string)
    requires tok != "" && Plain(tok) && (a != "" ==> EndsInSeparator(a))
    ensures Tokens(a + tok) == Tokens(a) + [tok]
    decreases |a|
  {
    var s := a + tok;
    if a == "" {
      assert s == tok;
      TokenLengthOf(tok, |tok|);
      assert tok[..|tok|] == tok && tok[|tok|..] == "";
    } else if IsSeparator(a[0]) {
      assert s[1..] == a[1..] + tok;
      TokensOfLast(a[1..], tok);
    } else {
      var n := TokenLength(a);
      assert n < |a|;
      TokenLengthOf(s, n);
      assert s[..n] == a[..n] && s[n..] == a[n..] + tok;
      TokensOfLast(a[n..], tok);
    }
  }

  lemma BackwardsAppend(ts: seq<string>, t: string)
    ensures Backwards(ts + [t]) == [Cut(t)] + Backwards(ts)
  {
  }

  lemma LastOf(a: string, b: string)
    requires b != ""
    ensures EndsInSeparator(a + b) <==> IsSeparator(b[|b| - 1])
  {
  }

  /** One step of the walk takes exactly the first of the items still to come. */
  lemma OneItem(opt: string, beg: nat, tok: nat, end: nat)
    requires ItemAt(opt, beg, tok, end)
    ensures Items(opt[..end]) == [Cut(opt[tok..end])] + Items(opt[..beg])
  {
    var a, b, t := opt[..beg], opt[beg..tok], opt[tok..end];
    hide Tokens, Backwards, Cut;
    assert opt[..tok] == a + b && opt[..end] == a + b + t;
    TokensOfBlank(a, b);
    if t == "" {
      assert opt[..end] == a + b;
      LastOf(a, b);
    } else {
      assert a + b != "" ==> EndsInSeparator(a + b) by { assert a + b == opt[..tok]; }
      TokensOfLast(a + b, t);
      LastOf(a + b, t);
      BackwardsAppend(Tokens(a), t);
    }
  }

  /** The walk is the plain reverse of the split exactly when nothing is cut and the list does not end in a
      separator. */
  lemma ItemsAreReverseExactly(s: string)
    ensures var ts := Tokens(s);
            Items(s) == seq(|ts|, i requires 0 <= i < |ts| => ts[|ts| - 1 - i])
            <==> !EndsInSeparator(s) && forall i :: 0 <= i < |ts| ==> |ts[i]| <= NAME_MAX
  {
    var ts := Tokens(s);
    hide Tokens;
    UncutExactly(ts);
    if EndsInSeparator(s) { assert |Items(s)| == |ts| + 1; } else { assert Items(s) == Backwards(ts); }
  }

  lemma UncutExactly(ts: seq<string>)
    ensures Backwards(ts) == seq(|ts|, i requires 0 <= i < |ts| => ts[|ts| - 1 - i])
       <==> forall i :: 0 <= i < |ts| ==> |ts[i]| <= NAME_MAX
  {
    var back, rev := Backwards(ts), seq(|ts|, i requires 0 <= i < |ts| => ts[|ts| - 1 - i]);
    forall i | 0 <= i < |ts| ensures back[i] == rev[i] <==> |ts[|ts| - 1 - i]| <= NAME_MAX {
    }
    forall i | 0 <= i < |ts| ensures back[|ts| - 1 - i] == rev[|ts| - 1 - i] <==> |ts[i]| <= NAME_MAX {
    }
    if forall i :: 0 <= i < |ts| ==> |ts[i]| <= NAME_MAX {
      assert back == rev;
    }
  }

  // ----- layered lookup -----

  /** Sections of the configuration, and the environment, which stands behind the section ENV. */
  datatype Conf = Conf(sections: map<string, map<string, string>>, env: map<string, string>)

  const DEFAULT := "default"
  const ENV := "ENV"

  /** The entries of one section by itself. */
  function Entries(conf: Conf, section: string): map<string, string> {
    (if section == ENV then conf.env else map[]) + if section in conf.sections then conf.sections[section] else map[]
  }

  function Defaults(conf: Conf): map<string, string> {
    if DEFAULT in conf.sections then conf.sections[DEFAULT] else map[]
  }

  function At(m: map<string, string>, name: string): Option<string> {
    if name in m then Some(m[name]) else None
  }

  /** The library's lookup in one section, which falls back to the default section at once. */
  function GetString(conf: Conf, section: string, name: string): Option<string> {
    if section in conf.sections && name in conf.sections[section] then Some(conf.sections[section][name])
    else if section == ENV && name in conf.env then Some(conf.env[name])
    else At(Defaults(conf), name)
  }

  /** The first answer from a list of sections. */
  function Layered(conf: Conf, items: seq<string>, name: string): Option<string> {
    if items == [] then None
    else
      var r := GetString(conf, items[0], name);
      if r.Some? then r else Layered(conf, items[1..], name)
  }

  /** What the manual describes: the sections merged from left to right, later ones override earlier ones,
      the default section below them all. */
  function Merged(conf: Conf, sections: seq<string>): map<string, string> {
    if sections == [] then Defaults(conf)
    else Merged(conf, sections[..|sections| - 1]) + Entries(conf, sections[|sections| - 1])
  }

  function Reverse(s: seq<string>): (r: seq<string>)
    ensures |r| == |s| && forall i :: 0 <= i < |s| ==> r[i] == s[|s| - 1 - i]
  {
    seq(|s|, i requires 0 <= i < |s| => s[|s| - 1 - i])
  }

  lemma GetStringIsMerge(conf: Conf, section: string, name: string)
    ensures GetString(conf, section, name) == At(Defaults(conf) + Entries(conf, section), name)
  {
  }

  lemma {:induction false} WithoutDefault(conf: Conf, sections: seq<string>, name: string)
    requires name !in Defaults(conf)
    ensures Layered(conf, Reverse(sections), name) == At(Merged(conf, sections), name)
    decreases |sections|
  {
    if sections != [] {
      var n := |sections| - 1;
      GetStringIsMerge(conf, sections[n], name);
      WithoutDefault(conf, sections[..n], name);
      assert Reverse(sections)[1..] == Reverse(sections[..n]);
    }
  }

  lemma WithDefault(conf: Conf, sections: seq<string>, name: string)
    requires name in Defaults(conf) && sections != []
    ensures Layered(conf, Reverse(sections), name) == GetString(conf, sections[|sections| - 1], name)
  {
    GetStringIsMerge(conf, sections[|sections| - 1], name);
  }

  lemma {:induction false} DefaultsStay(conf: Conf, sections: seq<string>, name: string)
    requires name in Defaults(conf)
    ensures name in Merged(conf, sections)
  {
    if sections != [] { DefaultsStay(conf, sections[..|sections| - 1], name); }
  }

  /** The lookup gives what the manual describes exactly when the last section has the name, or the default section
      does not, or the earlier sections agree with the default: a default entry hides all sections but the last. */
  lemma LayeredIsMergedExactly(conf: Conf, sections: seq<string>, name: string)
    requires sections != []
    ensures var n := |sections| - 1;
            Layered(conf, Reverse(sections), name) == At(Merged(conf, sections), name)
            <==> || name in Entries(conf, sections[n])
                 || name !in Defaults(conf)
                 || At(Merged(conf, sections[..n]), name) == At(Defaults(conf), name)
  {
    var n := |sections| - 1;
    GetStringIsMerge(conf, sections[n], name);
    if name in Defaults(conf) {
      WithDefault(conf, sections, name);
      DefaultsStay(conf, sections[..n], name);
    } else {
      WithoutDefault(conf, sections, name);
    }
  }

  /** For every list that is not empty, also with names cut or an empty last item. */
  lemma AnyListLookupExactly(conf: Conf, groups: string, name: string)
    requires groups != ""
    ensures Items(groups) != []
    ensures var sections := Reverse(Items(groups)); var n := |sections| - 1;
            Layered(conf, Items(groups), name) == At(Merged(conf, sections), name)
            <==> || name in Entries(conf, sections[n])
                 || name !in Defaults(conf)
                 || At(Merged(conf, sections[..n]), name) == At(Defaults(conf), name)
  {
    SomeItem(groups);
    var sections := Reverse(Items(groups));
    assert Reverse(sections) == Items(groups);
    LayeredIsMergedExactly(conf, sections, name);
  }

  lemma {:induction false} SomeItem(s: string)
    requires s != ""
    ensures Items(s) != []
  {
    if !EndsInSeparator(s) { SomeToken(s); }
  }

  lemma {:induction false} SomeToken(s: string)
    requires s != "" && !EndsInSeparator(s)
    ensures Tokens(s) != []
    decreases |s|
  {
    if IsSeparator(s[0]) { SomeToken(s[1..]); }
  }

  /** From the text of the option: for a list that names a section, does not end in a separator and has no name
      over the limit, the lookup is the merge under the same condition. */
  lemma OptionLookupExactly(conf: Conf, groups: string, name: string)
    requires Tokens(groups) != [] && !EndsInSeparator(groups)
    requires forall i :: 0 <= i < |Tokens(groups)| ==> |Tokens(groups)[i]| <= NAME_MAX
    ensures var ts := Tokens(groups); var n := |ts| - 1;
            Layered(conf, Items(groups), name) == At(Merged(conf, ts), name)
            <==> || name in Entries(conf, ts[n])
                 || name !in Defaults(conf)
                 || At(Merged(conf, ts[..n]), name) == At(Defaults(conf), name)
  {
    var ts := Tokens(groups);
    ItemsAreReverseExactly(groups);
    assert Reverse(ts) == Items(groups);
    LayeredIsMergedExactly(conf, ts, name);
  }

  /** Two sections and a default: the value of the first section is lost. */
  lemma DefaultHidesEarlierSection()
    ensures var conf := Conf(map[DEFAULT := map["server" := "d"], "a" := map["server" := "x"], "b" := map[]], map[]);
            && Layered(conf, Reverse(["a", "b"]), "server") == Some("d")
            && At(Merged(conf, ["a", "b"]), "server") == Some("x")
  {
    var conf := Conf(map[DEFAULT := map["server" := "d"], "a" := map["server" := "x"], "b" := map[]], map[]);
    WithDefault(conf, ["a", "b"], "server");
    assert ["a", "b"][..1] == ["a"] && ["a"][..0] == [];
    assert Merged(conf, ["a"]) == Merged(conf, []) + Entries(conf, "a");
  }
}
