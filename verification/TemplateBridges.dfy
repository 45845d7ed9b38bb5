/** When replacing placeholders one after the other gives the same text as replacing them in one pass. */
module TemplateBridges {
  import opened Templates
  import opened Wrappers

  // ----- bridges -----

  /** Literals that spell a placeholder once the holes between them are filled: the holes in `empty` stand between two
      braces of a pair and must vanish, those in `holes` stand inside, and `word` is what the literals inside spell. */
  datatype Bridge = Bridge(empty: set<string>, holes: set<string>, word: string)

  /** Behind one closing brace: the words of holes in front of the second. */
  function Closing(ts: Tokens): Option<set<string>> {
    if ts == [] then None
    else if ts[0].Hole? then
      var r := Closing(ts[1..]);
      if r.None? then None else Some(r.value + {ts[0].word})
    else if ts[0].c == '}' then Some({})
    else None
  }

  /** Behind two opening braces. */
  function Inside(ts: Tokens): Option<Bridge> {
    if ts == [] then None
    else if ts[0].Hole? then
      var r := Inside(ts[1..]);
      if r.None? then None else Some(r.value.(holes := r.value.holes + {ts[0].word}))
    else if ts[0].c == '}' then
      var r := Closing(ts[1..]);
      if r.None? then None else Some(Bridge(r.value, {}, ""))
    else if IsWordChar(ts[0].c) then
      var r := Inside(ts[1..]);
      if r.None? then None else Some(r.value.(word := [ts[0].c] + r.value.word))
    else None
  }

  /** Behind one opening brace. */
  function Opened(ts: Tokens): Option<Bridge> {
    if ts == [] then None
    else if ts[0].Hole? then
      var r := Opened(ts[1..]);
      if r.None? then None else Some(r.value.(empty := r.value.empty + {ts[0].word}))
    else if ts[0].c == '{' then Inside(ts[1..])
    else None
  }

  function BridgeAt(ts: Tokens): Option<Bridge> {
    if ts != [] && ts[0] == Lit('{') then Opened(ts[1..]) else None
  }

  /** Some values spell a placeholder here: a hole inside need not vanish, or literals inside spell a word.
      `blank` says whether empty values are allowed; without them no hole can vanish. */
  predicate Spells(b: Bridge, blank: bool) {
    (blank || b.empty == {}) && (!(b.holes <= b.empty) || b.word != "")
  }

  /** The placeholder spelled can be one that is not replaced before. */
  predicate Breaks(b: Bridge, blank: bool) {
    (blank || b.empty == {}) && (!(b.holes <= b.empty) || (b.word != "" && b.word !in b.empty))
  }

  /** Somewhere in the template values can spell a placeholder. */
  predicate Spelling(ts: Tokens, blank: bool) {
    ts != [] && ((BridgeAt(ts).Some? && Spells(BridgeAt(ts).value, blank)) || Spelling(ts[1..], blank))
  }

  /** Somewhere in the template values can spell a placeholder that is replaced afterwards. */
  predicate Fragile(ts: Tokens, blank: bool) {
    ts != [] && ((BridgeAt(ts).Some? && Breaks(BridgeAt(ts).value, blank)) || Fragile(ts[1..], blank))
  }

  // ----- which values make a bridge spell -----

  predicate BraceFree(v: string, blank: bool) { (blank || v != "") && '{' !in v && '}' !in v }

  ghost predicate BraceFreeAll(m: Values, blank: bool) { forall w :: w in m ==> BraceFree(m[w], blank) }

  predicate WordChars(v: string) { forall i :: 0 <= i < |v| ==> IsWordChar(v[i]) }

  predicate Vanish(ws: set<string>, m: Values) { forall w :: w in ws ==> w in m && m[w] == "" }

  predicate AllWordChars(ws: set<string>, m: Values) { forall w :: w in ws ==> w in m && WordChars(m[w]) }

  predicate Fits(b: Bridge, m: Values) { Vanish(b.empty, m) && AllWordChars(b.holes, m) }

  /** The word spelled is that of the literals when the holes vanish, and no shorter than any value inside. */
  predicate SpellsWord(b: Bridge, m: Values, w: string)
    requires Fits(b, m)
  {
    && (Vanish(b.holes, m) ==> w == b.word)
    && (b.word != "" ==> w != "")
    && (forall h :: h in b.holes ==> |m[h]| <= |w|)
  }

  /** What stands at the front after filling. */
  lemma FillStep(ts: Tokens, m: Values)
    requires ts != []
    ensures Fill(ts, m) == (if ts[0].Hole? && ts[0].word in m then Lits(m[ts[0].word]) else [ts[0]]) + Fill(ts[1..], m)
    ensures !(ts[0].Hole? && ts[0].word in m) ==> Fill(ts, m)[1..] == Fill(ts[1..], m) && Fill(ts, m)[0] == ts[0]
    ensures ts[0].Hole? && ts[0].word in m && m[ts[0].word] == "" ==> Fill(ts, m) == Fill(ts[1..], m)
  {
  }

  /** A value holds no brace at its front. */
  lemma LitsFront(v: string, ts: Tokens, blank: bool)
    requires BraceFree(v, blank) && v != ""
    ensures (Lits(v) + ts)[0] != Lit('{') && (Lits(v) + ts)[0] != Lit('}')
  {
    assert v[0] in v;
  }

  lemma {:induction false} ClosingFills(ts: Tokens, m: Values, blank: bool)
    requires BraceFreeAll(m, blank)
    ensures Fill(ts, m) != [] && Fill(ts, m)[0] == Lit('}') <==> Closing(ts).Some? && Vanish(Closing(ts).value, m)
  {
    if ts != [] {
      FillStep(ts, m);
      ClosingFills(ts[1..], m, blank);
      if ts[0].Hole? && ts[0].word in m && m[ts[0].word] != "" {
        LitsFront(m[ts[0].word], Fill(ts[1..], m), blank);
      }
    }
  }

  lemma WordCharsFront(v: string)
    requires v != ""
    ensures WordChars(v) <==> IsWordChar(v[0]) && WordChars(v[1..])
  {
    assert forall i :: 1 <= i < |v| ==> v[i] == v[1..][i - 1];
  }

  /** Literals of a value in front spell themselves. */
  lemma {:induction false} SpelledLits(v: string, ts: Tokens)
    requires BraceFree(v, true)
    ensures Spelled(Lits(v) + ts)
         == if WordChars(v) && Spelled(ts).Some? then Some(v + Spelled(ts).value) else None
    decreases |v|
  {
    var f := Lits(v) + ts;
    if v == "" {
      assert f == ts;
      assert Spelled(ts).Some? ==> v + Spelled(ts).value == Spelled(ts).value;
    } else {
      assert f[1..] == Lits(v[1..]) + ts && f[0] == Lit(v[0]) && v[0] in v;
      assert forall c :: c in v[1..] ==> c in v;
      SpelledLits(v[1..], ts);
      WordCharsFront(v);
      hide WordChars, IsWordChar;
      if Spelled(ts).Some? { assert v + Spelled(ts).value == [v[0]] + (v[1..] + Spelled(ts).value); }
    }
  }

  /** Inside, filling spells exactly when the values fit. */
  lemma {:induction false} InsideSpells(ts: Tokens, m: Values, blank: bool)
    requires BraceFreeAll(m, blank)
    ensures Spelled(Fill(ts, m)).Some? <==> Inside(ts).Some? && Fits(Inside(ts).value, m)
    ensures Spelled(Fill(ts, m)).Some? ==> SpellsWord(Inside(ts).value, m, Spelled(Fill(ts, m)).value)
  {
    if ts != [] {
      FillStep(ts, m);
      InsideSpells(ts[1..], m, blank);
      ClosingFills(ts[1..], m, blank);
      if ts[0].Hole? && ts[0].word in m {
        SpelledLits(m[ts[0].word], Fill(ts[1..], m));
      }
    }
  }

  /** Behind one brace. */
  lemma {:induction false} OpenedSpells(ts: Tokens, m: Values, blank: bool)
    requires BraceFreeAll(m, blank)
    ensures var f := Fill(ts, m);
            && (f != [] && f[0] == Lit('{') && Spelled(f[1..]).Some? <==> Opened(ts).Some? && Fits(Opened(ts).value, m))
            && (f != [] && f[0] == Lit('{') && Spelled(f[1..]).Some? ==>
                  SpellsWord(Opened(ts).value, m, Spelled(f[1..]).value))
  {
    if ts != [] {
      FillStep(ts, m);
      OpenedSpells(ts[1..], m, blank);
      InsideSpells(ts[1..], m, blank);
      if ts[0].Hole? && ts[0].word in m && m[ts[0].word] != "" {
        LitsFront(m[ts[0].word], Fill(ts[1..], m), blank);
      }
    }
  }

  /** At a literal, filled tokens show a placeholder exactly where a bridge is that the values fit. */
  lemma BridgeSees(ts: Tokens, m: Values, blank: bool)
    requires BraceFreeAll(m, blank) && ts != [] && ts[0].Lit?
    ensures Sees(Fill(ts, m)).Some? ==> BridgeAt(ts).Some? && Fits(BridgeAt(ts).value, m)
                                        && SpellsWord(BridgeAt(ts).value, m, Sees(Fill(ts, m)).value)
    ensures BridgeAt(ts).Some? && Fits(BridgeAt(ts).value, m) && Sees(Fill(ts, m)).None?
            ==> SpellsWord(BridgeAt(ts).value, m, "")
  {
    FillStep(ts, m);
    OpenedSpells(ts[1..], m, blank);
    var f := Fill(ts, m);
    assert |f| >= 2 ==> f[1..][1..] == f[2..];
  }

  lemma FitsSpells(b: Bridge, m: Values, w: string, blank: bool)
    requires BraceFreeAll(m, blank) && Fits(b, m) && w != "" && SpellsWord(b, m, w)
    ensures Spells(b, blank) && (w !in m ==> Breaks(b, blank))
  {
    if b.holes <= b.empty { assert Vanish(b.holes, m); }
  }

  lemma {:induction false} LitsSeeNothing(v: string, ts: Tokens, w: string)
    requires '{' !in v && SeenIn(Lits(v) + ts, w)
    ensures SeenIn(ts, w)
    decreases |v|
  {
    var f := Lits(v) + ts;
    if v == "" {
      assert f == ts;
    } else {
      assert f[1..] == Lits(v[1..]) + ts && f[0] == Lit(v[0]) && v[0] in v;
      LitsSeeNothing(v[1..], ts, w);
    }
  }

  /** Whatever is spelled after filling is spelled across a bridge. */
  lemma {:induction false} SeenHasBridge(ts: Tokens, m: Values, w: string, blank: bool)
    requires BraceFreeAll(m, blank) && SeenIn(Fill(ts, m), w)
    ensures Spelling(ts, blank) && (w !in m ==> Fragile(ts, blank))
  {
    if ts != [] {
      FillStep(ts, m);
      var rest := Fill(ts[1..], m);
      if ts[0].Hole? && ts[0].word in m {
        LitsSeeNothing(m[ts[0].word], rest, w);
        SeenHasBridge(ts[1..], m, w, blank);
      } else if Sees(Fill(ts, m)) == Some(w) {
        BridgeSees(ts, m, blank);
        FitsSpells(BridgeAt(ts).value, m, w, blank);
      } else {
        SeenHasBridge(ts[1..], m, w, blank);
      }
    }
  }

  // ----- values in the order of the loop -----

  /** Placeholders of distinct words, each with a value that holds no brace, and is not empty unless that is allowed. */
  ghost predicate Admissible(pairs: seq<(string, string)>, blank: bool) {
    Distinct(pairs) && forall i :: 0 <= i < |pairs| ==> BraceFree(pairs[i].1, blank)
  }

  ghost predicate Distinct(pairs: seq<(string, string)>) {
    (forall i :: 0 <= i < |pairs| ==> IsWord(pairs[i].0)) && DistinctKeys(pairs)
  }

  predicate DistinctKeys(pairs: seq<(string, string)>) {
    forall i, j :: 0 <= i < j < |pairs| ==> pairs[i].0 != pairs[j].0
  }

  /** The field values keyed by placeholder text. */
  function Texts(pairs: seq<(string, string)>): (r: Pairs)
    ensures |r| == |pairs| && forall i :: 0 <= i < |pairs| ==> r[i] == (Placeholder(pairs[i].0), pairs[i].1)
  {
    seq(|pairs|, i requires 0 <= i < |pairs| => (Placeholder(pairs[i].0), pairs[i].1))
  }

  function ToValues(pairs: seq<(string, string)>): Values {
    if pairs == [] then map[] else ToValues(pairs[..|pairs| - 1])[pairs[|pairs| - 1].0 := pairs[|pairs| - 1].1]
  }

  lemma {:induction false} ToValuesKeys(pairs: seq<(string, string)>, w: string)
    ensures w in ToValues(pairs) <==> exists i :: 0 <= i < |pairs| && pairs[i].0 == w
  {
    if pairs != [] {
      var n := |pairs| - 1;
      ToValuesKeys(pairs[..n], w);
      if i :| 0 <= i < |pairs| && pairs[i].0 == w {
        if i < n { assert pairs[..n][i].0 == w; }
      }
    }
  }

  lemma {:induction false} FillNothing(ts: Tokens)
    ensures Fill(ts, map[]) == ts
  {
    if ts != [] { FillNothing(ts[1..]); }
  }

  lemma {:induction false} FillAppend(a: Tokens, b: Tokens, m: Values)
    ensures Fill(a + b, m) == Fill(a, m) + Fill(b, m)
  {
    if a == [] {
      assert a + b == b;
    } else {
      assert (a + b)[1..] == a[1..] + b;
      FillAppend(a[1..], b, m);
    }
  }

  lemma {:induction false} FillLits(v: string, m: Values)
    ensures Fill(Lits(v), m) == Lits(v)
  {
    if v != "" {
      assert Lits(v)[1..] == Lits(v[1..]);
      FillLits(v[1..], m);
    }
  }

  /** Filling one more word after others is filling all at once. */
  lemma {:induction false} FillOneMore(ts: Tokens, m: Values, w: string, v: string)
    requires w !in m
    ensures Fill(Fill(ts, m), map[w := v]) == Fill(ts, m[w := v])
  {
    if ts != [] {
      FillOneMore(ts[1..], m, w, v);
      var head := if ts[0].Hole? && ts[0].word in m then Lits(m[ts[0].word]) else [ts[0]];
      FillAppend(head, Fill(ts[1..], m), map[w := v]);
      if ts[0].Hole? && ts[0].word in m {
        FillLits(m[ts[0].word], map[w := v]);
      } else {
        assert head[1..] == [];
      }
    }
  }

  lemma OneMorePair(s: string, first: seq<(string, string)>, w: string, v: string)
    ensures Sequential(s, Texts(first + [(w, v)])) == StrReplace(Sequential(s, Texts(first)), Placeholder(w), v)
    ensures ToValues(first + [(w, v)]) == ToValues(first)[w := v]
  {
    var all := first + [(w, v)];
    assert all[..|first|] == first && Texts(all)[..|first|] == Texts(first);
  }

  lemma {:induction false} FillStaysWordy(ts: Tokens, m: Values)
    requires Wordy(ts)
    ensures Wordy(Fill(ts, m))
  {
    if ts != [] { FillStaysWordy(ts[1..], m); }
  }

  lemma {:induction false} SeenBehind(a: Tokens, b: Tokens, w: string)
    requires SeenIn(b, w)
    ensures SeenIn(a + b, w)
  {
    if a == [] {
      assert a + b == b;
    } else {
      assert (a + b)[1..] == a[1..] + b;
      SeenBehind(a[1..], b, w);
    }
  }

  lemma {:induction false} ValuesAreBraceFree(pairs: seq<(string, string)>, blank: bool)
    requires Admissible(pairs, blank)
    ensures BraceFreeAll(ToValues(pairs), blank)
  {
    if pairs != [] { ValuesAreBraceFree(pairs[..|pairs| - 1], blank); }
  }

  /** At no step is the placeholder about to be replaced spelled by literals. */
  ghost predicate Smooth(ts: Tokens, pairs: seq<(string, string)>) {
    forall j :: 0 <= j < |pairs| ==> !SeenIn(Fill(ts, ToValues(pairs[..j])), pairs[j].0)
  }

  lemma SmoothBefore(ts: Tokens, pairs: seq<(string, string)>)
    requires pairs != [] && Smooth(ts, pairs)
    ensures Smooth(ts, pairs[..|pairs| - 1]) && !SeenIn(Fill(ts, ToValues(pairs[..|pairs| - 1])), pairs[|pairs| - 1].0)
  {
    hide SeenIn, Fill, ToValues;
    var n := |pairs| - 1;
    forall j | 0 <= j < n ensures !SeenIn(Fill(ts, ToValues(pairs[..n][..j])), pairs[..n][j].0) {
      assert pairs[..n][..j] == pairs[..j];
    }
  }

  /** Then the loop fills all holes, and nothing else. */
  lemma {:induction false} FillsInOrder(ts: Tokens, pairs: seq<(string, string)>)
    requires Wordy(ts) && Distinct(pairs) && Smooth(ts, pairs)
    ensures Sequential(Render(ts), Texts(pairs)) == Render(Fill(ts, ToValues(pairs)))
    decreases |pairs|
  {
    if pairs == [] {
      FillNothing(ts);
    } else {
      var n := |pairs| - 1;
      var (w, v) := pairs[n];
      SmoothBefore(ts, pairs);
      FillsInOrder(ts, pairs[..n]);
      assert Texts(pairs)[..n] == Texts(pairs[..n]);
      var m := ToValues(pairs[..n]);
      ToValuesKeys(pairs[..n], w);
      hide Smooth, Fill, Render, StrReplace, SeenIn, Placeholder, Wordy;
      FillStaysWordy(ts, m);
      ReplaceFills(Fill(ts, m), w, v);
      FillOneMore(ts, m, w, v);
    }
  }

  lemma SturdyIsSmooth(ts: Tokens, pairs: seq<(string, string)>, blank: bool)
    requires !Fragile(ts, blank) && Admissible(pairs, blank)
    ensures Smooth(ts, pairs)
  {
    forall j | 0 <= j < |pairs| ensures !SeenIn(Fill(ts, ToValues(pairs[..j])), pairs[j].0) {
      var m := ToValues(pairs[..j]);
      ValuesAreBraceFree(pairs[..j], blank);
      ToValuesKeys(pairs[..j], pairs[j].0);
      if SeenIn(Fill(ts, m), pairs[j].0) { SeenHasBridge(ts, m, pairs[j].0, blank); }
    }
  }

  /** For templates that are not fragile the loop gives the same text as the one-pass replacement, in any order of
      the values. */
  lemma SequentialIsOnePass(s: string, pairs: seq<(string, string)>, blank: bool)
    requires !Fragile(Parse(s), blank) && Admissible(pairs, blank)
    ensures Sequential(s, Texts(pairs)) == OnePass(s, ToValues(pairs))
  {
    RenderParse(s);
    SturdyIsSmooth(Parse(s), pairs, blank);
    FillsInOrder(Parse(s), pairs);
    OnePassFills(s, ToValues(pairs));
  }

  // ----- a bridge always shows -----

  /** A word longer than each of the given ones. */
  lemma {:induction false} LongerWord(ws: seq<string>) returns (v: string)
    ensures IsWord(v) && forall i :: 0 <= i < |ws| ==> |ws[i]| < |v|
  {
    if ws == [] {
      v := "x";
    } else {
      v := LongerWord(ws[..|ws| - 1]);
      var last := ws[|ws| - 1];
      v := v + seq(|last|, i => 'x');
    }
  }

  /** Values for the holes of a bridge: nothing for those that must vanish, one word for the others. */
  function Chosen(ws: seq<string>, b: Bridge, v: string): seq<(string, string)> {
    if ws == [] then []
    else
      var w := ws[|ws| - 1];
      Chosen(ws[..|ws| - 1], b, v)
      + if w in b.empty then [(w, "")] else if w in b.holes then [(w, v)] else []
  }

  function ChosenValue(w: string, b: Bridge, v: string): string { if w in b.empty then "" else v }

  lemma {:induction false} ChosenPairs(ws: seq<string>, b: Bridge, v: string)
    ensures forall p :: p in Chosen(ws, b, v)
                   <==> p.0 in ws && p.0 in b.empty + b.holes && p.1 == ChosenValue(p.0, b, v)
    decreases |ws|
  {
    if ws != [] {
      ChosenPairs(ws[..|ws| - 1], b, v);
      assert ws == ws[..|ws| - 1] + [ws[|ws| - 1]];
    }
  }

  lemma {:induction false} ChosenDistinct(ws: seq<string>, b: Bridge, v: string)
    requires forall i, j :: 0 <= i < j < |ws| ==> ws[i] != ws[j]
    ensures DistinctKeys(Chosen(ws, b, v))
    decreases |ws|
  {
    if ws != [] {
      var n := |ws| - 1;
      var before := Chosen(ws[..n], b, v);
      ChosenDistinct(ws[..n], b, v);
      ChosenPairs(ws[..n], b, v);
      forall i | 0 <= i < |before| ensures before[i].0 != ws[n] {
        assert before[i] in before && before[i].0 in ws[..n];
      }
    }
  }

  /** The values given by pairs of distinct words. */
  lemma {:induction false} ToValuesPairs(pairs: seq<(string, string)>)
    requires DistinctKeys(pairs)
    ensures forall i :: 0 <= i < |pairs| ==> pairs[i].0 in ToValues(pairs) && ToValues(pairs)[pairs[i].0] == pairs[i].1
    ensures forall w :: w in ToValues(pairs) ==> (w, ToValues(pairs)[w]) in pairs
  {
    if pairs != [] {
      var n := |pairs| - 1;
      ToValuesPairs(pairs[..n]);
      assert pairs == pairs[..n] + [pairs[n]];
      forall i | 0 <= i < n ensures pairs[..n][i] == pairs[i] {
      }
    }
  }

  lemma ChosenValues(ws: seq<string>, b: Bridge, v: string, blank: bool)
    requires IsWord(v) && (blank || b.empty == {})
    requires forall i :: 0 <= i < |ws| ==> IsWord(ws[i])
    requires forall i, j :: 0 <= i < j < |ws| ==> ws[i] != ws[j]
    ensures Admissible(Chosen(ws, b, v), blank)
    ensures forall w :: w in ToValues(Chosen(ws, b, v)) <==> w in ws && w in b.empty + b.holes
    ensures forall w :: w in ToValues(Chosen(ws, b, v)) ==> ToValues(Chosen(ws, b, v))[w] == ChosenValue(w, b, v)
  {
    var c := Chosen(ws, b, v);
    ChosenPairs(ws, b, v);
    ChosenDistinct(ws, b, v);
    ToValuesPairs(c);
    WordIsBraceFree(v);
    hide Chosen, ToValues, BraceFree, IsWord, DistinctKeys;
    forall i | 0 <= i < |c| ensures IsWord(c[i].0) && BraceFree(c[i].1, blank) {
      assert c[i] in c;
      EmptyIsBraceFree();
      LessBlank(v, blank);
    }
    forall w | w in ws && w in b.empty + b.holes ensures w in ToValues(c) {
      assert (w, ChosenValue(w, b, v)) in c;
    }
  }

  lemma EmptyIsBraceFree()
    ensures BraceFree("", true)
  {
  }

  lemma LessBlank(v: string, blank: bool)
    requires BraceFree(v, false)
    ensures BraceFree(v, blank)
  {
  }

  lemma {:induction false} BridgeWords(ts: Tokens)
    ensures Closing(ts).Some? ==> forall w :: w in Closing(ts).value ==> Hole(w) in ts
    ensures Inside(ts).Some? ==> forall w :: w in Inside(ts).value.empty + Inside(ts).value.holes ==> Hole(w) in ts
    ensures Opened(ts).Some? ==> forall w :: w in Opened(ts).value.empty + Opened(ts).value.holes ==> Hole(w) in ts
  {
    if ts != [] {
      BridgeWords(ts[1..]);
      assert ts == [ts[0]] + ts[1..];
    }
  }

  /** Where the first bridge of a kind stands. */
  lemma {:induction false} FindSpelling(ts: Tokens, blank: bool) returns (k: nat)
    requires Spelling(ts, blank)
    ensures k < |ts| && BridgeAt(ts[k..]).Some? && Spells(BridgeAt(ts[k..]).value, blank)
  {
    if BridgeAt(ts).Some? && Spells(BridgeAt(ts).value, blank) {
      k := 0;
      assert ts[0..] == ts;
    } else {
      k := FindSpelling(ts[1..], blank);
      assert ts[1..][k..] == ts[k + 1..];
      k := k + 1;
    }
  }

  lemma {:induction false} FindBreak(ts: Tokens, blank: bool) returns (k: nat)
    requires Fragile(ts, blank)
    ensures k < |ts| && BridgeAt(ts[k..]).Some? && Breaks(BridgeAt(ts[k..]).value, blank)
  {
    if BridgeAt(ts).Some? && Breaks(BridgeAt(ts).value, blank) {
      k := 0;
      assert ts[0..] == ts;
    } else {
      k := FindBreak(ts[1..], blank);
      assert ts[1..][k..] == ts[k + 1..];
      k := k + 1;
    }
  }

  /** Values for a bridge, and the placeholder they spell; it is a new one when the bridge breaks. */
  lemma SpellOut(ts: Tokens, k: nat, blank: bool) returns (pairs: seq<(string, string)>, w: string)
    requires Wordy(ts) && k < |ts| && BridgeAt(ts[k..]).Some? && Spells(BridgeAt(ts[k..]).value, blank)
    ensures Admissible(pairs, blank) && IsWord(w) && SeenIn(Fill(ts, ToValues(pairs)), w)
    ensures Breaks(BridgeAt(ts[k..]).value, blank) ==> w !in ToValues(pairs)
  {
    var b, ws := BridgeAt(ts[k..]).value, Words(ts);
    var v := LongerWord(ws);
    WordsAreDistinct(ts);
    pairs := Chosen(ws, b, v);
    ChosenValues(ws, b, v, blank);
    var m := ToValues(pairs);
    hide Chosen, ToValues, Admissible, SeenIn, Fill, Wordy, IsWord, Words, BridgeAt, Sees;
    forall x | x in b.empty + b.holes ensures x in m { BridgeIsInTemplate(ts, k, x); }
    w := ChosenSpells(ts[k..], m, v, blank);
    SeenFurther(ts, k, m, w);
    assert w in ws ==> |w| < |v|;
  }

  lemma BridgeIsInTemplate(ts: Tokens, k: nat, x: string)
    requires k < |ts| && BridgeAt(ts[k..]).Some?
    requires x in BridgeAt(ts[k..]).value.empty + BridgeAt(ts[k..]).value.holes
    ensures x in Words(ts)
  {
    BridgeWords(ts[k..][1..]);
    assert Hole(x) in ts[k..][1..];
    assert Hole(x) in ts;
    WordsAreHoles(ts, x);
  }

  lemma SeenFurther(ts: Tokens, k: nat, m: Values, w: string)
    requires k <= |ts| && SeenIn(Fill(ts[k..], m), w)
    ensures SeenIn(Fill(ts, m), w)
  {
    assert ts == ts[..k] + ts[k..];
    FillAppend(ts[..k], ts[k..], m);
    SeenBehind(Fill(ts[..k], m), Fill(ts[k..], m), w);
  }

  lemma ChosenSpells(ts: Tokens, m: Values, v: string, blank: bool) returns (w: string)
    requires ts != [] && BridgeAt(ts).Some? && Spells(BridgeAt(ts).value, blank) && IsWord(v)
    requires var b := BridgeAt(ts).value;
             && (forall x :: x in b.empty + b.holes ==> x in m)
             && (forall x :: x in m ==> m[x] == ChosenValue(x, b, v))
    ensures IsWord(w) && SeenIn(Fill(ts, m), w)
    ensures |w| >= |v| || (w == BridgeAt(ts).value.word && BridgeAt(ts).value.holes <= BridgeAt(ts).value.empty)
  {
    var b := BridgeAt(ts).value;
    assert BraceFreeAll(m, true) by { WordIsBraceFree(v); }
    assert Fits(b, m);
    BridgeSees(ts, m, true);
    if b.holes <= b.empty {
      assert Vanish(b.holes, m);
    } else {
      var h :| h in b.holes && h !in b.empty;
      assert m[h] == v;
    }
    w := Sees(Fill(ts, m)).value;
  }

  lemma WordIsBraceFree(v: string)
    requires IsWord(v)
    ensures BraceFree(v, false) && WordChars(v)
  {
  }

  /** For every fragile template there are admissible values for which the loop and the one-pass replacement differ. */
  lemma FragileBreaks(s: string, blank: bool) returns (pairs: seq<(string, string)>)
    requires Fragile(Parse(s), blank)
    ensures Admissible(pairs, blank) && Sequential(s, Texts(pairs)) != OnePass(s, ToValues(pairs))
  {
    var ts := Parse(s);
    RenderParse(s);
    var k := FindBreak(ts, blank);
    var w: string;
    pairs, w := SpellOut(ts, k, blank);
    var m := ToValues(pairs);
    if Sequential(s, Texts(pairs)) == OnePass(s, m) {
      OnePassFills(s, m);
      var f := Fill(ts, m);
      FillStaysWordy(ts, m);
      SeenBreaks(f, w, "#");
      FillOneMore(ts, m, w, "#");
      OneMorePair(s, pairs, w, "#");
      OnePassFills(s, m[w := "#"]);
      MorePairs(pairs, w, "#", blank);
      pairs := pairs + [(w, "#")];
    }
  }

  lemma MorePairs(pairs: seq<(string, string)>, w: string, v: string, blank: bool)
    requires Admissible(pairs, blank) && IsWord(w) && w !in ToValues(pairs) && BraceFree(v, blank)
    ensures Admissible(pairs + [(w, v)], blank)
    ensures Admissible([(w, v)] + pairs, blank)
  {
    forall i | 0 <= i < |pairs| ensures pairs[i].0 != w { ToValuesKeys(pairs, w); }
  }

  /** The exact condition: the loop equals the one-pass replacement for all admissible values, in every order,
      exactly when the template is not fragile. */
  lemma SequentialIsOnePassExactly(s: string, blank: bool)
    ensures (forall pairs :: Admissible(pairs, blank) ==> Sequential(s, Texts(pairs)) == OnePass(s, ToValues(pairs)))
       <==> !Fragile(Parse(s), blank)
  {
    if Fragile(Parse(s), blank) {
      var pairs := FragileBreaks(s, blank);
    } else {
      forall pairs | Admissible(pairs, blank) ensures Sequential(s, Texts(pairs)) == OnePass(s, ToValues(pairs)) {
        SequentialIsOnePass(s, pairs, blank);
      }
    }
  }

  // ----- what remains -----

  /** What is spelled stays spelled when more holes are filled. */
  lemma {:induction false} SeenStays(ts: Tokens, m: Values, w: string)
    requires SeenIn(ts, w)
    ensures SeenIn(Fill(ts, m), w)
  {
    FillStep(ts, m);
    if Sees(ts) == Some(w) {
      FillStep(ts[1..], m);
      assert ts[1..][1..] == ts[2..] && Fill(ts, m)[1..][1..] == Fill(ts, m)[2..];
      SpelledStays(ts[2..], m);
    } else {
      SeenStays(ts[1..], m, w);
      var head := if ts[0].Hole? && ts[0].word in m then Lits(m[ts[0].word]) else [ts[0]];
      SeenBehind(head, Fill(ts[1..], m), w);
    }
  }

  lemma {:induction false} SpelledStays(ts: Tokens, m: Values)
    requires Spelled(ts).Some?
    ensures Spelled(Fill(ts, m)) == Spelled(ts)
  {
    FillStep(ts, m);
    if ts[0].c == '}' {
      FillStep(ts[1..], m);
    } else {
      SpelledStays(ts[1..], m);
    }
  }

  /** A value that is no word character spells nothing. */
  lemma {:induction false} HashSpellsNothing(ts: Tokens, n: string, w: string)
    requires SeenIn(Fill(ts, map[n := "#"]), w)
    ensures SeenIn(ts, w)
  {
    var m := map[n := "#"];
    if ts != [] {
      FillStep(ts, m);
      if ts[0] == Hole(n) {
        LitsSeeNothing("#", Fill(ts[1..], m), w);
        HashSpellsNothing(ts[1..], n, w);
      } else if Sees(Fill(ts, m)) == Some(w) {
        HashInPair(ts, n);
      } else {
        HashSpellsNothing(ts[1..], n, w);
      }
    }
  }

  lemma HashInPair(ts: Tokens, n: string)
    requires ts != [] && ts[0] != Hole(n) && Sees(Fill(ts, map[n := "#"])).Some?
    ensures Sees(ts) == Sees(Fill(ts, map[n := "#"]))
  {
    var m := map[n := "#"];
    var f := Fill(ts, m);
    FillStep(ts, m);
    assert f[1] == f[1..][0] && ts[1..] != [];
    FillStep(ts[1..], m);
    assert ts[1..][1..] == ts[2..] && f[1..][1..] == f[2..];
    HashSpelled(ts[2..], n);
  }

  lemma {:induction false} HashSpelled(ts: Tokens, n: string)
    requires Spelled(Fill(ts, map[n := "#"])).Some?
    ensures Spelled(ts) == Spelled(Fill(ts, map[n := "#"]))
  {
    var m := map[n := "#"];
    if ts != [] {
      FillStep(ts, m);
      if ts[0].Lit? && ts[0].c == '}' {
        if ts[1..] != [] { FillStep(ts[1..], m); }
      } else if ts[0].Lit? {
        HashSpelled(ts[1..], n);
      }
    }
  }

  /** The words left after the loop are exactly those without a value. */
  ghost predicate LeavesTheRest(s: string, pairs: seq<(string, string)>) {
    forall w :: w in ExtractPlaceholders(Sequential(s, Texts(pairs)))
           <==> w in ExtractPlaceholders(s) && w !in ToValues(pairs)
  }

  /** After a loop in which nothing is spelled exactly the placeholders without a value are left. */
  lemma StableLeavesTheRest(s: string, pairs: seq<(string, string)>)
    requires Distinct(pairs) && Smooth(Parse(s), pairs) && Stable(Fill(Parse(s), ToValues(pairs)))
    ensures LeavesTheRest(s, pairs)
  {
    var ts, m := Parse(s), ToValues(pairs);
    RenderParse(s);
    FillsInOrder(ts, pairs);
    FillStaysWordy(ts, m);
    ParseRender(Fill(ts, m));
    forall w ensures w in Words(Fill(ts, m)) <==> w in Words(ts) && w !in m {
      WordsAreHoles(ts, w);
      WordsAreHoles(Fill(ts, m), w);
      FilledHoles(ts, m, w);
    }
  }

  /** A placeholder spelled by literals is found in the text. */
  lemma SeenIsExtracted(ts: Tokens, w: string)
    requires Wordy(ts) && IsWord(w) && SeenIn(ts, w)
    ensures w in ExtractPlaceholders(Render(ts))
  {
    var g := Parse(Render(ts));
    RenderParse(Render(ts));
    ParseIsStable(Render(ts));
    OccurrencesInTokens(ts, w);
    OccurrencesInTokens(g, w);
    StableSeesNothing(g, w);
    HoleIsThere(g, w);
    WordsAreHoles(g, w);
  }

  lemma {:induction false} HoleIsThere(ts: Tokens, w: string)
    requires HoleCount(ts, w) > 0
    ensures Hole(w) in ts
  {
    if ts[0] != Hole(w) { HoleIsThere(ts[1..], w); }
  }

  /** Nothing is spelled before the last value is filled in. */
  ghost predicate StableBefore(ts: Tokens, pairs: seq<(string, string)>) {
    forall j :: 0 <= j < |pairs| ==> Stable(Fill(ts, ToValues(pairs[..j])))
  }

  /** Of values that let something be spelled, as many as are needed for it. */
  lemma {:induction false} Shortest(ts: Tokens, pairs: seq<(string, string)>, blank: bool)
    returns (p: seq<(string, string)>)
    requires Stable(ts) && Admissible(pairs, blank) && !Stable(Fill(ts, ToValues(pairs)))
    ensures Admissible(p, blank) && !Stable(Fill(ts, ToValues(p))) && StableBefore(ts, p)
    decreases |pairs|
  {
    FillNothing(ts);
    var k := |pairs| - 1;
    if Stable(Fill(ts, ToValues(pairs[..k]))) {
      p := pairs;
      forall j | 0 <= j < |pairs| ensures Stable(Fill(ts, ToValues(pairs[..j]))) {
        EarlierIsStable(ts, pairs[..k], j);
        assert pairs[..k][..j] == pairs[..j];
      }
    } else {
      p := Shortest(ts, pairs[..k], blank);
    }
  }

  lemma {:induction false} EarlierIsStable(ts: Tokens, pairs: seq<(string, string)>, j: nat)
    requires Stable(Fill(ts, ToValues(pairs))) && DistinctKeys(pairs) && j <= |pairs|
    ensures Stable(Fill(ts, ToValues(pairs[..j])))
    decreases |pairs|
  {
    if j == |pairs| {
      assert pairs[..j] == pairs;
    } else {
      var k := |pairs| - 1;
      var m := ToValues(pairs[..k]);
      ToValuesKeys(pairs[..k], pairs[k].0);
      FillOneMore(ts, m, pairs[k].0, pairs[k].1);
      if !Stable(Fill(ts, m)) {
        var w := UnstableSees(Fill(ts, m));
        SeenStays(Fill(ts, m), map[pairs[k].0 := pairs[k].1], w);
        StableSeesNothing(Fill(ts, ToValues(pairs)), w);
      }
      assert pairs[..k][..j] == pairs[..j];
      EarlierIsStable(ts, pairs[..k], j);
    }
  }

  lemma {:induction false} ValuesBehind(w: string, v: string, pairs: seq<(string, string)>)
    requires w !in ToValues(pairs)
    ensures ToValues([(w, v)] + pairs) == ToValues(pairs)[w := v]
    decreases |pairs|
  {
    if pairs == [] {
      assert [(w, v)] + pairs == [(w, v)] && [(w, v)][..0] == [];
    } else {
      var n := |pairs| - 1;
      assert ([(w, v)] + pairs)[..n + 1] == [(w, v)] + pairs[..n];
      ValuesBehind(w, v, pairs[..n]);
    }
  }

  /** With one more value in front nothing is spelled earlier. */
  lemma HashInFront(ts: Tokens, pairs: seq<(string, string)>, w: string)
    requires Stable(ts) && w !in ToValues(pairs)
    requires StableBefore(ts, pairs)
    ensures Smooth(ts, [(w, "#")] + pairs)
  {
    var all := [(w, "#")] + pairs;
    forall j | 0 <= j < |all| ensures !SeenIn(Fill(ts, ToValues(all[..j])), all[j].0) {
      var x := all[j].0;
      if j == 0 {
        FillNothing(ts);
        StableSeesNothing(ts, x);
      } else {
        var m := ToValues(pairs[..j - 1]);
        assert all[..j] == [(w, "#")] + pairs[..j - 1];
        EarlierKeys(pairs, j - 1, w);
        ValuesBehind(w, "#", pairs[..j - 1]);
        FillOneMore(ts, m, w, "#");
        StableSeesNothing(Fill(ts, m), x);
        if SeenIn(Fill(ts, m[w := "#"]), x) { HashSpellsNothing(Fill(ts, m), w, x); }
      }
    }
  }

  lemma EarlierKeys(pairs: seq<(string, string)>, j: nat, w: string)
    requires j <= |pairs| && w !in ToValues(pairs)
    ensures w !in ToValues(pairs[..j])
  {
    ToValuesKeys(pairs, w);
    ToValuesKeys(pairs[..j], w);
  }

  /** For every template in which values can spell a placeholder there are values after which a wrong one is left. */
  lemma SpellingLeavesMore(s: string, blank: bool) returns (pairs: seq<(string, string)>)
    requires Spelling(Parse(s), blank)
    ensures Admissible(pairs, blank) && !LeavesTheRest(s, pairs)
  {
    var ts := Parse(s);
    RenderParse(s);
    ParseIsStable(s);
    var k := FindSpelling(ts, blank);
    var w: string;
    pairs, w := SpellOut(ts, k, blank);
    if Stable(Fill(ts, ToValues(pairs))) { StableSeesNothing(Fill(ts, ToValues(pairs)), w); }
    hide Fill, Stable, SeenIn, Parse, LeavesTheRest;
    pairs := Shortest(ts, pairs, blank);
    w := UnstableSees(Fill(ts, ToValues(pairs)));
    pairs := LeftOver(s, pairs, w, blank);
  }

  lemma SeenIsWord(ts: Tokens, w: string)
    requires SeenIn(ts, w)
    ensures IsWord(w)
  {
    if Sees(ts) != Some(w) { SeenIsWord(ts[1..], w); }
  }

  lemma LeftOver(s: string, p: seq<(string, string)>, w: string, blank: bool) returns (pairs: seq<(string, string)>)
    requires Admissible(p, blank) && SeenIn(Fill(Parse(s), ToValues(p)), w)
    requires StableBefore(Parse(s), p)
    ensures Admissible(pairs, blank) && !LeavesTheRest(s, pairs)
  {
    var ts, m := Parse(s), ToValues(p);
    RenderParse(s);
    ParseIsStable(s);
    SeenIsWord(Fill(ts, m), w);
    FillStaysWordy(ts, m);
    if w in m || w !in Words(ts) {
      pairs := p;
      forall j | 0 <= j < |p| ensures !SeenIn(Fill(ts, ToValues(p[..j])), p[j].0) {
        StableSeesNothing(Fill(ts, ToValues(p[..j])), p[j].0);
      }
      FillsInOrder(ts, p);
      SeenIsExtracted(Fill(ts, m), w);
    } else {
      pairs := [(w, "#")] + p;
      MorePairs(p, w, "#", blank);
      HashInFront(ts, p, w);
      FillsInOrder(ts, pairs);
      ValuesBehind(w, "#", p);
      FillOneMore(ts, m, w, "#");
      SeenStays(Fill(ts, m), map[w := "#"], w);
      FillStaysWordy(ts, m[w := "#"]);
      SeenIsExtracted(Fill(ts, m[w := "#"]), w);
    }
  }

  /** After the loop exactly the placeholders without a value are left, whatever the admissible values and their order,
      if and only if no values can spell a placeholder. */
  lemma RemainingPlaceholdersExactly(s: string, blank: bool)
    ensures (forall pairs :: Admissible(pairs, blank) ==> LeavesTheRest(s, pairs)) <==> !Spelling(Parse(s), blank)
  {
    if Spelling(Parse(s), blank) {
      var pairs := SpellingLeavesMore(s, blank);
    } else {
      forall pairs | Admissible(pairs, blank) ensures LeavesTheRest(s, pairs) {
        NothingSpelled(Parse(s), pairs, blank);
        StableLeavesTheRest(s, pairs);
      }
    }
  }

  lemma NothingSpelled(ts: Tokens, pairs: seq<(string, string)>, blank: bool)
    requires !Spelling(ts, blank) && Admissible(pairs, blank)
    ensures Smooth(ts, pairs) && Stable(Fill(ts, ToValues(pairs)))
  {
    forall j | 0 <= j <= |pairs| ensures Stable(Fill(ts, ToValues(pairs[..j]))) {
      var f := Fill(ts, ToValues(pairs[..j]));
      ValuesAreBraceFree(pairs[..j], blank);
      if !Stable(f) {
        var w := UnstableSees(f);
        SeenHasBridge(ts, ToValues(pairs[..j]), w, blank);
      }
    }
    assert pairs[..|pairs|] == pairs;
    forall j | 0 <= j < |pairs| ensures !SeenIn(Fill(ts, ToValues(pairs[..j])), pairs[j].0) {
      StableSeesNothing(Fill(ts, ToValues(pairs[..j])), pairs[j].0);
    }
  }

  // ----- templates without bridges, and values with braces -----

  lemma {:induction false} OpenedFinds(ts: Tokens) returns (j: nat)
    requires Opened(ts).Some?
    ensures j < |ts| && ts[j] == Lit('{') && forall k :: 0 <= k < j ==> ts[k].Hole?
    ensures Opened(ts).value.empty == {} ==> j == 0
  {
    if ts[0].Hole? {
      j := OpenedFinds(ts[1..]);
      assert ts[0].word in Opened(ts).value.empty;
      j := j + 1;
    } else {
      j := 0;
    }
  }

  /** No two opening braces side by side or, when values may be empty, with nothing but placeholders between them. */
  predicate NoDoubleBrace(ts: Tokens, blank: bool) {
    forall i, j :: 0 <= i < j < |ts| && ts[i] == ts[j] == Lit('{') && (blank || j == i + 1) ==>
      exists k :: i < k < j && ts[k].Lit?
  }

  lemma NoDoubleBraceBehind(ts: Tokens, blank: bool)
    requires ts != [] && NoDoubleBrace(ts, blank)
    ensures NoDoubleBrace(ts[1..], blank)
  {
    var u := ts[1..];
    forall i, j | 0 <= i < j < |u| && u[i] == u[j] == Lit('{') && (blank || j == i + 1)
      ensures exists k :: i < k < j && u[k].Lit?
    {
      assert ts[i + 1] == ts[j + 1] == Lit('{');
      var k :| i + 1 < k < j + 1 && ts[k].Lit?;
      assert u[k - 1].Lit?;
    }
  }

  /** Then the template has no bridge of either kind. */
  lemma {:induction false} NoDoubleBraceIsEnough(ts: Tokens, blank: bool)
    requires NoDoubleBrace(ts, blank)
    ensures !Fragile(ts, blank) && !Spelling(ts, blank)
  {
    if ts != [] {
      NoDoubleBraceBehind(ts, blank);
      NoDoubleBraceIsEnough(ts[1..], blank);
      if BridgeAt(ts).Some? {
        var j := OpenedFinds(ts[1..]);
        assert ts[0] == ts[j + 1] == Lit('{');
        assert forall k :: 0 < k < j + 1 ==> ts[k] == ts[1..][k - 1];
      }
    }
  }

  lemma {:induction false} FillNoHoles(ts: Tokens, m: Values)
    requires forall w :: Hole(w) !in ts
    ensures Fill(ts, m) == ts
  {
    if ts != [] {
      assert ts == [ts[0]] + ts[1..];
      FillNoHoles(ts[1..], m);
    }
  }

  lemma NothingToReplace(s: string, pairs: seq<(string, string)>)
    requires ExtractPlaceholders(s) == [] && Distinct(pairs)
    ensures Sequential(s, Texts(pairs)) == s == OnePass(s, ToValues(pairs))
  {
    var ts := Parse(s);
    RenderParse(s);
    ParseIsStable(s);
    forall w ensures Hole(w) !in ts { WordsAreHoles(ts, w); }
    forall j | 0 <= j < |pairs| ensures !SeenIn(Fill(ts, ToValues(pairs[..j])), pairs[j].0) {
      FillNoHoles(ts, ToValues(pairs[..j]));
      StableSeesNothing(ts, pairs[j].0);
    }
    FillNoHoles(ts, ToValues(pairs));
    FillsInOrder(ts, pairs);
    OnePassFills(s, ToValues(pairs));
  }

  lemma {:induction false} SpelledInLits(w: string, rest: Tokens)
    requires WordChars(w)
    ensures Spelled(Lits(w + "}}") + rest) == Some(w)
  {
    var f := Lits(w + "}}") + rest;
    if w == "" {
      assert f[0] == f[1] == Lit('}');
    } else {
      assert f[1..] == Lits(w[1..] + "}}") + rest && f[0] == Lit(w[0]);
      SpelledInLits(w[1..], rest);
      assert w == [w[0]] + w[1..];
    }
  }

  lemma PlaceholderInLits(w: string, rest: Tokens)
    requires IsWord(w)
    ensures SeenIn(Lits(Placeholder(w)) + rest, w)
  {
    var f := Lits(Placeholder(w)) + rest;
    SpelledInLits(w, rest);
    assert f[2..] == Lits(w + "}}") + rest;
  }

  /** A value that is the text of a new placeholder is replaced again by the loop only. */
  lemma ChainBreaks(s: string) returns (pairs: seq<(string, string)>)
    requires ExtractPlaceholders(s) != []
    ensures Distinct(pairs) && Sequential(s, Texts(pairs)) != OnePass(s, ToValues(pairs))
  {
    var ts := Parse(s);
    RenderParse(s);
    ParseIsStable(s);
    WordsAreDistinct(ts);
    var w := Words(ts)[0];
    var n := LongerWord(Words(ts));
    var first := [(w, Placeholder(n))];
    pairs := first + [(n, "#")];
    assert first[..0] == [] && ToValues(first) == map[w := Placeholder(n)];
    var m := map[w := Placeholder(n)];
    FillNothing(ts);
    StableSeesNothing(ts, w);
    FillsInOrder(ts, first);
    WordsAreHoles(ts, w);
    HoleIsSeen(ts, w, n, m);
    FillStaysWordy(ts, m);
    SeenBreaks(Fill(ts, m), n, "#");
    FillOneMore(ts, m, n, "#");
    OneMorePair(s, first, n, "#");
    OnePassFills(s, m[n := "#"]);
  }

  lemma HoleIsSeen(ts: Tokens, w: string, n: string, m: Values)
    requires Hole(w) in ts && IsWord(n) && w in m && m[w] == Placeholder(n)
    ensures SeenIn(Fill(ts, m), n)
  {
    var k :| 0 <= k < |ts| && ts[k] == Hole(w);
    FillStep(ts[k..], m);
    PlaceholderInLits(n, Fill(ts[k..][1..], m));
    SeenFurther(ts, k, m, n);
  }

  /** With values of any kind, braces included: the loop equals the one-pass replacement for all of them exactly
      when the template has no placeholder at all. */
  lemma AnyValuesExactly(s: string)
    ensures (forall pairs :: Distinct(pairs) ==> Sequential(s, Texts(pairs)) == OnePass(s, ToValues(pairs)))
       <==> ExtractPlaceholders(s) == []
  {
    if ExtractPlaceholders(s) == [] {
      forall pairs | Distinct(pairs) ensures Sequential(s, Texts(pairs)) == OnePass(s, ToValues(pairs)) {
        NothingToReplace(s, pairs);
      }
    } else {
      var pairs := ChainBreaks(s);
    }
  }

  lemma ReplaceWhole(w: string, v: string)
    requires IsWord(w)
    ensures StrReplace(Placeholder(w), Placeholder(w), v) == v
  {
    var p := Placeholder(w);
    assert p + "" == p && p[..|p|] == p && p[|p|..] == "" && v + "" == v;
  }

  const TAIL := [Lit('{'), Lit('b'), Lit('}'), Lit('}')]

  lemma TailFacts()
    ensures Render(TAIL) == "{b}}" && Stable(TAIL) && Wordy(TAIL) && Spelled(TAIL).None?
    ensures Render([Lit('{')] + TAIL) == Placeholder("b") && forall m: Values :: Fill(TAIL, m) == TAIL
  {
    assert TAIL[1..] == [Lit('b'), Lit('}'), Lit('}')] && TAIL[1..][1..] == [Lit('}'), Lit('}')];
    assert TAIL[1..][1..][1..] == [Lit('}')] && TAIL[1..][1..][1..][1..] == [];
    assert ([Lit('{')] + TAIL)[1..] == TAIL;
    forall m: Values ensures Fill(TAIL, m) == TAIL { FillNoHoles(TAIL, m); }
  }

  lemma BlankTokens(ts: Tokens)
    requires ts == [Lit('{'), Hole("a")] + TAIL
    ensures Wordy(ts) && Stable(ts) && Render(ts) == "{" + Placeholder("a") + "{b}}"
    ensures forall m: Values :: "a" in m && m["a"] == "" ==> Fill(ts, m) == [Lit('{')] + TAIL
  {
    TailFacts();
    assert ts[1..] == [Hole("a")] + TAIL && ts[1..][1..] == TAIL && ts[2..] == TAIL;
    hide Spelled;
    forall m: Values | "a" in m && m["a"] == "" ensures Fill(ts, m) == [Lit('{')] + TAIL {
      FillStep(ts, m);
      FillStep(ts[1..], m);
    }
  }

  lemma BlankIsAdmissible(pairs: seq<(string, string)>)
    requires pairs == [("a", ""), ("b", "y")]
    ensures Admissible(pairs, true)
  {
  }

  /** A blank field: the braces around a vanished placeholder close up to a new one, which the loop replaces. The
      template is not fragile for values that are not empty. */
  lemma BlankValueBreaks(s: string, pairs: seq<(string, string)>)
    requires s == "{" + Placeholder("a") + "{b}}" && pairs == [("a", ""), ("b", "y")]
    ensures Admissible(pairs, true) && !Fragile(Parse(s), false)
    ensures Sequential(s, Texts(pairs)) == "y" && OnePass(s, ToValues(pairs)) == Placeholder("b")
  {
    var ts := [Lit('{'), Hole("a")] + TAIL;
    var first := [("a", "")];
    BlankIsAdmissible(pairs);
    BlankTokens(ts);
    BlankIsGone(ts, first);
    hide Render, Fill, Stable, Placeholder, StrReplace, OnePass, Parse, Sequential, Admissible, Fragile;
    NoDoubleBraceIsEnough(ts, false);
    OneMorePair(s, first, "b", "y");
    assert first + [("b", "y")] == pairs;
    ParseRender(ts);
    TailFacts();
    OnePassFills(s, ToValues(pairs));
    ReplaceWhole("b", "y");
  }

  lemma BlankIsGone(ts: Tokens, first: seq<(string, string)>)
    requires ts == [Lit('{'), Hole("a")] + TAIL && first == [("a", "")]
    ensures Sequential(Render(ts), Texts(first)) == Placeholder("b")
    ensures "a" in ToValues(first) && ToValues(first)["a"] == ""
  {
    BlankTokens(ts);
    TailFacts();
    assert first[..0] == [];
    FillNothing(ts);
    StableSeesNothing(ts, "a");
    FillsInOrder(ts, first);
    hide Render, Fill, Stable, Placeholder;
  }

  const NESTED := [Lit('{'), Lit('{'), Hole("a"), Lit('}'), Lit('}')]

  lemma NestedTokens()
    ensures Render(NESTED) == "{{" + Placeholder("a") + "}}" && Wordy(NESTED) && Stable(NESTED)
    ensures NESTED[2..] == [Hole("a"), Lit('}'), Lit('}')] && NESTED[1..][1..] == NESTED[2..]
  {
    var close := [Lit('}'), Lit('}')];
    var hole := [Hole("a")] + close;
    assert NESTED[2..] == NESTED[1..][1..] == hole && hole[1..] == close;
    assert close[1..] == [Lit('}')] && close[1..][1..] == [];
    assert Render(close) == "}}" && Render(hole) == Placeholder("a") + "}}";
    assert Stable(close) && Stable(hole) && Sees(NESTED[1..]).None? && Sees(NESTED).None?;
  }

  lemma NestedBridge()
    ensures BridgeAt(NESTED).Some? && Breaks(BridgeAt(NESTED).value, false)
  {
    NestedTokens();
    var hole := NESTED[2..];
    var close := hole[1..];
    assert close == [Lit('}'), Lit('}')] && close[1..] == [Lit('}')];
    assert Closing(close[1..]) == Some({});
    assert Inside(close) == Some(Bridge({}, {}, ""));
    assert Inside(hole) == Some(Bridge({}, {} + {"a"}, ""));
    assert Opened(NESTED[1..]) == Inside(hole);
    assert "a" in BridgeAt(NESTED).value.holes;
  }

  /** Braces around a whole placeholder: here values that are not empty break the template too. */
  lemma NestedBracesBreak(s: string) returns (pairs: seq<(string, string)>)
    requires s == "{{" + Placeholder("a") + "}}"
    ensures Fragile(Parse(s), false) && Admissible(pairs, false)
    ensures Sequential(s, Texts(pairs)) != OnePass(s, ToValues(pairs))
  {
    NestedTokens();
    NestedBridge();
    ParseRender(NESTED);
    hide Render, Stable, Breaks, BridgeAt, Admissible, Sequential, OnePass;
    pairs := FragileBreaks(s, false);
  }
}
