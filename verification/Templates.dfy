/** Placeholders in configuration templates: replaced in one pass by a pattern, or one after the other as plain text. */
module Templates {
  import opened Wrappers

  predicate IsWordChar(c: char) { 'a' <= c <= 'z' || 'A' <= c <= 'Z' || '0' <= c <= '9' || c == '_' }

  predicate IsWord(w: string) { w != "" && forall i :: 0 <= i < |w| ==> IsWordChar(w[i]) }

  // ----- one pass -----

  function WordLength(s: string): (n: nat)
    ensures n <= |s| && (forall i :: 0 <= i < n ==> IsWordChar(s[i])) && (n < |s| ==> !IsWordChar(s[n]))
  {
    if s == "" || !IsWordChar(s[0]) then 0 else 1 + WordLength(s[1..])
  }

  /** The word of a placeholder standing at the front. */
  function MatchAt(s: string): (w: Option<string>)
    ensures w.Some? ==> IsWord(w.value) && 4 + |w.value| <= |s| && s[..4 + |w.value|] == Placeholder(w.value)
  {
    if |s| >= 2 && s[0] == '{' && s[1] == '{' then
      var n := WordLength(s[2..]);
      if n > 0 && |s| >= n + 4 && s[n + 2] == '}' && s[n + 3] == '}' then
        assert s[..4 + n] == Placeholder(s[2..2 + n]);
        Some(s[2..2 + n])
      else None
    else None
  }

  function Placeholder(w: string): string { "{{" + w + "}}" }

  type Values = map<string, string>

  /** The pattern replacement: placeholders without a value stay as they are. */
  function OnePass(s: string, values: Values): string
    decreases |s|
  {
    if s == "" then ""
    else
      var w := MatchAt(s);
      if w.Some? then
        (if w.value in values then values[w.value] else Placeholder(w.value)) + OnePass(s[4 + |w.value|..], values)
      else [s[0]] + OnePass(s[1..], values)
  }

  // ----- one after the other -----

  predicate StartsWith(s: string, p: string) { |p| <= |s| && s[..|p|] == p }

  /** Replaces every occurrence from the left, without overlap. */
  function StrReplace(s: string, from: string, to: string): string
    decreases |s|
  {
    if from == "" || s == "" then s
    else if StartsWith(s, from) then to + StrReplace(s[|from|..], from, to)
    else [s[0]] + StrReplace(s[1..], from, to)
  }

  /** Placeholder texts with their values, in the order of the loop. */
  type Pairs = seq<(string, string)>

  function Sequential(s: string, pairs: Pairs): string {
    if pairs == [] then s
    else StrReplace(Sequential(s, pairs[..|pairs| - 1]), pairs[|pairs| - 1].0, pairs[|pairs| - 1].1)
  }

  /** The loop over the field values. */
  method ProcessConfig(template: string, pairs: Pairs) returns (config: string)
    ensures config == Sequential(template, pairs)
  {
    config := template;
    for i := 0 to |pairs|
      invariant config == Sequential(template, pairs[..i])
    {
      assert pairs[..i + 1][..i] == pairs[..i];
      config := StrReplace(config, pairs[i].0, pairs[i].1);
    }
    assert pairs[..|pairs|] == pairs;
  }

  // ----- templates as tokens -----

  datatype Token = Lit(c: char) | Hole(word: string)

  type Tokens = seq<Token>

  function Show(t: Token): string {
    match t
    case Lit(c) => [c]
    case Hole(w) => Placeholder(w)
  }

  function Render(ts: Tokens): string {
    if ts == [] then "" else Show(ts[0]) + Render(ts[1..])
  }

  function Parse(s: string): Tokens
    decreases |s|
  {
    if s == "" then []
    else
      var w := MatchAt(s);
      if w.Some? then [Hole(w.value)] + Parse(s[4 + |w.value|..]) else [Lit(s[0])] + Parse(s[1..])
  }

  predicate Wordy(ts: Tokens) { forall i :: 0 <= i < |ts| && ts[i].Hole? ==> IsWord(ts[i].word) }

  function Lits(v: string): (r: Tokens)
    ensures |r| == |v| && forall i :: 0 <= i < |v| ==> r[i] == Lit(v[i])
  {
    seq(|v|, i requires 0 <= i < |v| => Lit(v[i]))
  }

  /** All holes with a value filled at once. */
  function Fill(ts: Tokens, values: Values): Tokens {
    if ts == [] then []
    else (if ts[0].Hole? && ts[0].word in values then Lits(values[ts[0].word]) else [ts[0]]) + Fill(ts[1..], values)
  }

  // ----- rendering and parsing -----

  lemma {:induction false} RenderParse(s: string)
    ensures Render(Parse(s)) == s && Wordy(Parse(s))
    decreases |s|
  {
    if s != "" {
      var w := MatchAt(s);
      var n := if w.Some? then 4 + |w.value| else 1;
      RenderParse(s[n..]);
      assert s == s[..n] + s[n..];
      assert Parse(s)[1..] == Parse(s[n..]);
    }
  }

  lemma {:induction false} RenderAppend(a: Tokens, b: Tokens)
    ensures Render(a + b) == Render(a) + Render(b)
  {
    if a == [] {
      assert a + b == b;
    } else {
      assert (a + b)[1..] == a[1..] + b;
      RenderAppend(a[1..], b);
    }
  }

  lemma {:induction false} RenderLits(v: string)
    ensures Render(Lits(v)) == v
  {
    if v != "" {
      assert Lits(v)[1..] == Lits(v[1..]);
      RenderLits(v[1..]);
    }
  }

  lemma MatchPlaceholder(w: string, rest: string)
    requires IsWord(w)
    ensures MatchAt(Placeholder(w) + rest) == Some(w)
    ensures (Placeholder(w) + rest)[4 + |w|..] == rest
  {
    var s := Placeholder(w) + rest;
    assert s[2..] == w + "}}" + rest;
    WordLengthOf(w, "}}" + rest);
    assert w + ("}}" + rest) == w + "}}" + rest;
    assert s[2..2 + |w|] == w;
  }

  lemma {:induction false} WordLengthOf(w: string, rest: string)
    requires (forall i :: 0 <= i < |w| ==> IsWordChar(w[i])) && (rest == "" || !IsWordChar(rest[0]))
    ensures WordLength(w + rest) == |w|
  {
    var s := w + rest;
    if w == "" {
      assert s == rest;
    } else {
      assert s[1..] == w[1..] + rest;
      WordLengthOf(w[1..], rest);
    }
  }

  lemma HoleShowsBraces(ts: Tokens)
    ensures ts != [] && ts[0].Hole? ==> |Render(ts)| >= 2 && Render(ts)[0] == '{' && Render(ts)[1] == '{'
  {
  }

  lemma StartsCons(c: char, s: string, d: char, p: string)
    ensures StartsWith([c] + s, [d] + p) <==> c == d && StartsWith(s, p)
  {
    if |p| <= |s| { assert ([c] + s)[..|p| + 1] == [c] + s[..|p|]; }
    assert ([d] + p)[0] == d && ([d] + p)[1..] == p;
    if |p| <= |s| { assert ([c] + s[..|p|])[1..] == s[..|p|]; }
  }

  /** A text in two parts at the front of a rendering that begins with a hole must begin with two braces. */
  lemma HoleFront(ts: Tokens, p: string)
    requires ts != [] && ts[0].Hole? && |p| >= 2 && StartsWith(Render(ts), p)
    ensures p[0] == '{' && p[1] == '{'
  {
    HoleShowsBraces(ts);
    assert Render(ts)[0] == Render(ts)[..|p|][0] && Render(ts)[1] == Render(ts)[..|p|][1];
  }

  /** Two opening braces, a word and two closing braces at the front, seen from a literal. */
  lemma SeesSpelled(ts: Tokens, w: string)
    requires ts != [] && ts[0].Lit? && IsWord(w)
    ensures MatchAt(Render(ts)) == Some(w) <==>
            |ts| >= 2 && ts[0] == Lit('{') && ts[1] == Lit('{') && StartsWith(Render(ts[2..]), w + "}}")
  {
    var u, tail := ts[1..], w + "}}";
    PlaceholderParts(w);
    StartsWithPlaceholder(Render(ts), w);
    StartsCons(ts[0].c, Render(u), '{', ['{'] + tail);
    hide MatchAt, Placeholder, StartsWith;
    if u != [] && u[0].Lit? {
      assert u[1..] == ts[2..] && Render(u) == [u[0].c] + Render(ts[2..]);
      StartsCons(u[0].c, Render(ts[2..]), '{', tail);
    } else if u != [] {
      HoleIsNoSingleBrace(u, w);
    } else {
      NothingStarts(['{'] + tail);
    }
  }

  lemma PlaceholderParts(w: string)
    ensures Placeholder(w) == ['{'] + (['{'] + (w + "}}"))
  {
  }

  lemma NothingStarts(p: string)
    requires p != ""
    ensures !StartsWith("", p)
  {
  }

  lemma HoleIsNoSingleBrace(ts: Tokens, w: string)
    requires ts != [] && ts[0].Hole? && IsWord(w)
    ensures !StartsWith(Render(ts), ['{'] + (w + "}}"))
  {
    var p := ['{'] + (w + "}}");
    assert p[1] == w[0];
    if StartsWith(Render(ts), p) { HoleFront(ts, p); }
  }

  // ----- placeholders seen across tokens -----

  /** The word spelled by literals in front of two closing braces. */
  function Spelled(ts: Tokens): (w: Option<string>)
    ensures w.Some? ==> forall i :: 0 <= i < |w.value| ==> IsWordChar(w.value[i])
  {
    if ts == [] || ts[0].Hole? then None
    else if ts[0].c == '}' then (if |ts| >= 2 && ts[1] == Lit('}') then Some("") else None)
    else if IsWordChar(ts[0].c) then
      var r := Spelled(ts[1..]);
      if r.None? then None else Some([ts[0].c] + r.value)
    else None
  }

  /** The placeholder spelled by literals at the front. */
  function Sees(ts: Tokens): (w: Option<string>)
    ensures w.Some? ==> IsWord(w.value)
  {
    if |ts| >= 2 && ts[0] == ts[1] == Lit('{') && Spelled(ts[2..]) != Some("") then Spelled(ts[2..]) else None
  }

  predicate SeenIn(ts: Tokens, w: string) { ts != [] && (Sees(ts) == Some(w) || SeenIn(ts[1..], w)) }

  /** Nowhere do literals spell a placeholder: true of everything the parser yields. */
  predicate Stable(ts: Tokens) { ts == [] || (Sees(ts).None? && Stable(ts[1..])) }

  lemma {:induction false} StableSeesNothing(ts: Tokens, w: string)
    requires Stable(ts)
    ensures !SeenIn(ts, w)
  {
    if ts != [] { StableSeesNothing(ts[1..], w); }
  }

  lemma {:induction false} UnstableSees(ts: Tokens) returns (w: string)
    requires !Stable(ts)
    ensures SeenIn(ts, w)
  {
    if Sees(ts).Some? { w := Sees(ts).value; } else { w := UnstableSees(ts[1..]); }
  }

  /** What the tokens spell is what stands in their text. */
  lemma {:induction false} SpelledIsText(ts: Tokens, w: string)
    requires forall i :: 0 <= i < |w| ==> IsWordChar(w[i])
    ensures Spelled(ts) == Some(w) <==> StartsWith(Render(ts), w + "}}")
  {
    var p := w + "}}";
    if ts == [] {
      NothingStarts(p);
    } else if ts[0].Hole? {
      assert p[0] != '{';
      if StartsWith(Render(ts), p) { HoleFront(ts, p); }
    } else {
      var c, rest, q := ts[0].c, Render(ts[1..]), p[1..];
      assert p == [p[0]] + q;
      StartsCons(c, rest, p[0], q);
      if w == "" {
        assert q == "}" && (IsWordChar(c) ==> Spelled(ts) != Some(""));
        ClosingText(ts[1..]);
      } else {
        assert q == w[1..] + "}}" && w == [w[0]] + w[1..];
        SpelledIsText(ts[1..], w[1..]);
        if Spelled(ts) == Some(w) { assert ([c] + Spelled(ts[1..]).value)[1..] == Spelled(ts[1..]).value; }
      }
    }
  }

  lemma ClosingText(ts: Tokens)
    ensures StartsWith(Render(ts), "}") <==> ts != [] && ts[0] == Lit('}')
  {
    HoleShowsBraces(ts);
    if ts != [] && ts[0].Lit? { assert Render(ts)[..1] == [ts[0].c]; }
    if ts != [] && ts[0].Hole? { assert Render(ts)[..1][0] == '{'; }
  }

  /** At a literal, the text shows a placeholder exactly when the tokens do. */
  lemma SeesIsMatch(ts: Tokens)
    requires ts != [] && ts[0].Lit?
    ensures MatchAt(Render(ts)) == Sees(ts)
  {
    var m, w := MatchAt(Render(ts)), Sees(ts);
    if m.Some? {
      SeesSpelled(ts, m.value);
      SpelledIsText(ts[2..], m.value);
    }
    if w.Some? {
      SeesSpelled(ts, w.value);
      SpelledIsText(ts[2..], w.value);
    }
  }

  /** Tokens in which nothing is spelled are what the text parses to. */
  lemma {:induction false} ParseRender(ts: Tokens)
    requires Wordy(ts) && Stable(ts)
    ensures Parse(Render(ts)) == ts
  {
    if ts != [] {
      ParseRender(ts[1..]);
      if ts[0].Hole? {
        MatchPlaceholder(ts[0].word, Render(ts[1..]));
      } else {
        SeesIsMatch(ts);
        assert Render(ts)[1..] == Render(ts[1..]);
      }
    }
  }

  lemma {:induction false} ParseIsStable(s: string)
    ensures Stable(Parse(s))
    decreases |s|
  {
    RenderParse(s);
    if s != "" {
      var n := if MatchAt(s).Some? then 4 + |MatchAt(s).value| else 1;
      ParseIsStable(s[n..]);
      assert Parse(s)[1..] == Parse(s[n..]);
      if MatchAt(s).None? { SeesIsMatch(Parse(s)); }
    }
  }

  /** The one-pass replacement fills exactly the holes of the parsed text. */
  lemma {:induction false} OnePassFills(s: string, values: Values)
    ensures OnePass(s, values) == Render(Fill(Parse(s), values))
    decreases |s|
  {
    if s != "" {
      var w := MatchAt(s);
      var n := if w.Some? then 4 + |w.value| else 1;
      OnePassFills(s[n..], values);
      assert Parse(s)[1..] == Parse(s[n..]);
      if w.Some? && w.value in values {
        RenderAppend(Lits(values[w.value]), Fill(Parse(s[n..]), values));
        RenderLits(values[w.value]);
      } else {
        var t := Parse(s)[0];
        assert ([t] + Fill(Parse(s[n..]), values))[1..] == Fill(Parse(s[n..]), values);
      }
    }
  }

  // ----- one replacement on tokens -----

  lemma StartsWithPlaceholder(s: string, w: string)
    requires IsWord(w)
    ensures StartsWith(s, Placeholder(w)) <==> MatchAt(s) == Some(w)
  {
    if StartsWith(s, Placeholder(w)) {
      var rest := s[4 + |w|..];
      assert s == Placeholder(w) + rest;
      MatchPlaceholder(w, rest);
    }
  }

  lemma {:induction false} PassesOver(x: string, rest: string, from: string, to: string)
    requires from != "" && forall i :: 0 <= i < |x| ==> !StartsWith((x + rest)[i..], from)
    ensures StrReplace(x + rest, from, to) == x + StrReplace(rest, from, to)
    decreases |x|
  {
    if x == "" {
      assert x + rest == rest && x + StrReplace(rest, from, to) == StrReplace(rest, from, to);
    } else {
      assert (x + rest)[0..] == x + rest && (x + rest)[1..] == x[1..] + rest;
      assert forall i :: 0 <= i < |x[1..]| ==> (x[1..] + rest)[i..] == (x + rest)[i + 1..];
      PassesOver(x[1..], rest, from, to);
    }
  }

  lemma OtherHolePasses(w: string, other: string, rest: string, to: string)
    requires IsWord(w) && IsWord(other) && w != other
    ensures StrReplace(Placeholder(other) + rest, Placeholder(w), to)
         == Placeholder(other) + StrReplace(rest, Placeholder(w), to)
  {
    var x, from := Placeholder(other), Placeholder(w);
    forall i | 0 <= i < |x| ensures !StartsWith((x + rest)[i..], from) {
      var t := (x + rest)[i..];
      if i == 0 {
        assert t == x + rest;
        MatchPlaceholder(other, rest);
        StartsWithPlaceholder(t, w);
      } else if |t| >= 2 && |from| <= |t| {
        assert t[0] == (x + rest)[i] && t[1] == (x + rest)[i + 1];
        assert t[..|from|][0] == t[0] && t[..|from|][1] == t[1];
      }
    }
    PassesOver(x, rest, from, to);
  }

  /** Replacing a placeholder as text fills its holes, as long as it is not seen anywhere else. */
  lemma {:induction false} ReplaceFills(ts: Tokens, w: string, v: string)
    requires Wordy(ts) && IsWord(w) && !SeenIn(ts, w)
    ensures StrReplace(Render(ts), Placeholder(w), v) == Render(Fill(ts, map[w := v]))
  {
    if ts != [] {
      var u, s, rest := ts[1..], Render(ts), Render(ts[1..]);
      var m := map[w := v];
      ReplaceFills(u, w, v);
      if ts[0] == Hole(w) {
        MatchPlaceholder(w, rest);
        StartsWithPlaceholder(s, w);
        RenderAppend(Lits(v), Fill(u, m));
        RenderLits(v);
      } else {
        assert Fill(ts, m)[1..] == Fill(u, m) && Fill(ts, m)[0] == ts[0];
        if ts[0].Hole? {
          OtherHolePasses(w, ts[0].word, rest, v);
        } else {
          StartsWithPlaceholder(s, w);
          SeesIsMatch(ts);
          assert s[1..] == rest;
        }
      }
    }
  }

  // ----- occurrences -----

  function Occurrences(s: string, w: string): nat {
    if s == "" then 0 else (if MatchAt(s) == Some(w) then 1 else 0) + Occurrences(s[1..], w)
  }

  function HoleCount(ts: Tokens, w: string): nat {
    if ts == [] then 0 else (if ts[0] == Hole(w) then 1 else 0) + HoleCount(ts[1..], w)
  }

  function SeenCount(ts: Tokens, w: string): (n: nat)
    ensures n > 0 <==> SeenIn(ts, w)
  {
    if ts == [] then 0 else (if Sees(ts) == Some(w) then 1 else 0) + SeenCount(ts[1..], w)
  }

  lemma {:induction false} NothingMatches(x: string, rest: string, w: string)
    requires forall i :: 0 <= i < |x| ==> MatchAt((x + rest)[i..]).None?
    ensures Occurrences(x + rest, w) == Occurrences(rest, w)
    decreases |x|
  {
    hide MatchAt;
    if x == "" {
      assert x + rest == rest;
    } else {
      var y := x[1..];
      assert (x + rest)[0..] == x + rest && (x + rest)[1..] == y + rest;
      forall i | 0 <= i < |y| ensures MatchAt((y + rest)[i..]).None? {
        assert (y + rest)[i..] == (x + rest)[i + 1..];
      }
      NothingMatches(y, rest, w);
    }
  }

  /** A placeholder occurs in its own text once, and no other does. */
  lemma HoleOccursOnce(x: string, rest: string, w: string)
    requires IsWord(x)
    ensures Occurrences(Placeholder(x) + rest, w) == (if x == w then 1 else 0) + Occurrences(rest, w)
  {
    var s := Placeholder(x) + rest;
    MatchPlaceholder(x, rest);
    var tail := Placeholder(x)[1..];
    assert s[1..] == tail + rest;
    forall i | 0 <= i < |tail| ensures MatchAt((tail + rest)[i..]).None? {
      var t := (tail + rest)[i..];
      assert t[0] == tail[i] && (i == 0 ==> t[1] == x[0]);
    }
    NothingMatches(tail, rest, w);
  }

  lemma {:induction false} OccurrencesInTokens(ts: Tokens, w: string)
    requires Wordy(ts)
    ensures Occurrences(Render(ts), w) == HoleCount(ts, w) + SeenCount(ts, w)
  {
    if ts != [] {
      OccurrencesInTokens(ts[1..], w);
      if ts[0].Hole? {
        HoleOccursOnce(ts[0].word, Render(ts[1..]), w);
      } else {
        SeesIsMatch(ts);
        assert Render(ts)[1..] == Render(ts[1..]);
      }
    }
  }

  lemma {:induction false} ReplacedLength(s: string, w: string, v: string, k: int)
    requires IsWord(w) && k == |w| + 4 - |v|
    ensures |StrReplace(s, Placeholder(w), v)| == |s| - Occurrences(s, w) * k
    decreases |s|
  {
    if s != "" {
      StartsWithPlaceholder(s, w);
      hide MatchAt, IsWord;
      if StartsWith(s, Placeholder(w)) {
        var rest := s[4 + |w|..];
        assert s == Placeholder(w) + rest;
        HoleOccursOnce(w, rest, w);
        ReplacedLength(rest, w, v, k);
        OneMoreTimes(Occurrences(rest, w), k);
        hide Occurrences, StartsWith;
      } else {
        ReplacedLength(s[1..], w, v, k);
      }
    }
  }

  lemma OneMoreTimes(n: int, k: int)
    ensures (1 + n) * k == k + n * k
  {
  }

  lemma {:induction false} FilledLength(ts: Tokens, w: string, v: string)
    ensures |Render(Fill(ts, map[w := v]))| == |Render(ts)| - HoleCount(ts, w) * (|w| + 4 - |v|)
  {
    if ts != [] {
      var rest := Fill(ts[1..], map[w := v]);
      FilledLength(ts[1..], w, v);
      OneMoreTimes(HoleCount(ts[1..], w), |w| + 4 - |v|);
      if ts[0] == Hole(w) {
        RenderAppend(Lits(v), rest);
        RenderLits(v);
      } else {
        assert Fill(ts, map[w := v])[1..] == rest;
      }
    }
  }

  /** Replacing a placeholder that literals spell is not filling its holes. */
  lemma SeenBreaks(ts: Tokens, w: string, v: string)
    requires Wordy(ts) && IsWord(w) && SeenIn(ts, w) && |v| < |w| + 4
    ensures StrReplace(Render(ts), Placeholder(w), v) != Render(Fill(ts, map[w := v]))
  {
    OccurrencesInTokens(ts, w);
    ReplacedLength(Render(ts), w, v, |w| + 4 - |v|);
    FilledLength(ts, w, v);
    Larger(HoleCount(ts, w), Occurrences(Render(ts), w), |w| + 4 - |v|);
  }

  lemma Larger(a: int, b: int, k: int)
    requires a < b && k > 0
    ensures a * k < b * k
  {
  }

  // ----- the words of a template -----

  /** The words of the placeholders of a text, each once, in order of appearance. */
  function Words(ts: Tokens): seq<string> {
    if ts == [] then []
    else
      var ws := Words(ts[..|ts| - 1]);
      var t := ts[|ts| - 1];
      if t.Hole? && t.word !in ws then ws + [t.word] else ws
  }

  function ExtractPlaceholders(template: string): seq<string> { Words(Parse(template)) }

  lemma {:induction false} WordsAreHoles(ts: Tokens, w: string)
    ensures w in Words(ts) <==> Hole(w) in ts
  {
    if ts != [] {
      var n := |ts| - 1;
      WordsAreHoles(ts[..n], w);
      assert ts == ts[..n] + [ts[n]];
    }
  }

  lemma {:induction false} FilledHoles(ts: Tokens, m: Values, w: string)
    ensures Hole(w) in Fill(ts, m) <==> Hole(w) in ts && w !in m
  {
    if ts != [] {
      FilledHoles(ts[1..], m, w);
      assert ts == [ts[0]] + ts[1..];
    }
  }

  lemma {:induction false} WordsAreDistinct(ts: Tokens)
    requires Wordy(ts)
    ensures forall i, j :: 0 <= i < j < |Words(ts)| ==> Words(ts)[i] != Words(ts)[j]
    ensures forall i :: 0 <= i < |Words(ts)| ==> IsWord(Words(ts)[i])
  {
    if ts != [] { WordsAreDistinct(ts[..|ts| - 1]); }
  }

  // ----- nested templates -----

  /** A decoded template: texts, ordered tables, and values that are neither. */
  datatype Data = Text(text: string) | Table(entries: seq<(string, Data)>) | Scalar

  function ReplaceIn(data: Data, values: Values): Data {
    match data
    case Text(text) => Text(OnePass(text, values))
    case Table(entries) =>
      Table(seq(|entries|, i requires 0 <= i < |entries| => (entries[i].0, ReplaceIn(entries[i].1, values))))
    case Scalar => data
  }

  /** Assigns the replaced value to every key in turn. */
  method ReplaceRecursive(data: Data, values: Values) returns (r: Data)
    ensures r == ReplaceIn(data, values)
    decreases data
  {
    match data {
      case Scalar => return data;
      case Text(text) => return Text(OnePass(text, values));
      case Table(entries) =>
        var out := entries;
        for i := 0 to |entries|
          invariant |out| == |entries|
          invariant forall k :: 0 <= k < i ==> out[k] == (entries[k].0, ReplaceIn(entries[k].1, values))
          invariant forall k :: i <= k < |entries| ==> out[k] == entries[k]
        {
          var value := ReplaceRecursive(entries[i].1, values);
          out := out[i := (entries[i].0, value)];
        }
        return Table(out);
    }
  }

  /** The value at a path of positions, with the keys passed on the way. */
  function At(data: Data, path: seq<nat>): Option<(seq<string>, Data)>
    decreases |path|
  {
    if path == [] then Some(([], data))
    else if !data.Table? || path[0] >= |data.entries| then None
    else
      var r := At(data.entries[path[0]].1, path[1..]);
      if r.None? then None else Some(([data.entries[path[0]].0] + r.value.0, r.value.1))
  }

  /** Every path leads through the same keys to the same kind of value, and only texts change. */
  lemma {:induction false} ReplaceKeepsShape(data: Data, path: seq<nat>, values: Values)
    ensures At(ReplaceIn(data, values), path)
         == match At(data, path) case None => None case Some(r) => Some((r.0, ReplaceIn(r.1, values)))
    decreases |path|
  {
    if path != [] && data.Table? && path[0] < |data.entries| {
      ReplaceKeepsShape(data.entries[path[0]].1, path[1..], values);
    }
  }
}
