/** File names in digest output: newlines are escaped, and a leading backslash says so. */
module DigestNames {
  function Newlines(s: string): nat {
    if s == "" then 0 else Newlines(s[..|s| - 1]) + if s[|s| - 1] == '\n' then 1 else 0
  }

  /** Each newline becomes a backslash and an n. */
  function Escape(s: string): (r: string)
    ensures |r| == |s| + Newlines(s)
  {
    if s == "" then ""
    else Escape(s[..|s| - 1]) + if s[|s| - 1] == '\n' then "\\n" else [s[|s| - 1]]
  }

  method CountNewlines(file: string) returns (count: nat)
    ensures count == Newlines(file)
  {
    count := 0;
    for i := 0 to |file|
      invariant count == Newlines(file[..i])
    {
      assert file[..i + 1][..i] == file[..i];
      if file[i] == '\n' { count := count + 1; }
    }
    assert file[..|file|] == file;
  }

  lemma EscapeStep(file: string, e: nat)
    requires e < |file|
    ensures Escape(file[..e + 1]) == Escape(file[..e]) + EscapeChar(file[e])
    ensures Newlines(file[..e + 1]) == Newlines(file[..e]) + (if file[e] == '\n' then 1 else 0) <= Newlines(file)
  {
    var next := file[..e + 1];
    assert next[..|next| - 1] == file[..e] && next[|next| - 1] == file[e];
    NewlinesGrow(file, e + 1);
  }

  lemma NewlineSeen(file: string, e: nat)
    requires e < |file|
    ensures '\n' in file[..e + 1] <==> '\n' in file[..e] || file[e] == '\n'
  {
    assert file[..e + 1] == file[..e] + [file[e]];
  }

  /** Counts first, then fills a buffer of exactly the size counted; the flag is only ever raised. */
  method NewlineEscapeFilename(file: string, flag: bool) returns (copy: array<char>, raised: bool)
    ensures fresh(copy) && copy.Length == |file| + Newlines(file) + 1
    ensures copy[..copy.Length - 1] == Escape(file) && copy[copy.Length - 1] == '\0'
    ensures raised <==> flag || '\n' in file
  {
    hide Escape, Newlines;
    var count := CountNewlines(file);
    copy := new char[|file| + count + 1];
    raised := flag;
    var i, e := 0, 0;
    EmptyEscape(file);
    while e < |file|
      invariant 0 <= e <= |file| && i == e + Newlines(file[..e]) && Newlines(file[..e]) <= count
      invariant copy[..i] == Escape(file[..e])
      invariant raised <==> flag || '\n' in file[..e]
    {
      EscapeStep(file, e);
      NewlineSeen(file, e);
      var c := file[e];
      ghost var done := copy[..i];
      if c == '\n' {
        copy[i] := '\\';
        copy[i + 1] := 'n';
        i := i + 2;
        raised := true;
      } else {
        copy[i] := c;
        i := i + 1;
      }
      assert copy[..i] == done + EscapeChar(c);
      e := e + 1;
    }
    assert file[..|file|] == file;
    copy[i] := '\0';
  }

  lemma EmptyEscape(file: string)
    ensures Escape(file[..0]) == "" && Newlines(file[..0]) == 0
  {
  }

  lemma {:induction false} NewlinesGrow(s: string, n: nat)
    requires n <= |s|
    ensures Newlines(s[..n]) <= Newlines(s)
    decreases |s|
  {
    if n < |s| {
      assert s[..|s| - 1][..n] == s[..n];
      NewlinesGrow(s[..|s| - 1], n);
    } else {
      assert s[..n] == s;
    }
  }

  // ----- reading the name back -----

  /** Turns each backslash-n back into a newline, from the left. */
  function Unescape(s: string): string
    decreases |s|
  {
    if |s| >= 2 && s[0] == '\\' && s[1] == 'n' then "\n" + Unescape(s[2..])
    else if s == "" then ""
    else [s[0]] + Unescape(s[1..])
  }

  /** The name holds the two characters of an escaped newline literally. */
  predicate LooksEscaped(s: string) { exists i :: 0 <= i < |s| - 1 && s[i] == '\\' && s[i + 1] == 'n' }

  /** What a reader of the line does: the name is unescaped only when the line is flagged. */
  function ReadName(flag: bool, text: string): string {
    if flag then Unescape(text) else text
  }

  function EscapeChar(c: char): string { if c == '\n' then "\\n" else [c] }

  lemma {:induction false} EscapeFromLeft(s: string)
    requires s != ""
    ensures Escape(s) == EscapeChar(s[0]) + Escape(s[1..])
    decreases |s|
  {
    if |s| == 1 {
      assert s[..0] == "" && s[1..] == "";
    } else {
      var n := |s| - 1;
      EscapeFromLeft(s[..n]);
      assert s[..n][1..] == s[1..][..n - 1] && s[1..][n - 1] == s[n];
    }
  }

  lemma UnescapeNewline(rest: string)
    ensures Unescape("\\n" + rest) == "\n" + Unescape(rest)
  {
    assert ("\\n" + rest)[2..] == rest;
  }

  /** Unescaping gives the name back when it does not hold an escaped newline literally. */
  lemma {:induction false} UnescapeUndoes(s: string)
    requires !LooksEscaped(s)
    ensures Unescape(Escape(s)) == s
    decreases |s|
  {
    if s != "" {
      var rest := s[1..];
      EscapeFromLeft(s);
      LooksEarlier(s);
      UnescapeUndoes(rest);
      if s[0] == '\n' {
        UnescapeNewline(Escape(rest));
      } else {
        var t := Escape(s);
        assert t == [s[0]] + Escape(rest) && t[1..] == Escape(rest);
        if rest != "" {
          EscapeFromLeft(rest);
          assert t[1] == EscapeChar(rest[0])[0];
        }
      }
      assert s == [s[0]] + rest;
    }
  }

  lemma {:induction false} UnescapeShorter(s: string)
    ensures |Unescape(Escape(s))| <= |s|
    ensures LooksEscaped(s) ==> |Unescape(Escape(s))| < |s|
    decreases |s|
  {
    if s != "" {
      var rest := s[1..];
      EscapeFromLeft(s);
      UnescapeShorter(rest);
      if s[0] == '\n' {
        UnescapeNewline(Escape(rest));
        LooksLater(s);
      } else if |s| >= 2 && s[0] == '\\' && s[1] == 'n' {
        EscapeFromLeft(rest);
        UnescapeShorter(s[2..]);
        assert Escape(s) == "\\n" + Escape(s[2..]) by { assert rest[1..] == s[2..]; }
        UnescapeNewline(Escape(s[2..]));
      } else {
        var t := Escape(s);
        assert t[1..] == Escape(rest);
        if rest != "" {
          EscapeFromLeft(rest);
          assert t[1] == EscapeChar(rest[0])[0];
        }
        LooksLater(s);
      }
    }
  }

  lemma LooksLater(s: string)
    requires s != "" && !(|s| >= 2 && s[0] == '\\' && s[1] == 'n')
    ensures LooksEscaped(s) ==> LooksEscaped(s[1..])
  {
    if LooksEscaped(s) {
      var i :| 0 <= i < |s| - 1 && s[i] == '\\' && s[i + 1] == 'n';
      assert s[1..][i - 1] == '\\' && s[1..][i] == 'n';
    }
  }

  lemma LooksEarlier(s: string)
    requires s != ""
    ensures LooksEscaped(s[1..]) ==> LooksEscaped(s)
  {
    if LooksEscaped(s[1..]) {
      var i :| 0 <= i < |s[1..]| - 1 && s[1..][i] == '\\' && s[1..][i + 1] == 'n';
      assert s[i + 1] == '\\' && s[i + 2] == 'n';
    }
  }

  /** A name is read back exactly when it has no newline (nothing is escaped) or no literal backslash-n (nothing is
      confused). */
  lemma NameReadsBackExactly(s: string)
    ensures ReadName('\n' in s, Escape(s)) == s <==> '\n' !in s || !LooksEscaped(s)
  {
    if '\n' !in s {
      NothingToEscape(s);
    } else if LooksEscaped(s) {
      UnescapeShorter(s);
    } else {
      UnescapeUndoes(s);
    }
  }

  // ----- whether any reader can do it -----

  lemma {:induction false} EscapedHasNoNewline(s: string)
    ensures '\n' !in Escape(s)
  {
    if s != "" { EscapedHasNoNewline(s[..|s| - 1]); }
  }

  /** Every text without a newline is the escaped form of what it unescapes to. */
  lemma {:induction false} EscapeUndoes(t: string)
    requires '\n' !in t
    ensures Escape(Unescape(t)) == t
    decreases |t|
  {
    if t != "" {
      var n := if |t| >= 2 && t[0] == '\\' && t[1] == 'n' then 2 else 1;
      var u, rest := Unescape(t), Unescape(t[n..]);
      EscapeUndoes(t[n..]);
      assert t[0] in t && u[1..] == rest;
      EscapeFromLeft(u);
      assert t == t[..n] + t[n..];
    }
  }

  /** The name with its first newline replaced by a literal backslash-n. */
  lemma {:induction false} OneNewlineLess(s: string) returns (t: string)
    requires '\n' in s
    ensures Escape(t) == Escape(s) && Newlines(t) == Newlines(s) - 1
    decreases |s|
  {
    EscapeFromLeft(s);
    NewlinesFromLeft(s);
    if s[0] == '\n' {
      t := "\\n" + s[1..];
      EscapeFromLeft(t);
      NewlinesFromLeft(t);
      assert t[1..][1..] == s[1..];
      EscapeFromLeft(t[1..]);
      NewlinesFromLeft(t[1..]);
    } else {
      assert s == [s[0]] + s[1..];
      var u := OneNewlineLess(s[1..]);
      t := [s[0]] + u;
      EscapeFromLeft(t);
      NewlinesFromLeft(t);
      assert t[1..] == u;
    }
  }

  lemma {:induction false} NewlinesFromLeft(s: string)
    requires s != ""
    ensures Newlines(s) == Newlines(s[1..]) + if s[0] == '\n' then 1 else 0
    decreases |s|
  {
    if |s| == 1 {
      assert s[..0] == "" && s[1..] == "";
    } else {
      var n := |s| - 1;
      NewlinesFromLeft(s[..n]);
      assert s[..n][1..] == s[1..][..n - 1] && s[1..][n - 1] == s[n];
    }
  }

  lemma {:induction false} NewlinesAreSeen(s: string)
    ensures '\n' in s <==> Newlines(s) > 0
  {
    if s != "" {
      NewlinesAreSeen(s[..|s| - 1]);
      assert s == s[..|s| - 1] + [s[|s| - 1]];
    }
  }

  /** Another name leads to the same flag and the same text. */
  ghost predicate SharesItsText(s: string) {
    exists t :: t != s && ('\n' in t <==> '\n' in s) && Escape(t) == Escape(s)
  }

  /** No reader at all can tell a name from another one exactly when it has a newline and, besides it, a literal
      backslash-n or a second newline. */
  lemma SharesItsTextExactly(s: string)
    ensures SharesItsText(s) <==> '\n' in s && (LooksEscaped(s) || Newlines(s) >= 2)
  {
    if '\n' in s && LooksEscaped(s) {
      UnescapeShorter(s);
      EscapedHasNoNewline(s);
      EscapeUndoes(Escape(s));
      var t := Unescape(Escape(s));
      if '\n' !in t { NothingToEscape(t); }
      assert t != s && Escape(t) == Escape(s);
    } else if '\n' in s && Newlines(s) >= 2 {
      var t := OneNewlineLess(s);
      NewlinesAreSeen(t);
      assert t != s && Escape(t) == Escape(s);
    } else {
      forall t | ('\n' in t <==> '\n' in s) && Escape(t) == Escape(s) ensures t == s {
        NothingShares(s, t);
      }
    }
  }

  lemma NothingShares(s: string, t: string)
    requires ('\n' in t <==> '\n' in s) && Escape(t) == Escape(s)
    requires '\n' in s ==> !LooksEscaped(s) && Newlines(s) < 2
    ensures t == s
  {
    if '\n' !in s {
      NothingToEscape(s);
      NothingToEscape(t);
    } else {
      NewlinesAreSeen(t);
      UnescapeUndoes(s);
      UnescapeShorter(t);
      if !LooksEscaped(t) { UnescapeUndoes(t); }
    }
  }

  /** A newline and a literal backslash-n come back as two newlines. */
  lemma LiteralIsMistaken()
    ensures ReadName(true, Escape("\n\\n")) == "\n\n" && SharesItsText("\n\\n")
  {
    assert "\n\\n"[..2] == "\n\\" && "\n\\"[..1] == "\n" && "\n"[..0] == "";
    assert Escape("\n\\n") == "\\n" + "\\n";
    UnescapeNewline("\\n");
    UnescapeNewline("");
    assert "\\n" + "" == "\\n";
    assert "\n\\n"[1] == '\\' && "\n\\n"[2] == 'n';
    SharesItsTextExactly("\n\\n");
  }

  lemma {:induction false} NothingToEscape(s: string)
    requires '\n' !in s
    ensures Escape(s) == s
  {
    if s != "" {
      var n := |s| - 1;
      assert '\n' !in s[..n] && s[n] != '\n';
      NothingToEscape(s[..n]);
      assert s == s[..n] + [s[n]];
    }
  }
}
