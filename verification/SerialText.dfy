/** Serial numbers as hexadecimal text: how they are printed, read, and compared as index keys. */
module SerialText {
  import opened Chars

  /** Two upper-case digits for one byte. */
  function ByteHex(b: nat): (s: string)
    requires b < 256
    ensures |s| == 2 && AllHex(s) && AllUpper(s)
  {
    [HexDigit(b / 16), HexDigit(b % 16)]
  }

  /** Big-endian digits of whole bytes; zero prints as "00". */
  function NatHex(n: nat): (s: string)
    ensures |s| % 2 == 0 && |s| >= 2 && AllHex(s) && AllUpper(s)
  {
    if n < 256 then ByteHex(n) else NatHex(n / 256) + ByteHex(n % 256)
  }

  /** The serial field of a row. */
  function SerialHex(n: int): string {
    if n < 0 then "-" + NatHex(-n) else NatHex(n)
  }

  /** The number a run of digits of either case denotes. */
  function HexValue(s: string): nat
    requires AllHex(s)
  {
    if s == "" then 0 else HexValue(s[..|s| - 1]) * 16 + DigitValue(s[|s| - 1])
  }

  function Magnitude(s: string): string {
    if s != "" && s[0] == '-' then s[1..] else s
  }

  /** The serial check of the load loop: an optional sign, then an even, positive number of digits. */
  predicate SerialOk(s: string) {
    var m := Magnitude(s);
    |m| % 2 == 0 && |m| >= 2 && AllHex(m)
  }

  function SerialValue(s: string): int
    requires SerialOk(s)
  {
    if s[0] == '-' then -(HexValue(Magnitude(s)) as int) else HexValue(s)
  }

  /** Leading zeros do not count when rows are compared. */
  function Key(s: string): string {
    if s != "" && s[0] == '0' then Key(s[1..]) else s
  }

  /** Text a serial number prints as. */
  predicate Canonical(s: string) {
    SerialOk(s) && s == SerialHex(SerialValue(s))
  }

  lemma AppendDigit(s: string, c: char)
    requires AllHex(s) && IsHexDigit(c)
    ensures AllHex(s + [c]) && HexValue(s + [c]) == HexValue(s) * 16 + DigitValue(c)
  {
    assert (s + [c])[..|s|] == s;
  }

  lemma HexValueAppend(s: string, b: nat)
    requires AllHex(s) && b < 256
    ensures AllHex(s + ByteHex(b)) && HexValue(s + ByteHex(b)) == HexValue(s) * 256 + b
  {
    var hi, lo := HexDigit(b / 16), HexDigit(b % 16);
    AppendDigit(s, hi);
    AppendDigit(s + [hi], lo);
    assert s + [hi] + [lo] == s + ByteHex(b);
  }

  /** Printing then reading a number gives it back. */
  lemma {:induction false} NatHexReads(n: nat)
    ensures HexValue(NatHex(n)) == n
  {
    if n < 256 {
      HexValueAppend("", n);
      assert "" + ByteHex(n) == ByteHex(n);
    } else {
      NatHexReads(n / 256);
      HexValueAppend(NatHex(n / 256), n % 256);
    }
  }

  lemma SerialHexReads(n: int)
    ensures SerialOk(SerialHex(n)) && SerialValue(SerialHex(n)) == n && Canonical(SerialHex(n))
  {
    if n < 0 {
      NatHexReads(-n);
      assert Magnitude(SerialHex(n)) == NatHex(-n);
    } else {
      NatHexReads(n);
      assert IsHexDigit(NatHex(n)[0]);
    }
  }

  /** The first digit counts for a power of sixteen, so a leading zero counts for nothing. */
  lemma {:induction false} LeadingZero(s: string)
    requires AllHex(s) && s != "" && s[0] == '0'
    ensures AllHex(s[1..]) && HexValue(s[1..]) == HexValue(s)
  {
    if |s| == 1 {
      assert s[..0] == "";
    } else {
      var t := s[..|s| - 1];
      LeadingZero(t);
      assert t[1..] == s[1..][..|s| - 2];
    }
  }

  lemma {:induction false} KeyKeepsValue(s: string)
    requires AllHex(s)
    ensures AllHex(Key(s)) && HexValue(Key(s)) == HexValue(s)
  {
    if s != "" && s[0] == '0' {
      LeadingZero(s);
      KeyKeepsValue(s[1..]);
    }
  }

  /** Rows with one key have one serial number: comparing keys never merges two numbers. */
  lemma SameKeySameValue(a: string, b: string)
    requires SerialOk(a) && SerialOk(b) && Key(a) == Key(b)
    ensures SerialValue(a) == SerialValue(b)
  {
    SignInKey(a);
    SignInKey(b);
    if a[0] != '-' {
      KeyKeepsValue(a);
      KeyKeepsValue(b);
    }
  }

  lemma SignInKey(s: string)
    requires SerialOk(s)
    ensures s[0] == '-' <==> Key(s) != "" && Key(s)[0] == '-'
  {
    if s[0] != '-' { KeyKeepsValue(s); }
  }

  /** The query of a status request: padded to whole bytes and put in upper case. */
  function StatusQuery(q: string): string {
    UpperAll(if |q| % 2 == 1 then "0" + q else q)
  }

  lemma {:induction false} UpperKeepsValue(s: string)
    requires AllHex(s)
    ensures AllHex(UpperAll(s)) && AllUpper(UpperAll(s)) && HexValue(UpperAll(s)) == HexValue(s)
  {
    if s != "" {
      UpperKeepsValue(s[..|s| - 1]);
      assert UpperAll(s)[..|s| - 1] == UpperAll(s[..|s| - 1]);
    }
  }

  /** Digits without a leading zero are determined by their value. */
  lemma {:induction false} KeyFromValue(s: string, t: string)
    requires AllHex(s) && AllHex(t) && AllUpper(s) && AllUpper(t)
    requires (s != "" ==> s[0] != '0') && (t != "" ==> t[0] != '0')
    requires HexValue(s) == HexValue(t)
    ensures s == t
    decreases |s| + |t|
  {
    if s == "" && t != "" {
      NoLeadingZeroIsPositive(t);
    } else if s != "" && t == "" {
      NoLeadingZeroIsPositive(s);
    } else if s != "" {
      var n, m := |s| - 1, |t| - 1;
      assert Upper(s[n]) == s[n] && Upper(t[m]) == t[m];
      assert DigitValue(s[n]) == DigitValue(t[m]) && HexValue(s[..n]) == HexValue(t[..m]);
      KeyFromValue(s[..n], t[..m]);
      assert s == s[..n] + [s[n]] && t == t[..m] + [t[m]];
    }
  }

  lemma {:induction false} NoLeadingZeroIsPositive(s: string)
    requires AllHex(s) && s != "" && s[0] != '0'
    ensures HexValue(s) > 0
  {
    if |s| > 1 { NoLeadingZeroIsPositive(s[..|s| - 1]); }
  }

  lemma {:induction false} KeyShape(s: string)
    requires AllUpper(s)
    ensures AllUpper(Key(s)) && (Key(s) != "" ==> Key(s)[0] != '0')
  {
    if s != "" && s[0] == '0' {
      KeyShape(s[1..]);
    }
  }

  // ----- which serials the tool finds by their number -----

  /** Upper case, and no zero byte behind a sign. */
  predicate Plain(s: string)
    requires SerialOk(s)
  {
    AllUpper(s) && (s[0] == '-' ==> s[1..3] != "00")
  }

  lemma {:induction false} NatHexFront(n: nat)
    requires n > 0
    ensures NatHex(n)[..2] != "00"
  {
    if n < 256 {
      assert ByteHex(n)[..2] == ByteHex(n);
      assert n == 16 * (n / 16) + n % 16;
      assert DigitValue("00"[0]) == 0 && DigitValue(ByteHex(n)[0]) == n / 16 && DigitValue(ByteHex(n)[1]) == n % 16;
    } else {
      NatHexFront(n / 256);
      assert NatHex(n)[..2] == NatHex(n / 256)[..2];
    }
  }

  lemma {:induction false} KeyUpper(s: string)
    requires AllUpper(Key(s))
    ensures AllUpper(s)
  {
    if s != "" && s[0] == '0' {
      KeyUpper(s[1..]);
      assert forall i :: 1 <= i < |s| ==> s[i] == s[1..][i - 1];
    }
  }

  /** Digits that are all zero begin with a zero byte. */
  lemma ZeroFront(m: string)
    requires AllHex(m) && |m| >= 2 && HexValue(m) == 0
    ensures m[..2] == "00"
  {
    if m[0] != '0' { NoLeadingZeroIsPositive(m); }
    LeadingZero(m);
    if m[1..][0] != '0' { NoLeadingZeroIsPositive(m[1..]); }
  }

  /** Whole bytes without a zero byte in front are determined by their value. */
  lemma BytesFromValue(m: string, n: string)
    requires AllHex(m) && AllHex(n) && AllUpper(m) && AllUpper(n) && HexValue(m) == HexValue(n)
    requires |m| % 2 == |n| % 2 == 0 && |m| >= 2 && |n| >= 2 && m[..2] != "00" && n[..2] != "00"
    ensures m == n
  {
    KeyKeepsValue(m);
    KeyKeepsValue(n);
    KeyShape(m);
    KeyShape(n);
    KeyFromValue(Key(m), Key(n));
    OneZeroAtMost(m);
    OneZeroAtMost(n);
  }

  lemma OneZeroAtMost(m: string)
    requires |m| >= 2 && m[..2] != "00"
    ensures m == Key(m) || m == "0" + Key(m)
  {
    if m[0] == '0' {
      assert m[..2] == [m[0], m[1]] && m[1] == m[1..][0];
      assert m == "0" + m[1..];
      assert Key(m) == Key(m[1..]) == m[1..];
    }
  }

  lemma UnsignedKey(s: string)
    requires SerialOk(s) && s[0] != '-'
    ensures Key(s) == Key(NatHex(HexValue(s))) <==> AllUpper(s)
  {
    var t := NatHex(HexValue(s));
    NatHexReads(HexValue(s));
    KeyKeepsValue(s);
    KeyKeepsValue(t);
    KeyShape(t);
    if AllUpper(s) {
      KeyShape(s);
      KeyFromValue(Key(s), Key(t));
    } else if Key(s) == Key(t) {
      KeyUpper(s);
    }
  }

  /** Whole bytes are printed from their value exactly when they are in upper case without a zero byte in front. */
  lemma PrintedExactly(m: string)
    requires AllHex(m) && |m| % 2 == 0 && |m| >= 2 && HexValue(m) > 0
    ensures m == NatHex(HexValue(m)) <==> AllUpper(m) && m[..2] != "00"
  {
    NatHexReads(HexValue(m));
    NatHexFront(HexValue(m));
    hide NatHex;
    if AllUpper(m) && m[..2] != "00" { BytesFromValue(m, NatHex(HexValue(m))); }
  }

  lemma ZeroKey()
    ensures Key(SerialHex(0)) == ""
  {
    assert SerialHex(0)[1..] == "0" && SerialHex(0)[1..][1..] == "";
  }

  lemma MinusInKey(m: string)
    ensures Key("-" + m) == "-" + m
  {
  }

  lemma SameBehindMinus(m: string, n: string)
    ensures "-" + m == "-" + n <==> m == n
  {
    assert ("-" + m)[1..] == m && ("-" + n)[1..] == n;
  }

  lemma SignedKey(s: string)
    requires SerialOk(s) && s[0] == '-'
    ensures Key(s) == Key(SerialHex(SerialValue(s))) <==> Plain(s)
  {
    var m := s[1..];
    assert s == "-" + m && SerialValue(s) == -(HexValue(m) as int);
    SignedPlain(s);
    ZeroKey();
    MinusInKey(m);
    MinusInKey(NatHex(HexValue(m)));
    SameBehindMinus(m, NatHex(HexValue(m)));
    if HexValue(m) == 0 { ZeroFront(m); } else { PrintedExactly(m); }
    hide AllUpper, AllHex, Plain, NatHex, HexValue, Key;
  }

  lemma SignedPlain(s: string)
    requires SerialOk(s) && s[0] == '-'
    ensures Plain(s) <==> AllUpper(s[1..]) && s[1..][..2] != "00"
  {
    assert s[1..3] == s[1..][..2];
    assert forall i :: 1 <= i < |s| ==> s[i] == s[1..][i - 1];
  }

  /** A serial is filed under the key of its own number exactly when it is plain. */
  lemma FiledByNumberExactly(s: string)
    requires SerialOk(s)
    ensures Key(s) == Key(SerialHex(SerialValue(s))) <==> Plain(s)
  {
    if s[0] == '-' { SignedKey(s); } else { UnsignedKey(s); }
  }

  /** Lookups by the tool, which prints the number it looks for, meet a serial exactly by its number
      if and only if the serial is plain. */
  lemma FoundByNumberExactly(s: string)
    requires SerialOk(s)
    ensures (forall n :: Key(s) == Key(SerialHex(n)) <==> n == SerialValue(s)) <==> Plain(s)
  {
    hide SerialOk, SerialValue, Key, SerialHex, Plain;
    FiledByNumberExactly(s);
    if Plain(s) {
      forall n ensures Key(s) == Key(SerialHex(n)) <==> n == SerialValue(s) {
        SerialHexReads(n);
        if Key(s) == Key(SerialHex(n)) { SameKeySameValue(s, SerialHex(n)); }
      }
    } else {
      assert Key(s) != Key(SerialHex(SerialValue(s)));
    }
  }

  /** For plain serials, and so for all that the tool has printed, comparing keys is comparing numbers. */
  lemma PlainKeysAreNumbers(a: string, b: string)
    requires SerialOk(a) && SerialOk(b) && Plain(a) && Plain(b)
    ensures Key(a) == Key(b) <==> SerialValue(a) == SerialValue(b)
  {
    FiledByNumberExactly(a);
    FiledByNumberExactly(b);
    hide SerialOk, SerialValue, Key, SerialHex, Plain;
    if Key(a) == Key(b) { SameKeySameValue(a, b); }
  }

  lemma CanonicalIsPlain(s: string)
    requires Canonical(s)
    ensures Plain(s)
  {
    FiledByNumberExactly(s);
    hide Plain, Key;
  }

  /** Two numbers written twice, in lower case and with a zero byte behind a sign, pass the load check under two
      keys. */
  lemma HandWrittenNumbersHide()
    ensures SerialOk("0a") && SerialOk("0A") && SerialValue("0a") == SerialValue("0A") && Key("0a") != Key("0A")
    ensures SerialOk("-0A") && SerialOk("-000A")
    ensures SerialValue("-0A") == SerialValue("-000A") && Key("-0A") != Key("-000A")
  {
    assert "0a"[..1] == "0" && "0A"[..1] == "0";
    assert HexValue("0a") == HexValue("0") * 16 + 10 && HexValue("0A") == HexValue("0") * 16 + 10;
    assert "-0A"[1..] == "0A" && "-000A"[1..] == "000A";
    LeadingZero("000A");
    LeadingZero("00A");
    assert "000A"[1..] == "00A" && "00A"[1..] == "0A";
  }

  /** A number as a user may write it: digits of either case, any number of them, with or without a sign. */
  predicate IsNumber(q: string) { Magnitude(q) != "" && AllHex(Magnitude(q)) }

  function Number(q: string): int
    requires IsNumber(q)
  {
    if q[0] == '-' then -(HexValue(Magnitude(q)) as int) else HexValue(q)
  }

  /** A request with a sign has whole bytes and no zero byte in front. */
  predicate WholeWhenSigned(q: string)
    requires IsNumber(q)
  {
    q[0] == '-' ==> |Magnitude(q)| % 2 == 0 && Magnitude(q)[..2] != "00"
  }

  /** A status request meets a plain serial if and only if the numbers agree and a request with a sign is written in
      whole bytes without a zero byte in front. */
  lemma StatusMatchesExactly(q: string, s: string)
    requires IsNumber(q) && SerialOk(s) && Plain(s)
    ensures Key(StatusQuery(q)) == Key(s) <==> Number(q) == SerialValue(s) && WholeWhenSigned(q)
  {
    if q[0] == '-' { SignedQuery(q[1..], s); } else { UnsignedQuery(q, s); }
    assert q[0] == '-' ==> q == "-" + q[1..];
  }

  lemma UnsignedQuery(q: string, s: string)
    requires AllHex(q) && q != "" && SerialOk(s) && Plain(s)
    ensures Key(StatusQuery(q)) == Key(s) <==> HexValue(q) == SerialValue(s)
  {
    var u := StatusQuery(q);
    QueryShape(q);
    KeyKeepsValue(u);
    KeyShape(u);
    SignInKey(s);
    if s[0] == '-' {
      SignedIsNegative(s);
      assert Key(u) == "" || IsHexDigit(Key(u)[0]);
    } else {
      KeyKeepsValue(s);
      KeyShape(s);
      if HexValue(q) == SerialValue(s) { KeyFromValue(Key(u), Key(s)); }
    }
  }

  lemma UpperSigned(h: string)
    ensures UpperAll("-" + h) == "-" + UpperAll(h) && UpperAll("0" + ("-" + h)) == "0" + ("-" + UpperAll(h))
  {
  }

  lemma ZeroInKey(s: string)
    ensures Key("0" + s) == Key(s)
  {
    assert ("0" + s)[1..] == s;
  }

  /** The padding goes in front of the sign and is dropped with the other leading zeros. */
  lemma SignedQueryKey(h: string)
    ensures Key(StatusQuery("-" + h)) == "-" + UpperAll(h)
  {
    UpperSigned(h);
    MinusInKey(UpperAll(h));
    ZeroInKey("-" + UpperAll(h));
    hide Key, UpperAll;
  }

  lemma SignedQuery(h: string, s: string)
    requires AllHex(h) && h != "" && SerialOk(s) && Plain(s)
    ensures Key(StatusQuery("-" + h)) == Key(s)
       <==> -(HexValue(h) as int) == SerialValue(s) && |h| % 2 == 0 && h[..2] != "00"
  {
    SignedQueryKey(h);
    UpperKeepsValue(h);
    SignInKey(s);
    assert ("-" + UpperAll(h))[0] == '-';
    if s[0] == '-' {
      SignedAgainstSigned(h, s[1..], s);
    } else if HexValue(h) == 0 && |h| % 2 == 0 {
      ZeroFront(h);
    }
  }

  lemma SignedAgainstSigned(h: string, m: string, s: string)
    requires AllHex(h) && h != "" && SerialOk(s) && Plain(s) && s == "-" + m
    ensures "-" + UpperAll(h) == Key(s)
       <==> -(HexValue(h) as int) == SerialValue(s) && |h| % 2 == 0 && h[..2] != "00"
  {
    assert s[1..] == m;
    SignedPlain(s);
    MinusInKey(m);
    SameBehindMinus(UpperAll(h), m);
    UpperKeepsValue(h);
    if |h| % 2 == 0 {
      UpperFront(h);
      if HexValue(h) == HexValue(m) && h[..2] != "00" { BytesFromValue(UpperAll(h), m); }
    }
    hide Key, HexValue, AllUpper, UpperAll;
  }

  lemma UpperFront(h: string)
    requires AllHex(h) && |h| >= 2
    ensures UpperAll(h)[..2] == "00" <==> h[..2] == "00"
  {
    assert h[..2] == [h[0], h[1]] && UpperAll(h)[..2] == [Upper(h[0]), Upper(h[1])];
  }

  /** The number minus ten is printed as "-0A": asked for with one digit it is missed, with two it is found. */
  lemma SignedQueryMisses()
    ensures IsNumber("-a") && IsNumber("-0a") && Number("-a") == Number("-0a") == SerialValue("-0A")
    ensures Plain("-0A") && Key(StatusQuery("-a")) != Key("-0A") && Key(StatusQuery("-0a")) == Key("-0A")
  {
    assert "-a"[1..] == "a" && "-0a"[1..] == "0a" && "-0A"[1..] == "0A" && "-0A"[1..3] == "0A" && "0a"[..2] == "0a";
    assert "0a"[1..] == "a" && "0A"[1..] == "A";
    LeadingZero("0a");
    LeadingZero("0A");
    assert HexValue("a") == 10 == HexValue("A");
    StatusMatchesExactly("-a", "-0A");
    StatusMatchesExactly("-0a", "-0A");
  }

  lemma QueryShape(q: string)
    requires AllHex(q) && q != ""
    ensures var u := StatusQuery(q); AllHex(u) && HexValue(u) == HexValue(q) && AllUpper(u)
  {
    var p := if |q| % 2 == 1 then "0" + q else q;
    if |q| % 2 == 1 {
      LeadingZero(p);
      assert p[1..] == q;
    }
    UpperKeepsValue(p);
  }

  /** A plain serial with a sign is below zero. */
  lemma SignedIsNegative(s: string)
    requires SerialOk(s) && Plain(s) && s[0] == '-'
    ensures SerialValue(s) < 0
  {
    SignedPlain(s);
    if HexValue(s[1..]) == 0 { ZeroFront(s[1..]); }
  }
}
