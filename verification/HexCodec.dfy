/** Hexadecimal input of salts, keys and vectors, the printers it undoes, and certificate file names. */
module HexCodec {
  import opened Chars

  type Byte = bv8

  /** The value of a digit. */
  function Nibble(c: char): (v: Byte)
    requires IsHexDigit(c)
    ensures v < 16
  {
    DigitValue(c) as Byte
  }

  /** The digit printed for a value. */
  function Digit(v: Byte): (c: char)
    requires v < 16
    ensures IsHexDigit(c) && Nibble(c) == v
  {
    HexDigit(v as nat)
  }

  function High(b: Byte): (v: Byte)
    ensures v < 16
  {
    b >> 4
  }

  function Low(b: Byte): (v: Byte)
    ensures v < 16
  {
    b & 0x0f
  }

  function Combine(hi: Byte, lo: Byte): Byte { (hi << 4) | lo }

  lemma SplitCombine(b: Byte)
    ensures Combine(High(b), Low(b)) == b
  {
  }

  lemma CombineZero(hi: Byte)
    ensures Combine(hi, 0) == hi << 4
  {
  }

  /** Two digits for each byte. */
  function Print(bytes: seq<Byte>): (s: string)
    ensures |s| == 2 * |bytes|
    ensures forall k :: 0 <= k < |bytes| ==> s[2 * k] == Digit(High(bytes[k])) && s[2 * k + 1] == Digit(Low(bytes[k]))
  {
    if bytes == [] then ""
    else
      var last := bytes[|bytes| - 1];
      Print(bytes[..|bytes| - 1]) + [Digit(High(last)), Digit(Low(last))]
  }

  /** What the first `n` digits of a text put at byte `k`: missing digits count as zero. */
  function ByteAt(s: string, n: nat, k: nat): Byte
    requires n <= |s| && AllHex(s[..n])
  {
    var hi := if 2 * k < n then assert IsHexDigit(s[..n][2 * k]); Nibble(s[2 * k]) else 0;
    var lo := if 2 * k + 1 < n then assert IsHexDigit(s[..n][2 * k + 1]); Nibble(s[2 * k + 1]) else 0;
    Combine(hi, lo)
  }

  function Used(s: string, size: nat): (n: nat)
    ensures n <= |s| && n <= 2 * size
  {
    if |s| > 2 * size then 2 * size else |s|
  }

  /** Fills the whole buffer from the left with the digits that fit; refuses anything else before or at the first
      bad character. */
  method SetHex(s: string, out: array<Byte>) returns (ok: bool)
    modifies out
    ensures ok <==> AllHex(s[..Used(s, out.Length)])
    ensures ok ==> forall k :: 0 <= k < out.Length ==> out[k] == ByteAt(s, Used(s, out.Length), k)
  {
    hide Nibble, IsHexDigit;
    var size := out.Length;
    var i := size * 2;
    var n := |s|;
    if n > i { n := i; }
    for k := 0 to size
      invariant forall j :: 0 <= j < k ==> out[j] == 0
    {
      out[k] := 0;
    }
    i := 0;
    while i < n
      invariant 0 <= i <= n == Used(s, size) && AllHex(s[..i])
      invariant forall k :: 0 <= k < size ==> out[k] == ByteAt(s, i, k)
    {
      var c := s[i];
      if !IsHexDigit(c) {
        assert s[..n][i] == c;
        return false;
      }
      assert s[..i + 1] == s[..i] + [c];
      ghost var before := out[..];
      var j := Nibble(c);
      if i % 2 == 1 {
        assert out[i / 2] == Combine(Nibble(s[i - 1]), 0) by { assert s[..i][i - 1] == s[i - 1]; }
        CombineZero(Nibble(s[i - 1]));
        out[i / 2] := out[i / 2] | j;
      } else {
        CombineZero(j);
        out[i / 2] := j << 4;
      }
      forall k | 0 <= k < size ensures out[k] == ByteAt(s, i + 1, k) {
        if k != i / 2 { assert out[k] == before[k]; }
      }
      i := i + 1;
    }
    return true;
  }

  /** What a successful call leaves in a buffer of `size` bytes. */
  function Parsed(s: string, size: nat): (r: seq<Byte>)
    requires AllHex(s[..Used(s, size)])
    ensures |r| == size
  {
    seq(size, k requires 0 <= k < size => ByteAt(s, Used(s, size), k))
  }

  lemma PrintIsHex(bytes: seq<Byte>)
    ensures AllHex(Print(bytes))
  {
    hide Print, Digit;
    forall i | 0 <= i < 2 * |bytes| ensures IsHexDigit(Print(bytes)[i]) {
      var k := i / 2;
      assert Print(bytes)[2 * k] == Digit(High(bytes[k])) && Print(bytes)[2 * k + 1] == Digit(Low(bytes[k]));
      assert i == 2 * k || i == 2 * k + 1;
    }
  }

  lemma PrintedByte(bytes: seq<Byte>, n: nat, k: nat)
    requires n <= 2 * |bytes| && n % 2 == 0
    ensures AllHex(Print(bytes)[..n])
    ensures ByteAt(Print(bytes), n, k) == if 2 * k < n then bytes[k] else 0
  {
    PrintIsHex(bytes);
    hide Print, High, Low, Digit, Nibble;
    if 2 * k < n {
      SplitCombine(bytes[k]);
    } else {
      CombineZero(0);
    }
  }

  /** Reading what was printed gives the bytes back; in a longer buffer they stand on the left with zeros behind them,
      of a shorter one they fill all of it. */
  lemma ParseUndoesPrint(bytes: seq<Byte>, size: nat)
    ensures var s := Print(bytes);
            && AllHex(s[..Used(s, size)])
            && (forall k :: 0 <= k < size ==> Parsed(s, size)[k] == if k < |bytes| then bytes[k] else 0)
  {
    hide Print, ByteAt;
    var s := Print(bytes);
    var n := Used(s, size);
    PrintedByte(bytes, n, 0);
    forall k | 0 <= k < size ensures Parsed(s, size)[k] == if k < |bytes| then bytes[k] else 0 {
      PrintedByte(bytes, n, k);
    }
  }

  lemma ReprintedDigit(s: string, k: nat)
    requires |s| % 2 == 0 && 2 * k < |s| && AllHex(s)
    ensures s[..|s|] == s
    ensures var b := ByteAt(s, |s|, k); Digit(High(b)) == Upper(s[2 * k]) && Digit(Low(b)) == Upper(s[2 * k + 1])
  {
    assert s[..|s|] == s;
    CombineSplits(Nibble(s[2 * k]), Nibble(s[2 * k + 1]));
    DigitOfNibble(s[2 * k]);
    DigitOfNibble(s[2 * k + 1]);
    hide Digit, Nibble, High, Low, Combine, Upper;
  }

  /** Printing what was read gives the digits back in upper case when they fill the buffer exactly. */
  lemma PrintUndoesParse(s: string, size: nat)
    requires |s| == 2 * size && AllHex(s)
    ensures Used(s, size) == |s| && s[..|s|] == s && Print(Parsed(s, size)) == UpperAll(s)
  {
    hide Print, ByteAt, Digit, High, Low, Upper;
    assert s[..|s|] == s;
    var r := Parsed(s, size);
    forall i | 0 <= i < |s| ensures Print(r)[i] == UpperAll(s)[i] {
      var k := i / 2;
      assert i == 2 * k || i == 2 * k + 1;
      ReprintedDigit(s, k);
      assert Print(r)[2 * k] == Digit(High(r[k])) && Print(r)[2 * k + 1] == Digit(Low(r[k]));
    }
  }

  lemma CombineSplits(hi: Byte, lo: Byte)
    requires hi < 16 && lo < 16
    ensures High(Combine(hi, lo)) == hi && Low(Combine(hi, lo)) == lo
  {
  }

  lemma DigitOfNibble(c: char)
    requires IsHexDigit(c)
    ensures Digit(Nibble(c)) == Upper(c)
  {
    assert (DigitValue(c) as Byte) as nat == DigitValue(c);
  }

  // ----- certificate file names -----

  const PATH_MAX := 4096

  const SUFFIX := ".pem"

  function SerialDigits(serial: seq<Byte>): string {
    if serial == [] then "00" else Print(serial)
  }

  /** Directory, slash, the serial bytes in hex (two zeros for none), and the suffix. */
  function FileName(dir: string, serial: seq<Byte>): string {
    dir + "/" + SerialDigits(serial) + SUFFIX
  }

  /** Length of a bounded copy of the directory followed by a bounded append of the slash. */
  function DirLength(dir: string): nat {
    if |dir| < PATH_MAX then |dir| + 1 else PATH_MAX
  }

  /** Writes the digits of the serial number, or two zeros, at a place of the buffer. */
  method PutSerial(buffer: array<char>, at: nat, serial: seq<Byte>) returns (n: nat)
    requires at + 2 * (if |serial| > 0 then |serial| else 1) <= buffer.Length
    modifies buffer
    ensures n == at + |SerialDigits(serial)| <= buffer.Length
    ensures buffer[..at] == old(buffer[..at]) && buffer[at..n] == SerialDigits(serial)
  {
    hide Digit, Nibble, High, Low, IsHexDigit;
    n := at;
    if |serial| > 0 {
      for j := 0 to |serial|
        invariant n == at + 2 * j
        invariant buffer[..at] == old(buffer[..at]) && buffer[at..n] == Print(serial[..j])
      {
        assert serial[..j + 1][..j] == serial[..j];
        ghost var done := buffer[at..n];
        buffer[n] := Digit(High(serial[j]));
        buffer[n + 1] := Digit(Low(serial[j]));
        n := n + 2;
        assert buffer[at..n] == done + [Digit(High(serial[j])), Digit(Low(serial[j]))];
      }
      assert serial[..|serial|] == serial;
    } else {
      buffer[n] := '0';
      buffer[n + 1] := '0';
      n := n + 2;
    }
  }

  /** Writes the name into the path buffer behind the directory, or refuses when it does not fit with its terminator. */
  method WriteFileName(dir: string, serial: seq<Byte>, buffer: array<char>) returns (ok: bool, n: nat)
    requires buffer.Length == PATH_MAX
    requires |dir| + 1 < PATH_MAX ==> buffer[..|dir| + 1] == dir + "/"
    modifies buffer
    ensures ok <==> |FileName(dir, serial)| + 1 <= PATH_MAX
    ensures ok ==> n == |FileName(dir, serial)| && n < PATH_MAX
    ensures ok ==> buffer[..n] == FileName(dir, serial) && buffer[n] == '\0'
  {
    hide Print, Nibble, Digit, IsHexDigit;
    var outdirlen := DirLength(dir);
    var filenLen := 2 * (if |serial| > 0 then |serial| else 1) + |SUFFIX| + 1;
    if outdirlen + filenLen > PATH_MAX { return false, 0; }
    n := PutSerial(buffer, outdirlen, serial);
    assert buffer[..n] == buffer[..outdirlen] + buffer[outdirlen..n];
    ghost var stem := buffer[..n];
    assert stem == dir + "/" + SerialDigits(serial);
    buffer[n] := '.';
    buffer[n + 1] := 'p';
    buffer[n + 2] := 'e';
    buffer[n + 3] := 'm';
    n := n + 4;
    buffer[n] := '\0';
    assert buffer[..n] == stem + SUFFIX;
    return true, n;
  }

  lemma PrintDiffers(a: seq<Byte>, b: seq<Byte>)
    requires Print(a) == Print(b)
    ensures a == b
  {
    var n := 2 * |a|;
    forall k | 0 <= k < |a| ensures a[k] == b[k] {
      PrintedByte(a, n, k);
      PrintedByte(b, n, k);
    }
  }

  lemma ZeroText()
    ensures Print([0]) == "00"
  {
    assert [0 as Byte][..0] == [];
    assert High(0) == 0 && Low(0) == 0;
  }

  /** Different serial numbers get different files, except that no byte and a single zero byte share one. */
  lemma FileNamesDiffer(dir: string, a: seq<Byte>, b: seq<Byte>)
    ensures FileName(dir, a) == FileName(dir, b) <==> a == b || (a == [] && b == [0]) || (a == [0] && b == [])
  {
    var x, y := FileName(dir, a), FileName(dir, b);
    assert x[|dir| + 1..|x| - 4] == SerialDigits(a) && y[|dir| + 1..|y| - 4] == SerialDigits(b);
    ZeroText();
    hide Print;
    if SerialDigits(a) == SerialDigits(b) {
      PrintDiffers(if a == [] then [0] else a, if b == [] then [0] else b);
    }
  }
}
