/** Encrypting and decrypting a stream: the salted header, the key material, and the chunked copy. */
module EncStream {
  import opened Wrappers
  import opened Chars
  import opened HexCodec

  type Bytes = seq<Byte>

  /** A cipher as the library offers it: padding included, decryption may fail. */
  datatype Cipher = Cipher(
    keyLength: nat,
    ivLength: nat,
    encrypt: (Bytes, Bytes, Bytes) -> Bytes,
    decrypt: (Bytes, Bytes, Bytes) -> Option<Bytes>)

  /** Library functions that are not modelled: both key derivations and the base64 filter. */
  datatype Library = Library(
    pbkdf2: (string, Option<Bytes>, nat) -> Bytes,
    bytesToKey: (string, Option<Bytes>, nat, nat) -> (Bytes, Bytes),
    encode: Bytes -> Bytes,
    decode: Bytes -> Bytes)

  /** Options both sides can share. */
  datatype Options = Options(
    cipher: Option<Cipher>,
    pass: Option<string>,
    hexKey: Option<string>,
    hexIv: Option<string>,
    hexSalt: Option<string>,
    noSalt: bool,
    pbkdf2: bool,
    base64: bool,
    bufSize: int,
    printOnly: bool)

  const SALT_LENGTH := 8
  const MAGIC: Bytes := [0x53, 0x61, 0x6c, 0x74, 0x65, 0x64, 0x5f, 0x5f]

  /** Lengths the library keeps, and a passphrase or a key for every cipher: without either one the program asks. */
  ghost predicate Usable(lib: Library, o: Options) {
    && (forall p, s, n :: |lib.pbkdf2(p, s, n)| == n)
    && (forall p, s, k, v :: |lib.bytesToKey(p, s, k, v).0| == k && |lib.bytesToKey(p, s, k, v).1| == v)
    && (o.cipher.Some? ==> o.pass.Some? || o.hexKey.Some?)
  }

  /** Decryption undoes encryption and base64 decoding undoes encoding. */
  ghost predicate Inverse(lib: Library, o: Options) {
    && (forall b :: lib.decode(lib.encode(b)) == b)
    && (o.cipher.Some? ==> forall k, v, m :: o.cipher.value.decrypt(k, v, o.cipher.value.encrypt(k, v, m)) == Some(m))
  }

  // ----- key material -----

  function Hex(s: string, size: nat): Option<Bytes> {
    if AllHex(s[..Used(s, size)]) then Some(Parsed(s, size)) else None
  }

  /** Reads one hexadecimal argument into a buffer. */
  method ReadHex(s: string, size: nat) returns (r: Option<Bytes>)
    ensures r == Hex(s, size)
  {
    var out := new Byte[size];
    var ok := SetHex(s, out);
    if ok {
      assert out[..] == Parsed(s, size);
      r := Some(out[..]);
    } else {
      r := None;
    }
  }

  /** Key and vector from the passphrase. */
  function Derived(lib: Library, o: Options, c: Cipher, salt: Option<Bytes>): (Bytes, Bytes)
    requires o.pass.Some? && forall p, s, n :: |lib.pbkdf2(p, s, n)| == n
  {
    if o.pbkdf2 then
      var both := lib.pbkdf2(o.pass.value, salt, c.keyLength + c.ivLength);
      (both[..c.keyLength], both[c.keyLength..])
    else lib.bytesToKey(o.pass.value, salt, c.keyLength, c.ivLength)
  }

  /** Key and vector in use: what the arguments give replaces what was derived; without either there is no vector. */
  function KeyAndIv(lib: Library, o: Options, c: Cipher, salt: Option<Bytes>): Option<(Bytes, Bytes)>
    requires o.pass.Some? ==> forall p, s, n :: |lib.pbkdf2(p, s, n)| == n
  {
    var derived := if o.pass.Some? then Derived(lib, o, c, salt) else ([], []);
    var iv := if o.hexIv.Some? && c.ivLength > 0 then Hex(o.hexIv.value, c.ivLength)
              else if o.hexIv.None? && o.pass.None? && c.ivLength != 0 then None
              else Some(derived.1);
    var key := if o.hexKey.Some? then Hex(o.hexKey.value, c.keyLength) else Some(derived.0);
    if iv.None? || key.None? then None else Some((key.value, iv.value))
  }

  /** Key and vector have the lengths of the cipher; without arguments PBKDF2 output is cut into key and vector in this
      order with nothing left over, and a key or vector argument that is given is the one in use. */
  lemma KeySources(lib: Library, o: Options, c: Cipher, salt: Option<Bytes>)
    requires Usable(lib, o) && o.cipher == Some(c) && KeyAndIv(lib, o, c, salt).Some?
    ensures var k := KeyAndIv(lib, o, c, salt).value;
            && |k.0| == c.keyLength && |k.1| == c.ivLength
            && (o.pass.Some? && o.pbkdf2 && o.hexKey.None? && o.hexIv.None? ==>
                  k.0 + k.1 == lib.pbkdf2(o.pass.value, salt, c.keyLength + c.ivLength))
            && (o.hexKey.Some? ==> Some(k.0) == Hex(o.hexKey.value, c.keyLength))
            && (o.hexIv.Some? && c.ivLength > 0 ==> Some(k.1) == Hex(o.hexIv.value, c.ivLength))
  {
    hide Parsed;
  }

  method MakeKey(lib: Library, o: Options, c: Cipher, salt: Option<Bytes>) returns (r: Option<(Bytes, Bytes)>)
    requires Usable(lib, o) && o.cipher == Some(c)
    ensures r == KeyAndIv(lib, o, c, salt)
  {
    var key: Bytes, iv: Bytes := [], [];
    if o.pass.Some? {
      if o.pbkdf2 {
        var tmpkeyiv := lib.pbkdf2(o.pass.value, salt, c.keyLength + c.ivLength);
        assert tmpkeyiv[c.keyLength..c.keyLength + c.ivLength] == tmpkeyiv[c.keyLength..];
        key, iv := tmpkeyiv[..c.keyLength], tmpkeyiv[c.keyLength..c.keyLength + c.ivLength];
      } else {
        var both := lib.bytesToKey(o.pass.value, salt, c.keyLength, c.ivLength);
        key, iv := both.0, both.1;
      }
    }
    if o.hexIv.Some? {
      if c.ivLength > 0 {
        var v := ReadHex(o.hexIv.value, c.ivLength);
        if v.None? { return None; }
        iv := v.value;
      }
    }
    if o.hexIv.None? && o.pass.None? && c.ivLength != 0 { return None; }
    if o.hexKey.Some? {
      var k := ReadHex(o.hexKey.value, c.keyLength);
      if k.None? { return None; }
      key := k.value;
    }
    return Some((key, iv));
  }

  /** A random salt is written in front of the data: for a passphrase, unless a salt was given or none is wanted. */
  predicate Salted(o: Options) {
    o.cipher.Some? && o.pass.Some? && !o.noSalt && o.hexSalt.None?
  }

  /** The salt when it does not travel with the data: nothing, or the one given, or an error. */
  function FixedSalt(o: Options): Option<Option<Bytes>> {
    if o.pass.None? || o.noSalt || o.hexSalt.None? then Some(None)
    else
      var s := Hex(o.hexSalt.value, SALT_LENGTH);
      if s.None? then None else Some(s)
  }

  // ----- the copy -----

  /** The size of the buffer: the argument cut to 32 bits, and room for a line of base64. */
  function BufferSize(o: Options): int {
    var low := o.bufSize % 0x1_0000_0000;
    var n := if low < 0x8000_0000 then low else low - 0x1_0000_0000;
    if o.base64 && n < 80 then 80 else n
  }

  /** How many bytes a read returns: at least one and no more than fit or are left. */
  type Pace = nat -> nat

  function ReadSize(pace: Pace, i: nat, size: nat, left: nat): (n: nat)
    requires size > 0 && left > 0
    ensures 1 <= n <= size && n <= left
  {
    var most := if size < left then size else left;
    if 1 <= pace(i) <= most then pace(i) else most
  }

  /** Reads and writes until the input ends; a read into an empty buffer stops the loop. */
  method Copy(input: Bytes, size: int, pace: Pace) returns (output: Bytes)
    ensures output == if size > 0 then input else []
  {
    output := [];
    var at, i := 0, 0;
    while at < |input|
      invariant 0 <= at <= |input| && output == input[..at]
      invariant size <= 0 ==> at == 0
      decreases |input| - at
    {
      if size <= 0 { break; }
      var inl := ReadSize(pace, i, size, |input| - at);
      output := output + input[at..at + inl];
      at, i := at + inl, i + 1;
    }
  }

  function Copied(input: Bytes, size: int): Bytes {
    if size > 0 then input else []
  }

  // ----- both directions -----

  function Wrap(lib: Library, o: Options, b: Bytes): Bytes { if o.base64 then lib.encode(b) else b }

  function Unwrap(lib: Library, o: Options, b: Bytes): Bytes { if o.base64 then lib.decode(b) else b }

  /** The file an encrypting run writes. */
  function Encrypted(lib: Library, o: Options, message: Bytes, random: Bytes): Option<Bytes>
    requires o.pass.Some? ==> forall p, s, n :: |lib.pbkdf2(p, s, n)| == n
  {
    var data := Copied(message, BufferSize(o));
    if o.cipher.None? then Some(Wrap(lib, o, data))
    else
      var fixedSalt := FixedSalt(o);
      if fixedSalt.None? then None
      else
        var salt := if Salted(o) then Some(random) else fixedSalt.value;
        var k := KeyAndIv(lib, o, o.cipher.value, salt);
        if k.None? then None
        else if o.printOnly then Some([])
        else
          var body := o.cipher.value.encrypt(k.value.0, k.value.1, data);
          Some(Wrap(lib, o, (if Salted(o) then MAGIC + random else []) + body))
  }

  /** The message a decrypting run finds in a file. */
  function Decrypted(lib: Library, o: Options, file: Bytes): Option<Bytes>
    requires o.pass.Some? ==> forall p, s, n :: |lib.pbkdf2(p, s, n)| == n
  {
    var input := Unwrap(lib, o, file);
    if o.cipher.None? then Some(Copied(input, BufferSize(o)))
    else
      var fixedSalt := FixedSalt(o);
      var head := |MAGIC| + SALT_LENGTH;
      if fixedSalt.None? || (Salted(o) && (|input| < head || input[..|MAGIC|] != MAGIC)) then None
      else
        var salt := if Salted(o) then Some(input[|MAGIC|..head]) else fixedSalt.value;
        var k := KeyAndIv(lib, o, o.cipher.value, salt);
        if k.None? then None
        else if o.printOnly then Some([])
        else
          var body := if Salted(o) then input[head..] else input;
          o.cipher.value.decrypt(k.value.0, k.value.1, Copied(body, BufferSize(o)))
  }

  method EncryptRun(lib: Library, o: Options, message: Bytes, random: Bytes, pace: Pace) returns (file: Option<Bytes>)
    requires Usable(lib, o)
    ensures file == Encrypted(lib, o, message, random)
  {
    hide KeyAndIv, BufferSize, Hex;
    if o.cipher.None? {
      var plain := Copy(message, BufferSize(o), pace);
      return Some(Wrap(lib, o, plain));
    }
    var c := o.cipher.value;
    var written: Bytes := [];
    var salt: Option<Bytes> := None;
    if o.pass.Some? && !o.noSalt {
      if o.hexSalt.Some? {
        salt := ReadHex(o.hexSalt.value, SALT_LENGTH);
        if salt.None? { return None; }
      } else {
        salt := Some(random);
        if !o.printOnly { written := MAGIC + random; }
      }
    }
    var k := MakeKey(lib, o, c, salt);
    if k.None? { return None; }
    if o.printOnly { return Some([]); }
    var data := Copy(message, BufferSize(o), pace);
    return Some(Wrap(lib, o, written + c.encrypt(k.value.0, k.value.1, data)));
  }

  method DecryptRun(lib: Library, o: Options, file: Bytes, pace: Pace) returns (message: Option<Bytes>)
    requires Usable(lib, o)
    ensures message == Decrypted(lib, o, file)
  {
    hide KeyAndIv, BufferSize, Hex;
    var input := Unwrap(lib, o, file);
    if o.cipher.None? {
      var plain := Copy(input, BufferSize(o), pace);
      return Some(plain);
    }
    var c := o.cipher.value;
    var at := 0;
    var salt: Option<Bytes> := None;
    if o.pass.Some? && !o.noSalt {
      if o.hexSalt.Some? {
        salt := ReadHex(o.hexSalt.value, SALT_LENGTH);
        if salt.None? { return None; }
      } else {
        if |input| < |MAGIC| || input[..|MAGIC|] != MAGIC { return None; }
        at := |MAGIC|;
        if |input| < at + SALT_LENGTH { return None; }
        salt := Some(input[at..at + SALT_LENGTH]);
        at := at + SALT_LENGTH;
      }
    }
    var k := MakeKey(lib, o, c, salt);
    if k.None? { return None; }
    if o.printOnly { return Some([]); }
    assert input[0..] == input;
    var data := Copy(input[at..], BufferSize(o), pace);
    return c.decrypt(k.value.0, k.value.1, data);
  }

  // ----- round trip -----

  /** With a buffer, decrypting with the same options gives back every message that could be encrypted:
      the header written is the header read, so key and vector are the same. */
  lemma DecryptUndoesEncrypt(lib: Library, o: Options, message: Bytes, random: Bytes)
    requires Usable(lib, o) && Inverse(lib, o) && |random| == SALT_LENGTH && !o.printOnly
    requires BufferSize(o) > 0 && Encrypted(lib, o, message, random).Some?
    ensures Decrypted(lib, o, Encrypted(lib, o, message, random).value) == Some(message)
  {
    hide KeyAndIv, BufferSize, FixedSalt;
    if Salted(o) {
      var k := KeyAndIv(lib, o, o.cipher.value, Some(random)).value;
      var body := o.cipher.value.encrypt(k.0, k.1, message);
      var input := MAGIC + random + body;
      assert input[..|MAGIC|] == MAGIC && input[|MAGIC|..|MAGIC| + SALT_LENGTH] == random;
      assert input[|MAGIC| + SALT_LENGTH..] == body;
    } else if o.cipher.Some? {
      var k := KeyAndIv(lib, o, o.cipher.value, FixedSalt(o).value).value;
      var body := o.cipher.value.encrypt(k.0, k.1, message);
      assert [] + body == body;
    }
  }

  /** Without a buffer the file does not depend on the message. */
  lemma NoBufferLosesMessage(lib: Library, o: Options, a: Bytes, b: Bytes, random: Bytes)
    requires Usable(lib, o) && BufferSize(o) <= 0
    ensures Encrypted(lib, o, a, random) == Encrypted(lib, o, b, random)
  {
  }

  /** For options under which something can be encrypted at all: every message comes back exactly when the size given
      leaves a buffer after it was cut to 32 bits. */
  lemma RoundTripExactly(lib: Library, o: Options, random: Bytes)
    requires Usable(lib, o) && Inverse(lib, o) && |random| == SALT_LENGTH && !o.printOnly
    requires Encrypted(lib, o, [], random).Some?
    ensures (forall m :: Encrypted(lib, o, m, random).Some?
                         && Decrypted(lib, o, Encrypted(lib, o, m, random).value) == Some(m)) <==> BufferSize(o) > 0
  {
    hide KeyAndIv, BufferSize, FixedSalt;
    if BufferSize(o) > 0 {
      forall m ensures Encrypted(lib, o, m, random).Some?
                       && Decrypted(lib, o, Encrypted(lib, o, m, random).value) == Some(m) {
        DecryptUndoesEncrypt(lib, o, m, random);
      }
    } else {
      NoBufferLosesMessage(lib, o, [], [0], random);
      var e := Encrypted(lib, o, [], random).value;
      assert Decrypted(lib, o, e) != Some([]) || Decrypted(lib, o, e) != Some([0]);
    }
  }

  /** A size of 2^32 is cut to zero, and some message does not come back. */
  lemma HugeBufferLosesAMessage(lib: Library, o: Options, random: Bytes) returns (m: Bytes)
    requires Usable(lib, o) && Inverse(lib, o) && |random| == SALT_LENGTH && !o.printOnly
    requires Encrypted(lib, o, [], random).Some? && o.bufSize == 0x1_0000_0000 && !o.base64
    ensures Encrypted(lib, o, m, random) == Encrypted(lib, o, [], random)
    ensures Decrypted(lib, o, Encrypted(lib, o, m, random).value) != Some(m)
  {
    NoBufferLosesMessage(lib, o, [], [0], random);
    hide Encrypted, Decrypted;
    m := if Decrypted(lib, o, Encrypted(lib, o, [], random).value) == Some([]) then [0] else [];
  }
}
