/** scripts/smc_decode/simplecrypt.py: a chained XOR cipher over eight key bytes, with a
    16-bit checksum of the data stored in front of it.

    zlib is a pair of function values: `zip` compresses, `unzip` may fail. */
module SimpleCrypt {
  import opened Crc16
  import opened Wrappers

  datatype CompressionMode = CompressionAuto | CompressionAlways | CompressionNever

  /** The result of a call, with the Python exceptions it can end in. */
  datatype Outcome<T> =
    | Done(value: T)
    | InvalidVersion   // "Invalid version or not a cyphertext"
    | IntegrityFailed  // "Integrity failed"
    | UndefinedName    // the hash branch of decryption reads a name that does not exist
    | BadStream        // zlib.decompress raises
    | TooLong          // struct.pack rejects a length of 2^32 or more

  type Zip = seq<bv8> -> seq<bv8>
  type Unzip = seq<bv8> -> Option<seq<bv8>>

  // ---------------------------------------------------------------- key parts

  const KEY_SPACE: nat := 0x1_0000_0000_0000_0000

  function Pow256(n: nat): nat {
    if n == 0 then 1 else 256 * Pow256(n - 1)
  }

  ghost predicate IsKeyParts(parts: seq<int>) {
    |parts| == 8 && forall i :: 0 <= i < 8 ==> 0 <= parts[i] < 256
  }

  /** The little-endian value of the key parts. */
  function PartsValue(parts: seq<int>): int {
    if parts == [] then 0 else parts[0] + 256 * PartsValue(parts[1..])
  }

  function Digits(n: nat, count: nat): seq<int> {
    if count == 0 then [] else [n % 256] + Digits(n / 256, count - 1)
  }

  lemma {:induction false} DigitsValue(n: nat, count: nat)
    requires n < Pow256(count)
    ensures PartsValue(Digits(n, count)) == n
    ensures |Digits(n, count)| == count && forall i :: 0 <= i < count ==> 0 <= Digits(n, count)[i] < 256
  {
    if count > 0 {
      DigitsValue(n / 256, count - 1);
      assert Digits(n, count)[1..] == Digits(n / 256, count - 1);
    }
  }

  /** n divided by 256, x times. */
  function Shifted(n: nat, x: nat): nat {
    if x == 0 then n else Shifted(n, x - 1) / 256
  }

  lemma {:induction false} ShiftedFromFront(n: nat, x: nat)
    ensures Shifted(n, x + 1) == Shifted(n / 256, x)
  {
    if x > 0 {
      ShiftedFromFront(n, x - 1);
    }
  }

  lemma {:induction false} DigitIsShifted(n: nat, count: nat, x: nat)
    requires x < count
    ensures |Digits(n, count)| == count && Digits(n, count)[x] == Shifted(n, x) % 256
    decreases count
  {
    if count > 1 {
      DigitIsShifted(n / 256, count - 1, if x > 0 then x - 1 else 0);
    }
    if x > 0 {
      ShiftedFromFront(n, x - 1);
    }
  }

  /** split_key(): the parts are the little-endian digits of the key modulo 2^64. */
  method SplitKey(key: int) returns (parts: seq<int>)
    ensures IsKeyParts(parts) && PartsValue(parts) == key % KEY_SPACE
  {
    parts := [];
    ghost var n := key % KEY_SPACE;
    for x := 0 to 8
      invariant |parts| == x && forall i :: 0 <= i < x ==> parts[i] == Shifted(n, i) % 256
    {
      var part := key % KEY_SPACE;
      var y := x;
      while y > 0
        invariant 0 <= y <= x && part == Shifted(n, x - y)
      {
        part := part / 256;
        y := y - 1;
      }
      part := part % 256;
      parts := parts + [part];
    }
    assert Pow256(8) == KEY_SPACE by {
      assert Pow256(2) == 0x1_0000;
      assert Pow256(4) == 0x1_0000_0000;
      assert Pow256(6) == 0x1_0000_0000_0000;
    }
    DigitsValue(n, 8);
    forall i | 0 <= i < 8 ensures parts[i] == Digits(n, 8)[i] {
      DigitIsShifted(n, 8, i);
    }
    assert parts == Digits(n, 8);
  }

  // ---------------------------------------------------------------- the chained cipher

  /** The key byte used at a position. */
  function KeyAt(parts: seq<int>, pos: nat): bv8
    requires IsKeyParts(parts)
  {
    parts[pos % 8] as bv8
  }

  function Mix(a: bv8, b: bv8): bv8 {
    a ^ b
  }

  lemma MixCommutes(a: bv8, b: bv8)
    ensures Mix(a, b) == Mix(b, a)
  {
  }

  lemma MixAssociates(a: bv8, b: bv8, c: bv8)
    ensures Mix(Mix(a, b), c) == Mix(a, Mix(b, c))
  {
  }

  lemma MixCancels(a: bv8, b: bv8)
    ensures Mix(Mix(a, b), b) == a
  {
  }

  lemma MixZero(a: bv8)
    ensures Mix(a, 0) == a && Mix(a, a) == 0
  {
  }

  lemma MixLaws(a: bv8, b: bv8, c: bv8)
    ensures Mix(Mix(Mix(a, b), c), b) == Mix(a, c) && Mix(Mix(a, c), c) == a
    ensures Mix(a, b) == Mix(b, a)
    ensures Mix(a, c) == Mix(b, c) ==> a == b
    ensures Mix(Mix(a, b), c) == Mix(Mix(a, c), b)
    ensures Mix(a, b) == 0 <==> a == b
  {
    hide Mix;
    MixCommutes(a, b);
    MixCommutes(0, b);
    MixAssociates(a, b, c);
    MixAssociates(a, c, b);
    MixCommutes(b, c);
    MixCancels(a, c);
    MixCancels(b, c);
    MixCancels(a, b);
    MixCancels(0, b);
    MixCancels(Mix(a, c), b);
    MixZero(a);
    MixZero(b);
  }

  function Encipher(parts: seq<int>, pos: nat, last: bv8, plain: seq<bv8>): seq<bv8>
    requires IsKeyParts(parts)
    decreases |plain|
  {
    if plain == [] then []
    else
      var next := Mix(Mix(plain[0], KeyAt(parts, pos)), last);
      [next] + Encipher(parts, pos + 1, next, plain[1..])
  }

  function Decipher(parts: seq<int>, pos: nat, last: bv8, cipher: seq<bv8>): seq<bv8>
    requires IsKeyParts(parts)
    decreases |cipher|
  {
    if cipher == [] then []
    else
      [Mix(Mix(cipher[0], last), KeyAt(parts, pos))] + Decipher(parts, pos + 1, cipher[0], cipher[1..])
  }

  lemma {:induction false} DecipherInvertsEncipher(parts: seq<int>, pos: nat, last: bv8, plain: seq<bv8>)
    requires IsKeyParts(parts)
    ensures Decipher(parts, pos, last, Encipher(parts, pos, last, plain)) == plain
    decreases |plain|
  {
    hide Mix;
    if plain != [] {
      var k := KeyAt(parts, pos);
      var next := Mix(Mix(plain[0], k), last);
      var rest := Encipher(parts, pos + 1, next, plain[1..]);
      assert ([next] + rest)[1..] == rest;
      DecipherInvertsEncipher(parts, pos + 1, next, plain[1..]);
      MixLaws(plain[0], k, last);
      MixLaws(Mix(plain[0], k), last, k);
      MixLaws(plain[0], last, k);
    }
  }

  /** Each plaintext byte depends on two adjacent ciphertext bytes and a key byte. */
  lemma {:induction false} DecipherAt(parts: seq<int>, pos: nat, last: bv8, cipher: seq<bv8>, i: nat)
    requires IsKeyParts(parts) && i < |cipher|
    ensures |Decipher(parts, pos, last, cipher)| == |cipher|
    ensures Decipher(parts, pos, last, cipher)[i]
         == Mix(Mix(cipher[i], if i == 0 then last else cipher[i - 1]), KeyAt(parts, pos + i))
    decreases |cipher|
  {
    hide Mix;
    if |cipher| > 1 {
      DecipherAt(parts, pos + 1, cipher[0], cipher[1..], if i > 0 then i - 1 else 0);
    } else {
      assert Decipher(parts, pos + 1, cipher[0], cipher[1..]) == [];
    }
  }

  // ---------------------------------------------------------------- the message format

  function High(sum: bv16): bv8 { (sum >> 8) as bv8 }
  function Low(sum: bv16): bv8 { (sum & 0xff) as bv8 }

  lemma WordOfHalves(sum: bv16)
    ensures Word(Low(sum), High(sum)) == sum
  {
  }

  function Pack32(n: nat): seq<bv8>
    requires n < 0x1_0000_0000
  {
    [(n / 0x100_0000) as bv8, (n / 0x1_0000 % 256) as bv8, (n / 0x100 % 256) as bv8, (n % 256) as bv8]
  }

  /** compress(): a length prefix and the compressed bytes. */
  function Compress(zip: Zip, buf: seq<bv8>): seq<bv8>
    requires |buf| < 0x1_0000_0000
  {
    Pack32(|buf|) + zip(buf)
  }

  /** uncompress(): the length prefix is skipped, a shorter input gives the empty string. */
  function Uncompress(unzip: Unzip, buf: seq<bv8>): Outcome<seq<bv8>> {
    if |buf| < 4 then Done([])
    else match unzip(buf[4..])
      case None => BadStream
      case Some(data) => Done(data)
  }

  const VERSION: bv8 := 3
  const FLAG_COMPRESSION: bv8 := 1
  const FLAG_CHECKSUM: bv8 := 2
  const FLAG_HASH: bv8 := 4

  /** The body to be protected and whether it is compressed. */
  function Packed(zip: Zip, mode: CompressionMode, text: seq<bv8>): Outcome<(seq<bv8>, bool)> {
    if mode.CompressionNever? then Done((text, false))
    else if |text| >= 0x1_0000_0000 then TooLong
    else
      var compressed := Compress(zip, text);
      if mode.CompressionAlways? || |compressed| < |text| then Done((compressed, true)) else Done((text, false))
  }

  function Encrypted(parts: seq<int>, zip: Zip, mode: CompressionMode, random: bv8, text: seq<bv8>): Outcome<seq<bv8>>
    requires IsKeyParts(parts)
  {
    match Packed(zip, mode, text)
    case Done((body, compressed)) =>
      var sum := Reference(body);
      var flags := if compressed then FLAG_COMPRESSION | FLAG_CHECKSUM else FLAG_CHECKSUM;
      Done([VERSION, flags] + Encipher(parts, 0, 0, [random, High(sum), Low(sum)] + body))
    case _ => TooLong
  }

  function Unpacked(unzip: Unzip, flags: bv8, body: seq<bv8>): Outcome<seq<bv8>> {
    if flags & FLAG_COMPRESSION != 0 then Uncompress(unzip, body) else Done(body)
  }

  function Decrypted(parts: seq<int>, unzip: Unzip, cipher: seq<bv8>): Outcome<seq<bv8>>
    requires IsKeyParts(parts)
  {
    if |cipher| < 3 then Done([])
    else if cipher[0] != VERSION then InvalidVersion
    else
      var plain := Decipher(parts, 0, 0, cipher[2..]);
      var ba := if plain == [] then [] else plain[1..];
      var flags := cipher[1];
      if flags & FLAG_CHECKSUM != 0 then
        if |ba| < 2 then IntegrityFailed
        else if Reference(ba[2..]) != Word(ba[1], ba[0]) then IntegrityFailed
        else Unpacked(unzip, flags, ba[2..])
      else if flags & FLAG_HASH != 0 then
        if |ba| < 20 then IntegrityFailed else UndefinedName
      else Unpacked(unzip, flags, ba)
  }

  // ---------------------------------------------------------------- the object

  /** The SimpleCrypt object: a key and the parts split from it. Its protection mode is
      always the checksum; no code changes it. */
  class Cryptor {
    var key: int
    var keyParts: seq<int>
    var compressionMode: CompressionMode
    const zip: Zip
    const unzip: Unzip

    ghost predicate Valid()
      reads this
    {
      IsKeyParts(keyParts) && PartsValue(keyParts) == key % KEY_SPACE
    }

    constructor (key: int, zip: Zip, unzip: Unzip)
      ensures Valid() && this.key == key && compressionMode == CompressionAuto
      ensures this.zip == zip && this.unzip == unzip
    {
      var parts := SplitKey(key);
      this.key := key;
      keyParts := parts;
      compressionMode := CompressionAuto;
      this.zip, this.unzip := zip, unzip;
    }

    method SetKey(key: int)
      modifies this`key, this`keyParts
      ensures Valid() && this.key == key
    {
      this.key := key;
      keyParts := SplitKey(key);
    }

    /** encrypt_to_bytes(), with the random first byte as a parameter. */
    method EncryptToBytes(text: seq<bv8>, random: bv8) returns (result: Outcome<seq<bv8>>)
      requires Valid()
      ensures result == Encrypted(keyParts, zip, compressionMode, random, text)
    {
      hide Mix, KeyAt;
      var ba := text;
      var flags: bv8 := 0;
      if compressionMode == CompressionAlways {
        if |ba| >= 0x1_0000_0000 { return TooLong; }
        ba := Compress(zip, ba);
        flags := FLAG_COMPRESSION;
      } else if compressionMode == CompressionAuto {
        if |ba| >= 0x1_0000_0000 { return TooLong; }
        var compressed := Compress(zip, ba);
        if |compressed| < |ba| {
          ba := compressed;
          flags := FLAG_COMPRESSION;
        }
      }
      flags := flags | FLAG_CHECKSUM;
      var sum := Checksum(ba);
      ba := [random, High(sum), Low(sum)] + ba;
      ba := EncipherInPlace(ba);
      result := Done([VERSION, flags] + ba);
    }

    method EncipherInPlace(plain: seq<bv8>) returns (ba: seq<bv8>)
      requires Valid()
      ensures ba == Encipher(keyParts, 0, 0, plain)
    {
      hide Mix, KeyAt;
      ba := plain;
      var last: bv8 := 0;
      var pos := 0;
      while pos < |ba|
        invariant 0 <= pos <= |ba| == |plain| && ba[pos..] == plain[pos..]
        invariant Encipher(keyParts, 0, 0, plain) == ba[..pos] + Encipher(keyParts, pos, last, plain[pos..])
      {
        var next := Mix(Mix(ba[pos], KeyAt(keyParts, pos)), last);
        ghost var before := ba;
        ba := ba[..pos] + [next] + ba[pos + 1..];
        assert before[pos] == plain[pos..][0] && plain[pos..][1..] == plain[pos + 1..];
        assert ba[..pos + 1] == before[..pos] + [next];
        assert ba[pos + 1..] == before[pos..][1..];
        last := next;
        pos := pos + 1;
      }
      assert plain[pos..] == [] && ba[..pos] == ba;
    }

    method DecipherInPlace(cipher: seq<bv8>) returns (ba: seq<bv8>)
      requires Valid()
      ensures ba == Decipher(keyParts, 0, 0, cipher)
    {
      hide Mix, KeyAt;
      ba := cipher;
      var last: bv8 := 0;
      var pos := 0;
      while pos < |ba|
        invariant 0 <= pos <= |ba| == |cipher| && ba[pos..] == cipher[pos..]
        invariant Decipher(keyParts, 0, 0, cipher) == ba[..pos] + Decipher(keyParts, pos, last, cipher[pos..])
      {
        var curr := ba[pos];
        var next := Mix(Mix(curr, last), KeyAt(keyParts, pos));
        ghost var before := ba;
        ba := ba[..pos] + [next] + ba[pos + 1..];
        assert before[pos] == cipher[pos..][0] && cipher[pos..][1..] == cipher[pos + 1..];
        assert ba[..pos + 1] == before[..pos] + [next];
        assert ba[pos + 1..] == before[pos..][1..];
        last := curr;
        pos := pos + 1;
      }
      assert cipher[pos..] == [] && ba[..pos] == ba;
    }

    /** decrypt_to_bytes() on a byte string. */
    method DecryptToBytes(cipher: seq<bv8>) returns (result: Outcome<seq<bv8>>)
      requires Valid()
      ensures result == Decrypted(keyParts, unzip, cipher)
    {
      hide Mix, KeyAt, Reference, Decipher, Word;
      if |cipher| < 3 { return Done([]); }
      if cipher[0] != VERSION { return InvalidVersion; }
      var flags := cipher[1];
      var ba := DecipherInPlace(cipher[2..]);
      ba := if ba == [] then [] else ba[1..];
      if flags & FLAG_CHECKSUM != 0 {
        if |ba| < 2 { return IntegrityFailed; }
        var stored := Word(ba[1], ba[0]);
        ba := ba[2..];
        var sum := Checksum(ba);
        if sum != stored { return IntegrityFailed; }
      } else if flags & FLAG_HASH != 0 {
        if |ba| < 20 { return IntegrityFailed; }
        return UndefinedName;
      }
      result := Unpacked(unzip, flags, ba);
    }
  }
}
