/** What stands at each byte of a SimpleCrypt message, in terms of the key and the text:
    scripts/smc_decode/simplecrypt.py:113-232. */
module SimpleCryptBytes {
  import opened Wrappers
  import opened Crc16
  import opened SimpleCrypt
  import opened SimpleCryptLaws

  // ---------------------------------------------------------------- the key byte at a position

  /** The j-th digit of a number to base 256, the last one being number 0. */
  function Digit(n: nat, j: nat): (d: nat)
    ensures d < 256
    decreases j
  {
    if j == 0 then n % 256 else Digit(n / 256, j - 1)
  }

  lemma LastDigit(d: nat, v: nat)
    requires d < 256
    ensures (d + 256 * v) % 256 == d && (d + 256 * v) / 256 == v
  {
  }

  lemma {:induction false} PartIsDigit(parts: seq<int>, j: nat)
    requires j < |parts| && forall i :: 0 <= i < |parts| ==> 0 <= parts[i] < 256
    ensures PartsValue(parts) >= 0 && parts[j] == Digit(PartsValue(parts), j)
    decreases |parts|
  {
    var v := PartsValue(parts[1..]);
    if |parts| > 1 {
      PartIsDigit(parts[1..], if j > 0 then j - 1 else 0);
    }
    LastDigit(parts[0], v);
  }

  /** The byte of the key used at a position: digit i mod 8 of the key modulo 2^64. */
  function KeyByte(key: int, i: nat): bv8 {
    Digit(key % 0x1_0000_0000_0000_0000, i % 8) as bv8
  }

  lemma KeyByteAt(key: int, parts: seq<int>, i: nat)
    requires IsKeyParts(parts) && PartsValue(parts) == key % KEY_SPACE
    ensures KeyAt(parts, i) == KeyByte(key, i)
  {
    PartIsDigit(parts, i % 8);
  }

  /** Addition bit by bit. */
  function Sum(a: bv8, b: bv8, c: bv8): bv8 {
    a ^ b ^ c
  }

  /** The byte sent is the byte to be sent, the one sent before it and the key byte, added bit by
      bit. */
  ghost predicate ChainedAt(key: int, plain: seq<bv8>, cipher: seq<bv8>, i: nat)
    requires i < |plain| == |cipher|
  {
    cipher[i] == Sum(plain[i], if i == 0 then 0 else cipher[i - 1], KeyByte(key, i))
  }

  ghost predicate Chained(key: int, plain: seq<bv8>, cipher: seq<bv8>) {
    && |cipher| == |plain|
    && forall i {:trigger ChainedAt(key, plain, cipher, i)} :: 0 <= i < |plain| ==> ChainedAt(key, plain, cipher, i)
  }

  lemma ChainedLength(key: int, plain: seq<bv8>, cipher: seq<bv8>)
    requires Chained(key, plain, cipher)
    ensures |cipher| == |plain|
  {
  }

  lemma {:induction false} EncipherAt(parts: seq<int>, pos: nat, last: bv8, plain: seq<bv8>, i: nat)
    requires IsKeyParts(parts) && i < |plain|
    ensures |Encipher(parts, pos, last, plain)| == |plain|
    ensures var c := Encipher(parts, pos, last, plain);
            c[i] == Mix(Mix(plain[i], KeyAt(parts, pos + i)), if i == 0 then last else c[i - 1])
    decreases |plain|
  {
    hide Mix, KeyAt;
    EncipherLength(parts, pos, last, plain);
    if i > 0 {
      EncipherAt(parts, pos + 1, Mix(Mix(plain[0], KeyAt(parts, pos)), last), plain[1..], i - 1);
    }
  }

  lemma MixIsSum(a: bv8, b: bv8, c: bv8)
    ensures Mix(Mix(a, b), c) == Sum(a, c, b) && Mix(Mix(a, c), b) == Sum(a, c, b)
  {
  }

  /** Enciphering with a key's parts chains with its bytes. */
  lemma EncipherChains(key: int, parts: seq<int>, plain: seq<bv8>)
    requires IsKeyParts(parts) && PartsValue(parts) == key % KEY_SPACE
    ensures Chained(key, plain, Encipher(parts, 0, 0, plain))
  {
    EncipherLength(parts, 0, 0, plain);
    var c := Encipher(parts, 0, 0, plain);
    hide Encipher, KeyAt, Mix, KeyByte, Sum;
    forall i | 0 <= i < |plain| ensures ChainedAt(key, plain, c, i) {
      EncipherAt(parts, 0, 0, plain, i);
      KeyByteAt(key, parts, i);
      MixIsSum(plain[i], KeyByte(key, i), if i == 0 then 0 else c[i - 1]);
    }
  }

  lemma SumTwice(a: bv8, b: bv8, c: bv8)
    ensures Sum(Sum(a, b, c), b, c) == a
  {
  }

  /** Deciphering gives the one byte string that chains to the bytes received. */
  lemma DecipherChains(key: int, parts: seq<int>, cipher: seq<bv8>)
    requires IsKeyParts(parts) && PartsValue(parts) == key % KEY_SPACE
    ensures Chained(key, Decipher(parts, 0, 0, cipher), cipher)
  {
    if cipher != [] {
      DecipherAt(parts, 0, 0, cipher, 0);
    }
    var p := Decipher(parts, 0, 0, cipher);
    hide Decipher, KeyAt, Mix, KeyByte, Sum;
    forall i | 0 <= i < |cipher| ensures ChainedAt(key, p, cipher, i) {
      DecipherAt(parts, 0, 0, cipher, i);
      KeyByteAt(key, parts, i);
      var last := if i == 0 then 0 else cipher[i - 1];
      MixIsSum(cipher[i], KeyByte(key, i), last);
      SumTwice(cipher[i], last, KeyByte(key, i));
    }
  }

  // ---------------------------------------------------------------- the bytes of a message

  lemma SumOfHalves(sum: bv16)
    ensures (High(sum) as bv16 << 8) | Low(sum) as bv16 == sum
  {
  }

  /** A length in four bytes, the highest first. */
  predicate IsLength(b: seq<bv8>, n: nat) {
    |b| == 4 && b == [Digit(n, 3) as bv8, Digit(n, 2) as bv8, Digit(n, 1) as bv8, Digit(n, 0) as bv8]
  }

  lemma Quotients(n: nat)
    requires n < 0x1_0000_0000
    ensures n / 256 / 256 == n / 0x1_0000 && n / 256 / 256 / 256 == n / 0x100_0000 < 256
  {
  }

  lemma DigitUnfolds(n: nat, j: nat)
    ensures Digit(n, 0) == n % 256 && Digit(n, j + 1) == Digit(n / 256, j)
  {
  }

  lemma FourDigits(n: nat)
    requires n < 0x1_0000_0000
    ensures Digit(n, 0) == n % 256 && Digit(n, 1) == n / 0x100 % 256
    ensures Digit(n, 2) == n / 0x1_0000 % 256 && Digit(n, 3) == n / 0x100_0000
  {
    hide Digit;
    Quotients(n);
    var a := n / 256;
    var b := a / 256;
    DigitUnfolds(n, 0);
    DigitUnfolds(n, 1);
    DigitUnfolds(n, 2);
    DigitUnfolds(a, 0);
    DigitUnfolds(a, 1);
    DigitUnfolds(b, 0);
    DigitUnfolds(b / 256, 0);
  }

  lemma CompressedBytes(zip: Zip, text: seq<bv8>)
    requires |text| < 0x1_0000_0000
    ensures var b := Compress(zip, text); |b| == 4 + |zip(text)| && IsLength(b[..4], |text|) && b[4..] == zip(text)
  {
    FourDigits(|text|);
    assert Compress(zip, text)[..4] == Pack32(|text|);
  }

  /** What is protected: the text, or, if it is compressed, its length in four bytes, the highest
      first, and the compressed text. It is compressed always, never, or if that is shorter. */
  ghost predicate Protects(body: seq<bv8>, compressed: bool, zip: Zip, mode: CompressionMode, text: seq<bv8>) {
    && (!compressed ==> body == text)
    && (compressed ==> |body| >= 4 && IsLength(body[..4], |text|) && body[4..] == zip(text))
    && match mode
       case CompressionAlways => compressed
       case CompressionNever => !compressed
       case CompressionAuto => compressed <==> 4 + |zip(text)| < |text|
  }

  lemma PackedProtects(zip: Zip, mode: CompressionMode, text: seq<bv8>)
    ensures var p := Packed(zip, mode, text);
            if mode.CompressionNever? || |text| < 0x1_0000_0000
            then p.Done? && Protects(p.value.0, p.value.1, zip, mode, text) else p == TooLong
  {
    hide Compress, IsLength;
    if |text| < 0x1_0000_0000 {
      CompressedBytes(zip, text);
    }
  }

  /** The checksum in two bytes, the higher first, is that of what is behind it. */
  ghost predicate SumMatches(plain: seq<bv8>) {
    |plain| >= 3 && (plain[1] as bv16 << 8) | plain[2] as bv16 == Reference(plain[3..])
  }

  lemma SumMatchesIff(plain: seq<bv8>)
    ensures SumMatches(plain) <==> Matches(plain)
  {
    hide Reference;
  }

  /** The message in clear: the random byte, the checksum of what is protected in two bytes, the
      higher first, and what is protected. */
  ghost predicate Carries(plain: seq<bv8>, random: bv8, body: seq<bv8>) {
    SumMatches(plain) && plain[0] == random && plain[3..] == body
  }

  /** Encryption fails exactly if a text of 2^32 bytes or more may be compressed. Otherwise the
      result is the version, the flags and the message chained with the bytes of the key. */
  lemma EncryptsTo(key: int, parts: seq<int>, zip: Zip, mode: CompressionMode, random: bv8, text: seq<bv8>)
    returns (body: seq<bv8>, compressed: bool, plain: seq<bv8>)
    requires IsKeyParts(parts) && PartsValue(parts) == key % KEY_SPACE
    ensures mode.CompressionNever? || |text| < 0x1_0000_0000 ==>
              && Encrypted(parts, zip, mode, random, text).Done?
              && var c := Encrypted(parts, zip, mode, random, text).value;
              && c[..2] == [3, if compressed then 3 else 2] && Chained(key, plain, c[2..])
              && Carries(plain, random, body) && Protects(body, compressed, zip, mode, text)
    ensures !(mode.CompressionNever? || |text| < 0x1_0000_0000) ==>
              Encrypted(parts, zip, mode, random, text) == TooLong
  {
    hide Encipher, Mix, KeyAt, Reference, High, Low, Chained, Protects, Packed;
    PackedProtects(zip, mode, text);
    var packed := Packed(zip, mode, text);
    body, compressed, plain := [], false, [];
    if packed.Done? {
      body, compressed := packed.value.0, packed.value.1;
      var sum := Reference(body);
      plain := [random, High(sum), Low(sum)] + body;
      EncipherChains(key, parts, plain);
      SumOfHalves(sum);
      assert FLAG_COMPRESSION | FLAG_CHECKSUM == 3;
    }
  }

  /** What decryption makes of a message in clear with its flags: the checksum must be that of
      what is behind it, which is decompressed from its fifth byte on if the flags say so. */
  ghost predicate Yields(unzip: Unzip, flags: bv8, plain: seq<bv8>, result: Outcome<seq<bv8>>) {
    if !SumMatches(plain) then result == IntegrityFailed
    else if flags & 1 == 0 then result == Done(plain[3..])
    else if |plain| < 7 then result == Done([])
    else result == match unzip(plain[7..]) case None => BadStream case Some(text) => Done(text)
  }

  lemma BehindTheSum(plain: seq<bv8>)
    ensures |plain| >= 3 ==> plain[1..][2..] == plain[3..] && plain[1..][0] == plain[1] && plain[1..][1] == plain[2]
    ensures |plain| >= 7 ==> plain[3..][4..] == plain[7..]
  {
  }

  /** A message of the version with the checksum flag decrypts to what the byte string yields
      that chains to it with the bytes of the key. */
  lemma DecryptsTo(key: int, parts: seq<int>, unzip: Unzip, cipher: seq<bv8>) returns (plain: seq<bv8>)
    requires IsKeyParts(parts) && PartsValue(parts) == key % KEY_SPACE
    requires |cipher| >= 3 && cipher[0] == 3 && cipher[1] & 2 != 0
    ensures Chained(key, plain, cipher[2..]) && Yields(unzip, cipher[1], plain, Decrypted(parts, unzip, cipher))
  {
    hide Decipher, Chained, Reference, Word, SumMatches;
    plain := Decipher(parts, 0, 0, cipher[2..]);
    DecipherChains(key, parts, cipher[2..]);
    ChainedLength(key, plain, cipher[2..]);
    BehindTheSum(plain);
    SumMatchesIff(plain);
  }
}
