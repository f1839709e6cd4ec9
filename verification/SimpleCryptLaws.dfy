/** Laws of the SimpleCrypt message format: decryption inverts encryption, and exactly which
    single-byte changes of a ciphertext the integrity check lets through. */
module SimpleCryptLaws {
  import opened Crc16
  import opened SimpleCrypt
  import CrcPeriod
  import opened Wrappers

  lemma {:induction false} EncipherLength(parts: seq<int>, pos: nat, last: bv8, plain: seq<bv8>)
    requires IsKeyParts(parts)
    ensures |Encipher(parts, pos, last, plain)| == |plain|
    decreases |plain|
  {
    hide Mix, KeyAt;
    if plain != [] {
      EncipherLength(parts, pos + 1, Mix(Mix(plain[0], KeyAt(parts, pos)), last), plain[1..]);
    }
  }

  /** The cipher, the random byte and the checksum are undone around any body. */
  lemma BodyRoundTrip(parts: seq<int>, unzip: Unzip, flags: bv8, random: bv8, body: seq<bv8>)
    requires IsKeyParts(parts) && flags & FLAG_CHECKSUM != 0
    ensures var plain := [random, High(Reference(body)), Low(Reference(body))] + body;
            Decrypted(parts, unzip, [VERSION, flags] + Encipher(parts, 0, 0, plain)) == Unpacked(unzip, flags, body)
  {
    hide Mix, KeyAt, Reference, Word, High, Low, Encipher, Decipher, Unpacked;
    var plain := [random, High(Reference(body)), Low(Reference(body))] + body;
    var sealed := Encipher(parts, 0, 0, plain);
    var cipher := [VERSION, flags] + sealed;
    assert cipher[2..] == sealed;
    DecipherInvertsEncipher(parts, 0, 0, plain);
    EncipherLength(parts, 0, 0, plain);
    WordOfHalves(Reference(body));
    assert plain[1..][2..] == body;
  }

  lemma FlagBits()
    ensures FLAG_CHECKSUM & FLAG_CHECKSUM != 0 && FLAG_CHECKSUM & FLAG_COMPRESSION == 0
    ensures (FLAG_COMPRESSION | FLAG_CHECKSUM) & FLAG_CHECKSUM != 0
    ensures (FLAG_COMPRESSION | FLAG_CHECKSUM) & FLAG_COMPRESSION != 0
  {
  }

  /** Decryption returns the encrypted bytes, for every key, mode and random byte. Encryption
      itself fails exactly when it must compress a text whose length does not fit 32 bits. */
  lemma RoundTrip(parts: seq<int>, zip: Zip, unzip: Unzip, mode: CompressionMode, random: bv8, text: seq<bv8>)
    requires IsKeyParts(parts)
    requires forall b :: unzip(zip(b)) == Some(b)
    ensures Encrypted(parts, zip, mode, random, text) == TooLong
       <==> !mode.CompressionNever? && |text| >= 0x1_0000_0000
    ensures Encrypted(parts, zip, mode, random, text).Done?
        ==> Decrypted(parts, unzip, Encrypted(parts, zip, mode, random, text).value) == Done(text)
  {
    hide Mix, KeyAt, Reference, Word, High, Low, Encipher, Decipher, Decrypted;
    var packed := Packed(zip, mode, text);
    if packed.Done? {
      var (body, compressed) := packed.value;
      FlagBits();
      var flags := if compressed then FLAG_COMPRESSION | FLAG_CHECKSUM else FLAG_CHECKSUM;
      BodyRoundTrip(parts, unzip, flags, random, body);
      if compressed {
        assert body[4..] == zip(text);
      }
    }
  }

  // ---------------------------------------------------------------- integrity

  /** The stored checksum is the checksum of the data behind it. */
  predicate Matches(plain: seq<bv8>) {
    |plain| >= 3 && Reference(plain[3..]) == Word(plain[2], plain[1])
  }

  ghost predicate Intact(parts: seq<int>, cipher: seq<bv8>)
    requires IsKeyParts(parts)
  {
    |cipher| >= 5 && Matches(Decipher(parts, 0, 0, cipher[2..]))
  }

  /** A checksum-mode message is refused exactly when it is not intact. */
  lemma RefusedIffNotIntact(parts: seq<int>, unzip: Unzip, cipher: seq<bv8>)
    requires IsKeyParts(parts)
    requires |cipher| >= 3 && cipher[0] == VERSION && cipher[1] & FLAG_CHECKSUM != 0
    ensures Decrypted(parts, unzip, cipher) == IntegrityFailed <==> !Intact(parts, cipher)
  {
    hide Mix, KeyAt, Reference, Word, Decipher;
    var body := cipher[2..];
    var plain := Decipher(parts, 0, 0, body);
    DecipherAt(parts, 0, 0, body, 0);
    if |plain| >= 3 {
      assert plain[1..][2..] == plain[3..];
    }
  }

  ghost predicate Explained(parts: seq<int>, cipher: seq<bv8>, j: nat)
    requires IsKeyParts(parts) && j < |cipher|
  {
    var p := Decipher(parts, 0, 0, cipher);
    && |p| == |cipher|
    && p[j] == Mix(Mix(cipher[j], if j == 0 then 0 else cipher[j - 1]), KeyAt(parts, j))
  }

  lemma MixSwaps(a: bv8, b: bv8, c: bv8, d: bv8)
    ensures Mix(Mix(a, b), Mix(c, d)) == Mix(Mix(a, c), Mix(b, d))
  {
    hide Mix;
    MixCommutes(b, c);
    MixAssociates(a, b, Mix(c, d));
    MixAssociates(b, c, d);
    MixAssociates(c, b, d);
    MixAssociates(a, c, Mix(b, d));
  }

  lemma MixDifference(a: bv8, b: bv8, c: bv8, k: bv8)
    ensures Mix(Mix(Mix(a, c), k), Mix(Mix(b, c), k)) == Mix(a, b)
  {
    hide Mix;
    MixSwaps(Mix(a, c), k, Mix(b, c), k);
    MixSwaps(a, c, b, c);
    MixZero(k);
    MixZero(c);
    MixZero(Mix(Mix(a, c), Mix(b, c)));
    MixZero(Mix(a, b));
  }

  /** Changing ciphertext byte t changes the plaintext at t and t+1, by the same amount, and
      nowhere else. */
  lemma Spread(parts: seq<int>, cipher: seq<bv8>, t: nat, b: bv8)
    requires IsKeyParts(parts) && t < |cipher|
    ensures var p, p' := Decipher(parts, 0, 0, cipher), Decipher(parts, 0, 0, cipher[t := b]);
            && |p| == |p'| == |cipher|
            && Mix(p[t], p'[t]) == Mix(cipher[t], b)
            && (t + 1 < |p| ==> Mix(p[t + 1], p'[t + 1]) == Mix(cipher[t], b))
            && forall j :: 0 <= j < |p| && j != t && j != t + 1 ==> p[j] == p'[j]
  {
    hide Mix, KeyAt;
    var cipher' := cipher[t := b];
    var p, p' := Decipher(parts, 0, 0, cipher), Decipher(parts, 0, 0, cipher');
    forall j | 0 <= j < |cipher| ensures Explained(parts, cipher, j) && Explained(parts, cipher', j) {
      DecipherAt(parts, 0, 0, cipher, j);
      DecipherAt(parts, 0, 0, cipher', j);
    }
    assert Explained(parts, cipher, t) && Explained(parts, cipher', t);
    MixDifference(cipher[t], b, if t == 0 then 0 else cipher[t - 1], KeyAt(parts, t));
    if t + 1 < |p| {
      assert Explained(parts, cipher, t + 1) && Explained(parts, cipher', t + 1);
      MixLaws(cipher[t + 1], cipher[t], 0);
      MixLaws(cipher[t + 1], b, 0);
      MixDifference(cipher[t], b, cipher[t + 1], KeyAt(parts, t + 1));
    }
    forall j | 0 <= j < |p| && j != t && j != t + 1 ensures p[j] == p'[j] {
      assert Explained(parts, cipher, j) && Explained(parts, cipher', j);
    }
  }

  lemma WordInjective(h: bv8, l: bv8, h': bv8, l': bv8)
    requires Word(l, h) == Word(l', h')
    ensures h == h' && l == l'
  {
  }

  /** A change of the low checksum byte shows in the word. */
  lemma WordLowDifference(h: bv8, l: bv8, l': bv8)
    ensures Xor(Word(l, h), Word(l', h)) == Mix(l, l') as bv16
  {
  }

  lemma {:induction false} FoldDifference(c: bv16, d: bv16, tail: seq<bv8>)
    ensures Xor(Fold(c, tail), Fold(d, tail)) == Times(8 * |tail|, Xor(c, d))
    decreases |tail|
  {
    hide Xor, ByteStep, Times;
    if tail == [] {
      CrcPeriod.ShiftOfTimes(0, Xor(c, d));
    } else {
      var x := tail[0] as bv16;
      FoldDifference(ByteStep(c, tail[0]), ByteStep(d, tail[0]), tail[1..]);
      ByteStepIsTimesEight(c, tail[0]);
      ByteStepIsTimesEight(d, tail[0]);
      TimesLinear(8, Xor(c, x), Xor(d, x));
      XorAssociates(c, x, c);
      XorAssociates(d, x, d);
      XorCancels(x, c, d);
      TimesAdds(8 * |tail[1..]|, 8, Xor(c, d));
    }
  }

  lemma Complement(a: bv16)
    ensures !a == Xor(0xffff, a)
  {
  }

  lemma ComplementDifference(a: bv16, b: bv16)
    ensures Xor(!a, !b) == Xor(a, b)
  {
    hide Xor;
    Complement(a);
    Complement(b);
    XorCancels(0xffff, a, b);
  }

  lemma XorOfExtended(a: bv8, b: bv8)
    ensures Xor(a as bv16, b as bv16) == Mix(a, b) as bv16
    ensures (a as bv16) < 0x100 && (a != 0 ==> (a as bv16) > 0)
  {
  }

  /** How a change of the first data byte moves the checksum. */
  lemma FirstByteDifference(data: seq<bv8>, data': seq<bv8>)
    requires |data| == |data'| >= 1 && data[1..] == data'[1..]
    ensures Xor(Reference(data), Reference(data')) == Times(8 * |data|, Mix(data[0], data'[0]) as bv16)
  {
    hide Xor, ByteStep, Times, Mix;
    var c: bv16 := 0xffff;
    var a, a' := data[0], data'[0];
    ByteStepIsTimesEight(c, a);
    ByteStepIsTimesEight(c, a');
    TimesLinear(8, Xor(c, a as bv16), Xor(c, a' as bv16));
    XorCancels(c, a as bv16, a' as bv16);
    XorOfExtended(a, a');
    FoldDifference(ByteStep(c, a), ByteStep(c, a'), data[1..]);
    TimesAdds(8 * |data[1..]|, 8, Xor(a as bv16, a' as bv16));
    ComplementDifference(Fold(c, data), Fold(c, data'));
  }

  lemma DropMultiple(a: nat, b: nat)
    ensures (32767 * a + b) % 32767 == b % 32767
  {
  }

  lemma EightDoesNotHelp(n: nat)
    ensures (8 * n) % CrcPeriod.PERIOD == 0 <==> n % CrcPeriod.PERIOD == 0
  {
    var q, r := n / 32767, n % 32767;
    assert n == 32767 * q + r;
    assert 8 * n == 32767 * (8 * q) + 8 * r;
    assert (8 * n) % 32767 == (8 * r) % 32767 by { DropMultiple(8 * q, 8 * r); }
    if (8 * r) % 32767 == 0 {
      var k := 8 * r / 32767;
      assert 8 * r == 32767 * k && 0 <= k < 8;
      assert k == 0 || k == 1 || k == 2 || k == 3 || k == 4 || k == 5 || k == 6 || k == 7;
    }
  }

  /** The low checksum byte and the first data byte change together: the check still passes
      exactly when the register period divides the data length. */
  lemma LowByteChange(p: seq<bv8>, p': seq<bv8>)
    requires Matches(p) && |p| == |p'| > 3
    requires p[1] == p'[1] && p[4..] == p'[4..]
    requires Mix(p[2], p'[2]) == Mix(p[3], p'[3]) != 0
    ensures Matches(p') <==> (|p| - 3) % CrcPeriod.PERIOD == 0
  {
    hide Mix, Reference, Word, Xor, Times;
    var data, data' := p[3..], p'[3..];
    var d := Mix(p[3], p'[3]);
    assert data[1..] == p[4..] && data'[1..] == p'[4..];
    FirstByteDifference(data, data');
    WordLowDifference(p[1], p[2], p'[2]);
    XorOfExtended(d, 0);
    CrcPeriod.PeriodOnBytes(8 * |data|, d as bv16);
    EightDoesNotHelp(|data|);
    XorCancels(Reference(data), Reference(data'), Word(p'[2], p'[1]));
  }

  /** Which plaintext changes of the kind the cipher produces still match. */
  lemma ChangeMatches(p: seq<bv8>, p': seq<bv8>, t: nat, d: bv8)
    requires Matches(p) && |p| == |p'| && t < |p| && d != 0
    requires Mix(p[t], p'[t]) == d && (t + 1 < |p| ==> Mix(p[t + 1], p'[t + 1]) == d)
    requires forall j :: 0 <= j < |p| && j != t && j != t + 1 ==> p[j] == p'[j]
    ensures Matches(p') <==> t == 2 && |p| > 3 && (|p| - 3) % CrcPeriod.PERIOD == 0
  {
    hide Mix, Reference, Word;
    forall j | t <= j <= t + 1 && j < |p| ensures p[j] != p'[j] {
      MixLaws(p[j], p'[j], 0);
    }
    if t == 2 && |p| > 3 {
      LowByteChange(p, p');
    } else if t <= 2 {
      assert p[3..] == p'[3..];
      if Matches(p') {
        WordInjective(p[1], p[2], p'[1], p'[2]);
        assert false;
      }
    } else {
      BurstDetected(p[3..], p'[3..], t - 3);
    }
  }

  /** Changing one ciphertext byte behind the two header bytes makes decryption fail the
      integrity check, except in one case: the byte that carries the low checksum byte, of a
      message with data, whose data length is a multiple of 32767. */
  lemma SingleByteChange(parts: seq<int>, unzip: Unzip, cipher: seq<bv8>, i: nat, b: bv8)
    requires IsKeyParts(parts)
    requires |cipher| >= 5 && cipher[0] == VERSION && cipher[1] & FLAG_CHECKSUM != 0
    requires Intact(parts, cipher)
    requires 2 <= i < |cipher| && b != cipher[i]
    ensures Decrypted(parts, unzip, cipher[i := b]) == IntegrityFailed
       <==> !(i == 4 && |cipher| > 5 && (|cipher| - 5) % CrcPeriod.PERIOD == 0)
  {
    hide Mix, Reference, Word, Decipher;
    var body := cipher[2..];
    assert cipher[i := b][2..] == body[i - 2 := b];
    RefusedIffNotIntact(parts, unzip, cipher[i := b]);
    Spread(parts, body, i - 2, b);
    MixLaws(body[i - 2], b, 0);
    ChangeMatches(Decipher(parts, 0, 0, body), Decipher(parts, 0, 0, body[i - 2 := b]), i - 2, Mix(body[i - 2], b));
  }
}
