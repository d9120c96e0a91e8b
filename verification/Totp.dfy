/** Time-based one-time passwords: the service's implementation, an independent second one that works
    on bit strings, and the agreement of the two. The keyed digest is a parameter. */
module Totp {
  import opened Wrappers
  import opened Numerals
  import opened Characters
  import opened Bits
  import opened Base32

  /** A 20-byte digest, as HMAC-SHA-1 gives. */
  type Digest = d: seq<Byte> | |d| == 20 witness seq(20, _ => 0)

  type Mac = (seq<nat>, seq<nat>) -> Digest

  /** A counter as eight bytes, most significant first. */
  function CounterBytes(counter: nat): seq<nat> {
    Groups(LowBits(counter, 64), 8)
  }

  /** The eight bytes determine the counter. */
  lemma CounterBytesFaithful(counter: nat)
    requires counter < Pow2(64)
    ensures |CounterBytes(counter)| == 8 && BitsValue(Expand(CounterBytes(counter), 8)) == counter
  {
    hide *;
    WholeByLength(LowBits(counter, 64), 8, 8);
    ExpandOfGroups(LowBits(counter, 64), 8, 8);
    LowBitsValue(counter, 64);
    CounterBytesAre(counter);
  }

  /** The number that bytes spell, the first being the most significant. */
  ghost function BigEndian(bytes: seq<nat>): nat {
    if bytes == [] then 0 else BigEndian(bytes[..|bytes| - 1]) * 256 + bytes[|bytes| - 1]
  }

  lemma {:induction false} BitsOfBytes(bytes: seq<nat>)
    requires forall b | b in bytes :: b < 256
    ensures BitsValue(Expand(bytes, 8)) == BigEndian(bytes)
  {
    if bytes != [] {
      var rest, last := bytes[..|bytes| - 1], bytes[|bytes| - 1];
      assert bytes == rest + [last] && last in bytes;
      assert forall b | b in rest :: b in bytes;
      BitsOfBytes(rest);
      ExpandSnoc(rest, last, 8);
      ValueAppend(Expand(rest, 8), LowBits(last, 8));
      assert Pow2(8) == 256;
      LowBitsValue(last, 8);
      hide LowBits, BitsValue, Expand, Pow2;
    }
  }

  /** They are its eight bytes, the most significant first. */
  lemma CounterBytesBigEndian(counter: nat)
    requires counter < Pow2(64)
    ensures var b := CounterBytes(counter);
            |b| == 8 && (forall x | x in b :: x < 256) && BigEndian(b) == counter
  {
    hide *;
    CounterBytesFaithful(counter);
    WholeByLength(LowBits(counter, 64), 8, 8);
    ExpandOfGroups(LowBits(counter, 64), 8, 8);
    CounterBytesAre(counter);
    BytePower();
    BitsOfBytes(CounterBytes(counter));
  }

  lemma BytePower()
    ensures Pow2(8) == 256
  {
  }

  lemma CounterBytesAre(counter: nat)
    ensures CounterBytes(counter) == Groups(LowBits(counter, 64), 8)
  {
  }

  predicate CounterInRange(counter: int) {
    0 <= counter < Pow2(64)
  }

  function SixDigits(code: nat): string {
    PadStart(Print(code, 10), 6, '0')
  }

  // ----- The service's implementation -----

  function At(digest: Digest, i: nat): (byte: nat)
    requires i < |digest|
    ensures byte < 256
  {
    digest[i]
  }

  /** Four bytes at the offset given by the low half of the last one, without the sign bit. */
  function Truncate(digest: Digest): nat {
    var offset := At(digest, |digest| - 1) % 16;
    ((At(digest, offset) % 128) * 0x100_0000 + At(digest, offset + 1) * 0x1_0000 + At(digest, offset + 2) * 0x100
     + At(digest, offset + 3))
    % 1_000_000
  }

  function GenerateToken(mac: Mac, secret: string, counter: int): Result<string, string> {
    var key :- Decode(secret);
    if !CounterInRange(counter) then Failure("Counter out of range")
    else Success(SixDigits(Truncate(mac(key, CounterBytes(counter)))))
  }

  /** The same, with the key decoded by the accumulator loop. */
  method ComputeToken(mac: Mac, secret: string, counter: int) returns (r: Result<string, string>)
    ensures r == GenerateToken(mac, secret, counter)
  {
    var key := DecodeBase32(secret);
    if key.Failure? {
      return Failure(key.error);
    }
    if !CounterInRange(counter) {
      return Failure("Counter out of range");
    }
    return Success(SixDigits(Truncate(mac(key.value, CounterBytes(counter)))));
  }

  // ----- The bit-string implementation -----

  function ReadUint32(digest: Digest, offset: nat): nat
    requires offset + 4 <= |digest|
  {
    At(digest, offset) * 0x100_0000 + At(digest, offset + 1) * 0x1_0000 + At(digest, offset + 2) * 0x100
    + At(digest, offset + 3)
  }

  /** The last byte masked gives the offset; the word is masked after it is assembled. */
  function LocalCode(digest: Digest): nat {
    ReadUint32(digest, At(digest, 19) % 16) % 0x8000_0000 % 1_000_000
  }

  function LocalTotp(mac: Mac, secret: string, time: nat): Result<string, string> {
    if !AllSymbols(secret) then Failure("Invalid test authenticator secret")
    else if !CounterInRange(time / 30000) then Failure("Counter out of range")
    else
      var digest := mac(KeyOf(secret), CounterBytes(time / 30000));
      Success(SixDigits(LocalCode(digest)))
  }

  // ----- Agreement -----

  /** Dynamic truncation on the bit string: the last four of its 160 bits give a byte offset, and the 31 bits
      after the first bit at that offset are the number, of which six decimal digits are kept. */
  function TruncatedBits(digest: Digest): nat {
    var bits := Expand(digest, 8);
    ExpandLength(digest, 8);
    var offset := BitsValue(bits[156..160]);
    OffsetBound(bits[156..160]);
    BitsValue(bits[8 * offset + 1..8 * offset + 32]) % 1_000_000
  }

  lemma OffsetBound(bits: seq<Bit>)
    requires |bits| == 4
    ensures BitsValue(bits) < 16
  {
    ValueLowBits(bits);
    SmallPowers();
  }

  lemma SmallPowers()
    ensures Pow2(3) == 8 && Pow2(4) == 16 && Pow2(7) == 128 && Pow2(8) == 256
    ensures Pow2(16) == 0x1_0000 && Pow2(24) == 0x100_0000 && Pow2(31) == 0x8000_0000
  {
    assert Pow2(12) == 4096;
    assert Pow2(20) == 1048576;
    assert Pow2(28) == 268435456;
  }

  /** A byte's place in the bit string. */
  lemma ByteBits(digest: seq<nat>, i: nat)
    requires i < |digest|
    ensures |Expand(digest, 8)| == 8 * |digest|
    ensures Expand(digest, 8)[8 * i..8 * i + 8] == LowBits(digest[i], 8)
  {
    hide Expand, LowBits;
    var a, b := digest[..i], digest[i + 1..];
    assert digest == a + ([digest[i]] + b);
    ExpandLength(digest, 8);
    ExpandLength(a, 8);
    ExpandAppend(a, [digest[i]] + b, 8);
    ExpandAppend([digest[i]], b, 8);
    ExpandOne(digest[i], 8);
    Middle(Expand(a, 8), LowBits(digest[i], 8), Expand(b, 8));
  }

  lemma Middle(a: seq<Bit>, b: seq<Bit>, c: seq<Bit>)
    ensures (a + (b + c))[|a|..|a| + |b|] == b
  {
  }

  /** The last `k` bits of a byte. */
  lemma LowPart(byte: nat, j: nat, k: nat, size: nat)
    requires byte < 256 && j + k == 8 && size == Pow2(k)
    ensures LowBits(byte, 8)[j..] == LowBits(byte % size, k)
  {
    hide LowBits, Pow2;
    LowBitsSplit(byte, j, k);
    QuotientAndRest(byte, size);
    LowBitsWrap(byte % size, byte / size, k, k);
  }

  lemma LastHalf(digest: Digest)
    ensures |Expand(digest, 8)| == 160
    ensures BitsValue(Expand(digest, 8)[156..160]) == At(digest, 19) % 16
  {
    hide Expand, LowBits, Pow2;
    ByteBits(digest, 19);
    SmallPowers();
    LowPart(digest[19], 4, 4, 16);
    LowBitsValue(digest[19] % 16, 4);
    assert Expand(digest, 8)[156..160] == Expand(digest, 8)[152..160][4..];
  }

  /** The 31 bits at an offset are the word there without its sign bit. */
  lemma WordBits(digest: Digest, offset: nat)
    requires offset + 4 <= 20
    ensures |Expand(digest, 8)| == 160
    ensures BitsValue(Expand(digest, 8)[8 * offset + 1..8 * offset + 32])
         == (At(digest, offset) % 128) * 0x100_0000 + At(digest, offset + 1) * 0x1_0000
            + At(digest, offset + 2) * 0x100 + At(digest, offset + 3)
  {
    hide Expand, LowBits, Pow2, BitsValue;
    var bits := Expand(digest, 8);
    ByteBits(digest, offset);
    ByteBits(digest, offset + 1);
    ByteBits(digest, offset + 2);
    ByteBits(digest, offset + 3);
    SmallPowers();
    var a, b: nat, c: nat, d: nat := digest[offset] % 128, digest[offset + 1], digest[offset + 2], digest[offset + 3];
    LowPart(digest[offset], 1, 7, 128);
    LowBitsAppend(a, 7, b, 8);
    LowBitsAppend(a * 256 + b, 15, c, 8);
    LowBitsAppend((a * 256 + b) * 256 + c, 23, d, 8);
    var word := ((a * 256 + b) * 256 + c) * 256 + d;
    assert bits[8 * offset + 1..8 * offset + 32]
        == bits[8 * offset..8 * offset + 8][1..] + bits[8 * (offset + 1)..8 * (offset + 1) + 8]
           + bits[8 * (offset + 2)..8 * (offset + 2) + 8] + bits[8 * (offset + 3)..8 * (offset + 3) + 8];
    LowBitsValue(word, 31);
  }

  /** What truncation on the bit string gives for the offset it finds. */
  lemma TruncatedWord(digest: Digest, offset: nat)
    requires offset == At(digest, 19) % 16
    ensures TruncatedBits(digest)
         == ((At(digest, offset) % 128) * 0x100_0000 + At(digest, offset + 1) * 0x1_0000
             + At(digest, offset + 2) * 0x100 + At(digest, offset + 3)) % 1_000_000
  {
    LastHalf(digest);
    WordBits(digest, offset);
    TruncatedAt(digest, offset);
    hide *;
  }

  lemma TruncatedAt(digest: Digest, offset: nat)
    requires offset < 16 && |Expand(digest, 8)| == 160 && BitsValue(Expand(digest, 8)[156..160]) == offset
    ensures TruncatedBits(digest) == BitsValue(Expand(digest, 8)[8 * offset + 1..8 * offset + 32]) % 1_000_000
  {
    hide Expand, BitsValue;
  }

  /** The service's arithmetic is truncation on the bit string (section 5.3 of RFC 4226). */
  lemma TruncateIsTruncation(digest: Digest)
    ensures Truncate(digest) == TruncatedBits(digest)
  {
    TruncatedWord(digest, At(digest, |digest| - 1) % 16);
    hide TruncatedBits, At;
  }

  /** So is the local script's, which masks at another place. */
  lemma LocalCodeIsTruncation(digest: Digest)
    ensures LocalCode(digest) == TruncatedBits(digest)
  {
    var offset := At(digest, 19) % 16;
    TruncatedWord(digest, offset);
    hide TruncatedBits, At;
    var rest: nat := At(digest, offset + 1) * 0x1_0000 + At(digest, offset + 2) * 0x100 + At(digest, offset + 3);
    MaskedSum(At(digest, offset), rest);
  }

  lemma MaskedSum(first: nat, rest: nat)
    requires rest < 0x100_0000
    ensures (first * 0x100_0000 + rest) % 0x8000_0000 == first % 128 * 0x100_0000 + rest
  {
    var q, r := first / 128, first % 128;
    assert first * 0x100_0000 + rest == 0x8000_0000 * q + (r * 0x100_0000 + rest);
    RestUnique(first * 0x100_0000 + rest, 0x8000_0000, q, r * 0x100_0000 + rest);
  }

  /** Both implementations give one code for the same cleaned-up secret and time, and one fails exactly
      when the other does. */
  lemma ImplementationsAgree(mac: Mac, secret: string, time: nat)
    ensures var cleaned := WithoutPadding(Upper(secret));
            var served, local := GenerateToken(mac, secret, time / 30000), LocalTotp(mac, cleaned, time);
            && (served.Success? <==> local.Success?)
            && (served.Success? ==> served.value == local.value)
  {
    var cleaned := WithoutPadding(Upper(secret));
    if AllSymbols(cleaned) && CounterInRange(time / 30000) {
      TruncateIsTruncation(mac(KeyOf(cleaned), CounterBytes(time / 30000)));
      LocalCodeIsTruncation(mac(KeyOf(cleaned), CounterBytes(time / 30000)));
    }
    hide LocalCode, TruncatedBits;
    hide KeyOf, Truncate, CounterInRange, SixDigits, CounterBytes;
  }

  /** For an unpadded upper-case secret the codes are equal as they stand. */
  lemma SameCode(mac: Mac, secret: string, time: nat)
    requires AllSymbols(secret)
    ensures GenerateToken(mac, secret, time / 30000) == LocalTotp(mac, secret, time)
  {
    ImplementationsAgree(mac, secret, time);
    EncodedIsClean(secret);
    hide LocalTotp, KeyOf;
    LocalFailure(mac, secret, time);
  }

  lemma LocalFailure(mac: Mac, secret: string, time: nat)
    requires AllSymbols(secret)
    ensures LocalTotp(mac, secret, time).Failure? ==> LocalTotp(mac, secret, time).error == "Counter out of range"
  {
  }

  /** A code has exactly six digits, and they read back to the truncated digest of the counter's bytes under
      the decoded key. */
  lemma CodeMeans(mac: Mac, secret: string, counter: int)
    requires GenerateToken(mac, secret, counter).Success?
    ensures var code := GenerateToken(mac, secret, counter).value;
            && |code| == 6 && AllDigits(code, 10)
            && Decode(secret).Success? && 0 <= counter < Pow2(64)
            && Value(code, 10) == TruncatedBits(mac(Decode(secret).value, CounterBytes(counter)))
  {
    var key := Decode(secret).value;
    var digest := mac(key, CounterBytes(counter));
    var code := Truncate(digest);
    TruncateIsTruncation(digest);
    TruncateBound(digest);
    hide Truncate, Decode, TruncatedBits;
    Million();
    hide Pow;
    PaddedLength(code, 10, 6);
    PaddedValue(code, 10, 6);
  }

  lemma TruncateBound(digest: Digest)
    ensures Truncate(digest) < 1_000_000
  {
  }

  lemma Million()
    ensures Pow(10, 6) == 1_000_000
  {
    assert Pow(10, 1) == 10 && Pow(10, 2) == 100 && Pow(10, 3) == 1000;
    assert Pow(10, 4) == 10_000 && Pow(10, 5) == 100_000;
  }

  // ----- Verification -----

  function WithoutSpaces(s: string): string {
    if s == "" then "" else (if Space(s[0]) then "" else [s[0]]) + WithoutSpaces(s[1..])
  }

  predicate SixDigitToken(s: string) {
    |s| == 6 && forall i | 0 <= i < 6 :: Decimal(s[i])
  }

  ghost predicate Matches(mac: Mac, secret: string, code: string, counter: int, k: int) {
    GenerateToken(mac, secret, counter + k) == Success(code)
  }

  /** Some counter of the window has this code. */
  ghost predicate InWindow(mac: Mac, secret: string, code: string, counter: int, window: int) {
    exists k :: -window <= k <= window && Matches(mac, secret, code, counter, k)
  }

  /** A token is accepted exactly when it is the code of a counter within the window. A token that is
      not six digits is refused before the secret is looked at; a bad secret, a window reaching before
      the first counter, or one reaching past the last without a match, is an error. */
  method VerifyTotp(mac: Mac, secret: string, token: string, now: nat, window: int := 1)
    returns (r: Result<bool, string>)
    ensures var code, counter := WithoutSpaces(token), now / 30000;
            r == if !SixDigitToken(code) || window < 0 then Success(false)
                 else if Decode(secret).Failure? then Failure(Decode(secret).error)
                 else if counter < window then Failure("Counter out of range")
                 else if InWindow(mac, secret, code, counter, window) then Success(true)
                 else if !CounterInRange(counter + window) then Failure("Counter out of range")
                 else Success(false)
  {
    hide Decode, WithoutSpaces, Pow2, Truncate, SixDigits, CounterBytes;
    var normalized := WithoutSpaces(token);
    if !SixDigitToken(normalized) {
      return Success(false);
    }
    var counter := now / 30000;
    var offset := -window;
    while offset <= window
      invariant -window <= offset && (window >= 0 ==> offset <= window + 1)
      invariant offset > -window ==>
                  Decode(secret).Success? && counter >= window && CounterInRange(counter + offset - 1)
      invariant forall k | -window <= k < offset :: !Matches(mac, secret, normalized, counter, k)
      decreases window - offset
    {
      var expected := ComputeToken(mac, secret, counter + offset);
      if expected.Failure? {
        BeyondEnd(mac, secret, normalized, counter, offset, window);
        return Failure(expected.error);
      }
      if normalized == expected.value {
        assert Matches(mac, secret, normalized, counter, offset);
        return Success(true);
      }
      offset := offset + 1;
    }
    return Success(false);
  }

  /** When one counter cannot be written in eight bytes, no later one matches either. */
  lemma BeyondEnd(mac: Mac, secret: string, code: string, counter: nat, offset: int, window: int)
    requires offset <= window
    ensures Decode(secret).Success? && counter + offset >= 0 && !CounterInRange(counter + offset) ==>
              forall k :: offset <= k ==> !Matches(mac, secret, code, counter, k)
    ensures Decode(secret).Success? && counter + offset >= 0 && !CounterInRange(counter + offset) ==>
              !CounterInRange(counter + window)
  {
    hide Decode, Pow2, Truncate, SixDigits, CounterBytes;
  }

  /** White space in a token is ignored, and nothing else is. */
  lemma {:induction false} SpacesIgnored(a: string, b: string)
    ensures WithoutSpaces(a + b) == WithoutSpaces(a) + WithoutSpaces(b)
    ensures WithoutSpaces("") == ""
    ensures forall c :: WithoutSpaces([c]) == if c as int in {9, 10, 11, 12, 13, 32} then "" else [c]
  {
    forall c ensures WithoutSpaces([c]) == if c as int in {9, 10, 11, 12, 13, 32} then "" else [c] {
      Classes(c);
      assert [c][1..] == "";
    }
    if a == "" {
      assert a + b == b;
    } else {
      assert (a + b)[1..] == a[1..] + b;
      SpacesIgnored(a[1..], b);
    }
  }

  lemma TokenShape(s: string)
    ensures SixDigitToken(s) <==> |s| == 6 && forall c | c in s :: c in "0123456789"
  {
    if |s| == 6 && forall c | c in s :: c in "0123456789" {
      forall i | 0 <= i < 6 ensures Decimal(s[i]) { assert s[i] in s; }
    }
  }
}
