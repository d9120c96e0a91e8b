/** The base32 coding of authenticator secrets. The coder keeps a 32-bit accumulator that is shifted
    but never masked; the proofs show that its low bits always agree with the exact bit string. */
module Base32 {
  import opened Wrappers
  import opened Bits
  import opened Numerals
  import opened Characters

  type Byte = b: nat | b < 256

  const ALPHABET: string := "ABCDEFGHIJKLMNOPQRSTUVWXYZ234567"

  // ----- The bit-string meaning of both directions -----

  function Symbol(i: nat): char
    requires i < 32
  {
    if i < 26 then 'A' + i as char else '2' + (i - 26) as char
  }

  predicate IsSymbol(c: char) {
    'A' <= c <= 'Z' || '2' <= c <= '7'
  }

  function SymbolIndex(c: char): (i: nat)
    requires IsSymbol(c)
    ensures i < 32 && Symbol(i) == c
  {
    if 'A' <= c <= 'Z' then c as int - 'A' as int else c as int - '2' as int + 26
  }

  predicate AllSymbols(s: string) {
    forall i | 0 <= i < |s| :: IsSymbol(s[i])
  }

  predicate AllSmall(xs: seq<nat>) {
    forall i | 0 <= i < |xs| :: xs[i] < 32
  }

  function Indices(s: string): (r: seq<nat>)
    requires AllSymbols(s)
    ensures |r| == |s| && AllSmall(r)
  {
    seq(|s|, i requires 0 <= i < |s| => SymbolIndex(s[i]))
  }

  function Symbols(xs: seq<nat>): (s: string)
    requires AllSmall(xs)
    ensures |s| == |xs| && AllSymbols(s)
  {
    seq(|xs|, i requires 0 <= i < |xs| => Symbol(xs[i]))
  }

  /** How many zero bits fill up the last group of five. */
  function Fill(n: nat): (z: nat)
    ensures z < 5 && (8 * n + z) % 5 == 0
  {
    (5 - 8 * n % 5) % 5
  }

  function FilledBits(input: seq<Byte>): seq<Bit> {
    Expand(input, 8) + Bits.Zeros(Fill(|input|))
  }

  /** Encoding regroups the bits of the bytes by five, with zeros filling up the last group. */
  function Encode(input: seq<Byte>): string {
    EncodedGroups(input);
    Symbols(Groups(FilledBits(input), 5))
  }

  lemma EncodedGroups(input: seq<Byte>)
    ensures Expand(Groups(FilledBits(input), 5), 5) == FilledBits(input)
    ensures AllSmall(Groups(FilledBits(input), 5))
  {
    var bits := FilledBits(input);
    ExpandLength(input, 8);
    ThirtyTwo();
    var n := |bits| / 5;
    assert |bits| == n * 5;
    hide FilledBits, Expand, Groups, Whole, Pow2;
    WholeByLength(bits, 5, n);
    ExpandOfGroups(bits, 5, n);
    var xs := Groups(bits, 5);
    forall i | 0 <= i < |xs| ensures xs[i] < 32 { assert xs[i] in xs; }
  }

  lemma ThirtyTwo()
    ensures Pow2(5) == 32 && Pow2(8) == 256
  {
  }

  function Upper(s: string): string {
    seq(|s|, i requires 0 <= i < |s| => UpperChar(s[i]))
  }

  function WithoutPadding(s: string): string {
    if s != "" && s[|s| - 1] == '=' then WithoutPadding(s[..|s| - 1]) else s
  }

  /** Decoding regroups the bits of the symbols by eight and drops what is left over. */
  function KeyOf(symbols: string): seq<nat>
    requires AllSymbols(symbols)
  {
    Groups(Expand(Indices(symbols), 5), 8)
  }

  function Decode(input: string): Result<seq<nat>, string> {
    var s := WithoutPadding(Upper(input));
    if AllSymbols(s) then Success(KeyOf(s)) else Failure("Invalid base32 TOTP secret")
  }

  // ----- The accumulator -----

  /** The signed 32-bit integer with the same low 32 bits. */
  function ToInt32(x: int): int {
    (x + 0x8000_0000) % 0x1_0000_0000 - 0x8000_0000
  }

  function ToUint32(x: int): nat {
    x % 0x1_0000_0000
  }

  /** `v << k`. Its `k` low bits are clear, so a following `|` with a smaller number is addition. */
  function ShiftLeft(v: int, k: nat): int {
    ToInt32(v * Pow2(k))
  }

  /** `v >>> k`. */
  function ShiftRight(v: int, k: nat): int {
    ToUint32(v) / Pow2(k)
  }

  lemma WrapKeepsBits(x: int, k: nat)
    requires k <= 32
    ensures LowBits(ToInt32(x), k) == LowBits(x, k) && LowBits(ToUint32(x), k) == LowBits(x, k)
  {
    var q := (x + 0x8000_0000) / 0x1_0000_0000;
    var p := x / 0x1_0000_0000;
    Pow32();
    hide Pow2, LowBits;
    assert ToInt32(x) == x + (-q) * 0x1_0000_0000;
    assert ToUint32(x) == x + (-p) * 0x1_0000_0000;
    LowBitsWrap(x, -q, 32, k);
    LowBitsWrap(x, -p, 32, k);
  }

  lemma Pow32()
    ensures Pow2(32) == 0x1_0000_0000
  {
    assert Pow2(8) == 256;
    assert Pow2(16) == 65536;
    assert Pow2(24) == 16777216;
  }

  /** Shifting `w` into the wrapped accumulator appends its bits, as long as 32 bits suffice. */
  lemma ShiftInAppends(v: int, bits: nat, w: nat, k: nat)
    requires w < Pow2(k) && bits + k <= 32
    ensures LowBits(ShiftLeft(v, k) + w, bits + k) == LowBits(v, bits) + LowBits(w, k)
  {
    var x := v * Pow2(k) + w;
    LowBitsAppend(v, bits, w, k);
    WrappedSum(v * Pow2(k), w, bits + k);
    hide *;
  }

  lemma WrappedSum(x: int, w: nat, n: nat)
    requires n <= 32
    ensures LowBits(ToInt32(x) + w, n) == LowBits(x + w, n)
  {
    var q := (x + 0x8000_0000) / 0x1_0000_0000;
    Pow32();
    hide Pow2, LowBits;
    assert ToInt32(x) + w == (x + w) + (-q) * 0x1_0000_0000;
    LowBitsWrap(x + w, -q, 32, n);
  }

  /** Extracting the top `k` of `bits + k` bits. */
  lemma TopBits(v: int, k: nat, bits: nat)
    requires k + bits <= 32
    ensures LowBits(v, k + bits) == LowBits(ShiftRight(v, bits) % Pow2(k), k) + LowBits(v, bits)
    ensures ShiftRight(v, bits) % Pow2(k) < Pow2(k)
  {
    hide *;
    var u, y := ToUint32(v), ShiftRight(v, bits);
    ShiftRightIs(v, bits);
    WrapKeepsBits(v, k + bits);
    WrapKeepsBits(v, bits);
    LowBitsSplit(u, k, bits);
    QuotientAndRest(y, Pow2(k));
    LowBitsWrap(y % Pow2(k), y / Pow2(k), k, k);
  }

  lemma ShiftRightIs(v: int, k: nat)
    ensures ShiftRight(v, k) == ToUint32(v) / Pow2(k) && ShiftRight(v, k) >= 0
  {
    hide Pow2, ToUint32;
    QuotientAndRest(ToUint32(v), Pow2(k));
  }

  lemma AlphabetSymbols(i: nat)
    requires i < 32
    ensures |ALPHABET| == 32 && ALPHABET[i] == Symbol(i)
  {
  }

  lemma IndicesSnoc(s: string, i: nat)
    requires AllSymbols(s) && i < 32
    ensures AllSymbols(s + [Symbol(i)]) && Indices(s + [Symbol(i)]) == Indices(s) + [i]
  {
  }

  // ----- The coder -----

  /** What the encoder's loops keep: the symbols so far and the low bits of the accumulator spell the
      bits of the bytes read so far. */
  ghost predicate Encoding(output: string, value: int, bits: nat, read: seq<Byte>) {
    AllSymbols(output) && bits <= 12 && Expand(Indices(output), 5) + LowBits(value, bits) == Expand(read, 8)
  }

  lemma ByteIn(output: string, value: int, bits: nat, read: seq<Byte>, byte: Byte)
    requires Encoding(output, value, bits, read) && bits < 5
    ensures Encoding(output, ShiftLeft(value, 8) + byte, bits + 8, read + [byte])
  {
    hide LowBits, Expand, Indices, AllSymbols, ShiftLeft, Pow2;
    ThirtyTwo();
    ShiftInAppends(value, bits, byte, 8);
    ExpandSnoc(read, byte, 8);
  }

  lemma SymbolOut(output: string, value: int, bits: nat, read: seq<Byte>)
    requires Encoding(output, value, bits, read) && bits >= 5
    ensures var i := ShiftRight(value, bits - 5) % 32;
            i < 32 && Encoding(output + [Symbol(i)], value, bits - 5, read)
  {
    hide LowBits, Expand, Indices, AllSymbols, ShiftRight, Pow2, Symbol;
    ThirtyTwo();
    TopBits(value, 5, bits - 5);
    var i := ShiftRight(value, bits - 5) % 32;
    IndicesSnoc(output, i);
    ExpandSnoc(Indices(output), i, 5);
  }

  lemma EncodingStarts()
    ensures Encoding("", 0, 0, [])
  {
  }

  method EncodeBase32(input: seq<Byte>) returns (output: string)
    ensures output == Encode(input)
  {
    hide *;
    var bits: nat, value: int := 0, 0;
    output := "";
    var k := 0;
    EncodingStarts();
    assert input[..0] == [];
    while k < |input|
      invariant k <= |input| && bits < 5
      invariant Encoding(output, value, bits, input[..k])
    {
      ByteIn(output, value, bits, input[..k], input[k]);
      value := ShiftLeft(value, 8) + input[k];
      bits := bits + 8;
      assert input[..k] + [input[k]] == input[..k + 1];
      while bits >= 5
        invariant Encoding(output, value, bits, input[..k + 1])
      {
        SymbolOut(output, value, bits, input[..k + 1]);
        var i := ShiftRight(value, bits - 5) % 32;
        AlphabetSymbols(i);
        output := output + [ALPHABET[i]];
        bits := bits - 5;
      }
      k := k + 1;
    }
    assert input[..k] == input;
    LastSymbol(output, value, bits, input);
    if bits > 0 {
      var i := ShiftLeft(value, 5 - bits) % 32;
      AlphabetSymbols(i);
      output := output + [ALPHABET[i]];
    }
  }

  lemma EncodeIs(output: string, input: seq<Byte>)
    requires AllSymbols(output) && Expand(Indices(output), 5) == FilledBits(input)
    ensures Encode(input) == output
  {
    var xs := Indices(output);
    ThirtyTwo();
    forall x | x in xs ensures x < Pow2(5) {
      var i :| 0 <= i < |xs| && xs[i] == x;
    }
    assert FilledBits(input) + [] == FilledBits(input);
    GroupsOfExpand(xs, [], 5);
    assert Symbols(xs) == output;
  }

  lemma ZeroBits(k: nat)
    ensures LowBits(0, k) == Bits.Zeros(k)
  {
    if k > 0 {
      ZeroBits(k - 1);
      assert Bits.Zeros(k) == Bits.Zeros(k - 1) + [0];
    }
  }

  /** The bits left after the last byte, filled up with zeros, complete the encoding. */
  lemma LastSymbol(output: string, value: int, bits: nat, input: seq<Byte>)
    requires Encoding(output, value, bits, input) && bits < 5
    ensures var i := ShiftLeft(value, 5 - bits) % 32;
            i < 32 && Encode(input) == if bits > 0 then output + [Symbol(i)] else output
  {
    hide LowBits, Expand, Pow2, ShiftLeft, Symbol, AllSymbols, Indices, Encode;
    var i := ShiftLeft(value, 5 - bits) % 32;
    ExpandLength(Indices(output), 5);
    ExpandLength(input, 8);
    assert 5 * |output| + bits == 8 * |input|;
    if bits > 0 {
      assert Fill(|input|) == 5 - bits;
      LastBits(value, bits);
      IndicesSnoc(output, i);
      ExpandSnoc(Indices(output), i, 5);
      assert Expand(Indices(output + [Symbol(i)]), 5) == FilledBits(input);
      EncodeIs(output + [Symbol(i)], input);
    } else {
      assert Fill(|input|) == 0;
      assert Expand(Indices(output), 5) == FilledBits(input);
      EncodeIs(output, input);
    }
  }

  lemma LastBits(value: int, bits: nat)
    requires 0 < bits < 5
    ensures LowBits(ShiftLeft(value, 5 - bits) % 32, 5) == LowBits(value, bits) + Bits.Zeros(5 - bits)
  {
    hide LowBits, ShiftLeft;
    ThirtyTwo();
    var y := ShiftLeft(value, 5 - bits);
    ShiftInAppends(value, bits, 0, 5 - bits);
    ZeroBits(5 - bits);
    hide Pow2;
    assert y == y % 32 + (y / 32) * 32;
    LowBitsWrap(y % 32, y / 32, 5, 5);
  }

  /** What the decoder's loop keeps. */
  ghost predicate Decoding(output: seq<nat>, value: int, bits: nat, read: string) {
    && AllSymbols(read) && bits <= 12 && (forall x | x in output :: x < 256)
    && Expand(output, 8) + LowBits(value, bits) == Expand(Indices(read), 5)
  }

  lemma SymbolIn(output: seq<nat>, value: int, bits: nat, read: string, c: char)
    requires Decoding(output, value, bits, read) && bits < 8 && IsSymbol(c)
    ensures Decoding(output, ShiftLeft(value, 5) + SymbolIndex(c), bits + 5, read + [c])
  {
    hide LowBits, Expand, Indices, AllSymbols, ShiftLeft, Pow2, IsSymbol, SymbolIndex;
    ThirtyTwo();
    var i := SymbolIndex(c);
    ShiftInAppends(value, bits, i, 5);
    IndicesSnoc(read, i);
    ExpandSnoc(Indices(read), i, 5);
  }

  lemma ByteOut(output: seq<nat>, value: int, bits: nat, read: string)
    requires Decoding(output, value, bits, read) && bits >= 8
    ensures var b := ShiftRight(value, bits - 8) % 256;
            b < 256 && Decoding(output + [b], value, bits - 8, read)
  {
    hide LowBits, Expand, Indices, AllSymbols, ShiftRight, Pow2;
    ThirtyTwo();
    TopBits(value, 8, bits - 8);
    ExpandSnoc(output, ShiftRight(value, bits - 8) % 256, 8);
  }

  lemma KeyIs(output: seq<nat>, value: int, bits: nat, read: string)
    requires Decoding(output, value, bits, read) && bits < 8
    ensures KeyOf(read) == output
  {
    hide LowBits, Expand, Indices;
    ThirtyTwo();
    GroupsOfExpand(output, LowBits(value, bits), 8);
  }

  lemma DecodingStarts()
    ensures Decoding([], 0, 0, "")
  {
    assert Indices("") == [];
  }

  /** The position of a character in the alphabet, or -1. */
  method IndexOf(c: char) returns (index: int)
    ensures IsSymbol(c) ==> index == SymbolIndex(c)
    ensures !IsSymbol(c) ==> index == -1
  {
    assert IsSymbol(c) ==> c == Symbol(SymbolIndex(c));
    index := 0;
    while index < |ALPHABET|
      invariant 0 <= index <= 32
      invariant forall j | 0 <= j < index :: c != Symbol(j)
    {
      AlphabetSymbols(index);
      if ALPHABET[index] == c {
        return;
      }
      index := index + 1;
    }
    return -1;
  }

  method DecodeBase32(input: string) returns (r: Result<seq<nat>, string>)
    ensures r == Decode(input)
  {
    hide Encoding, Decoding, KeyOf, ShiftLeft, ShiftRight, IsSymbol, SymbolIndex, Upper, WithoutPadding;
    var s := WithoutPadding(Upper(input));
    var bits: nat, value: int := 0, 0;
    var output: seq<nat> := [];
    var k := 0;
    DecodingStarts();
    assert s[..0] == "";
    while k < |s|
      invariant k <= |s| && bits < 8
      invariant forall i | 0 <= i < k :: IsSymbol(s[i])
      invariant Decoding(output, value, bits, s[..k])
    {
      var index := IndexOf(s[k]);
      if index < 0 {
        return Failure("Invalid base32 TOTP secret");
      }
      SymbolIn(output, value, bits, s[..k], s[k]);
      assert s[..k] + [s[k]] == s[..k + 1];
      value := ShiftLeft(value, 5) + index;
      bits := bits + 5;
      if bits >= 8 {
        ByteOut(output, value, bits, s[..k + 1]);
        output := output + [ShiftRight(value, bits - 8) % 256];
        bits := bits - 8;
      }
      k := k + 1;
    }
    assert s[..k] == s;
    KeyIs(output, value, bits, s);
    return Success(output);
  }

  // ----- Round trip -----

  lemma SymbolsRoundTrip(xs: seq<nat>)
    requires AllSmall(xs)
    ensures Indices(Symbols(xs)) == xs
  {
  }

  lemma EncodedIsClean(s: string)
    requires AllSymbols(s)
    ensures WithoutPadding(Upper(s)) == s
  {
    assert Upper(s) == s;
  }

  /** Decoding an encoded secret gives its bytes back, for every byte string. */
  lemma DecodeEncode(input: seq<Byte>)
    ensures Decode(Encode(input)) == Success(input)
  {
    EncodedGroups(input);
    var xs := Groups(FilledBits(input), 5);
    SymbolsRoundTrip(xs);
    EncodedIsClean(Encode(input));
    ThirtyTwo();
    hide Groups, Expand, Pow2;
    GroupsOfExpand(input, Bits.Zeros(Fill(|input|)), 8);
  }

  // ----- What is accepted -----

  /** The alphabet of section 6 of RFC 4648. */
  lemma SymbolTable(i: nat)
    requires i < 32
    ensures Symbol(i) == "ABCDEFGHIJKLMNOPQRSTUVWXYZ234567"[i]
  {
  }

  /** A character is a symbol exactly if the alphabet has it. */
  lemma SymbolIff(c: char)
    ensures IsSymbol(c) <==> exists i :: 0 <= i < 32 && "ABCDEFGHIJKLMNOPQRSTUVWXYZ234567"[i] == c
  {
    if IsSymbol(c) { SymbolTable(SymbolIndex(c)); }
    hide SymbolIndex;
    forall i | 0 <= i < 32 && "ABCDEFGHIJKLMNOPQRSTUVWXYZ234567"[i] == c ensures IsSymbol(c) {
      SymbolTable(i);
    }
  }

  lemma {:induction false} UnpaddedEnds(s: string, k: nat)
    requires s == "" || s[|s| - 1] != '='
    ensures WithoutPadding(s + seq(k, _ => '=')) == s
  {
    var t := s + seq(k, _ => '=');
    if k == 0 {
      assert t == s;
    } else {
      assert t[..|t| - 1] == s + seq(k - 1, _ => '=');
      UnpaddedEnds(s, k - 1);
    }
  }

  lemma {:induction false} PaddingApart(s: string) returns (k: nat)
    ensures s == WithoutPadding(s) + seq(k, _ => '=')
    ensures WithoutPadding(s) == "" || WithoutPadding(s)[|WithoutPadding(s)| - 1] != '='
  {
    if s != "" && s[|s| - 1] == '=' {
      var j := PaddingApart(s[..|s| - 1]);
      k := j + 1;
      assert s == s[..|s| - 1] + ['='];
    } else {
      k := 0;
      assert s + seq(0, _ => '=') == s;
    }
  }

  /** A secret is accepted in either case of letters and with any padding, and decodes to the key of its
      upper-case symbols; any other character is an error. */
  lemma AcceptedSecrets(symbols: string, input: string, k: nat)
    requires Upper(input) == Upper(symbols) + seq(k, _ => '=') && (symbols == "" || symbols[|symbols| - 1] != '=')
    ensures Decode(input).Success? <==>
              forall c | c in Upper(symbols) :: exists i :: 0 <= i < 32 && "ABCDEFGHIJKLMNOPQRSTUVWXYZ234567"[i] == c
    ensures Decode(input).Success? ==> AllSymbols(Upper(symbols)) && Decode(input).value == KeyOf(Upper(symbols))
  {
    var s := Upper(symbols);
    assert s == "" || s[|s| - 1] != '=' by { if s != "" { assert s[|s| - 1] == UpperChar(symbols[|symbols| - 1]); } }
    UnpaddedEnds(s, k);
    hide KeyOf, IsSymbol, Upper, WithoutPadding;
    forall c ensures IsSymbol(c) <==> exists i :: 0 <= i < 32 && "ABCDEFGHIJKLMNOPQRSTUVWXYZ234567"[i] == c {
      SymbolIff(c);
    }
    assert AllSymbols(s) <==> forall c | c in s :: IsSymbol(c) by {
      if AllSymbols(s) {
        forall c | c in s ensures IsSymbol(c) {
          var i :| 0 <= i < |s| && s[i] == c;
        }
      }
    }
  }
}
