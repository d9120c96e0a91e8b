/** The recovery bundle: archive entries as base64 text with a digest, the canonical form of a database
    dump, and the validation of a whole bundle. */
module RecoveryBundle {
  import opened Wrappers
  import opened Text
  import opened Bits
  import opened Characters
  import UstarReader

  type Bytes = UstarReader.Bytes

  /** The digest of some bytes, as lower-case hexadecimal text. */
  type Digest = Bytes -> string

  // ----- Base64 -----

  function Symbol(i: nat): char
    requires i < 64
  {
    if i < 26 then 'A' + i as char
    else if i < 52 then 'a' + (i - 26) as char
    else if i < 62 then '0' + (i - 52) as char
    else if i == 62 then '+' else '/'
  }

  predicate IsSymbol(c: char) {
    'A' <= c <= 'Z' || 'a' <= c <= 'z' || Decimal(c) || c == '+' || c == '/'
  }

  function SymbolIndex(c: char): (i: nat)
    requires IsSymbol(c)
    ensures i < 64 && Symbol(i) == c
  {
    if 'A' <= c <= 'Z' then c as int - 'A' as int
    else if 'a' <= c <= 'z' then c as int - 'a' as int + 26
    else if Decimal(c) then c as int - '0' as int + 52
    else if c == '+' then 62 else 63
  }

  lemma SymbolRoundTrip(i: nat)
    requires i < 64
    ensures IsSymbol(Symbol(i)) && SymbolIndex(Symbol(i)) == i
  {
  }

  /** The alphabet of section 4 of RFC 4648. */
  lemma SymbolTable(i: nat)
    ensures i < 26 ==> Symbol(i) == "ABCDEFGHIJKLMNOPQRSTUVWXYZ"[i]
    ensures 26 <= i < 52 ==> Symbol(i) == "abcdefghijklmnopqrstuvwxyz"[i - 26]
    ensures 52 <= i < 64 ==> Symbol(i) == "0123456789+/"[i - 52]
  {
  }

  /** A character is a symbol exactly if the alphabet has it. */
  lemma SymbolIff(c: char)
    ensures IsSymbol(c) <==> exists i :: 0 <= i < 64 && Symbol(i) == c
  {
    if IsSymbol(c) { assert Symbol(SymbolIndex(c)) == c; }
    hide SymbolIndex;
    forall i | 0 <= i < 64 && Symbol(i) == c ensures IsSymbol(c) { SymbolRoundTrip(i); }
  }

  predicate AllSymbols(s: string) {
    forall i | 0 <= i < |s| :: IsSymbol(s[i])
  }

  predicate AllSmall(xs: seq<nat>) {
    forall i | 0 <= i < |xs| :: xs[i] < 64
  }

  function Indices(s: string): seq<nat>
    requires AllSymbols(s)
  {
    seq(|s|, i requires 0 <= i < |s| => SymbolIndex(s[i]))
  }

  function Symbols(xs: seq<nat>): string
    requires AllSmall(xs)
  {
    seq(|xs|, i requires 0 <= i < |xs| => Symbol(xs[i]))
  }

  /** Zero bits that fill up the last group of six. */
  function FillBits(n: nat): (z: nat)
    ensures z < 6 && (8 * n + z) % 6 == 0
  {
    var z := if n % 3 == 0 then 0 else if n % 3 == 1 then 4 else 2;
    assert 8 * n + z == 6 * (4 * (n / 3) + if n % 3 == 0 then 0 else if n % 3 == 1 then 2 else 3);
    z
  }

  function FilledBits(data: Bytes): seq<Bit> {
    Expand(data, 8) + Bits.Zeros(FillBits(|data|))
  }

  function Padding(n: nat): (p: nat)
    ensures p <= 2
  {
    (3 - n % 3) % 3
  }

  lemma EncodedGroups(data: Bytes)
    ensures Expand(Groups(FilledBits(data), 6), 6) == FilledBits(data)
    ensures AllSmall(Groups(FilledBits(data), 6))
  {
    hide *;
    var n := FilledLength(data);
    WholeByLength(FilledBits(data), 6, n);
    ExpandOfGroups(FilledBits(data), 6, n);
    SmallMembers(Groups(FilledBits(data), 6));
  }

  lemma FilledLength(data: Bytes) returns (n: nat)
    ensures |FilledBits(data)| == n * 6
  {
    hide Expand;
    ExpandLength(data, 8);
    n := |FilledBits(data)| / 6;
  }

  lemma SmallMembers(xs: seq<nat>)
    requires forall x | x in xs :: x < Pow2(6)
    ensures AllSmall(xs)
  {
    assert Pow2(6) == 64;
    forall i | 0 <= i < |xs| ensures xs[i] < 64 { assert xs[i] in xs; }
  }

  function Base64(data: Bytes): string {
    EncodedGroups(data);
    Symbols(Groups(FilledBits(data), 6)) + seq(Padding(|data|), _ => '=')
  }

  /** The text without at most two trailing padding characters. */
  function Unpadded(text: string): string {
    var s := if text != "" && text[|text| - 1] == '=' then text[..|text| - 1] else text;
    if s != text && s != "" && s[|s| - 1] == '=' then s[..|s| - 1] else s
  }

  function FromBase64(symbols: string): Bytes
    requires AllSymbols(symbols)
  {
    GroupsAreBytes(Expand(Indices(symbols), 6));
    Groups(Expand(Indices(symbols), 6), 8)
  }

  lemma {:induction false} GroupsAreBytes(bits: seq<Bit>)
    ensures forall i | 0 <= i < |Groups(bits, 8)| :: Groups(bits, 8)[i] < 256
    decreases |bits|
  {
    if |bits| >= 8 {
      ValueLowBits(bits[..8]);
      assert Pow2(8) == 256;
      GroupsAreBytes(bits[8..]);
      assert Groups(bits, 8) == [BitsValue(bits[..8])] + Groups(bits[8..], 8);
    }
  }

  // ----- Entries -----

  datatype Item = Item(sha256: string, base64: string)

  function Entry(data: Bytes, sha: Digest): Item {
    Item(sha(data), Base64(data))
  }

  function Decode(item: Item, sha: Digest): Result<Bytes, string> {
    var symbols := Unpadded(item.base64);
    if !AllSymbols(symbols) then Failure("Invalid archive entry")
    else
      var data := FromBase64(symbols);
      if sha(data) != item.sha256 then Failure("Archive entry integrity failed") else Success(data)
  }

  lemma UnpaddedBase64(data: Bytes)
    ensures AllSmall(Groups(FilledBits(data), 6)) && Unpadded(Base64(data)) == Symbols(Groups(FilledBits(data), 6))
  {
    EncodedGroups(data);
    var symbols := Symbols(Groups(FilledBits(data), 6));
    forall i | 0 <= i < |symbols| ensures symbols[i] != '=' {
      SymbolRoundTrip(Groups(FilledBits(data), 6)[i]);
    }
    hide Groups, FilledBits, Symbols;
    Stripped(symbols, Padding(|data|));
  }

  lemma Stripped(symbols: string, p: nat)
    requires p <= 2 && (symbols == "" || symbols[|symbols| - 1] != '=')
    ensures Unpadded(symbols + seq(p, _ => '=')) == symbols
  {
    var t := symbols + seq(p, _ => '=');
    if p == 0 { assert t == symbols; }
    if p == 1 { assert t[..|t| - 1] == symbols; }
    if p == 2 {
      assert t[..|t| - 1] == symbols + "=";
      assert (symbols + "=")[..|symbols|] == symbols;
    }
  }

  lemma SymbolsIndices(xs: seq<nat>)
    requires AllSmall(xs)
    ensures AllSymbols(Symbols(xs)) && Indices(Symbols(xs)) == xs
  {
    forall i | 0 <= i < |xs| ensures IsSymbol(Symbols(xs)[i]) && SymbolIndex(Symbols(xs)[i]) == xs[i] {
      SymbolRoundTrip(xs[i]);
    }
    hide SymbolIndex, Symbol;
  }

  /** Decoding an entry gives its bytes back, for any bytes. */
  lemma DecodeEntry(data: Bytes, sha: Digest)
    ensures Decode(Entry(data, sha), sha) == Success(data)
  {
    UnpaddedBase64(data);
    EncodedGroups(data);
    var xs := Groups(FilledBits(data), 6);
    SymbolsIndices(xs);
    assert Pow2(8) == 256;
    hide Groups, Expand, Pow2, Symbols, Indices, Base64, Unpadded, AllSymbols, AllSmall;
    assert FromBase64(Symbols(xs)) == Groups(FilledBits(data), 8);
    GroupsOfExpand(data, Bits.Zeros(FillBits(|data|)), 8);
  }

  /** The bits of the bytes are those of the symbols, but for an incomplete last byte. */
  lemma DecodedBits(symbols: string)
    requires AllSymbols(symbols)
    ensures var n := 6 * |symbols| / 8;
            && |FromBase64(symbols)| == n
            && 8 * n <= |Expand(Indices(symbols), 6)|
            && Expand(FromBase64(symbols), 8) == Expand(Indices(symbols), 6)[..8 * n]
  {
    var bits := Expand(Indices(symbols), 6);
    var n := |bits| / 8;
    ExpandLength(Indices(symbols), 6);
    hide Expand, Groups, Indices;
    GroupsOfWhole(bits, n);
  }

  lemma {:induction false} GroupsOfWhole(bits: seq<Bit>, n: nat)
    requires 8 * n <= |bits| < 8 * n + 8
    ensures |Groups(bits, 8)| == n && Expand(Groups(bits, 8), 8) == bits[..8 * n]
  {
    hide *;
    if n == 0 {
      NoGroups(bits);
    } else {
      var head, tail := bits[..8], bits[8..];
      assert bits == head + tail && bits[..8 * n] == head + tail[..8 * (n - 1)];
      GroupsOfWhole(tail, n - 1);
      GroupsStep(head, tail, 8);
      ValueLowBits(head);
      var all := [BitsValue(head)] + Groups(tail, 8);
      assert all[0] == BitsValue(head) && all[1..] == Groups(tail, 8);
      ExpandCons(all, 8);
    }
  }

  lemma NoGroups(bits: seq<Bit>)
    requires |bits| < 8
    ensures Groups(bits, 8) == [] && Expand([], 8) == []
  {
  }

  /** An entry is accepted exactly if its text is base64 symbols and at most two padding characters, and the
      bytes they hold have the recorded digest. */
  lemma DecodeIff(item: Item, sha: Digest, symbols: string, p: nat)
    requires symbols == "" || symbols[|symbols| - 1] != '='
    requires item.base64 == symbols + seq(p, _ => '=')
    ensures Decode(item, sha).Success? <==> p <= 2 && AllSymbols(symbols) && sha(FromBase64(symbols)) == item.sha256
    ensures Decode(item, sha).Success? ==> AllSymbols(symbols) && Decode(item, sha).value == FromBase64(symbols)
  {
    hide FromBase64;
    if p <= 2 { Stripped(symbols, p); } else { TooMuchPadding(symbols, p); }
  }

  lemma TooMuchPadding(symbols: string, p: nat)
    requires p > 2
    ensures !AllSymbols(Unpadded(symbols + seq(p, _ => '=')))
  {
    var u := Unpadded(symbols + seq(p, _ => '='));
    assert u[|symbols|] == '=';
  }

  // ----- The canonical dump -----

  /** A line that pg_dump fills with a fresh random token. */
  predicate Volatile(line: string) {
    "\\restrict " <= line || "\\unrestrict " <= line
  }

  function Stable(lines: seq<string>): seq<string> {
    if lines == [] then [] else (if Volatile(lines[0]) then [] else [lines[0]]) + Stable(lines[1..])
  }

  function CanonicalDump(dump: string): string {
    Join(Stable(Split(dump, '\n')), '\n')
  }

  lemma {:induction false} StableMembers(lines: seq<string>, l: string)
    ensures l in Stable(lines) <==> l in lines && !Volatile(l)
  {
    if lines != [] { StableMembers(lines[1..], l); }
  }

  /** Of each line it is known whether it stays, and lines keep their order. */
  lemma {:induction false} StableAppend(a: seq<string>, b: seq<string>)
    ensures Stable(a + b) == Stable(a) + Stable(b)
  {
    if a == [] {
      assert a + b == b;
    } else {
      assert (a + b)[1..] == a[1..] + b;
      StableAppend(a[1..], b);
    }
  }

  lemma StableLine(l: string)
    ensures Stable([l]) == if "\\restrict " <= l || "\\unrestrict " <= l then [] else [l]
  {
    assert [l][1..] == [];
  }

  lemma SplitCanonical(dump: string)
    requires Stable(Split(dump, '\n')) != []
    ensures Split(CanonicalDump(dump), '\n') == Stable(Split(dump, '\n'))
  {
    var kept := Stable(Split(dump, '\n'));
    forall l | l in kept ensures '\n' !in l {
      StableMembers(Split(dump, '\n'), l);
      SplitPieces(dump, '\n', l);
    }
    SplitJoin(kept, '\n');
  }

  /** No line, or one empty line. */
  predicate Bare(lines: seq<string>) {
    lines == [] || lines == [""]
  }

  /** Two dumps have the same canonical form exactly if they agree on every line but the volatile ones;
      only no lines at all and a single empty line count as equal besides. */
  lemma SameCanonicalIff(a: string, b: string)
    ensures CanonicalDump(a) == CanonicalDump(b) <==>
              var p, q := Stable(Split(a, '\n')), Stable(Split(b, '\n')); p == q || (Bare(p) && Bare(q))
  {
    var p, q := Stable(Split(a, '\n')), Stable(Split(b, '\n'));
    if p != [] { SplitCanonical(a); }
    if q != [] { SplitCanonical(b); }
    assert Split("", '\n') == [""];
    assert Bare(p) ==> CanonicalDump(a) == "";
    assert Bare(q) ==> CanonicalDump(b) == "";
    hide Stable, Split, Join;
  }

  // ----- The bundle -----

  datatype Volume = Volume(target: string, archive: Item)

  datatype Bundle = Bundle(version: int, project: string, databaseImage: string, identityImage: string,
                           databaseLogicalHash: string, secretKey: string, database: Item, volumes: seq<Volume>)

  predicate ProjectName(s: string) {
    && 2 <= |s| <= 63
    && ('a' <= s[0] <= 'z' || Decimal(s[0]))
    && forall i | 1 <= i < |s| :: 'a' <= s[i] <= 'z' || Decimal(s[i]) || s[i] == '_' || s[i] == '-'
  }

  predicate HexDigest(s: string) {
    |s| == 64 && forall i | 0 <= i < 64 :: 'a' <= s[i] <= 'f' || Decimal(s[i])
  }

  predicate ImageDigest(s: string) {
    "sha256:" <= s && HexDigest(s[7..])
  }

  const TARGETS: set<string> := {"/data", "/templates", "/certs"}

  function Targets(volumes: seq<Volume>): set<string> {
    set i | 0 <= i < |volumes| :: volumes[i].target
  }

  function CheckVolumes(volumes: seq<Volume>, sha: Digest): Result<(), string> {
    if volumes == [] then Success(())
    else
      var data :- Decode(volumes[0].archive, sha);
      var _ :- UstarReader.Inventory(data, 0, [], sha);
      CheckVolumes(volumes[1..], sha)
  }

  function ValidateBundle(b: Bundle, sha: Digest): Result<Bundle, string> {
    if b.version != 1 || !ProjectName(b.project) then Failure("Invalid recovery bundle")
    else if !ImageDigest(b.databaseImage) || !ImageDigest(b.identityImage) then
      Failure("Missing immutable image identities")
    else if !HexDigest(b.databaseLogicalHash) || |b.secretKey| < 32 then Failure("Missing identity recovery metadata")
    else if |b.volumes| != 3 || |Targets(b.volumes)| != 3
            || (exists i | 0 <= i < |b.volumes| :: b.volumes[i].target !in TARGETS)
    then Failure("Unexpected recovery volume inventory")
    else
      var _ :- Decode(b.database, sha);
      var _ :- CheckVolumes(b.volumes, sha);
      Success(b)
  }

  lemma CheckedFirst(volumes: seq<Volume>, sha: Digest)
    requires CheckVolumes(volumes, sha).Success? && volumes != []
    ensures Decode(volumes[0].archive, sha).Success? && CheckVolumes(volumes[1..], sha).Success?
    ensures UstarReader.Inventory(Decode(volumes[0].archive, sha).value, 0, [], sha).Success?
  {
    hide UstarReader.Inventory, Decode;
  }

  lemma {:induction false} CheckedVolume(volumes: seq<Volume>, sha: Digest, i: nat)
    requires CheckVolumes(volumes, sha).Success? && i < |volumes|
    ensures Decode(volumes[i].archive, sha).Success?
    ensures UstarReader.Inventory(Decode(volumes[i].archive, sha).value, 0, [], sha).Success?
    decreases |volumes|
  {
    hide UstarReader.Inventory, Decode;
    CheckedFirst(volumes, sha);
    if i > 0 {
      hide CheckVolumes;
      CheckedVolume(volumes[1..], sha, i - 1);
    }
  }

  lemma CheckTurn(volumes: seq<Volume>, sha: Digest)
    requires volumes != []
    ensures CheckVolumes(volumes, sha).Success? <==>
              && Decode(volumes[0].archive, sha).Success?
              && UstarReader.Inventory(Decode(volumes[0].archive, sha).value, 0, [], sha).Success?
              && CheckVolumes(volumes[1..], sha).Success?
  {
    hide UstarReader.Inventory, Decode;
  }

  lemma {:induction false} CheckedIff(volumes: seq<Volume>, sha: Digest)
    ensures CheckVolumes(volumes, sha).Success? <==>
              forall i | 0 <= i < |volumes| :: Restorable(volumes[i].archive, sha)
  {
    if volumes == [] {
      assert CheckVolumes(volumes, sha).Success?;
    } else {
      CheckTurn(volumes, sha);
      CheckedIff(volumes[1..], sha);
      RestorableIff(volumes[0].archive, sha);
      hide *;
      AllVolumes(volumes, sha);
    }
  }

  lemma AllVolumes(volumes: seq<Volume>, sha: Digest)
    requires volumes != []
    ensures (forall i | 0 <= i < |volumes| :: Restorable(volumes[i].archive, sha)) <==>
              && Restorable(volumes[0].archive, sha)
              && forall i | 0 <= i < |volumes[1..]| :: Restorable(volumes[1..][i].archive, sha)
  {
    hide Restorable;
    assert forall i | 0 <= i < |volumes[1..]| :: volumes[1..][i] == volumes[i + 1];
    assert forall i | 1 <= i < |volumes| :: volumes[i] == volumes[1..][i - 1];
  }

  /** An entry whose bytes have the recorded digest and form an archive accounted for to the last byte. */
  ghost predicate Restorable(archive: Item, sha: Digest) {
    && Decode(archive, sha).Success?
    && UstarReader.Accounted(Decode(archive, sha).value, sha)
  }

  lemma RestorableIff(archive: Item, sha: Digest)
    ensures Restorable(archive, sha) <==>
              && Decode(archive, sha).Success?
              && UstarReader.Inventory(Decode(archive, sha).value, 0, [], sha).Success?
  {
    hide UstarReader.Inventory, UstarReader.Accounted, Decode;
    if Decode(archive, sha).Success? { UstarReader.AcceptedIff(Decode(archive, sha).value, sha); }
  }

  ghost predicate LowerOrDigit(c: char) {
    97 <= c as int <= 122 || 48 <= c as int <= 57
  }

  /** The text is 64 lower-case hexadecimal digits. */
  ghost predicate Sha256Text(s: string) {
    |s| == 64 && forall c | c in s :: 48 <= c as int <= 57 || 97 <= c as int <= 102
  }

  /** Exactly these bundles are valid. */
  lemma ValidIff(b: Bundle, sha: Digest)
    ensures ValidateBundle(b, sha).Success? <==>
              && b.version == 1
              && 2 <= |b.project| <= 63 && LowerOrDigit(b.project[0])
              && (forall c | c in b.project[1..] :: LowerOrDigit(c) || c == '_' || c == '-')
              && (exists h :: b.databaseImage == "sha256:" + h && Sha256Text(h))
              && (exists h :: b.identityImage == "sha256:" + h && Sha256Text(h))
              && Sha256Text(b.databaseLogicalHash) && |b.secretKey| >= 32
              && |b.volumes| == 3 && (set v | v in b.volumes :: v.target) == {"/data", "/templates", "/certs"}
              && Decode(b.database, sha).Success?
              && forall i | 0 <= i < 3 :: Restorable(b.volumes[i].archive, sha)
  {
    ProjectNameIff(b.project);
    ImageDigestIff(b.databaseImage);
    ImageDigestIff(b.identityImage);
    HexDigestIff(b.databaseLogicalHash);
    TargetsIff(b.volumes);
    CheckedIff(b.volumes, sha);
    hide ProjectName, ImageDigest, HexDigest, Sha256Text, Decode, Restorable, Targets, CheckVolumes, LowerOrDigit;
  }

  lemma ProjectNameIff(s: string)
    ensures ProjectName(s) <==>
              && 2 <= |s| <= 63 && LowerOrDigit(s[0])
              && forall c | c in s[1..] :: LowerOrDigit(c) || c == '_' || c == '-'
  {
    if 2 <= |s| {
      assert forall i | 1 <= i < |s| :: s[1..][i - 1] == s[i];
      assert forall i | 1 <= i < |s| :: s[i] in s[1..];
    }
  }

  lemma HexDigestIff(s: string)
    ensures HexDigest(s) <==> Sha256Text(s)
  {
    if |s| == 64 { assert forall i | 0 <= i < 64 :: s[i] in s; }
  }

  lemma ImageDigestIff(s: string)
    ensures ImageDigest(s) <==> exists h :: s == "sha256:" + h && Sha256Text(h)
  {
    if "sha256:" <= s {
      HexDigestIff(s[7..]);
      assert s == "sha256:" + s[7..];
    }
    if h :| s == "sha256:" + h && Sha256Text(h) { assert s[7..] == h; }
  }

  lemma TargetsIff(volumes: seq<Volume>)
    ensures var targets := set v | v in volumes :: v.target;
            |Targets(volumes)| == 3 && (forall i | 0 <= i < |volumes| :: volumes[i].target in TARGETS) <==>
            targets == {"/data", "/templates", "/certs"}
  {
    var targets := set v | v in volumes :: v.target;
    assert targets == Targets(volumes);
    if |targets| == 3 && forall i | 0 <= i < |volumes| :: volumes[i].target in TARGETS {
      assert targets <= TARGETS;
      SameSize(targets, TARGETS);
    }
  }

  lemma {:induction false} SameSize(a: set<string>, b: set<string>)
    requires a <= b && |a| == |b|
    ensures a == b
  {
    assert b == a + (b - a);
    assert |b - a| == 0;
  }

  /** A valid bundle holds exactly one archive for each of the three volumes, and each decodes to bytes
      with its digest that form an archive accounted for to the last byte. */
  lemma ValidBundle(b: Bundle, sha: Digest, i: nat)
    returns (offsets: seq<nat>, files: seq<UstarReader.File<string>>)
    requires ValidateBundle(b, sha).Success? && i < |b.volumes|
    ensures ValidateBundle(b, sha).value == b && Decode(b.database, sha).Success?
    ensures |b.volumes| == 3 && Targets(b.volumes) == TARGETS
    ensures var archive := b.volumes[i].archive;
            && Decode(archive, sha).Success?
            && sha(Decode(archive, sha).value) == archive.sha256
            && UstarReader.Account(Decode(archive, sha).value, offsets, files, sha)
  {
    hide UstarReader.Account, UstarReader.Inventory, Unpadded, FromBase64, AllSymbols;
    hide ProjectName, ImageDigest, HexDigest;
    assert Targets(b.volumes) <= TARGETS;
    SameSize(Targets(b.volumes), TARGETS);
    CheckedVolume(b.volumes, sha, i);
    var buffer := Decode(b.volumes[i].archive, sha).value;
    offsets, files := UstarReader.AcceptedIsSound(buffer, sha);
  }
}
