/** A reference ustar writer, and the proof that the reader undoes it: reading back any archive of
    valid entries gives the entries sorted by name, in whatever order they were written. */
module UstarRoundTrip {
  import opened Wrappers
  import opened Text
  import opened Numerals
  import opened Characters
  import opened UstarReader

  datatype Source = Source(
    prefix: string, path: string, kind: char, mode: nat, uid: nat, gid: nat, mtime: nat, link: string, data: Bytes)

  // ----- The writer -----

  predicate Plain(s: string) {
    forall c | c in s :: 0 < c as int < 256
  }

  function ByteOf(s: string, k: nat): Byte
    requires Plain(s)
  {
    if k < |s| then assert s[k] in s; s[k] as int else 0
  }

  function OctalField(n: nat, digits: nat): (s: string)
    ensures Plain(s) && AllDigits(s, 8)
  {
    PaddedValue(n, 8, digits);
    PadStart(Print(n, 8), digits, '0')
  }

  ghost predicate Writable(s: Source) {
    && Plain(s.prefix) && |s.prefix| <= 155
    && Plain(s.path) && |s.path| <= 100
    && Plain(s.link) && |s.link| <= 100
    && s.kind in "025"
    && s.mode < Pow(8, 7) && s.uid < Pow(8, 7) && s.gid < Pow(8, 7)
    && |s.data| < Pow(8, 11) && s.mtime < Pow(8, 11)
    && Harmless(EntryPath(s))
    && (s.kind == '2' ==> TargetHarmless(s.link))
  }

  function EntryPath(s: Source): string {
    (if s.prefix != "" then s.prefix + "/" else "") + s.path
  }

  /** The byte at each place of a header whose checksum field holds `sum`. */
  function HeaderByte(s: Source, sum: string, i: nat): Byte
    requires Plain(s.prefix) && Plain(s.path) && Plain(s.link) && Plain(sum) && s.kind in "025"
  {
    if i < 100 then ByteOf(s.path, i)
    else if i < 108 then ByteOf(OctalField(s.mode, 7), i - 100)
    else if i < 116 then ByteOf(OctalField(s.uid, 7), i - 108)
    else if i < 124 then ByteOf(OctalField(s.gid, 7), i - 116)
    else if i < 136 then ByteOf(OctalField(|s.data|, 11), i - 124)
    else if i < 148 then ByteOf(OctalField(s.mtime, 11), i - 136)
    else if i < 156 then if i == 155 then 32 else ByteOf(sum, i - 148)
    else if i == 156 then s.kind as int
    else if i < 257 then ByteOf(s.link, i - 157)
    else if i < 265 then ByteOf("ustar", i - 257)
    else if i < 345 then 0
    else if i < 500 then ByteOf(s.prefix, i - 345)
    else 0
  }

  function Block(s: Source, sum: string): (b: Bytes)
    requires Plain(s.prefix) && Plain(s.path) && Plain(s.link) && Plain(sum) && s.kind in "025"
    ensures |b| == 512
    ensures forall i | 0 <= i < 512 :: b[i] == HeaderByte(s, sum, i)
  {
    seq(512, i requires 0 <= i < 512 => HeaderByte(s, sum, i))
  }

  /** The checksum is the sum of the header with eight spaces in its own field, and is then written into it. */
  function Header(s: Source): (b: Bytes)
    requires Writable(s)
    ensures |b| == 512
  {
    Block(s, OctalField(Sum(Block(s, "       ")), 6))
  }

  function Zeros(n: nat): Bytes {
    seq(n, _ => 0)
  }

  function Record(s: Source): Bytes
    requires Writable(s)
  {
    Header(s) + (s.data + Zeros(Padded(|s.data|) - |s.data|))
  }

  function Archive(sources: seq<Source>): Bytes
    requires forall s | s in sources :: Writable(s)
  {
    if sources == [] then Zeros(1024) else Record(sources[0]) + Archive(sources[1..])
  }

  /** The inventory entry of a source. Its modification time is not part of it. */
  function FileOf<D>(s: Source, sha: Bytes -> D): File<D>
    requires Writable(s)
  {
    SafePathIff(EntryPath(s));
    (SafePath(EntryPath(s)).value, Meta([s.kind], s.mode, s.uid, s.gid, |s.data|, s.link, sha(s.data)))
  }

  function FilesOf<D>(sources: seq<Source>, sha: Bytes -> D): (files: seq<File<D>>)
    requires forall s | s in sources :: Writable(s)
    ensures |files| == |sources|
  {
    if sources == [] then [] else [FileOf(sources[0], sha)] + FilesOf(sources[1..], sha)
  }

  // ----- Fields read back -----

  lemma {:induction false} CStringReads(b: Bytes, s: string)
    requires Plain(s) && |s| <= |b|
    requires forall k | 0 <= k < |s| :: b[k] == s[k] as int
    requires |s| < |b| ==> b[|s|] == 0
    ensures CString(b) == s
  {
    if s != "" {
      assert s[0] in s && forall c | c in s[1..] :: c in s;
      CStringReads(b[1..], s[1..]);
    }
  }

  lemma FieldReads(block: Bytes, start: nat, length: nat, s: string)
    requires start + length <= |block| && Plain(s) && |s| <= length
    requires forall k | 0 <= k < length && k <= |s| :: block[start + k] == ByteOf(s, k)
    ensures FieldText(block, start, length) == s
  {
    var b := block[start..start + length];
    forall k | 0 <= k < length && k <= |s| ensures b[k] == ByteOf(s, k) {
      assert block[start + k] == ByteOf(s, k);
    }
    assert forall k | 0 <= k < |s| :: b[k] == ByteOf(s, k);
    CStringReads(b, s);
  }

  lemma TrimDigits(s: string)
    requires s != "" && AllDigits(s, 8)
    ensures Trim(s) == s
  {
    assert s[0] in s && s[|s| - 1] in s;
  }

  lemma NumberReads(block: Bytes, start: nat, length: nat, n: nat, digits: nat)
    requires start + length <= |block| && 1 <= digits < length && n < Pow(8, digits)
    requires forall k | 0 <= k <= digits :: block[start + k] == ByteOf(OctalField(n, digits), k)
    ensures Octal(block, start, length) == Success(n)
  {
    var s := OctalField(n, digits);
    PaddedLength(n, 8, digits);
    PaddedValue(n, 8, digits);
    FieldReads(block, start, length, s);
    TrimDigits(s);
  }

  lemma {:induction false} SumBound(bytes: Bytes)
    ensures Sum(bytes) <= 255 * |bytes|
  {
    if bytes != [] { SumBound(bytes[1..]); }
  }

  lemma SixDigits()
    ensures Pow(8, 6) == 262144
  {
    assert Pow(8, 1) == 8;
    assert Pow(8, 2) == 64;
    assert Pow(8, 3) == 512;
    assert Pow(8, 4) == 4096;
    assert Pow(8, 5) == 32768;
  }

  /** A written header carries its own checksum. */
  lemma ChecksumReads(s: Source)
    requires Writable(s)
    ensures Octal(Header(s), 148, 8) == Success(Checksum(Header(s)))
  {
    var blank := Block(s, "       ");
    var sum := Sum(blank);
    SumBound(blank);
    SixDigits();
    var text := OctalField(sum, 6);
    hide Checksum, OctalField, Pow, Sum;
    BlankSum(s);
    SameOutside(s, "       ", text);
    ChecksumIs(Header(s));
    PaddedLength(sum, 8, 6);
    FieldOfSum(s, text);
    NumberReads(Header(s), 148, 8, sum, 6);
  }

  lemma BlankSum(s: Source)
    requires Writable(s)
    ensures var blank := Block(s, "       ");
            Sum(blank) == Sum(blank[..148]) + 8 * 32 + Sum(blank[156..])
  {
    var blank := Block(s, "       ");
    var field := blank[148..156];
    assert field == [32, 32, 32, 32, 32, 32, 32, 32];
    SumAppend(blank[..148], blank[148..]);
    SumAppend(field, blank[156..]);
    assert blank == blank[..148] + blank[148..] && blank[148..] == field + blank[156..];
    EightSpaces(field);
  }

  lemma EightSpaces(field: Bytes)
    requires field == [32, 32, 32, 32, 32, 32, 32, 32]
    ensures Sum(field) == 8 * 32
  {
    var one: Bytes, two: Bytes, four: Bytes := [32], [32, 32], [32, 32, 32, 32];
    assert Sum(one) == 32 by { assert one[1..] == []; }
    assert two == one + one && four == two + two && field == four + four;
    SumAppend(one, one);
    SumAppend(two, two);
    SumAppend(four, four);
  }

  lemma SameOutside(s: Source, x: string, y: string)
    requires Writable(s) && Plain(x) && Plain(y)
    ensures Block(s, x)[..148] == Block(s, y)[..148] && Block(s, x)[156..] == Block(s, y)[156..]
  {
    hide OctalField;
  }

  lemma FieldOfSum(s: Source, text: string)
    requires Writable(s) && Plain(text)
    ensures forall k | 0 <= k <= 6 :: Block(s, text)[148 + k] == ByteOf(text, k)
  {
  }

  /** Every field of a written header reads back. */
  lemma NumbersRead(s: Source)
    requires Writable(s)
    ensures ReadOwner(Header(s)) == Success((s.mode, s.uid, s.gid))
    ensures Octal(Header(s), 124, 12) == Success(|s.data|)
  {
    var h := Header(s);
    hide OctalField, Checksum, Octal;
    assert forall k | 0 <= k <= 7 :: h[100 + k] == ByteOf(OctalField(s.mode, 7), k);
    assert forall k | 0 <= k <= 7 :: h[108 + k] == ByteOf(OctalField(s.uid, 7), k);
    assert forall k | 0 <= k <= 7 :: h[116 + k] == ByteOf(OctalField(s.gid, 7), k);
    assert forall k | 0 <= k <= 11 :: h[124 + k] == ByteOf(OctalField(|s.data|, 11), k);
    NumberReads(h, 100, 8, s.mode, 7);
    NumberReads(h, 108, 8, s.uid, 7);
    NumberReads(h, 116, 8, s.gid, 7);
    NumberReads(h, 124, 12, |s.data|, 11);
  }

  lemma TextsRead(s: Source)
    requires Writable(s)
    ensures FullPath(Header(s)) == EntryPath(s)
    ensures ReadKind(Header(s)) == [s.kind]
    ensures FieldText(Header(s), 157, 100) == s.link
    ensures !AllZero(Header(s))
  {
    var h := Header(s);
    hide OctalField, Checksum, FieldText;
    assert forall k | 0 <= k < 155 :: h[345 + k] == ByteOf(s.prefix, k);
    assert forall k | 0 <= k < 100 :: h[k] == ByteOf(s.path, k);
    assert forall k | 0 <= k < 100 :: h[157 + k] == ByteOf(s.link, k);
    assert h[156] == ByteOf([s.kind], 0);
    FieldReads(h, 345, 155, s.prefix);
    FieldReads(h, 0, 100, s.path);
    FieldReads(h, 157, 100, s.link);
    FieldReads(h, 156, 1, [s.kind]);
  }

  // ----- Entries read back -----

  lemma NameReads(s: Source)
    requires Writable(s)
    ensures ReadName(Header(s)) == SafePath(EntryPath(s)) && SafePath(EntryPath(s)).Success?
  {
    ChecksumReads(s);
    TextsRead(s);
    SafePathIff(EntryPath(s));
    hide Header, Harmless, Octal, Checksum, FullPath, EntryPath, SafePath;
  }

  /** The reader's result for one entry, from what its fields read as. */
  lemma EntryFromFields<D>(
    buffer: Bytes, offset: nat, seen: set<string>, sha: Bytes -> D,
    name: string, kind: string, size: nat, link: string, owner: (nat, nat, nat))
    requires offset + 512 + size <= |buffer|
    requires var block := buffer[offset..offset + 512];
             && ReadName(block) == Success(name) && ReadKind(block) == kind && Octal(block, 124, 12) == Success(size)
             && FieldText(block, 157, 100) == link && ReadOwner(block) == Success(owner)
    requires kind == "0" || kind == "2" || kind == "5"
    requires kind == "2" ==> SafePath(WithoutLeadingSlash(link)).Success?
    ensures ReadEntry(buffer, offset, seen, sha) ==
            if name in seen then Failure("Unsupported or duplicate tar entry")
            else
              var data := buffer[offset + 512..offset + 512 + size];
              Success((name, Meta(kind, owner.0, owner.1, owner.2, size, link, sha(data))))
  {
    hide ReadName, ReadKind, Octal, FieldText, ReadOwner, SafePath, WithoutLeadingSlash;
  }

  /** An entry in the middle of an archive reads back, unless its name was seen before. */
  lemma EntryReads<D>(done: Bytes, s: Source, rest: Bytes, seen: set<string>, sha: Bytes -> D)
    requires Writable(s)
    ensures |done| + 512 <= |done + (Record(s) + rest)|
    ensures ReadEntry(done + (Record(s) + rest), |done|, seen, sha) ==
            if FileOf(s, sha).0 in seen then Failure("Unsupported or duplicate tar entry") else Success(FileOf(s, sha))
  {
    hide *;
    RecordPlaced(done, s, rest);
    NameReads(s);
    NumbersRead(s);
    TextsRead(s);
    WritableKinds(s);
    FileFields(s, sha);
    EntryFromFields(done + (Record(s) + rest), |done|, seen, sha, SafePath(EntryPath(s)).value, [s.kind], |s.data|,
                    s.link, (s.mode, s.uid, s.gid));
  }

  lemma FileFields<D>(s: Source, sha: Bytes -> D)
    requires Writable(s)
    ensures SafePath(EntryPath(s)).Success?
    ensures FileOf(s, sha) ==
            (SafePath(EntryPath(s)).value, Meta([s.kind], s.mode, s.uid, s.gid, |s.data|, s.link, sha(s.data)))
  {
    SafePathIff(EntryPath(s));
    hide SafePath, EntryPath, Plain, Pow, Harmless;
  }

  lemma WritableKinds(s: Source)
    requires Writable(s)
    ensures [s.kind] == "0" || [s.kind] == "2" || [s.kind] == "5"
    ensures [s.kind] == "2" ==> SafePath(WithoutLeadingSlash(s.link)).Success?
  {
    TargetIff(s.link);
  }

  lemma RecordPlaced(done: Bytes, s: Source, rest: Bytes)
    requires Writable(s)
    ensures var buffer := done + (Record(s) + rest);
            && |done| + 512 + |s.data| <= |buffer|
            && buffer[|done|..|done| + 512] == Header(s)
            && buffer[|done| + 512..|done| + 512 + |s.data|] == s.data
    ensures |Record(s)| == 512 + Padded(|s.data|)
  {
    hide Header;
    PaddedIsCeiling(|s.data|);
  }

  /** What the reader should make of `sources` after the entries `files`. */
  function ReadBack<D>(files: seq<File<D>>, sources: seq<Source>, sha: Bytes -> D): Result<seq<File<D>>, string>
    requires forall s | s in sources :: Writable(s)
    decreases |sources|
  {
    if sources == [] then
      if WritesThroughLink(files) then Failure("Tar writes through a symlink") else Success(SortByKey(files))
    else if FileOf(sources[0], sha).0 in Names(files) then Failure("Unsupported or duplicate tar entry")
    else ReadBack(files + [FileOf(sources[0], sha)], sources[1..], sha)
  }

  lemma {:induction false} ArchiveReads<D>(done: Bytes, sources: seq<Source>, files: seq<File<D>>, sha: Bytes -> D)
    requires forall s | s in sources :: Writable(s)
    ensures Inventory(done + Archive(sources), |done|, files, sha) == ReadBack(files, sources, sha)
    decreases |sources|
  {
    hide *;
    ArchiveTurn(sources);
    ReadBackTurn(sources, files, sha);
    if sources == [] {
      EndReads(done, files, sha);
    } else {
      var s, rest := sources[0], sources[1..];
      TurnReads(done, s, Archive(rest), files, sha);
      RecordPlaced(done, s, Archive(rest));
      Regroup(done, Record(s), Archive(rest));
      ArchiveReads(done + Record(s), rest, files + [FileOf(s, sha)], sha);
    }
  }

  lemma Regroup(a: Bytes, b: Bytes, c: Bytes)
    ensures a + (b + c) == (a + b) + c && |a + b| == |a| + |b|
  {
  }

  lemma ArchiveTurn(sources: seq<Source>)
    requires forall s | s in sources :: Writable(s)
    ensures sources == [] ==> Archive(sources) == Zeros(1024)
    ensures sources != [] ==>
              && Writable(sources[0]) && (forall s | s in sources[1..] :: Writable(s))
              && Archive(sources) == Record(sources[0]) + Archive(sources[1..])
  {
    hide Record, Writable, Zeros;
  }

  lemma ReadBackTurn<D>(sources: seq<Source>, files: seq<File<D>>, sha: Bytes -> D)
    requires forall s | s in sources :: Writable(s)
    ensures sources == [] ==>
              ReadBack(files, sources, sha) ==
              if WritesThroughLink(files) then Failure("Tar writes through a symlink") else Success(SortByKey(files))
    ensures sources != [] ==>
              && Writable(sources[0]) && (forall s | s in sources[1..] :: Writable(s))
              && ReadBack(files, sources, sha) ==
                 if FileOf(sources[0], sha).0 in Names(files) then Failure("Unsupported or duplicate tar entry")
                 else ReadBack(files + [FileOf(sources[0], sha)], sources[1..], sha)
  {
    hide FileOf, Names, Writable, WritesThroughLink;
  }

  lemma EndReads<D>(done: Bytes, files: seq<File<D>>, sha: Bytes -> D)
    ensures Inventory(done + Zeros(1024), |done|, files, sha) ==
            if WritesThroughLink(files) then Failure("Tar writes through a symlink") else Success(SortByKey(files))
  {
    hide WritesThroughLink, ReadEntry;
    var buffer := done + Zeros(1024);
    assert buffer[|done|..] == Zeros(1024);
    assert buffer[|done|..|done| + 512] == Zeros(512);
  }

  /** One turn of the reader's loop over a written record. */
  lemma TurnReads<D>(done: Bytes, s: Source, rest: Bytes, files: seq<File<D>>, sha: Bytes -> D)
    requires Writable(s)
    ensures var buffer, f := done + (Record(s) + rest), FileOf(s, sha);
            Inventory(buffer, |done|, files, sha) ==
            if f.0 in Names(files) then Failure("Unsupported or duplicate tar entry")
            else Inventory(buffer, |done| + |Record(s)|, files + [f], sha)
  {
    hide *;
    RecordPlaced(done, s, rest);
    EntryReads(done, s, rest, Names(files), sha);
    TextsRead(s);
    FileFields(s, sha);
    InventoryTurn(done + (Record(s) + rest), |done|, files, sha);
  }

  lemma InventoryTurn<D>(buffer: Bytes, offset: nat, files: seq<File<D>>, sha: Bytes -> D)
    requires offset + 512 <= |buffer| && !AllZero(buffer[offset..offset + 512])
    ensures var entry := ReadEntry(buffer, offset, Names(files), sha);
            Inventory(buffer, offset, files, sha) ==
            if entry.Failure? then Failure(entry.error)
            else Inventory(buffer, offset + 512 + Padded(entry.value.1.size), files + [entry.value], sha)
  {
    hide ReadEntry, AllZero, Names, Padded, WritesThroughLink;
  }

  lemma {:induction false} ReadBackIff<D>(files: seq<File<D>>, sources: seq<Source>, sha: Bytes -> D)
    requires (forall s | s in sources :: Writable(s)) && DistinctKeys(files)
    ensures var all := files + FilesOf(sources, sha);
            && (ReadBack(files, sources, sha).Success? <==> DistinctKeys(all) && !WritesThroughLink(all))
            && (ReadBack(files, sources, sha).Success? ==> ReadBack(files, sources, sha).value == SortByKey(all))
    decreases |sources|
  {
    hide *;
    ReadBackTurn(sources, files, sha);
    FilesTurn(sources, sha);
    if sources == [] {
      assert files + [] == files;
    } else {
      var f := FileOf(sources[0], sha);
      var rest := FilesOf(sources[1..], sha);
      assert files + ([f] + rest) == (files + [f]) + rest;
      if f.0 in Names(files) {
        RepeatedName(files, f, rest);
      } else {
        DistinctExtends(files, f);
        ReadBackIff(files + [f], sources[1..], sha);
      }
    }
  }

  lemma FilesTurn<D>(sources: seq<Source>, sha: Bytes -> D)
    requires forall s | s in sources :: Writable(s)
    ensures FilesOf(sources, sha)
         == if sources == [] then [] else [FileOf(sources[0], sha)] + FilesOf(sources[1..], sha)
  {
    hide FileOf, Writable;
  }

  lemma RepeatedName<D>(files: seq<File<D>>, f: File<D>, rest: seq<File<D>>)
    requires f.0 in Names(files)
    ensures !DistinctKeys(files + ([f] + rest))
  {
    var i :| 0 <= i < |files| && files[i].0 == f.0;
    var all := files + ([f] + rest);
    assert all[i].0 == all[|files|].0;
  }

  /** Reading back a written archive gives its entries sorted by name; it is refused exactly when two
      names coincide or an entry's name begins with a symlink's name and a slash. */
  lemma RoundTrip<D>(sources: seq<Source>, sha: Bytes -> D)
    requires forall s | s in sources :: Writable(s)
    ensures var r, files := Inventory(Archive(sources), 0, [], sha), FilesOf(sources, sha);
            && (r.Success? <==> DistinctKeys(files) && !WritesThroughLink(files))
            && (r.Success? ==> r.value == SortByKey(files))
  {
    ArchiveReads([], sources, [], sha);
    assert [] + Archive(sources) == Archive(sources);
    ReadBackIff([], sources, sha);
    assert [] + FilesOf(sources, sha) == FilesOf(sources, sha);
  }

  lemma {:induction false} FilesMembers<D>(sources: seq<Source>, sha: Bytes -> D)
    requires forall s | s in sources :: Writable(s)
    ensures forall i | 0 <= i < |sources| :: FilesOf(sources, sha)[i] == FileOf(sources[i], sha)
  {
    hide Writable;
    if sources != [] { FilesMembers(sources[1..], sha); }
  }

  /** Two archives with the same entries in different orders are both refused or have the same inventory. */
  lemma OrderIrrelevant<D>(a: seq<Source>, b: seq<Source>, sha: Bytes -> D)
    requires multiset(a) == multiset(b)
    requires forall s | s in a :: Writable(s)
    ensures forall s | s in b :: Writable(s)
    ensures var r, q := Inventory(Archive(a), 0, [], sha), Inventory(Archive(b), 0, [], sha);
            (r.Success? <==> q.Success?) && (r.Success? ==> r == q)
  {
    forall s | s in b ensures s in a { assert s in multiset(a); }
    RoundTrip(a, sha);
    RoundTrip(b, sha);
    SameFiles(a, b, sha);
    var fs, gs := FilesOf(a, sha), FilesOf(b, sha);
    hide *;
    if WritesThroughLink(gs) { LinkAfterReorder(fs, gs); }
    if WritesThroughLink(fs) { LinkAfterReorder(gs, fs); }
    if DistinctKeys(fs) { DistinctAfterReorder(fs, gs); }
    if DistinctKeys(gs) { DistinctAfterReorder(gs, fs); }
    if DistinctKeys(fs) && DistinctKeys(gs) { SortForgetsOrder(fs, gs); }
  }

  lemma {:induction false} FilesAppend<D>(a: seq<Source>, b: seq<Source>, sha: Bytes -> D)
    requires (forall s | s in a :: Writable(s)) && (forall s | s in b :: Writable(s))
    ensures FilesOf(a + b, sha) == FilesOf(a, sha) + FilesOf(b, sha)
  {
    hide Writable, FileOf;
    if a == [] {
      assert a + b == b;
    } else {
      assert (a + b)[1..] == a[1..] + b;
      FilesAppend(a[1..], b, sha);
    }
  }

  lemma {:induction false} SameFiles<D>(a: seq<Source>, b: seq<Source>, sha: Bytes -> D)
    requires multiset(a) == multiset(b)
    requires (forall s | s in a :: Writable(s)) && (forall s | s in b :: Writable(s))
    ensures multiset(FilesOf(a, sha)) == multiset(FilesOf(b, sha))
  {
    hide *;
    if a == [] {
      assert |multiset(b)| == 0;
      assert b == [];
    } else {
      var k := IndexOf(b, a[0]) by { assert a[0] in multiset(b); }
      var l, r := b[..k], b[k + 1..];
      RemoveBoth(a, b, k);
      SameFiles(a[1..], l + r, sha);
      FilesAppend(l, r, sha);
      FilesAppend(l, [b[k]] + r, sha);
      FilesCons(b[k], r, sha);
      FilesCons(a[0], a[1..], sha);
    }
  }

  lemma IndexOf<T>(b: seq<T>, x: T) returns (k: nat)
    requires x in b
    ensures k < |b| && b[k] == x
  {
    k :| 0 <= k < |b| && b[k] == x;
  }

  lemma RemoveBoth<T>(a: seq<T>, b: seq<T>, k: nat)
    requires multiset(a) == multiset(b) && a != [] && k < |b| && b[k] == a[0]
    ensures multiset(a[1..]) == multiset(b[..k] + b[k + 1..])
    ensures a == [a[0]] + a[1..] && b == b[..k] + ([b[k]] + b[k + 1..])
  {
    assert a == [a[0]] + a[1..];
    assert b == b[..k] + ([b[k]] + b[k + 1..]);
    assert multiset(a) == multiset{a[0]} + multiset(a[1..]);
    assert multiset(b) == multiset(b[..k]) + (multiset{b[k]} + multiset(b[k + 1..]));
    assert multiset(b[..k] + b[k + 1..]) == multiset(b[..k]) + multiset(b[k + 1..]);
    assert multiset(a[1..]) == multiset(a) - multiset{a[0]};
    assert multiset(b[..k] + b[k + 1..]) == multiset(b) - multiset{b[k]};
  }

  lemma FilesCons<D>(s: Source, rest: seq<Source>, sha: Bytes -> D)
    requires Writable(s) && forall t | t in rest :: Writable(t)
    ensures FilesOf([s] + rest, sha) == [FileOf(s, sha)] + FilesOf(rest, sha)
  {
    hide Writable, FileOf;
    assert ([s] + rest)[1..] == rest;
  }

  lemma LinkAfterReorder<D>(a: seq<File<D>>, b: seq<File<D>>)
    requires multiset(a) == multiset(b) && WritesThroughLink(b)
    ensures WritesThroughLink(a)
  {
    var i, j :| 0 <= i < |b| && 0 <= j < |b| && b[i].1.kind == "2" && StartsWith(b[j].0, b[i].0 + "/");
    assert b[i] in multiset(a) && b[j] in multiset(a);
    var k :| 0 <= k < |a| && a[k] == b[i];
    var l :| 0 <= l < |a| && a[l] == b[j];
  }

  // ----- The boundary at the root -----

  /** The rule against writing through a symlink does not cover the root: any archive of distinctly named
      entries whose root entry is a symlink is accepted, as long as none lies under another symlink, although
      every other entry lies under the root. */
  lemma RootLinkAccepted<D>(sources: seq<Source>, i: nat, sha: Bytes -> D)
    requires (forall s | s in sources :: Writable(s)) && i < |sources|
    requires var files := FilesOf(sources, sha);
             && files[i].0 == "." && files[i].1.kind == "2" && DistinctKeys(files)
             && forall l, f | l in files && f in files && l.1.kind == "2" && l.0 != "." :: !(Steps(l.0) < Steps(f.0))
    ensures var r, files := Inventory(Archive(sources), 0, [], sha), FilesOf(sources, sha);
            && r.Success? && multiset(r.value) == multiset(files)
            && forall j | 0 <= j < |files| && j != i :: Steps(files[i].0) < Steps(files[j].0)
  {
    hide *;
    var files := FilesOf(sources, sha);
    RoundTrip(sources, sha);
    NormalNames(sources, sha);
    NothingThroughLinks(files);
    forall j | 0 <= j < |files| && j != i ensures Steps(files[i].0) < Steps(files[j].0) {
      KeysApart(files, i, j);
      RootLeads(files[i].0, files[j].0);
    }
  }

  lemma KeysApart<D>(files: seq<File<D>>, i: nat, j: nat)
    requires DistinctKeys(files) && i < |files| && j < |files| && i != j
    ensures files[i].0 != files[j].0
  {
  }

  lemma NormalNames<D>(sources: seq<Source>, sha: Bytes -> D)
    requires forall s | s in sources :: Writable(s)
    ensures forall f | f in FilesOf(sources, sha) :: NormalName(f.0)
  {
    hide *;
    FilesMembers(sources, sha);
    var files := FilesOf(sources, sha);
    forall f | f in files ensures NormalName(f.0) {
      var k :| 0 <= k < |files| && files[k] == f;
      assert sources[k] in sources;
      FileFields(sources[k], sha);
      SafePathNormal(EntryPath(sources[k]));
    }
  }

  /** Such an archive exists: a symlink as root and a file beside it are written and accepted. */
  lemma RootLinkExample<D>(sha: Bytes -> D)
    ensures var link, other := Source("", ".", '2', 0, 0, 0, 0, "a", []), Source("", "a", '0', 0, 0, 0, 0, "", []);
            && Writable(link) && Writable(other)
            && FileOf(link, sha).0 == "." && FileOf(other, sha).0 == "a"
            && Inventory(Archive([link, other]), 0, [], sha).Success?
  {
    hide *;
    DotPath();
    PlainPath();
    var link, other := Source("", ".", '2', 0, 0, 0, 0, "a", []), Source("", "a", '0', 0, 0, 0, 0, "", []);
    PlainTexts();
    BareWritable(link);
    BareWritable(other);
    FileFields(link, sha);
    FileFields(other, sha);
    TwoFiles(link, other, sha);
    RootAndFile(FileOf(link, sha), FileOf(other, sha));
    RootLinkAccepted([link, other], 0, sha);
  }

  lemma TwoFiles<D>(a: Source, b: Source, sha: Bytes -> D)
    requires Writable(a) && Writable(b)
    ensures FilesOf([a, b], sha) == [FileOf(a, sha), FileOf(b, sha)]
  {
    hide Writable, FileOf;
    FilesCons(b, [], sha);
    FilesCons(a, [b], sha);
    assert [b] + [] == [b] && [a] + [b] == [a, b];
  }

  lemma RootAndFile<D>(l: File<D>, f: File<D>)
    requires l.0 == "." && f.0 != "." && f.1.kind != "2"
    ensures DistinctKeys([l, f])
    ensures forall x, y | x in [l, f] && y in [l, f] && x.1.kind == "2" && x.0 != "." :: !(Steps(x.0) < Steps(y.0))
  {
  }

  lemma BareWritable(s: Source)
    requires s.prefix == "" && Plain(s.path) && |s.path| <= 100 && Plain(s.link) && |s.link| <= 100
    requires s.mode == s.uid == s.gid == s.mtime == 0 && s.data == []
    requires SafePath(s.path).Success? && (s.kind == '0' || s.kind == '2')
    requires s.kind == '2' ==> SafePath(WithoutLeadingSlash(s.link)).Success?
    ensures Writable(s) && EntryPath(s) == s.path
  {
    PositivePow(7);
    PositivePow(11);
    SafePathIff(s.path);
    TargetIff(s.link);
    hide Pow, SafePath, Harmless, TargetHarmless;
    assert EntryPath(s) == s.path;
  }

  lemma PlainTexts()
    ensures Plain("") && Plain(".") && Plain("a") && WithoutLeadingSlash("a") == "a"
  {
  }

  lemma DotPath()
    ensures SafePath(".") == Success(".")
  {
    SplitNone(".", '/');
    assert KeptOf(["."]) == [];
  }

  lemma PlainPath()
    ensures SafePath("a") == Success("a")
  {
    SplitNone("a", '/');
    assert KeptOf(["a"]) == ["a"];
  }

  lemma {:induction false} PositivePow(k: nat)
    ensures Pow(8, k) > 0
  {
    if k > 0 { PositivePow(k - 1); }
  }
}
