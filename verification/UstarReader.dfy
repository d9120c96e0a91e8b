/** The volume inventory: a fail-closed reader of simple ustar archives that lists every entry with
    its metadata and a digest of its contents, sorted by name. A field is read as one character per
    byte. */
module UstarReader {
  import opened Wrappers
  import opened Text
  import opened Numerals
  import opened Characters

  type Byte = b: int | 0 <= b < 256
  type Bytes = seq<Byte>

  /** What the inventory records of an entry beside its name. */
  datatype Meta<D> = Meta(kind: string, mode: nat, uid: nat, gid: nat, size: nat, link: string, digest: D)

  type File<D> = (string, Meta<D>)

  // ----- Header fields -----

  /** The characters before the first NUL. */
  function CString(s: Bytes): string {
    if s == [] || s[0] == 0 then "" else [s[0] as char] + CString(s[1..])
  }

  function FieldText(block: Bytes, start: nat, length: nat): string
    requires start + length <= |block|
  {
    CString(block[start..start + length])
  }

  function Octal(block: Bytes, start: nat, length: nat): Result<nat, string>
    requires start + length <= |block|
  {
    var value := Trim(FieldText(block, start, length));
    if value == "" || !AllDigits(value, 8) then Failure("Unsupported tar numeric format")
    else Success(Value(value, 8))
  }

  /** A text field ends before its first NUL. */
  lemma {:induction false} CStringMeans(s: Bytes)
    ensures var t := CString(s);
            && |t| <= |s| && (forall k | 0 <= k < |t| :: t[k] as int == s[k] && s[k] != 0)
            && (|t| < |s| ==> s[|t|] == 0)
  {
    if s != [] && s[0] != 0 { CStringMeans(s[1..]); }
  }

  /** A numeric field is octal digits with nothing but white space around them. */
  lemma OctalParts(block: Bytes, start: nat, length: nat) returns (lead: string, digits: string, trail: string)
    requires start + length <= |block| && Octal(block, start, length).Success?
    ensures FieldText(block, start, length) == lead + digits + trail
    ensures (forall c | c in lead :: Space(c)) && (forall c | c in trail :: Space(c))
    ensures digits != "" && forall c | c in digits :: 48 <= c as int <= 55
    ensures Octal(block, start, length).value == Value(digits, 8)
  {
    lead, trail := TrimMeans(FieldText(block, start, length));
    digits := Trim(FieldText(block, start, length));
  }

  lemma OctalReads(block: Bytes, start: nat, length: nat, lead: string, digits: string, trail: string)
    requires start + length <= |block| && FieldText(block, start, length) == lead + digits + trail
    requires (forall c | c in lead :: Space(c)) && (forall c | c in trail :: Space(c))
    requires digits != "" && forall c | c in digits :: 48 <= c as int <= 55
    ensures AllDigits(digits, 8) && Octal(block, start, length) == Success(Value(digits, 8))
  {
    assert digits[0] in digits && digits[|digits| - 1] in digits;
    TrimBetween(lead, digits, trail);
  }

  predicate AllZero(s: Bytes) {
    forall i | 0 <= i < |s| :: s[i] == 0
  }

  /** The sum of the bytes from `i` on, with the checksum field itself counted as spaces. */
  function SumFrom(block: Bytes, i: nat): nat
    requires i <= |block|
    decreases |block| - i
  {
    if i == |block| then 0
    else (if 148 <= i < 156 then 32 else block[i]) + SumFrom(block, i + 1)
  }

  function Checksum(block: Bytes): nat {
    SumFrom(block, 0)
  }

  /** The sum of some bytes. */
  function Sum(bytes: Bytes): nat {
    if bytes == [] then 0 else bytes[0] + Sum(bytes[1..])
  }

  lemma {:induction false} SumAppend(a: Bytes, b: Bytes)
    ensures Sum(a + b) == Sum(a) + Sum(b)
  {
    if a == [] {
      assert a + b == b;
    } else {
      assert (a + b)[1..] == a[1..] + b;
      SumAppend(a[1..], b);
    }
  }

  lemma {:induction false} SumOutside(block: Bytes, i: nat, j: nat)
    requires i <= j <= |block| && (j <= 148 || 156 <= i)
    ensures SumFrom(block, i) == Sum(block[i..j]) + SumFrom(block, j)
    decreases j - i
  {
    if i < j {
      SumOutside(block, i + 1, j);
      assert block[i..j][1..] == block[i + 1..j];
    }
  }

  lemma {:induction false} SumInside(block: Bytes, i: nat)
    requires 148 <= i <= 156 <= |block|
    ensures SumFrom(block, i) == 32 * (156 - i) + SumFrom(block, 156)
    decreases 156 - i
  {
    if i < 156 { SumInside(block, i + 1); }
  }

  /** The checksum is the sum of all bytes with the checksum field itself counted as eight spaces. */
  lemma ChecksumIs(block: Bytes)
    requires |block| == 512
    ensures Checksum(block) == Sum(block[..148]) + 8 * 32 + Sum(block[156..])
  {
    hide SumFrom;
    SumOutside(block, 0, 148);
    SumInside(block, 148);
    SumOutside(block, 156, 512);
    assert block[0..148] == block[..148] && block[156..512] == block[156..];
    assert SumFrom(block, 512) == 0 by { SumEnds(block); }
  }

  lemma SumEnds(block: Bytes)
    ensures SumFrom(block, |block|) == 0
  {
  }

  // ----- Paths -----

  predicate Kept(segment: string) {
    segment != "" && segment != "."
  }

  function KeptOf(segments: seq<string>): seq<string> {
    if segments == [] then []
    else (if Kept(segments[0]) then [segments[0]] else []) + KeptOf(segments[1..])
  }

  /** Normalisation of a relative path without parent segments: empty and `.` segments are dropped,
      and a trailing slash is kept. */
  function Normalize(path: string): string
    requires path != ""
  {
    var joined := Join(KeptOf(Split(path, '/')), '/');
    (if joined == "" then "." else joined) + if path[|path| - 1] == '/' then "/" else ""
  }

  function SafePath(value: string): Result<string, string> {
    if value == "" || '\\' in value || value[0] == '/' || ".." in Split(value, '/') then
      Failure("Unsafe tar path")
    else
      var n := Normalize(value);
      var stripped := if n[|n| - 1] == '/' then n[..|n| - 1] else n;
      Success(if stripped == "" then "." else stripped)
  }

  function WithoutLeadingSlash(link: string): string {
    if link != "" && link[0] == '/' then link[1..] else link
  }

  // ----- The reader -----

  function Padded(size: nat): nat {
    (size + 511) / 512 * 512
  }

  function Names<D>(files: seq<File<D>>): set<string> {
    set i | 0 <= i < |files| :: files[i].0
  }

  function FullPath(block: Bytes): string
    requires |block| == 512
  {
    var prefix := FieldText(block, 345, 155);
    (if prefix != "" then prefix + "/" else "") + FieldText(block, 0, 100)
  }

  function ReadName(block: Bytes): Result<string, string>
    requires |block| == 512
  {
    var expected :- Octal(block, 148, 8);
    if Checksum(block) != expected then Failure("Tar header checksum failed") else SafePath(FullPath(block))
  }

  function ReadKind(block: Bytes): string
    requires |block| == 512
  {
    var flag := FieldText(block, 156, 1);
    if flag == "" then "0" else flag
  }

  function ReadOwner(block: Bytes): Result<(nat, nat, nat), string>
    requires |block| == 512
  {
    var mode :- Octal(block, 100, 8);
    var uid :- Octal(block, 108, 8);
    var gid :- Octal(block, 116, 8);
    Success((mode, uid, gid))
  }

  /** The kind is the one byte at 156, and a NUL there means a plain file. */
  lemma KindMeans(block: Bytes)
    requires |block| == 512
    ensures ReadKind(block) == if block[156] == 0 then "0" else [block[156] as char]
  {
    CStringMeans(block[156..157]);
    assert block[156..157][0] == block[156];
  }

  /** One entry, with the checks in the order in which they are made. */
  function ReadEntry<D>(buffer: Bytes, offset: nat, seen: set<string>, sha: Bytes -> D): Result<File<D>, string>
    requires offset + 512 <= |buffer|
  {
    var block, start := buffer[offset..offset + 512], offset + 512;
    var name :- ReadName(block);
    var kind := ReadKind(block);
    if (kind != "0" && kind != "2" && kind != "5") || name in seen then
      Failure("Unsupported or duplicate tar entry") else
    var size :- Octal(block, 124, 12);
    if start + size > |buffer| then Failure("Truncated tar data") else
    var link := FieldText(block, 157, 100);
    if kind == "2" && SafePath(WithoutLeadingSlash(link)).Failure? then Failure("Unsafe tar path") else
    var owner :- ReadOwner(block);
    Success((name, Meta(kind, owner.0, owner.1, owner.2, size, link, sha(buffer[start..start + size]))))
  }

  predicate StartsWith(s: string, p: string) {
    p <= s
  }

  predicate WritesThroughLink<D>(files: seq<File<D>>) {
    exists i, j | 0 <= i < |files| && 0 <= j < |files| ::
      files[i].1.kind == "2" && StartsWith(files[j].0, files[i].0 + "/")
  }

  /** What the reader makes of the archive from `offset` on, after the entries `files`. */
  function Inventory<D>(buffer: Bytes, offset: nat, files: seq<File<D>>, sha: Bytes -> D): Result<seq<File<D>>, string>
    decreases |buffer| - offset
  {
    if offset >= |buffer| then Failure("Missing tar terminator")
    else if offset + 512 > |buffer| then Failure("Truncated tar header")
    else if AllZero(buffer[offset..offset + 512]) then
      if !AllZero(buffer[offset..]) then Failure("Unexpected tar trailer")
      else if WritesThroughLink(files) then Failure("Tar writes through a symlink")
      else Success(SortByKey(files))
    else
      var file :- ReadEntry(buffer, offset, Names(files), sha);
      Inventory(buffer, offset + 512 + Padded(file.1.size), files + [file], sha)
  }

  lemma NamesEmpty<D>()
    ensures Names<D>([]) == {}
  {
  }

  lemma NamesExtend<D>(files: seq<File<D>>, f: File<D>)
    ensures Names(files + [f]) == Names(files) + {f.0}
  {
    var all := files + [f];
    assert forall i | 0 <= i < |files| :: all[i] == files[i];
    assert all[|files|] == f;
  }

  method TarInventory<D(==)>(buffer: Bytes, sha: Bytes -> D) returns (r: Result<seq<File<D>>, string>)
    ensures r == Inventory(buffer, 0, [], sha)
  {
    hide ReadEntry, WritesThroughLink, AllZero, Names;
    var files: seq<File<D>>, seen: set<string> := [], {};
    NamesEmpty<D>();
    var offset: nat := 0;
    while offset < |buffer|
      invariant seen == Names(files)
      invariant Inventory(buffer, offset, files, sha) == Inventory(buffer, 0, [], sha)
      decreases |buffer| - offset
    {
      if offset + 512 > |buffer| {
        return Failure("Truncated tar header");
      }
      if AllZero(buffer[offset..offset + 512]) {
        if !AllZero(buffer[offset..]) {
          return Failure("Unexpected tar trailer");
        }
        if WritesThroughLink(files) {
          return Failure("Tar writes through a symlink");
        }
        return Success(SortByKey(files));
      }
      var file :- ReadEntry(buffer, offset, seen, sha);
      NamesExtend(files, file);
      seen := seen + {file.0};
      files := files + [file];
      offset := offset + 512 + Padded(file.1.size);
    }
    return Failure("Missing tar terminator");
  }

  // ----- Names the reader lets through -----

  /** A relative name in normal form: the root `.`, or segments none of which is empty, `.` or `..`. */
  ghost predicate NormalName(name: string) {
    && '\\' !in name
    && (name == "." || forall s | s in Split(name, '/') :: Kept(s) && s != "..")
  }

  /** The directories and the leaf on the way to an entry; the root has none. */
  function Steps(name: string): seq<string> {
    if name == "." then [] else Split(name, '/')
  }

  lemma {:induction false} KeptMembers(segments: seq<string>, s: string)
    ensures s in KeptOf(segments) <==> s in segments && Kept(s)
  {
    if segments != [] { KeptMembers(segments[1..], s); }
  }

  lemma {:induction false} JoinChars(parts: seq<string>, sep: char, c: char)
    requires c in Join(parts, sep)
    ensures c == sep || exists p :: p in parts && c in p
  {
    if |parts| == 1 {
      assert parts[0] in parts;
    } else {
      assert parts[0] in parts;
      if c in Join(parts[1..], sep) { JoinChars(parts[1..], sep, c); }
    }
  }

  lemma {:induction false} SplitChars(s: string, sep: char, p: string, c: char)
    requires p in Split(s, sep) && c in p
    ensures c in s
  {
    if s != "" {
      var rest := Split(s[1..], sep);
      if p in rest {
        SplitChars(s[1..], sep, p, c);
      } else if s[0] != sep && p == [s[0]] + rest[0] && c != s[0] {
        SplitChars(s[1..], sep, rest[0], c);
      }
    }
  }

  lemma {:induction false} JoinNotBare(parts: seq<string>, sep: char)
    requires parts != [] && forall p | p in parts :: p != "" && sep !in p
    ensures var j := Join(parts, sep); j != "" && j[0] != sep && j[|j| - 1] != sep
  {
    assert parts[0] in parts;
    if |parts| > 1 {
      assert forall p | p in parts[1..] :: p in parts;
      JoinNotBare(parts[1..], sep);
    }
  }

  /** The accepted form of a path: its kept segments, or `.` when there are none. */
  lemma SafePathValue(value: string)
    requires SafePath(value).Success?
    ensures var kept := KeptOf(Split(value, '/'));
            && SafePath(value).value == (if kept == [] then "." else Join(kept, '/'))
            && forall s | s in kept :: Kept(s) && s != ".." && '/' !in s && '\\' !in s
  {
    var kept := KeptOf(Split(value, '/'));
    forall s | s in kept ensures Kept(s) && s != ".." && '/' !in s && '\\' !in s {
      KeptMembers(Split(value, '/'), s);
      SplitPieces(value, '/', s);
      if '\\' in s { SplitChars(value, '/', s, '\\'); }
    }
    if kept != [] { JoinNotBare(kept, '/'); }
  }

  /** Whatever path the reader accepts, it records a normal relative name. */
  lemma SafePathNormal(value: string)
    requires SafePath(value).Success?
    ensures NormalName(SafePath(value).value)
  {
    var kept := KeptOf(Split(value, '/'));
    SafePathValue(value);
    if kept != [] {
      var name := Join(kept, '/');
      SplitJoin(kept, '/');
      if '\\' in name { JoinChars(kept, '/', '\\'); }
    }
  }

  lemma SplitProper(link: string, rest: string)
    ensures Split(link, '/') < Split(link + "/" + rest, '/')
  {
    hide Split;
    SplitAppend(link, rest, '/');
  }

  lemma PrefixOfJoin(link: string, name: string)
    requires Split(link, '/') < Split(name, '/')
    ensures link + "/" <= name
  {
    hide *;
    var k := |Split(link, '/')|;
    var rest := Split(name, '/')[k..];
    assert Split(name, '/') == Split(link, '/') + rest;
    JoinAppend(Split(link, '/'), rest, '/');
    JoinSplit(link, '/');
    JoinSplit(name, '/');
  }

  /** Away from the root, the textual test says exactly that one name leads to the other. */
  lemma UnderIsPrefix(link: string, name: string)
    requires NormalName(link) && NormalName(name) && link != "."
    ensures StartsWith(name, link + "/") <==> Steps(link) < Steps(name)
  {
    hide Split, NormalName;
    if StartsWith(name, link + "/") {
      var rest := name[|link| + 1..];
      assert name == link + "/" + rest;
      SplitProper(link, rest);
      assert name[|link|] == '/';
      assert name != ".";
    }
    if Steps(link) < Steps(name) {
      assert name != ".";
      PrefixOfJoin(link, name);
    }
  }

  /** At the root the test never fires: no recorded name begins with `./`. */
  lemma RootNeverUnder(name: string)
    requires NormalName(name)
    ensures !StartsWith(name, "." + "/")
  {
    if "./" <= name { DotSegment(name); }
  }

  lemma DotSegment(name: string)
    requires "./" <= name
    ensures "." in Split(name, '/')
  {
    var rest := name[2..];
    assert name == "." + ['/'] + rest;
    SplitAppend(".", rest, '/');
    SplitNone(".", '/');
  }

  // ----- Which paths are let through -----

  /** `p` stands in `s` between separators or the ends. */
  ghost predicate Segment(s: string, sep: char, p: string) {
    exists i, j | 0 <= i <= j <= |s| :: s[i..j] == p && (i == 0 || s[i - 1] == sep) && (j == |s| || s[j] == sep)
  }

  lemma {:induction false} SegmentAt(s: string, sep: char, k: nat) returns (i: nat, j: nat)
    requires k < |Split(s, sep)|
    ensures i <= j <= |s| && s[i..j] == Split(s, sep)[k]
    ensures (i == 0 || s[i - 1] == sep) && (j == |s| || s[j] == sep) && (i == 0 <==> k == 0)
  {
    if s == "" || (s[0] == sep && k == 0) {
      i, j := 0, 0;
    } else if s[0] == sep {
      i, j := SegmentAt(s[1..], sep, k - 1);
      BehindFirst(s, i, j);
      i, j := i + 1, j + 1;
    } else {
      i, j := SegmentAt(s[1..], sep, k);
      BehindFirst(s, i, j);
      if k == 0 {
        j := j + 1;
      } else {
        i, j := i + 1, j + 1;
      }
    }
  }

  lemma BehindFirst(s: string, i: nat, j: nat)
    requires s != "" && i <= j < |s|
    ensures s[1..][i..j] == s[i + 1..j + 1] && s[..j + 1] == [s[0]] + s[1..j + 1]
  {
  }

  /** The pieces of a split are the stretches between separators. */
  lemma SplitIffSegment(s: string, sep: char, p: string)
    requires sep !in p
    ensures p in Split(s, sep) <==> Segment(s, sep, p)
  {
    if p in Split(s, sep) {
      var k :| 0 <= k < |Split(s, sep)| && Split(s, sep)[k] == p;
      var i, j := SegmentAt(s, sep, k);
    }
    if Segment(s, sep, p) {
      var i, j :| 0 <= i <= j <= |s| && s[i..j] == p && (i == 0 || s[i - 1] == sep) && (j == |s| || s[j] == sep);
      SegmentIsPiece(s, sep, i, j);
    }
  }

  lemma SegmentIsPiece(s: string, sep: char, i: nat, j: nat)
    requires i <= j <= |s| && sep !in s[i..j] && (i == 0 || s[i - 1] == sep) && (j == |s| || s[j] == sep)
    ensures s[i..j] in Split(s, sep)
  {
    hide Split;
    var p := s[i..j];
    SplitNone(p, sep);
    if j < |s| {
      SplitAppend(p, s[j + 1..], sep);
      assert s[i..] == p + [sep] + s[j + 1..];
    } else {
      assert s[i..] == p;
    }
    assert p in Split(s[i..], sep);
    if i > 0 {
      SplitAppend(s[..i - 1], s[i..], sep);
      assert s == s[..i - 1] + [sep] + s[i..];
    } else {
      assert s[i..] == s;
    }
  }

  /** A relative path without backslashes or parent segments. */
  ghost predicate Harmless(path: string) {
    path != "" && path[0] != '/' && '\\' !in path && !Segment(path, '/', "..")
  }

  /** A link's target may be harmless as it is or after one leading slash. */
  ghost predicate TargetHarmless(link: string) {
    Harmless(link) || (link != "" && link[0] == '/' && Harmless(link[1..]))
  }

  /** Exactly the harmless paths are let through. */
  lemma SafePathIff(value: string)
    ensures SafePath(value).Success? <==> Harmless(value)
  {
    SplitIffSegment(value, '/', "..");
    hide Split, Segment, Normalize;
  }

  lemma TargetIff(link: string)
    ensures SafePath(WithoutLeadingSlash(link)).Success? <==> TargetHarmless(link)
  {
    SafePathIff(WithoutLeadingSlash(link));
    hide SafePath, Segment;
  }

  lemma {:induction false} KeptOfAll(segments: seq<string>)
    requires forall s | s in segments :: Kept(s)
    ensures KeptOf(segments) == segments
  {
    if segments != [] {
      assert segments == [segments[0]] + segments[1..] && segments[0] in segments;
      KeptOfAll(segments[1..]);
    }
  }

  lemma {:induction false} KeptOfAppend(a: seq<string>, b: seq<string>)
    ensures KeptOf(a + b) == KeptOf(a) + KeptOf(b)
  {
    if a == [] {
      assert a + b == b;
    } else {
      assert (a + b)[1..] == a[1..] + b;
      KeptOfAppend(a[1..], b);
    }
  }

  /** A name in normal form is accepted and stays as it is. */
  lemma NormalUnchanged(name: string)
    requires NormalName(name)
    ensures SafePath(name) == Success(name)
  {
    if name == "." {
      SplitNone(".", '/');
      SafePathValue(".");
    } else {
      var parts := Split(name, '/');
      if name == "" || name[0] == '/' { assert parts[0] == ""; }
      assert ".." !in parts;
      KeptOfAll(parts);
      JoinSplit(name, '/');
      SafePathValue(name);
    }
  }

  lemma KeptOfDropped(a: seq<string>, e: string, b: seq<string>)
    requires e in ["", "."]
    ensures KeptOf(a + [e] + b) == KeptOf(a + b)
  {
    KeptOfAppend(a + [e], b);
    KeptOfAppend(a, [e]);
    KeptOfAppend(a, b);
    assert KeptOf([e]) == [];
    hide KeptOf;
  }

  /** An empty or `.` segment makes no difference to the name. */
  lemma DotSegmentsDropped(with: string, without: string, a: seq<string>, e: string, b: seq<string>)
    requires SafePath(with).Success? && SafePath(without).Success? && e in ["", "."]
    requires Split(with, '/') == a + [e] + b && Split(without, '/') == a + b
    ensures SafePath(with).value == SafePath(without).value
  {
    KeptOfDropped(a, e, b);
    hide *;
    SafePathValue(with);
    SafePathValue(without);
  }

  // ----- What acceptance means -----

  /** The entry at an offset reports what its header and data hold. */
  ghost predicate EntryAt<D>(buffer: Bytes, offset: nat, f: File<D>, sha: Bytes -> D) {
    && offset + 512 + f.1.size <= |buffer|
    && !AllZero(buffer[offset..offset + 512])
    && HeaderSays(buffer[offset..offset + 512], f)
    && f.1.digest == sha(buffer[offset + 512..offset + 512 + f.1.size])
    && NormalName(f.0)
  }

  ghost predicate HeaderSays<D>(block: Bytes, f: File<D>)
    requires |block| == 512
  {
    && Octal(block, 148, 8) == Success(Sum(block[..148]) + 8 * 32 + Sum(block[156..]))
    && SafePath(FullPath(block)) == Success(f.0)
    && f.1.kind == (if block[156] == 0 then "0" else [block[156] as char]) && f.1.kind in ["0", "2", "5"]
    && f.1.link == FieldText(block, 157, 100)
    && (f.1.kind == "2" ==> TargetHarmless(f.1.link))
    && Octal(block, 100, 8) == Success(f.1.mode)
    && Octal(block, 108, 8) == Success(f.1.uid)
    && Octal(block, 116, 8) == Success(f.1.gid)
    && Octal(block, 124, 12) == Success(f.1.size)
  }

  /** Entry records fill the archive from its start to `offsets`' last element, without gap or overlap. */
  ghost predicate Tiled<D>(buffer: Bytes, offsets: seq<nat>, files: seq<File<D>>, sha: Bytes -> D) {
    && |offsets| == |files| + 1
    && offsets[0] == 0
    && (forall k | 0 <= k < |files| :: offsets[k + 1] == offsets[k] + 512 + Padded(files[k].1.size))
    && (forall k | 0 <= k < |files| :: EntryAt(buffer, offsets[k], files[k], sha))
  }

  /** The archive is entry records followed by at least one block of zeros up to its very end, names
      are distinct, and no entry lies under a symlink other than the root. */
  ghost predicate Account<D>(buffer: Bytes, offsets: seq<nat>, files: seq<File<D>>, sha: Bytes -> D) {
    && Tiled(buffer, offsets, files, sha)
    && offsets[|files|] + 512 <= |buffer|
    && AllZero(buffer[offsets[|files|]..])
    && DistinctKeys(files)
    && forall l, f | l in files && f in files && l.1.kind == "2" && l.0 != "." :: !(Steps(l.0) < Steps(f.0))
  }

  /** What the reader's own steps make of a header, before the name is looked up. */
  ghost predicate HeaderReads<D>(block: Bytes, f: File<D>)
    requires |block| == 512
  {
    && ReadName(block) == Success(f.0)
    && f.1.kind == ReadKind(block) && (f.1.kind == "0" || f.1.kind == "2" || f.1.kind == "5")
    && f.1.link == FieldText(block, 157, 100)
    && (f.1.kind == "2" ==> SafePath(WithoutLeadingSlash(f.1.link)).Success?)
    && ReadOwner(block) == Success((f.1.mode, f.1.uid, f.1.gid))
    && Octal(block, 124, 12) == Success(f.1.size)
  }

  lemma HeaderIff<D>(block: Bytes, f: File<D>)
    requires |block| == 512
    ensures HeaderReads(block, f) <==> HeaderSays(block, f)
  {
    hide *;
    ChecksumIs(block);
    KindMeans(block);
    TargetIff(f.1.link);
    NameParts(block, f.0);
    OwnerParts(block, f.1.mode, f.1.uid, f.1.gid);
    HeaderParts(block, f);
  }

  lemma NameParts(block: Bytes, name: string)
    requires |block| == 512
    ensures ReadName(block) == Success(name) <==>
            Octal(block, 148, 8) == Success(Checksum(block)) && SafePath(FullPath(block)) == Success(name)
  {
    hide Octal, Checksum, SafePath, FullPath;
  }

  lemma OwnerParts(block: Bytes, mode: nat, uid: nat, gid: nat)
    requires |block| == 512
    ensures ReadOwner(block) == Success((mode, uid, gid)) <==>
            && Octal(block, 100, 8) == Success(mode) && Octal(block, 108, 8) == Success(uid)
            && Octal(block, 116, 8) == Success(gid)
  {
    hide Octal;
  }

  lemma HeaderParts<D>(block: Bytes, f: File<D>)
    requires |block| == 512
    requires Checksum(block) == Sum(block[..148]) + 8 * 32 + Sum(block[156..])
    requires ReadKind(block) == if block[156] == 0 then "0" else [block[156] as char]
    requires SafePath(WithoutLeadingSlash(f.1.link)).Success? <==> TargetHarmless(f.1.link)
    requires ReadName(block) == Success(f.0) <==>
             Octal(block, 148, 8) == Success(Checksum(block)) && SafePath(FullPath(block)) == Success(f.0)
    requires ReadOwner(block) == Success((f.1.mode, f.1.uid, f.1.gid)) <==>
             && Octal(block, 100, 8) == Success(f.1.mode) && Octal(block, 108, 8) == Success(f.1.uid)
             && Octal(block, 116, 8) == Success(f.1.gid)
    ensures HeaderReads(block, f) <==> HeaderSays(block, f)
  {
    hide Octal, Checksum, Sum, ReadName, ReadOwner, ReadKind, SafePath, WithoutLeadingSlash, TargetHarmless, FullPath;
    hide FieldText;
  }

  lemma EntryReadsIff<D>(buffer: Bytes, offset: nat, seen: set<string>, sha: Bytes -> D, f: File<D>)
    requires offset + 512 <= |buffer|
    ensures ReadEntry(buffer, offset, seen, sha) == Success(f) <==>
            && HeaderReads(buffer[offset..offset + 512], f) && f.0 !in seen
            && offset + 512 + f.1.size <= |buffer|
            && f.1.digest == sha(buffer[offset + 512..offset + 512 + f.1.size])
  {
    hide FieldText, Octal, SafePath, ReadName, ReadOwner, ReadKind, WithoutLeadingSlash;
  }

  /** An entry is read exactly if its header and data say so and its name is new. */
  lemma ReadEntryIff<D>(buffer: Bytes, offset: nat, seen: set<string>, sha: Bytes -> D, f: File<D>)
    requires offset + 512 <= |buffer| && !AllZero(buffer[offset..offset + 512])
    ensures ReadEntry(buffer, offset, seen, sha) == Success(f) <==> EntryAt(buffer, offset, f, sha) && f.0 !in seen
  {
    hide *;
    EntryReadsIff(buffer, offset, seen, sha, f);
    HeaderIff(buffer[offset..offset + 512], f);
    if HeaderSays(buffer[offset..offset + 512], f) { NameNormal(buffer[offset..offset + 512], f); }
    EntryParts(buffer, offset, f, sha);
  }

  lemma NameNormal<D>(block: Bytes, f: File<D>)
    requires |block| == 512 && HeaderSays(block, f)
    ensures NormalName(f.0)
  {
    SafePathNormal(FullPath(block));
    hide Octal, FullPath, SafePath, TargetHarmless, FieldText, Sum, NormalName;
  }

  lemma EntryParts<D>(buffer: Bytes, offset: nat, f: File<D>, sha: Bytes -> D)
    requires offset + 512 <= |buffer| && !AllZero(buffer[offset..offset + 512])
    ensures EntryAt(buffer, offset, f, sha) <==>
            && HeaderSays(buffer[offset..offset + 512], f) && NormalName(f.0)
            && offset + 512 + f.1.size <= |buffer|
            && f.1.digest == sha(buffer[offset + 512..offset + 512 + f.1.size])
  {
    hide HeaderSays, NormalName, AllZero;
  }

  /** An accepted archive is accounted for to the last byte, and the result lists its entries once
      each in ascending order of name. */
  lemma AcceptedIsSound<D>(buffer: Bytes, sha: Bytes -> D) returns (offsets: seq<nat>, files: seq<File<D>>)
    requires Inventory(buffer, 0, [], sha).Success?
    ensures Account(buffer, offsets, files, sha)
    ensures var r := Inventory(buffer, 0, [], sha).value;
            KeysAscend(r) && multiset(r) == multiset(files)
  {
    offsets, files := AcceptedFrom(buffer, [0], [], sha);
    SortAscends(files);
  }

  /** In an accepted archive some entry lies under a symlink if and only if the root entry is a symlink and
      not the only entry. */
  lemma UnderLinkIff<D>(buffer: Bytes, sha: Bytes -> D)
    requires Inventory(buffer, 0, [], sha).Success?
    ensures var r := Inventory(buffer, 0, [], sha).value;
            (exists l, f :: l in r && f in r && l.1.kind == "2" && Steps(l.0) < Steps(f.0)) <==>
            |r| > 1 && exists l :: l in r && l.1.kind == "2" && l.0 == "."
  {
    hide *;
    var r := Inventory(buffer, 0, [], sha).value;
    var offsets, files := AcceptedIsSound(buffer, sha);
    AccountParts(buffer, offsets, files, sha);
    DistinctAfterReorder(files, r);
    forall x ensures x in r <==> x in files { assert x in multiset(r) <==> x in multiset(files); }
    if l, f :| l in r && f in r && l.1.kind == "2" && Steps(l.0) < Steps(f.0) {
      assert l.0 == ".";
      TwoMembers(r, l, f);
    }
    if |r| > 1 && exists l :: l in r && l.1.kind == "2" && l.0 == "." {
      var l :| l in r && l.1.kind == "2" && l.0 == ".";
      var f := OtherEntry(r, l);
      RootLeads(l.0, f.0);
    }
  }

  lemma AccountParts<D>(buffer: Bytes, offsets: seq<nat>, files: seq<File<D>>, sha: Bytes -> D)
    requires Account(buffer, offsets, files, sha)
    ensures DistinctKeys(files)
    ensures forall l, f | l in files && f in files && l.1.kind == "2" && Steps(l.0) < Steps(f.0) :: l.0 == "."
  {
    hide Tiled, Steps;
  }

  lemma TwoMembers<D>(r: seq<File<D>>, l: File<D>, f: File<D>)
    requires l in r && f in r && Steps(l.0) < Steps(f.0)
    ensures |r| > 1
  {
    hide Steps;
    var i :| 0 <= i < |r| && r[i] == l;
    var j :| 0 <= j < |r| && r[j] == f;
    assert i == j ==> l == f;
  }

  lemma OtherEntry<D>(r: seq<File<D>>, l: File<D>) returns (f: File<D>)
    requires DistinctKeys(r) && |r| > 1 && l in r
    ensures f in r && f.0 != l.0
  {
    assert r[0].0 != r[1].0;
    f := if r[0].0 == l.0 then r[1] else r[0];
  }

  /** Every other entry lies under the root. */
  lemma RootLeads(root: string, name: string)
    requires root == "." && name != root
    ensures Steps(root) < Steps(name)
  {
  }

  /** One turn of an accepting run: either the terminator, or an entry and the rest. */
  lemma AcceptedTurn<D>(buffer: Bytes, offset: nat, done: seq<File<D>>, sha: Bytes -> D)
    requires Inventory(buffer, offset, done, sha).Success?
    ensures offset + 512 <= |buffer|
    ensures AllZero(buffer[offset..offset + 512]) ==>
              && AllZero(buffer[offset..]) && !WritesThroughLink(done)
              && Inventory(buffer, offset, done, sha).value == SortByKey(done)
    ensures !AllZero(buffer[offset..offset + 512]) ==>
              && ReadEntry(buffer, offset, Names(done), sha).Success?
              && var f := ReadEntry(buffer, offset, Names(done), sha).value;
                 Inventory(buffer, offset + 512 + Padded(f.1.size), done + [f], sha)
                 == Inventory(buffer, offset, done, sha)
  {
    hide ReadEntry, WritesThroughLink, AllZero, Names;
  }

  lemma {:induction false} AcceptedFrom<D>(buffer: Bytes, before: seq<nat>, done: seq<File<D>>, sha: Bytes -> D)
    returns (offsets: seq<nat>, files: seq<File<D>>)
    requires Tiled(buffer, before, done, sha) && DistinctKeys(done)
    requires Inventory(buffer, before[|done|], done, sha).Success?
    ensures Account(buffer, offsets, files, sha)
    ensures Inventory(buffer, before[|done|], done, sha).value == SortByKey(files)
    decreases |buffer| - before[|done|]
  {
    hide Inventory, ReadEntry, WritesThroughLink, AllZero, EntryAt, Steps, Names, DistinctKeys;
    var offset := before[|done|];
    AcceptedTurn(buffer, offset, done, sha);
    if AllZero(buffer[offset..offset + 512]) {
      offsets, files := before, done;
      NoneUnderLinks(buffer, before, done, sha);
    } else {
      var f := ReadEntry(buffer, offset, Names(done), sha).value;
      ReadEntryIff(buffer, offset, Names(done), sha, f);
      TiledExtends(buffer, before, done, f, sha);
      DistinctExtends(done, f);
      hide Tiled, Account;
      offsets, files := AcceptedFrom(buffer, before + [offset + 512 + Padded(f.1.size)], done + [f], sha);
    }
  }

  lemma TiledExtends<D>(buffer: Bytes, before: seq<nat>, done: seq<File<D>>, f: File<D>, sha: Bytes -> D)
    requires Tiled(buffer, before, done, sha) && EntryAt(buffer, before[|done|], f, sha)
    ensures Tiled(buffer, before + [before[|done|] + 512 + Padded(f.1.size)], done + [f], sha)
  {
    hide EntryAt;
  }

  lemma DistinctExtends<D>(done: seq<File<D>>, f: File<D>)
    requires DistinctKeys(done) && f.0 !in Names(done)
    ensures DistinctKeys(done + [f])
  {
    forall k | 0 <= k < |done| ensures done[k].0 != f.0 {
      assert done[k] in done;
    }
  }

  lemma NoneUnderLinks<D>(buffer: Bytes, offsets: seq<nat>, files: seq<File<D>>, sha: Bytes -> D)
    requires Tiled(buffer, offsets, files, sha) && !WritesThroughLink(files)
    ensures forall l, f | l in files && f in files && l.1.kind == "2" && l.0 != "." :: !(Steps(l.0) < Steps(f.0))
  {
    forall f | f in files ensures NormalName(f.0) {
      var k :| 0 <= k < |files| && files[k] == f;
      assert EntryAt(buffer, offsets[k], files[k], sha);
    }
    hide Tiled, NormalName, Steps, StartsWith;
    forall l, f | l in files && f in files && l.1.kind == "2" && l.0 != "."
      ensures !(Steps(l.0) < Steps(f.0))
    {
      var i :| 0 <= i < |files| && files[i] == l;
      var j :| 0 <= j < |files| && files[j] == f;
      UnderIsPrefix(l.0, f.0);
    }
  }

  // ----- Every archive so accounted for is accepted -----

  ghost predicate Accounted<D(!new)>(buffer: Bytes, sha: Bytes -> D) {
    exists offsets, files: seq<File<D>> :: Account(buffer, offsets, files, sha)
  }

  /** Exactly the archives with such an account are accepted. */
  lemma AcceptedIff<D(!new)>(buffer: Bytes, sha: Bytes -> D)
    ensures Inventory(buffer, 0, [], sha).Success? <==> Accounted(buffer, sha)
  {
    hide Inventory, Account;
    if Inventory(buffer, 0, [], sha).Success? {
      var offsets, files := AcceptedIsSound(buffer, sha);
    }
    if offsets, files: seq<File<D>> :| Account(buffer, offsets, files, sha) {
      TileFacts(buffer, offsets, files, sha);
      Accepts(buffer, offsets, files, 0, sha);
      assert files[..0] == [];
    }
  }

  lemma TileFacts<D>(buffer: Bytes, offsets: seq<nat>, files: seq<File<D>>, sha: Bytes -> D)
    requires Account(buffer, offsets, files, sha)
    ensures |offsets| == |files| + 1 && offsets[0] == 0
    ensures offsets[|files|] + 512 <= |buffer| && AllZero(buffer[offsets[|files|]..])
    ensures forall k | 0 <= k < |files| :: EntryAt(buffer, offsets[k], files[k], sha)
    ensures forall k | 0 <= k < |files| :: offsets[k + 1] == offsets[k] + 512 + Padded(files[k].1.size)
    ensures DistinctKeys(files) && !WritesThroughLink(files)
  {
    hide EntryAt, AllZero, DistinctKeys, Padded, WritesThroughLink, Steps;
    NoLinkWritten(buffer, offsets, files, sha);
  }

  lemma NoLinkWritten<D>(buffer: Bytes, offsets: seq<nat>, files: seq<File<D>>, sha: Bytes -> D)
    requires Account(buffer, offsets, files, sha)
    ensures !WritesThroughLink(files)
  {
    forall f | f in files ensures NormalName(f.0) {
      var k :| 0 <= k < |files| && files[k] == f;
      assert EntryAt(buffer, offsets[k], files[k], sha);
    }
    hide Tiled, NormalName, Steps, AllZero, DistinctKeys, WritesThroughLink;
    NothingThroughLinks(files);
  }

  lemma NothingThroughLinks<D>(files: seq<File<D>>)
    requires forall f | f in files :: NormalName(f.0)
    requires forall l, f | l in files && f in files && l.1.kind == "2" && l.0 != "." :: !(Steps(l.0) < Steps(f.0))
    ensures !WritesThroughLink(files)
  {
    hide NormalName, Steps, StartsWith;
    if i, j :| 0 <= i < |files| && 0 <= j < |files| && files[i].1.kind == "2"
               && StartsWith(files[j].0, files[i].0 + "/") {
      assert files[i] in files && files[j] in files;
      if files[i].0 == "." { RootNeverUnder(files[j].0); } else { UnderIsPrefix(files[i].0, files[j].0); }
    }
  }

  lemma {:induction false} Accepts<D>(buffer: Bytes, offsets: seq<nat>, files: seq<File<D>>, k: nat, sha: Bytes -> D)
    requires Account(buffer, offsets, files, sha) && k <= |files| && |offsets| == |files| + 1
    ensures Inventory(buffer, offsets[k], files[..k], sha) == Success(SortByKey(files))
    decreases |files| - k
  {
    hide *;
    TileFacts(buffer, offsets, files, sha);
    if k == |files| {
      assert files[..k] == files;
      EndAccepted(buffer, offsets[k], files, sha);
    } else {
      KeyNew(files, k);
      EntryTaken(buffer, offsets[k], files[..k], files[k], sha);
      assert files[..k] + [files[k]] == files[..k + 1];
      Accepts(buffer, offsets, files, k + 1, sha);
    }
  }

  lemma KeyNew<D>(files: seq<File<D>>, k: nat)
    requires DistinctKeys(files) && k < |files|
    ensures files[k].0 !in Names(files[..k])
  {
  }

  lemma EndAccepted<D>(buffer: Bytes, offset: nat, files: seq<File<D>>, sha: Bytes -> D)
    requires offset + 512 <= |buffer| && AllZero(buffer[offset..]) && !WritesThroughLink(files)
    ensures Inventory(buffer, offset, files, sha) == Success(SortByKey(files))
  {
    assert buffer[offset..offset + 512] == buffer[offset..][..512];
    hide WritesThroughLink;
  }

  lemma EntryTaken<D>(buffer: Bytes, offset: nat, done: seq<File<D>>, f: File<D>, sha: Bytes -> D)
    requires EntryAt(buffer, offset, f, sha) && f.0 !in Names(done)
    ensures Inventory(buffer, offset, done, sha) ==
            Inventory(buffer, offset + 512 + Padded(f.1.size), done + [f], sha)
  {
    hide HeaderSays, NormalName, AllZero, Names, ReadEntry, WritesThroughLink;
    ReadEntryIff(buffer, offset, Names(done), sha, f);
  }

  /** The padding is the least whole number of blocks that holds the data. */
  lemma PaddedIsCeiling(size: nat)
    ensures Padded(size) % 512 == 0 && size <= Padded(size) < size + 512
  {
  }
}
