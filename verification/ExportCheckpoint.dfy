/** The checkpoint as text: what `save` writes, what `validateCheckpoint` accepts when the next run
    reads it, and what the page query then compares. */
module ExportCheckpoint {
  import opened Wrappers
  import opened Text
  import opened Numerals
  import opened AuditExport

  datatype Saved = Saved(nextTransactionId: string, afterId: string)

  /** The canonical text of a uuid: 32 lower-case hexadecimal digits in groups of 8-4-4-4-12. */
  function UuidText(id: nat): (s: string)
    requires id < Pow(16, 32)
    ensures |s| == 36
  {
    PaddedLength(id, 16, 32);
    var h := PadStart(Print(id, 16), 32, '0');
    h[..8] + Tail(h)
  }

  function Tail(h: string): (s: string)
    requires |h| == 32
    ensures |s| == 28
  {
    "-" + (h[8..12] + ("-" + (h[12..16] + ("-" + (h[16..20] + ("-" + h[20..]))))))
  }

  ghost predicate IdInRange(c: Cursor) {
    c.afterId.Some? ==> c.afterId.value < Pow(16, 32)
  }

  function Write(c: Cursor): Saved
    requires IdInRange(c)
  {
    Saved(Print(c.nextTx, 10), if c.afterId.Some? then UuidText(c.afterId.value) else "")
  }

  predicate Decimal(s: string) {
    s != "" && forall c | c in s :: '0' <= c <= '9'
  }

  predicate UuidShaped(s: string) {
    |s| == 36 && forall c | c in s :: 'a' <= c <= 'f' || 'A' <= c <= 'F' || '0' <= c <= '9' || c == '-'
  }

  function ValidateCheckpoint(value: Saved): Result<Saved, string> {
    if !Decimal(value.nextTransactionId) || (value.afterId != "" && !UuidShaped(value.afterId)) then
      Failure("Invalid audit export checkpoint")
    else
      Success(value)
  }

  /** Equal-length pieces compare before what follows them. */
  lemma {:induction false} LessConcat(a: string, b: string, x: string, y: string)
    requires |a| == |b|
    ensures Less(a + x, b + y) <==> Less(a, b) || (a == b && Less(x, y))
  {
    if a == [] {
      assert a + x == x && b + y == y;
    } else {
      assert (a + x)[1..] == a[1..] + x && (b + y)[1..] == b[1..] + y;
      LessConcat(a[1..], b[1..], x, y);
      if a[0] == b[0] { assert a == b <==> a[1..] == b[1..]; }
    }
  }

  /** Numerals of equal length compare as the numbers they spell. */
  lemma {:induction false} FixedWidthOrder(s: string, t: string, base: nat)
    requires 2 <= base <= 16 && AllDigits(s, base) && AllDigits(t, base) && |s| == |t|
    ensures Less(s, t) <==> Value(s, base) < Value(t, base)
    ensures s == t <==> Value(s, base) == Value(t, base)
  {
    if s != [] {
      var s', t' := s[..|s| - 1], t[..|t| - 1];
      var c, d := s[|s| - 1], t[|t| - 1];
      assert s == s' + [c] && t == t' + [d];
      assert c in s && d in t;
      FixedWidthOrder(s', t', base);
      LessConcat(s', t', [c], [d]);
      assert Less([c], [d]) <==> c < d;
      DigitsOrder(Value(s', base), Value(t', base), DigitValue(c), DigitValue(d), base);
    }
  }

  lemma DigitsOrder(v: nat, w: nat, c: nat, d: nat, base: nat)
    requires c < base && d < base
    ensures v * base + c < w * base + d <==> v < w || (v == w && c < d)
    ensures v * base + c == w * base + d <==> v == w && c == d
  {
    if v < w { Gap(v, w, base); }
    if w < v { Gap(w, v, base); }
  }

  lemma Gap(v: nat, w: nat, base: nat)
    requires v < w
    ensures v * base + base <= w * base
  {
    var k: nat := w - v - 1;
    assert w * base == v * base + base + k * base;
  }

  /** The text order of uuids is their numeric order, so filtering by text and sorting by uuid agree. */
  lemma UuidOrder(a: nat, b: nat)
    requires a < Pow(16, 32) && b < Pow(16, 32)
    ensures Less(UuidText(a), UuidText(b)) <==> a < b
  {
    PaddedLength(a, 16, 32);
    PaddedLength(b, 16, 32);
    PaddedValue(a, 16, 32);
    PaddedValue(b, 16, 32);
    var g, h := PadStart(Print(a, 16), 32, '0'), PadStart(Print(b, 16), 32, '0');
    FixedWidthOrder(g, h, 16);
    LessConcat(g[..8], h[..8], Tail(g), Tail(h));
    LessConcat(g[..8], h[..8], g[8..], h[8..]);
    Tails(g, h);
    assert g == g[..8] + g[8..] && h == h[..8] + h[8..];
    assert UuidText(a) == g[..8] + Tail(g) && UuidText(b) == h[..8] + Tail(h);
  }

  lemma Tails(g: string, h: string)
    requires |g| == |h| == 32
    ensures Less(Tail(g), Tail(h)) <==> Less(g[8..], h[8..])
  {
    var g4, h4 := g[20..], h[20..];
    var g3, h3 := g[16..20] + ("-" + g4), h[16..20] + ("-" + h4);
    var g2, h2 := g[12..16] + ("-" + g3), h[12..16] + ("-" + h3);
    var g1, h1 := g[8..12] + ("-" + g2), h[8..12] + ("-" + h2);
    LessAfterPrefix("-", g1, h1);
    Piece(g[8..12], h[8..12], g2, h2, g[12..], h[12..]) by {
      Piece(g[12..16], h[12..16], g3, h3, g[16..], h[16..]) by {
        Piece(g[16..20], h[16..20], g4, h4, g[20..], h[20..]);
        assert g[16..20] + g[20..] == g[16..] && h[16..20] + h[20..] == h[16..];
      }
      assert g[12..16] + g[16..] == g[12..] && h[12..16] + h[16..] == h[12..];
    }
    assert g[8..12] + g[12..] == g[8..] && h[8..12] + h[12..] == h[8..];
  }

  lemma Piece(a: string, b: string, x: string, y: string, u: string, v: string)
    requires |a| == |b| && (Less(x, y) <==> Less(u, v))
    ensures Less(a + ("-" + x), b + ("-" + y)) <==> Less(a + u, b + v)
  {
    LessConcat(a, b, u, v);
    LessConcat(a, b, "-" + x, "-" + y);
    LessAfterPrefix("-", x, y);
  }

  /** A saved checkpoint is accepted by the next run, its transaction id is read back without
      rounding, and its text filters ids exactly as the cursor it stands for. */
  lemma SavedCheckpointReadsBack(c: Cursor, e: Event)
    requires IdInRange(c) && e.id < Pow(16, 32)
    ensures var saved := Write(c);
            && ValidateCheckpoint(saved) == Success(saved)
            && AllDigits(saved.nextTransactionId, 10) && Value(saved.nextTransactionId, 10) == c.nextTx
            && (Less(saved.afterId, UuidText(e.id)) <==> c.afterId.None? || e.id > c.afterId.value)
  {
    ValuePrint(c.nextTx, 10);
    PaddedLength(e.id, 16, 32);
    if c.afterId.Some? {
      UuidOrder(c.afterId.value, e.id);
      UuidIsShaped(c.afterId.value);
    }
  }

  lemma UuidIsShaped(id: nat)
    requires id < Pow(16, 32)
    ensures UuidShaped(UuidText(id))
  {
    PaddedLength(id, 16, 32);
    PaddedValue(id, 16, 32);
    var h := PadStart(Print(id, 16), 32, '0');
    forall k | k in UuidText(id) ensures k == '-' || k in h {
      InTail(h, k);
    }
    assert forall k | k in h :: IsDigit(k, 16);
  }

  lemma InTail(h: string, k: char)
    requires |h| == 32 && k in h[..8] + Tail(h)
    ensures k == '-' || k in h
  {
  }

  /** A checkpoint is accepted exactly if the transaction id is a decimal numeral and the id is empty or 36
      hexadecimal digits and dashes, in either case of letters. */
  lemma AcceptedIff(value: Saved)
    ensures ValidateCheckpoint(value).Success? <==>
              && value.nextTransactionId != ""
              && (forall c | c in value.nextTransactionId :: 48 <= c as int <= 57)
              && (value.afterId == "" ||
                  (|value.afterId| == 36 &&
                   forall c | c in value.afterId ::
                     48 <= c as int <= 57 || 97 <= c as int <= 102 || 65 <= c as int <= 70 || c as int == 45))
    ensures ValidateCheckpoint(value).Success? ==> ValidateCheckpoint(value).value == value
  {
  }

  /** The text of a uuid: dashes exactly at 8, 13, 18 and 23, and around them the 32 digits of the id. */
  lemma UuidLayout(id: nat)
    requires id < Pow(16, 32)
    ensures var s := UuidText(id);
            && (forall i | 0 <= i < 36 :: s[i] == '-' <==> i == 8 || i == 13 || i == 18 || i == 23)
            && var digits := s[..8] + s[9..13] + s[14..18] + s[19..23] + s[24..];
               AllDigits(digits, 16) && Value(digits, 16) == id
  {
    PaddedLength(id, 16, 32);
    PaddedValue(id, 16, 32);
    var h := PadStart(Print(id, 16), 32, '0');
    UuidIs(id);
    hide *;
    DigitsAround(h);
    forall i | 0 <= i < 36 ensures UuidText(id)[i] == '-' <==> i == 8 || i == 13 || i == 18 || i == 23 {
      DigitPlaces(h, UuidText(id), i);
    }
  }

  lemma UuidIs(id: nat)
    requires id < Pow(16, 32)
    ensures var h := PadStart(Print(id, 16), 32, '0');
            |h| == 32 && UuidText(id) == h[..8] + Tail(h)
  {
    PaddedLength(id, 16, 32);
    hide Tail, Print, PadStart, Pow;
  }

  lemma DigitsAround(h: string)
    requires |h| == 32
    ensures var s := h[..8] + Tail(h);
            |s| == 36 && s[..8] + s[9..13] + s[14..18] + s[19..23] + s[24..] == h
  {
    var a, t := h[..8], Tail(h);
    TailLayout(h);
    hide *;
    Behind(a, t, 1, 5);
    Behind(a, t, 6, 10);
    Behind(a, t, 11, 15);
    Behind(a, t, 16, 28);
    assert (a + t)[..8] == a;
    Pieces(h);
  }

  lemma Behind(a: string, t: string, i: nat, j: nat)
    requires i <= j <= |t|
    ensures (a + t)[|a| + i..|a| + j] == t[i..j]
    ensures j == |t| ==> (a + t)[|a| + i..] == t[i..]
  {
  }

  lemma Pieces(h: string)
    requires |h| == 32
    ensures h[..8] + h[8..12] + h[12..16] + h[16..20] + h[20..] == h
  {
    assert h[..8] + h[8..12] == h[..12];
    assert h[..12] + h[12..16] == h[..16];
    assert h[..16] + h[16..20] == h[..20];
  }

  lemma TailLayout(h: string)
    requires |h| == 32
    ensures var t := Tail(h);
            && t[0] == t[5] == t[10] == t[15] == '-'
            && t[1..5] == h[8..12] && t[6..10] == h[12..16] && t[11..15] == h[16..20] && t[16..] == h[20..]
  {
  }

  lemma DigitPlaces(h: string, s: string, i: nat)
    requires |h| == 32 && s == h[..8] + Tail(h) && i < 36 && AllDigits(h, 16)
    ensures s[i] == '-' <==> i == 8 || i == 13 || i == 18 || i == 23
  {
    TailLayout(h);
    var t := Tail(h);
    hide Tail;
    if i < 8 { assert s[i] == h[i] && h[i] in h; }
    if 8 < i < 13 { assert s[i] == t[1..5][i - 9] == h[8..12][i - 9] == h[i - 1] && h[i - 1] in h; }
    if 13 < i < 18 { assert s[i] == t[6..10][i - 14] == h[12..16][i - 14] == h[i - 2] && h[i - 2] in h; }
    if 18 < i < 23 { assert s[i] == t[11..15][i - 19] == h[16..20][i - 19] == h[i - 3] && h[i - 3] in h; }
    if 23 < i { assert s[i] == t[16..][i - 24] == h[20..][i - 24] == h[i - 4] && h[i - 4] in h; }
  }
}
