/** Strings compared character by character, sorting by key, splitting and joining. */
module Text {

  /** The order of the language's built-in string comparison. */
  predicate Less(a: string, b: string) {
    b != [] && (a == [] || a[0] < b[0] || (a[0] == b[0] && Less(a[1..], b[1..])))
  }

  /** One string comes before another if it is a proper beginning of it, or smaller where they first differ. */
  lemma {:induction false} LessMeans(a: string, b: string)
    ensures Less(a, b) <==>
              (a <= b && a != b) || exists i :: 0 <= i < |a| && i < |b| && a[..i] == b[..i] && a[i] < b[i]
  {
    if a != [] && b != [] && a[0] == b[0] {
      LessMeans(a[1..], b[1..]);
      assert a == [a[0]] + a[1..] && b == [b[0]] + b[1..];
      if Less(a[1..], b[1..]) && !(a <= b) {
        var i :| 0 <= i < |a[1..]| && i < |b[1..]| && a[1..][..i] == b[1..][..i] && a[1..][i] < b[1..][i];
        assert a[..i + 1] == [a[0]] + a[1..][..i] && b[..i + 1] == [b[0]] + b[1..][..i];
      }
      if i :| 0 <= i < |a| && i < |b| && a[..i] == b[..i] && a[i] < b[i] {
        assert a[1..][..i - 1] == a[..i][1..] && b[1..][..i - 1] == b[..i][1..];
        assert a[1..][i - 1] < b[1..][i - 1];
      }
    } else if a != [] && b != [] {
      assert a[..0] == b[..0];
    }
  }

  lemma {:induction false} LessIrreflexive(a: string)
    ensures !Less(a, a)
  {
    if a != [] { LessIrreflexive(a[1..]); }
  }

  lemma {:induction false} LessTransitive(a: string, b: string, c: string)
    requires Less(a, b) && Less(b, c)
    ensures Less(a, c)
  {
    if a != [] && a[0] == b[0] == c[0] { LessTransitive(a[1..], b[1..], c[1..]); }
  }

  lemma {:induction false} LessTotal(a: string, b: string)
    ensures a == b || Less(a, b) || Less(b, a)
  {
    if a != [] && b != [] && a[0] == b[0] {
      LessTotal(a[1..], b[1..]);
      assert a == [a[0]] + a[1..] && b == [b[0]] + b[1..];
    }
  }

  /** A common prefix does not affect the order. */
  lemma {:induction false} LessAfterPrefix(p: string, a: string, b: string)
    ensures Less(p + a, p + b) <==> Less(a, b)
  {
    if p == [] {
      assert p + a == a && p + b == b;
    } else {
      assert (p + a)[1..] == p[1..] + a && (p + b)[1..] == p[1..] + b;
      LessAfterPrefix(p[1..], a, b);
    }
  }

  // ----- Sorting by key -----

  ghost predicate KeysAscend<T>(s: seq<(string, T)>) {
    forall i, j :: 0 <= i < j < |s| ==> Less(s[i].0, s[j].0)
  }

  ghost predicate DistinctKeys<T>(s: seq<(string, T)>) {
    forall i, j :: 0 <= i < j < |s| ==> s[i].0 != s[j].0
  }

  function Insert<T>(x: (string, T), s: seq<(string, T)>): (r: seq<(string, T)>)
    ensures multiset(r) == multiset{x} + multiset(s)
  {
    if s == [] then [x]
    else if Less(s[0].0, x.0) then
      assert s == [s[0]] + s[1..];
      [s[0]] + Insert(x, s[1..])
    else [x] + s
  }

  function SortByKey<T>(s: seq<(string, T)>): (r: seq<(string, T)>)
    ensures multiset(r) == multiset(s)
  {
    if s == [] then [] else
      assert s == [s[0]] + s[1..];
      Insert(s[0], SortByKey(s[1..]))
  }

  lemma {:induction false} InsertAscends<T>(x: (string, T), s: seq<(string, T)>)
    requires KeysAscend(s)
    requires forall y | y in s :: y.0 != x.0
    ensures KeysAscend(Insert(x, s))
  {
    if s != [] {
      if Less(s[0].0, x.0) {
        assert forall y | y in s[1..] :: y in s;
        InsertAscends(x, s[1..]);
        var r := Insert(x, s[1..]);
        forall y | y in r ensures Less(s[0].0, y.0) {
          assert y in multiset(r);
          if y != x { assert y in multiset(s[1..]); }
        }
      } else {
        assert s[0] in s;
        LessTotal(s[0].0, x.0);
        forall j | 0 <= j < |s| ensures Less(x.0, s[j].0) {
          if j > 0 { LessTransitive(x.0, s[0].0, s[j].0); }
        }
      }
    }
  }

  /** Sorting entries with distinct keys puts their keys in strictly ascending order. */
  lemma {:induction false} SortAscends<T>(s: seq<(string, T)>)
    requires DistinctKeys(s)
    ensures KeysAscend(SortByKey(s))
  {
    if s != [] {
      var r := SortByKey(s[1..]);
      SortAscends(s[1..]);
      forall y | y in r ensures y.0 != s[0].0 {
        assert y in multiset(s[1..]);
      }
      InsertAscends(s[0], r);
    }
  }

  lemma SameHead<T>(a: seq<(string, T)>, b: seq<(string, T)>)
    requires KeysAscend(a) && KeysAscend(b) && a != [] && b != []
    requires a[0] in b && b[0] in a
    ensures a[0] == b[0]
  {
    var i :| 0 <= i < |b| && b[i] == a[0];
    var j :| 0 <= j < |a| && a[j] == b[0];
    if i > 0 && j > 0 {
      LessTransitive(b[0].0, a[0].0, b[0].0);
      LessIrreflexive(b[0].0);
    }
  }

  /** An ascending arrangement of given entries is unique. */
  lemma {:induction false} AscendingUnique<T>(a: seq<(string, T)>, b: seq<(string, T)>)
    requires KeysAscend(a) && KeysAscend(b) && multiset(a) == multiset(b)
    ensures a == b
  {
    hide Less;
    assert |a| == |multiset(a)| == |multiset(b)| == |b|;
    if |a| > 0 {
      assert a[0] in multiset(b) && b[0] in multiset(a);
      SameHead(a, b);
      HeadApart(a);
      HeadApart(b);
      AscendingUnique(a[1..], b[1..]);
    }
  }

  lemma HeadApart<T>(a: seq<T>)
    requires a != []
    ensures a == [a[0]] + a[1..] && multiset(a[1..]) == multiset(a) - multiset{a[0]}
  {
    assert a == [a[0]] + a[1..];
  }

  /** Sorting forgets the order in which entries with distinct keys were given. */
  lemma SortForgetsOrder<T>(a: seq<(string, T)>, b: seq<(string, T)>)
    requires DistinctKeys(a) && DistinctKeys(b) && multiset(a) == multiset(b)
    ensures SortByKey(a) == SortByKey(b)
  {
    SortAscends(a);
    SortAscends(b);
    AscendingUnique(SortByKey(a), SortByKey(b));
  }

  lemma SortLength<T>(s: seq<(string, T)>)
    ensures |SortByKey(s)| == |s|
  {
    assert |multiset(SortByKey(s))| == |multiset(s)|;
  }

  lemma SortMembers<T>(s: seq<(string, T)>, x: (string, T))
    ensures x in SortByKey(s) <==> x in s
  {
    assert x in multiset(SortByKey(s)) <==> x in multiset(s);
  }

  // ----- Entries in another order -----

  function Without<T>(b: seq<T>, k: nat): seq<T>
    requires k < |b|
  {
    b[..k] + b[k + 1..]
  }

  lemma WithoutFacts<T>(b: seq<(string, T)>, k: nat)
    requires k < |b| && DistinctKeys(b)
    ensures DistinctKeys(Without(b, k)) && multiset(b) == multiset{b[k]} + multiset(Without(b, k))
  {
    assert b == b[..k] + [b[k]] + b[k + 1..];
    forall i, j | 0 <= i < j < |b| - 1 ensures Without(b, k)[i].0 != Without(b, k)[j].0 {
      var p, q := if i < k then i else i + 1, if j < k then j else j + 1;
      assert Without(b, k)[i] == b[p] && Without(b, k)[j] == b[q];
    }
  }

  lemma {:induction false} AtMostOnce<T>(s: seq<(string, T)>, x: (string, T))
    requires DistinctKeys(s)
    ensures multiset(s)[x] <= 1
  {
    if s != [] {
      AtMostOnce(s[1..], x);
      assert s == [s[0]] + s[1..];
      if x == s[0] { assert x !in s[1..]; }
    }
  }

  lemma DistinctAfterReorder<T>(a: seq<(string, T)>, b: seq<(string, T)>)
    requires DistinctKeys(a) && multiset(a) == multiset(b)
    ensures DistinctKeys(b)
  {
    forall i, j | 0 <= i < j < |b| ensures b[i].0 != b[j].0 {
      SameKeySameEntry(a, b, i, j);
    }
  }

  lemma SameKeySameEntry<T>(a: seq<(string, T)>, b: seq<(string, T)>, i: nat, j: nat)
    requires DistinctKeys(a) && multiset(a) == multiset(b) && i < j < |b|
    ensures b[i].0 != b[j].0
  {
    assert b[i] in multiset(a) && b[j] in multiset(a);
    assert b == b[..i] + [b[i]] + b[i + 1..j] + [b[j]] + b[j + 1..];
    AtMostOnce(a, b[i]);
  }

  // ----- Splitting and joining on a character -----

  function Split(s: string, sep: char): (parts: seq<string>)
    ensures parts != []
  {
    if s == [] then [""]
    else
      var rest := Split(s[1..], sep);
      if s[0] == sep then [""] + rest else [[s[0]] + rest[0]] + rest[1..]
  }

  function Join(parts: seq<string>, sep: char): string {
    if parts == [] then ""
    else if |parts| == 1 then parts[0]
    else parts[0] + [sep] + Join(parts[1..], sep)
  }

  lemma {:induction false} SplitLeading(p: string, s: string, sep: char)
    requires sep !in p
    ensures Split(p + [sep] + s, sep) == [p] + Split(s, sep)
  {
    var t := p + [sep] + s;
    if p == [] {
      assert t[1..] == s;
    } else {
      assert t[1..] == p[1..] + [sep] + s;
      SplitLeading(p[1..], s, sep);
      assert [p[0]] + p[1..] == p;
    }
  }

  lemma {:induction false} SplitNone(p: string, sep: char)
    requires sep !in p
    ensures Split(p, sep) == [p]
  {
    if p != [] {
      SplitNone(p[1..], sep);
      assert [p[0]] + p[1..] == p;
    }
  }

  /** Joining words that do not contain the separator can be undone. */
  lemma {:induction false} SplitJoin(parts: seq<string>, sep: char)
    requires parts != []
    requires forall p | p in parts :: sep !in p
    ensures Split(Join(parts, sep), sep) == parts
  {
    assert parts[0] in parts;
    if |parts| == 1 {
      SplitNone(parts[0], sep);
    } else {
      assert forall p | p in parts[1..] :: p in parts;
      SplitJoin(parts[1..], sep);
      SplitLeading(parts[0], Join(parts[1..], sep), sep);
      assert parts == [parts[0]] + parts[1..];
    }
  }

  lemma {:induction false} SplitAppend(a: string, b: string, sep: char)
    ensures Split(a + [sep] + b, sep) == Split(a, sep) + Split(b, sep)
  {
    var s := a + [sep] + b;
    if a == "" {
      assert s[1..] == b;
    } else {
      assert s[1..] == a[1..] + [sep] + b;
      SplitAppend(a[1..], b, sep);
    }
  }

  /** The pieces of a split never contain the separator. */
  lemma {:induction false} SplitPieces(s: string, sep: char, p: string)
    requires p in Split(s, sep)
    ensures sep !in p
  {
    if s != [] {
      var rest := Split(s[1..], sep);
      if s[0] == sep {
        if p != "" { SplitPieces(s[1..], sep, p); }
      } else if p == [s[0]] + rest[0] {
        SplitPieces(s[1..], sep, rest[0]);
      } else {
        SplitPieces(s[1..], sep, p);
      }
    }
  }

  lemma {:induction false} JoinAppend(a: seq<string>, b: seq<string>, sep: char)
    requires a != [] && b != []
    ensures Join(a + b, sep) == Join(a, sep) + [sep] + Join(b, sep)
  {
    if |a| == 1 {
      assert (a + b)[1..] == b;
    } else {
      assert (a + b)[1..] == a[1..] + b;
      JoinAppend(a[1..], b, sep);
    }
  }

  lemma {:induction false} JoinSplit(s: string, sep: char)
    ensures Join(Split(s, sep), sep) == s
  {
    if s != "" {
      JoinSplit(s[1..], sep);
      var rest := Split(s[1..], sep);
      if s[0] == sep {
        assert ([""] + rest)[1..] == rest;
      } else {
        assert ([[s[0]] + rest[0]] + rest[1..])[1..] == rest[1..];
      }
    }
  }
}
