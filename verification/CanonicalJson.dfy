/** The canonical JSON text that the audit log hashes: objects are printed with their keys sorted.
    Two values print alike exactly when they are the same up to the order of keys, except that an
    absent snapshot (the database null) has no keys and prints like the empty object. */
module CanonicalJson {
  import opened Text
  import opened Numerals

  /** A number is represented by the literal that prints it. */
  datatype Json =
    | JNull
    | JBool(b: bool)
    | JNumber(literal: string)
    | JString(s: string)
    | JArray(items: seq<Json>)
    | JObject(fields: seq<Field>)
    | DbNull

  datatype Field = Field(key: string, value: Json)

  // ----- Printing -----

  function EscapeChar(c: char): string {
    if c == '\"' then "\\\""
    else if c == '\\' then "\\\\"
    else if c == 8 as char then "\\b"
    else if c == 12 as char then "\\f"
    else if c == '\n' then "\\n"
    else if c == '\r' then "\\r"
    else if c == '\t' then "\\t"
    else if c < ' ' then "\\u" + PadStart(Print(c as nat, 16), 4, '0')
    else [c]
  }

  function Escape(s: string): string {
    if s == "" then "" else EscapeChar(s[0]) + Escape(s[1..])
  }

  /** Which characters are escaped, and how: the two that have to be, the control characters with a letter of
      their own, and the other control characters by four digits; nothing else. */
  lemma EscapeForms(c: char)
    ensures (c == '\"' <==> EscapeChar(c) == "\\\"") && (c == '\\' <==> EscapeChar(c) == "\\\\")
    ensures (c == 8 as char <==> EscapeChar(c) == "\\b") && (c == 9 as char <==> EscapeChar(c) == "\\t")
    ensures (c == 10 as char <==> EscapeChar(c) == "\\n") && (c == 12 as char <==> EscapeChar(c) == "\\f")
    ensures c == 13 as char <==> EscapeChar(c) == "\\r"
    ensures c == 11 as char ==> EscapeChar(c) == "\\u000b"
    ensures |EscapeChar(c)| == 1 <==> c >= ' ' && c != '\"' && c != '\\'
    ensures |EscapeChar(c)| == 1 ==> EscapeChar(c) == [c]
    ensures |EscapeChar(c)| == 6 <==> c < ' ' && c !in {8 as char, 9 as char, 10 as char, 12 as char, 13 as char}
  {
    EscapeShape(c);
    VerticalTab();
    hide PadStart, Print;
  }

  lemma VerticalTab()
    ensures PadStart(Print(11, 16), 4, '0') == "000b"
  {
    assert Print(11, 16) == "b";
  }

  function Quote(s: string): string {
    "\"" + (Escape(s) + "\"")
  }

  function PrintEntries(entries: seq<(string, string)>): string {
    if entries == [] then ""
    else if |entries| == 1 then Quote(entries[0].0) + (":" + entries[0].1)
    else Quote(entries[0].0) + (":" + (entries[0].1 + ("," + PrintEntries(entries[1..]))))
  }

  function Canonical(v: Json): string {
    match v
    case JNull => "null"
    case JBool(b) => if b then "true" else "false"
    case JNumber(literal) => literal
    case JString(s) => Quote(s)
    case JArray(items) => "[" + (PrintItems(items) + "]")
    case JObject(fields) => "{" + (PrintEntries(SortByKey(PrintValues(fields))) + "}")
    case DbNull => "{}"
  }

  function PrintItems(items: seq<Json>): string {
    if items == [] then ""
    else if |items| == 1 then Canonical(items[0])
    else Canonical(items[0]) + ("," + PrintItems(items[1..]))
  }

  function PrintValues(fields: seq<Field>): (entries: seq<(string, string)>)
    ensures |entries| == |fields|
    ensures forall i | 0 <= i < |fields| :: entries[i] == (fields[i].key, Canonical(fields[i].value))
  {
    if fields == [] then [] else [(fields[0].key, Canonical(fields[0].value))] + PrintValues(fields[1..])
  }

  // ----- Which values there are, and when two are the same up to key order -----

  predicate NumberChar(c: char) {
    '0' <= c <= '9' || c in "+-.e"
  }

  predicate NumberLiteral(s: string) {
    s != "" && (s[0] == '-' || '0' <= s[0] <= '9') && forall c | c in s :: NumberChar(c)
  }

  ghost predicate DistinctFields(fs: seq<Field>) {
    forall i, j :: 0 <= i < j < |fs| ==> fs[i].key != fs[j].key
  }

  ghost predicate WellFormed(v: Json) {
    match v
    case JNumber(literal) => NumberLiteral(literal)
    case JArray(items) => forall w | w in items :: WellFormed(w)
    case JObject(fields) => DistinctFields(fields) && forall f | f in fields :: WellFormed(f.value)
    case _ => true
  }

  ghost predicate Same(a: Json, b: Json) {
    match a
    case JArray(xs) =>
      b.JArray? && |xs| == |b.items| && forall i | 0 <= i < |xs| :: Same(xs[i], b.items[i])
    case JObject(fs) =>
      || (fs == [] && b == DbNull)
      || (b.JObject? && |fs| == |b.fields|
          && forall f | f in fs :: exists g :: g in b.fields && f.key == g.key && Same(f.value, g.value))
    case DbNull => b == DbNull || b == JObject([])
    case _ => a == b
  }

  // ----- Where the text of a value ends -----

  lemma SameTail(p: string, x: string, q: string, y: string)
    requires p + x == q + y && |p| == |q|
    ensures p == q && x == y
  {
    assert p == (p + x)[..|p|] && q == (q + y)[..|q|];
    assert x == (p + x)[|p|..] && y == (q + y)[|q|..];
  }

  lemma EscapeShape(c: char)
    ensures var e := EscapeChar(c);
            && e != "" && e[0] != '\"'
            && (e[0] != '\\' ==> e == [c])
            && (e[0] == '\\' ==> |e| >= 2 && (e[1] == 'u' ==> c < ' ' && |e| == 6))
            && (e[0] == '\\' && e[1] != 'u' ==> |e| == 2)
  {
    if EscapeChar(c)[0] == '\\' && c < ' ' {
      assert Pow(16, 4) == 65536 by { assert Pow(16, 1) == 16 && Pow(16, 2) == 256 && Pow(16, 3) == 4096; }
      PaddedLength(c as nat, 16, 4);
    }
  }

  lemma EscapeCharUnique(c: char, d: char, x: string, y: string)
    requires EscapeChar(c) + x == EscapeChar(d) + y
    ensures c == d && x == y
  {
    EscapeShape(c);
    EscapeShape(d);
    var e, f := EscapeChar(c), EscapeChar(d);
    assert (e + x)[0] == e[0] && (f + y)[0] == f[0];
    if e[0] == '\\' {
      assert (e + x)[1] == e[1] && (f + y)[1] == f[1];
    }
    assert |e| == |f|;
    assert e == (e + x)[..|e|] && f == (f + y)[..|f|];
    assert x == (e + x)[|e|..] && y == (f + y)[|f|..];
    if e[0] == '\\' && e[1] == 'u' {
      assert PadStart(Print(c as nat, 16), 4, '0') == e[2..] == f[2..] == PadStart(Print(d as nat, 16), 4, '0');
      PaddedInjective(c as nat, d as nat, 16, 4);
    }
  }

  lemma Assoc(p: string, q: string, z: string)
    ensures (p + q) + z == p + (q + z)
  {
  }

  /** An escaped string before its closing quote: the quote comes first only when nothing is left. */
  lemma EscapeHead(s: string, x: string)
    ensures var l := Escape(s) + ("\"" + x);
            && l != "" && (l[0] == '\"' <==> s == "")
            && (s == "" ==> l == "\"" + x)
            && (s != "" ==> l == EscapeChar(s[0]) + (Escape(s[1..]) + ("\"" + x)))
  {
    if s != "" {
      EscapeShape(s[0]);
      Assoc(EscapeChar(s[0]), Escape(s[1..]), "\"" + x);
    }
  }

  lemma {:induction false} EscapeUnique(s: string, t: string, x: string, y: string)
    requires Escape(s) + ("\"" + x) == Escape(t) + ("\"" + y)
    ensures s == t && x == y
  {
    EscapeHead(s, x);
    EscapeHead(t, y);
    if s == "" {
      SameTail("\"", x, "\"", y);
    } else {
      EscapeCharUnique(s[0], t[0], Escape(s[1..]) + ("\"" + x), Escape(t[1..]) + ("\"" + y));
      EscapeUnique(s[1..], t[1..], x, y);
      assert s == [s[0]] + s[1..] && t == [t[0]] + t[1..];
    }
  }

  /** Inside brackets of one character: what follows the opening one. */
  lemma Opened(open: string, body: string, close: string, x: string)
    requires |open| == 1
    ensures ((open + (body + close)) + x)[1..] == body + (close + x)
    ensures ((open + (body + close)) + x)[0] == open[0]
  {
    Assoc(open, body + close, x);
    Assoc(body, close, x);
  }

  /** A quoted string announces its own end. */
  lemma QuoteUnique(s: string, t: string, x: string, y: string)
    requires Quote(s) + x == Quote(t) + y
    ensures s == t && x == y
  {
    Opened("\"", Escape(s), "\"", x);
    Opened("\"", Escape(t), "\"", y);
    EscapeUnique(s, t, x, y);
  }

  /** What can follow a value inside a text. */
  predicate Stops(x: string) {
    x == "" || x[0] in ",]}"
  }

  /** How far a text runs on in the characters of number literals. */
  function Span(s: string): nat {
    if s != "" && NumberChar(s[0]) then 1 + Span(s[1..]) else 0
  }

  lemma {:induction false} SpanOfLiteral(s: string, x: string)
    requires (forall c | c in s :: NumberChar(c)) && Stops(x)
    ensures Span(s + x) == |s|
  {
    if s == "" {
      assert s + x == x;
    } else {
      assert s[0] in s && forall c | c in s[1..] :: c in s;
      assert (s + x)[1..] == s[1..] + x;
      SpanOfLiteral(s[1..], x);
    }
  }

  lemma LiteralUnique(s: string, t: string, x: string, y: string)
    requires (forall c | c in s :: NumberChar(c)) && (forall c | c in t :: NumberChar(c))
    requires Stops(x) && Stops(y) && s + x == t + y
    ensures s == t && x == y
  {
    SpanOfLiteral(s, x);
    SpanOfLiteral(t, y);
    SameTail(s, x, t, y);
  }

  function Kind(c: char): nat {
    if c == 'n' then 0 else if c == 't' then 1 else if c == 'f' then 2 else if c == '\"' then 3
    else if c == '[' then 4 else if c == '{' then 5 else 6
  }

  /** The first character of a text tells what kind of value it prints. */
  lemma FirstChar(v: Json)
    requires WellFormed(v)
    ensures Canonical(v) != "" && Canonical(v)[0] !in ",]}:"
    ensures Kind(Canonical(v)[0]) ==
            match v {
              case JNull => 0 case JBool(b) => (if b then 1 else 2) case JNumber(_) => 6
              case JString(_) => 3 case JArray(_) => 4 case JObject(_) => 5 case DbNull => 5 }
  {
  }

  /** Where a text is followed by a comma, a closing bracket or nothing, it can be told where it ends: if two
      texts followed in this way agree, so do the texts and what follows them. */
  lemma {:induction false} PrefixFree(a: Json, b: Json, x: string, y: string)
    requires WellFormed(a) && WellFormed(b) && Stops(x) && Stops(y)
    requires Canonical(a) + x == Canonical(b) + y
    ensures Canonical(a) == Canonical(b) && x == y
    decreases a
  {
    FirstChar(a);
    FirstChar(b);
    assert (Canonical(a) + x)[0] == Canonical(a)[0] && (Canonical(b) + y)[0] == Canonical(b)[0];
    match a
    case JNull => SameTail("null", x, "null", y);
    case JBool(_) => SameTail(Canonical(a), x, Canonical(b), y);
    case JNumber(l) => LiteralUnique(l, b.literal, x, y);
    case JString(s) => QuoteUnique(s, b.s, x, y);
    case JArray(items) =>
      Opened("[", PrintItems(items), "]", x);
      Opened("[", PrintItems(b.items), "]", y);
      ItemsPrefixFree(items, b.items, x, y);
      assert |Canonical(a)| + |x| == |Canonical(b)| + |y|;
      SameTail(Canonical(a), x, Canonical(b), y);
    case _ =>
      var hs := SortedFields(a);
      var ks := SortedFields(b);
      Opened("{", PrintEntries(PrintValues(hs)), "}", x);
      Opened("{", PrintEntries(PrintValues(ks)), "}", y);
      EntriesPrefixFree(a, b, hs, ks, x, y);
  }

  /** The keyed part of an object; the database null has none. */
  function Fields(v: Json): seq<Field>
    requires v.JObject? || v.DbNull?
  {
    if v.JObject? then v.fields else []
  }

  /** The fields of an object in the order in which they are printed. */
  lemma SortedFields(v: Json) returns (hs: seq<Field>)
    requires v.JObject? || v.DbNull?
    ensures Canonical(v) == "{" + (PrintEntries(PrintValues(hs)) + "}")
    ensures PrintValues(hs) == SortByKey(PrintValues(Fields(v)))
    ensures forall h | h in hs :: h in Fields(v)
  {
    var fs := Fields(v);
    var es := SortByKey(PrintValues(fs));
    assert fs == [] ==> es == [];
    forall e | e in es ensures exists f :: f in fs && e == (f.key, Canonical(f.value)) {
      SortMembers(PrintValues(fs), e);
      var i :| 0 <= i < |fs| && PrintValues(fs)[i] == e;
      assert fs[i] in fs;
    }
    hs := FieldsOf(es, fs);
  }

  lemma {:induction false} FieldsOf(es: seq<(string, string)>, fs: seq<Field>) returns (hs: seq<Field>)
    requires forall e | e in es :: exists f :: f in fs && e == (f.key, Canonical(f.value))
    ensures PrintValues(hs) == es && forall h | h in hs :: h in fs
  {
    hs := [];
    if es != [] {
      assert es[0] in es;
      var f :| f in fs && es[0] == (f.key, Canonical(f.value));
      forall e | e in es[1..] ensures exists g :: g in fs && e == (g.key, Canonical(g.value)) {
        assert e in es;
      }
      var rest := FieldsOf(es[1..], fs);
      hs := [f] + rest;
      assert hs[1..] == rest;
    }
  }

  lemma {:induction false} ItemsPrefixFree(xs: seq<Json>, ys: seq<Json>, x: string, y: string)
    requires (forall v | v in xs :: WellFormed(v)) && (forall v | v in ys :: WellFormed(v))
    requires PrintItems(xs) + ("]" + x) == PrintItems(ys) + ("]" + y)
    ensures |xs| == |ys| && x == y
    ensures forall i | 0 <= i < |xs| :: Canonical(xs[i]) == Canonical(ys[i])
    decreases xs
  {
    ItemsHead(xs, x);
    ItemsHead(ys, y);
    if xs == [] {
      SameTail("]", x, "]", y);
    } else {
      PrefixFree(xs[0], ys[0], ItemsRest(xs, x), ItemsRest(ys, y));
      if |xs| == 1 {
        SameTail("]", x, "]", y);
      } else {
        SameTail(",", PrintItems(xs[1..]) + ("]" + x), ",", PrintItems(ys[1..]) + ("]" + y));
        ItemsPrefixFree(xs[1..], ys[1..], x, y);
        forall i | 0 <= i < |xs| ensures Canonical(xs[i]) == Canonical(ys[i]) {
          if i > 0 { assert xs[i] == xs[1..][i - 1] && ys[i] == ys[1..][i - 1]; }
        }
      }
    }
  }

  /** How a list of items goes on before its closing bracket. */
  lemma ItemsHead(xs: seq<Json>, x: string)
    requires forall v | v in xs :: WellFormed(v)
    ensures var l := PrintItems(xs) + ("]" + x);
            && l != "" && (l[0] == ']' <==> xs == [])
            && (xs == [] ==> l == "]" + x)
            && (xs != [] ==>
                  && l == Canonical(xs[0]) + ItemsRest(xs, x)
                  && Stops(ItemsRest(xs, x))
                  && (|xs| == 1 <==> ItemsRest(xs, x)[0] == ']'))
  {
    if xs != [] {
      FirstChar(xs[0]);
      if |xs| > 1 {
        Assoc(Canonical(xs[0]), "," + PrintItems(xs[1..]), "]" + x);
        Assoc(",", PrintItems(xs[1..]), "]" + x);
      }
    }
  }

  function ItemsRest(xs: seq<Json>, x: string): string
    requires xs != []
  {
    if |xs| == 1 then "]" + x else "," + (PrintItems(xs[1..]) + ("]" + x))
  }

  function EntriesRest(es: seq<(string, string)>, x: string): string
    requires es != []
  {
    if |es| == 1 then "}" + x else "," + (PrintEntries(es[1..]) + ("}" + x))
  }

  lemma {:induction false} EntriesPrefixFree(a: Json, b: Json, hs: seq<Field>, ks: seq<Field>, x: string, y: string)
    requires (a.JObject? || a.DbNull?) && (b.JObject? || b.DbNull?) && WellFormed(a) && WellFormed(b)
    requires (forall h | h in hs :: h in Fields(a)) && (forall k | k in ks :: k in Fields(b))
    requires PrintEntries(PrintValues(hs)) + ("}" + x) == PrintEntries(PrintValues(ks)) + ("}" + y)
    ensures PrintValues(hs) == PrintValues(ks) && x == y
    decreases a, |hs|
  {
    var es, ds := PrintValues(hs), PrintValues(ks);
    EntriesHead(es, x);
    EntriesHead(ds, y);
    if hs == [] {
      SameTail("}", x, "}", y);
    } else {
      assert hs[0] in hs && ks[0] in ks;
      EntryUnique(hs[0], ks[0], EntriesRest(es, x), EntriesRest(ds, y));
      if |hs| == 1 {
        SameTail("}", x, "}", y);
      } else {
        assert es[1..] == PrintValues(hs[1..]) && ds[1..] == PrintValues(ks[1..]);
        SameTail(",", PrintEntries(es[1..]) + ("}" + x), ",", PrintEntries(ds[1..]) + ("}" + y));
        EntriesPrefixFree(a, b, hs[1..], ks[1..], x, y);
      }
    }
  }

  lemma {:induction false} EntryUnique(f: Field, g: Field, u: string, v: string)
    requires WellFormed(f.value) && WellFormed(g.value) && Stops(u) && Stops(v)
    requires Quote(f.key) + (":" + (Canonical(f.value) + u)) == Quote(g.key) + (":" + (Canonical(g.value) + v))
    ensures f.key == g.key && Canonical(f.value) == Canonical(g.value) && u == v
    decreases f
  {
    var c, d := Canonical(f.value) + u, Canonical(g.value) + v;
    QuoteUnique(f.key, g.key, ":" + c, ":" + d);
    SameTail(":", c, ":", d);
    PrefixFree(f.value, g.value, u, v);
  }

  /** How a list of entries goes on before its closing brace. */
  lemma EntriesHead(es: seq<(string, string)>, x: string)
    ensures var l := PrintEntries(es) + ("}" + x);
            && l != "" && (l[0] == '}' <==> es == [])
            && (es == [] ==> l == "}" + x)
            && (es != [] ==>
                  && l == Quote(es[0].0) + (":" + (es[0].1 + EntriesRest(es, x)))
                  && Stops(EntriesRest(es, x))
                  && (|es| == 1 <==> EntriesRest(es, x)[0] == '}'))
  {
    if es != [] {
      var q, t, z := Quote(es[0].0), es[0].1, "}" + x;
      if |es| == 1 {
        Assoc(q, ":" + t, z);
        Assoc(":", t, z);
      } else {
        var p := PrintEntries(es[1..]);
        Assoc(q, ":" + (t + ("," + p)), z);
        Assoc(":", t + ("," + p), z);
        Assoc(t, "," + p, z);
        Assoc(",", p, z);
      }
    }
  }

  // ----- The two directions -----

  /** Equal texts come from equal values, up to key order. */
  lemma {:induction false} EqualTextSameValue(a: Json, b: Json)
    requires WellFormed(a) && WellFormed(b) && Canonical(a) == Canonical(b)
    ensures Same(a, b)
    decreases a
  {
    FirstChar(a);
    FirstChar(b);
    EqualLeaves(a, b);
    hide Canonical;
    match a
    case JArray(xs) =>
      EqualArrays(a, b);
      forall i | 0 <= i < |xs| ensures Same(xs[i], b.items[i]) {
        EqualTextSameValue(xs[i], b.items[i]);
      }
    case JObject(fs) =>
      EqualEntries(a, b);
      forall f | f in fs ensures exists g :: g in Fields(b) && f.key == g.key && Same(f.value, g.value) {
        var g := Partner(fs, Fields(b), f);
        EqualTextSameValue(f.value, g.value);
      }
    case DbNull => EqualEntries(a, b);
    case _ =>
  }

  lemma EqualLeaves(a: Json, b: Json)
    requires WellFormed(a) && WellFormed(b) && Canonical(a) == Canonical(b)
    ensures a.JNull? || a.JBool? || a.JNumber? || a.JString? ==> a == b
  {
    FirstChar(a);
    FirstChar(b);
    if a.JString? { QuoteUnique(a.s, b.s, "", ""); }
  }

  lemma EqualArrays(a: Json, b: Json)
    requires a.JArray? && b.JArray? && WellFormed(a) && WellFormed(b) && Canonical(a) == Canonical(b)
    ensures |a.items| == |b.items| && forall i | 0 <= i < |a.items| :: Canonical(a.items[i]) == Canonical(b.items[i])
  {
    Opened("[", PrintItems(a.items), "]", "");
    Opened("[", PrintItems(b.items), "]", "");
    ItemsPrefixFree(a.items, b.items, "", "");
  }

  lemma EqualEntries(a: Json, b: Json)
    requires (a.JObject? || a.DbNull?) && (b.JObject? || b.DbNull?)
    requires WellFormed(a) && WellFormed(b) && Canonical(a) == Canonical(b)
    ensures SortByKey(PrintValues(Fields(a))) == SortByKey(PrintValues(Fields(b)))
    ensures |Fields(a)| == |Fields(b)|
  {
    var hs := SortedFields(a);
    var ks := SortedFields(b);
    Opened("{", PrintEntries(PrintValues(hs)), "}", "");
    Opened("{", PrintEntries(PrintValues(ks)), "}", "");
    assert Canonical(a) + "" == Canonical(b) + "";
    EntriesPrefixFree(a, b, hs, ks, "", "");
    SortLength(PrintValues(Fields(a)));
    SortLength(PrintValues(Fields(b)));
  }

  /** The field of the other object that prints the same entry. */
  lemma Partner(fs: seq<Field>, gs: seq<Field>, f: Field) returns (g: Field)
    requires SortByKey(PrintValues(fs)) == SortByKey(PrintValues(gs)) && f in fs
    ensures g in gs && f.key == g.key && Canonical(f.value) == Canonical(g.value)
  {
    hide *;
    var es, ds := PrintValues(fs), PrintValues(gs);
    var i :| 0 <= i < |fs| && fs[i] == f;
    SortMembers(es, es[i]);
    SortMembers(ds, es[i]);
    var j :| 0 <= j < |ds| && ds[j] == es[i];
    g := gs[j];
  }

  /** Arrangements of the same entries with distinct keys hold the same entries equally often. */
  lemma {:induction false} SameEntries<T>(a: seq<(string, T)>, b: seq<(string, T)>)
    requires DistinctKeys(a) && DistinctKeys(b) && |a| == |b|
    requires forall e | e in a :: e in b
    ensures multiset(a) == multiset(b)
  {
    hide Without;
    if a != [] {
      assert a[0] in a;
      var k := PlaceOf(b, a[0]);
      forall e | e in a[1..] ensures e in Without(b, k) { StaysBehind(a, b, k, e); }
      WithoutFacts(b, k);
      assert |multiset(b)| == |b| && |multiset(Without(b, k))| == |Without(b, k)|;
      TailDistinct(a);
      SameEntries(a[1..], Without(b, k));
      assert a == [a[0]] + a[1..];
    }
  }

  lemma PlaceOf<T>(b: seq<T>, x: T) returns (k: nat)
    requires x in b
    ensures k < |b| && b[k] == x
  {
    k :| 0 <= k < |b| && b[k] == x;
  }

  lemma TailDistinct<T>(a: seq<(string, T)>)
    requires DistinctKeys(a) && a != []
    ensures DistinctKeys(a[1..]) && forall e | e in a[1..] :: e.0 != a[0].0
  {
  }

  lemma StaysBehind<T>(a: seq<(string, T)>, b: seq<(string, T)>, k: nat, e: (string, T))
    requires DistinctKeys(a) && a != [] && k < |b| && b[k] == a[0] && e in a[1..] && e in b
    ensures e in Without(b, k)
  {
    TailDistinct(a);
    var i :| 0 <= i < |b| && b[i] == e;
    assert if i < k then Without(b, k)[i] == e else Without(b, k)[i - 1] == e;
  }

  /** Values that are the same up to key order, at any depth, have the same text. */
  lemma {:induction false} SameValueEqualText(a: Json, b: Json)
    requires WellFormed(a) && WellFormed(b) && Same(a, b)
    ensures Canonical(a) == Canonical(b)
    decreases a
  {
    match a
    case JArray(xs) =>
      forall i | 0 <= i < |xs| ensures Canonical(xs[i]) == Canonical(b.items[i]) {
        SameValueEqualText(xs[i], b.items[i]);
      }
      EqualItems(xs, b.items);
    case JObject(fs) =>
      if b.JObject? && |fs| == |b.fields| {
        forall f | f in fs
          ensures exists g :: g in b.fields && f.key == g.key && Canonical(f.value) == Canonical(g.value)
        {
          var g :| g in b.fields && f.key == g.key && Same(f.value, g.value);
          SameValueEqualText(f.value, g.value);
        }
        SortedTexts(fs, b.fields);
      }
    case _ =>
  }

  lemma {:induction false} EqualItems(xs: seq<Json>, ys: seq<Json>)
    requires |xs| == |ys| && forall i | 0 <= i < |xs| :: Canonical(xs[i]) == Canonical(ys[i])
    ensures PrintItems(xs) == PrintItems(ys)
  {
    if xs != [] {
      forall i | 0 <= i < |xs[1..]| ensures Canonical(xs[1..][i]) == Canonical(ys[1..][i]) {
        assert xs[1..][i] == xs[i + 1] && ys[1..][i] == ys[i + 1];
      }
      EqualItems(xs[1..], ys[1..]);
    }
  }

  /** The field of the other object that a field of the same object corresponds to. */
  lemma SameField(a: Json, b: Json, f: Field) returns (g: Field)
    requires a.JObject? && b.JObject? && Same(a, b) && f in a.fields
    ensures g in b.fields && f.key == g.key && Same(f.value, g.value)
  {
    g :| g in b.fields && f.key == g.key && Same(f.value, g.value);
  }

  /** The canonical text identifies a value up to the order of keys, and nothing more or less. */
  lemma CanonicalIff(a: Json, b: Json)
    requires WellFormed(a) && WellFormed(b)
    ensures Canonical(a) == Canonical(b) <==> Same(a, b)
  {
    if Canonical(a) == Canonical(b) { EqualTextSameValue(a, b); }
    if Same(a, b) { SameValueEqualText(a, b); }
  }

  /** Reordering the keys of an object does not change its text. */
  lemma KeyOrderIrrelevant(fs: seq<Field>, gs: seq<Field>)
    requires WellFormed(JObject(fs)) && WellFormed(JObject(gs)) && multiset(fs) == multiset(gs)
    ensures Canonical(JObject(fs)) == Canonical(JObject(gs))
  {
    assert |fs| == |multiset(fs)| == |multiset(gs)| == |gs|;
    forall f | f in fs ensures f in gs { assert f in multiset(gs); }
    SortedTexts(fs, gs);
  }

  lemma SortedTexts(fs: seq<Field>, gs: seq<Field>)
    requires DistinctFields(fs) && DistinctFields(gs) && |fs| == |gs|
    requires forall f | f in fs :: exists g :: g in gs && f.key == g.key && Canonical(f.value) == Canonical(g.value)
    ensures SortByKey(PrintValues(fs)) == SortByKey(PrintValues(gs))
  {
    var es, ds := PrintValues(fs), PrintValues(gs);
    forall e | e in es ensures e in ds {
      var i :| 0 <= i < |es| && es[i] == e;
      assert fs[i] in fs;
      var g :| g in gs && fs[i].key == g.key && Canonical(fs[i].value) == Canonical(g.value);
      var j :| 0 <= j < |gs| && gs[j] == g;
      assert ds[j] == e;
    }
    SameEntries(es, ds);
    SortForgetsOrder(es, ds);
  }

  /** An absent snapshot and an empty-object snapshot have one text, so no hash tells them apart. */
  lemma AbsentLooksEmpty()
    ensures Canonical(DbNull) == Canonical(JObject([]))
    ensures WellFormed(DbNull) && WellFormed(JObject([])) && DbNull != JObject([])
  {
    assert PrintValues([]) == [];
  }
}
