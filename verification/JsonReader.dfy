/** A reader of JSON text, written from RFC 8259 with its own tables, and the proof that it reads every value
    back from its canonical text. It knows nothing of the printer. White space between tokens, which canonical
    text does not have, is not read. */
module JsonReader {
  import opened Wrappers
  import opened Text
  import opened Numerals
  import opened CanonicalJson

  // ----- Strings (section 7 of RFC 8259) -----

  predicate Hex(c: char) {
    '0' <= c <= '9' || 'a' <= c <= 'f' || 'A' <= c <= 'F'
  }

  function HexDigit(c: char): nat
    requires Hex(c)
  {
    if c <= '9' then c as int - '0' as int
    else if c <= 'F' then c as int - 'A' as int + 10
    else c as int - 'a' as int + 10
  }

  /** The character that an escape after the backslash stands for, and what follows it. Halves of surrogate
      pairs are not characters here. */
  function ReadEscape(s: string): (r: Option<(char, string)>)
    ensures r.Some? ==> |r.value.1| < |s|
  {
    if s == "" then None
    else if s[0] == '\"' then Some(('\"', s[1..]))
    else if s[0] == '\\' then Some(('\\', s[1..]))
    else if s[0] == '/' then Some(('/', s[1..]))
    else if s[0] == 'b' then Some((8 as char, s[1..]))
    else if s[0] == 'f' then Some((12 as char, s[1..]))
    else if s[0] == 'n' then Some((10 as char, s[1..]))
    else if s[0] == 'r' then Some((13 as char, s[1..]))
    else if s[0] == 't' then Some((9 as char, s[1..]))
    else if s[0] == 'u' && |s| >= 5 && Hex(s[1]) && Hex(s[2]) && Hex(s[3]) && Hex(s[4]) then
      var code := 4096 * HexDigit(s[1]) + 256 * HexDigit(s[2]) + 16 * HexDigit(s[3]) + HexDigit(s[4]);
      if code < 0xD800 || 0xE000 <= code < 0x1_0000 then Some((code as char, s[5..])) else None
    else None
  }

  /** A string from behind its opening quotation mark, and what follows the closing one. */
  function ReadString(s: string): (r: Option<(string, string)>)
    ensures r.Some? ==> |r.value.1| < |s|
    decreases |s|
  {
    if s == "" then None
    else if s[0] == '\"' then Some(("", s[1..]))
    else if s[0] == '\\' then
      var c := ReadEscape(s[1..]);
      if c.None? then None else Before(c.value.0, ReadString(c.value.1))
    else if s[0] < ' ' then None
    else Before(s[0], ReadString(s[1..]))
  }

  function Before(c: char, r: Option<(string, string)>): Option<(string, string)> {
    if r.None? then None else Some(([c] + r.value.0, r.value.1))
  }

  // ----- Values (sections 3 to 6) -----

  predicate NumberPart(c: char) {
    '0' <= c <= '9' || c == '+' || c == '-' || c == '.' || c == 'e' || c == 'E'
  }

  function NumberRun(s: string): (n: nat)
    ensures n <= |s|
  {
    if s != "" && NumberPart(s[0]) then 1 + NumberRun(s[1..]) else 0
  }

  predicate Starts(s: string, token: string) {
    token <= s
  }

  function ReadValue(s: string): (r: Option<(Json, string)>)
    ensures r.Some? ==> |r.value.1| < |s|
    decreases |s|, 0
  {
    if Starts(s, "null") then Some((JNull, s[4..]))
    else if Starts(s, "true") then Some((JBool(true), s[4..]))
    else if Starts(s, "false") then Some((JBool(false), s[5..]))
    else if Starts(s, "\"") then
      var text := ReadString(s[1..]);
      if text.None? then None else Some((JString(text.value.0), text.value.1))
    else if Starts(s, "[]") then Some((JArray([]), s[2..]))
    else if Starts(s, "[") then
      var items := ReadItems(s[1..]);
      if items.None? then None else Some((JArray(items.value.0), items.value.1))
    else if Starts(s, "{}") then Some((JObject([]), s[2..]))
    else if Starts(s, "{") then
      var fields := ReadFields(s[1..]);
      if fields.None? then None else Some((JObject(fields.value.0), fields.value.1))
    else if NumberRun(s) > 0 then Some((JNumber(s[..NumberRun(s)]), s[NumberRun(s)..]))
    else None
  }

  /** The items of a list up to and including its closing bracket. */
  function ReadItems(s: string): (r: Option<(seq<Json>, string)>)
    ensures r.Some? ==> |r.value.1| < |s|
    decreases |s|, 1
  {
    var first := ReadValue(s);
    if first.None? then None
    else
      var (v, rest) := first.value;
      if Starts(rest, "]") then Some(([v], rest[1..]))
      else if Starts(rest, ",") then
        var more := ReadItems(rest[1..]);
        if more.None? then None else Some(([v] + more.value.0, more.value.1))
      else None
  }

  /** The fields of an object up to and including its closing brace. */
  function ReadFields(s: string): (r: Option<(seq<Field>, string)>)
    ensures r.Some? ==> |r.value.1| < |s|
    decreases |s|, 1
  {
    if !Starts(s, "\"") then None
    else
      var key := ReadString(s[1..]);
      if key.None? || !Starts(key.value.1, ":") then None
      else
        var first := ReadValue(key.value.1[1..]);
        if first.None? then None
        else
          var (v, rest) := first.value;
          var field := Field(key.value.0, v);
          if Starts(rest, "}") then Some(([field], rest[1..]))
          else if Starts(rest, ",") then
            var more := ReadFields(rest[1..]);
            if more.None? then None else Some(([field] + more.value.0, more.value.1))
          else None
  }

  // ----- Strings read back -----

  lemma ControlText(c: char)
    requires c < ' '
    ensures var h := PadStart(Print(c as nat, 16), 4, '0');
            && |h| == 4 && Hex(h[0]) && Hex(h[1]) && Hex(h[2]) && Hex(h[3])
            && 4096 * HexDigit(h[0]) + 256 * HexDigit(h[1]) + 16 * HexDigit(h[2]) + HexDigit(h[3]) == c as nat
  {
    assert Pow(16, 4) == 65536 by { assert Pow(16, 1) == 16 && Pow(16, 2) == 256 && Pow(16, 3) == 4096; }
    PaddedLength(c as nat, 16, 4);
    PaddedValue(c as nat, 16, 4);
    FourDigits(PadStart(Print(c as nat, 16), 4, '0'));
    hide Value, Print, PadStart, Pow;
  }

  lemma FourDigits(h: string)
    requires |h| == 4 && AllDigits(h, 16)
    ensures Hex(h[0]) && Hex(h[1]) && Hex(h[2]) && Hex(h[3])
    ensures Value(h, 16) == 4096 * HexDigit(h[0]) + 256 * HexDigit(h[1]) + 16 * HexDigit(h[2]) + HexDigit(h[3])
  {
    assert h[0] in h && h[1] in h && h[2] in h && h[3] in h;
    var a, b, c, d := h[0], h[1], h[2], h[3];
    ValueSnoc([], a, 16);
    assert [] + [a] == [a];
    ValueSnoc([a], b, 16);
    ValueSnoc([a] + [b], c, 16);
    ValueSnoc([a] + [b] + [c], d, 16);
    assert h == [a] + [b] + [c] + [d];
    assert Value([], 16) == 0;
    hide Value;
    SameDigit(a);
    SameDigit(b);
    SameDigit(c);
    SameDigit(d);
  }

  lemma SameDigit(c: char)
    requires IsDigit(c, 16)
    ensures Hex(c) && HexDigit(c) == DigitValue(c)
  {
  }

  /** Each escape the printer writes is read as its character. */
  lemma EscapeReadsBack(c: char, x: string)
    ensures var e := EscapeChar(c) + x;
            if e[0] == '\\' then ReadEscape(e[1..]) == Some((c, x))
            else e == [c] + x && c != '\"' && c >= ' '
  {
    var code := EscapeChar(c);
    if c < ' ' && code[1] == 'u' {
      ControlText(c);
      var h := PadStart(Print(c as nat, 16), 4, '0');
      assert (code + x)[1..] == "u" + h + x;
      assert ("u" + h + x)[5..] == x;
      hide PadStart, Print;
    } else if code[0] == '\\' {
      assert (code + x)[1..] == [code[1]] + x;
    }
  }

  lemma {:induction false} StringReadsBack(s: string, x: string)
    ensures ReadString(Escape(s) + ("\"" + x)) == Some((s, x))
  {
    EscapeHead(s, x);
    var l := Escape(s) + ("\"" + x);
    if s == "" {
      assert l[1..] == x;
    } else {
      var rest := Escape(s[1..]) + ("\"" + x);
      EscapeReadsBack(s[0], rest);
      StringReadsBack(s[1..], x);
      assert [s[0]] + s[1..] == s;
      hide EscapeChar, Escape, ReadEscape;
      assert l[0] != '\\' ==> l[1..] == rest;
    }
  }

  // ----- Values read back -----

  /** Everywhere in the value, keys ascend. */
  ghost predicate KeysInOrder(v: Json) {
    match v
    case JArray(items) => forall w | w in items :: KeysInOrder(w)
    case JObject(fields) =>
      && (forall i, j :: 0 <= i < j < |fields| ==> Less(fields[i].key, fields[j].key))
      && forall f | f in fields :: KeysInOrder(f.value)
    case _ => true
  }

  lemma {:induction false} RunOfLiteral(s: string, x: string)
    requires (forall c | c in s :: NumberChar(c)) && Stops(x)
    ensures NumberRun(s + x) == |s|
  {
    if s == "" {
      assert s + x == x;
    } else {
      assert s[0] in s && forall c | c in s[1..] :: c in s;
      assert (s + x)[1..] == s[1..] + x;
      RunOfLiteral(s[1..], x);
    }
  }

  lemma SimpleReadsBack(v: Json, x: string)
    requires WellFormed(v) && Stops(x) && !v.JArray? && !v.JObject? && !v.DbNull?
    ensures ReadValue(Canonical(v) + x) == Some((v, x))
  {
    hide ReadItems, ReadFields, ReadString;
    var s := Canonical(v) + x;
    match v
    case JNull => WordReads(s, "null", x);
    case JBool(b) => WordReads(s, if b then "true" else "false", x);
    case JNumber(l) =>
      RunOfLiteral(l, x);
      assert s[0] == l[0] && s[..|l|] == l && s[|l|..] == x;
    case JString(t) =>
      Opened("\"", Escape(t), "\"", x);
      StringReadsBack(t, x);
  }

  lemma WordReads(s: string, word: string, x: string)
    requires s == word + x && (word == "null" || word == "true" || word == "false")
    ensures ReadValue(s) ==
            Some((if word == "null" then JNull else if word == "true" then JBool(true) else JBool(false), x))
  {
    hide ReadItems, ReadFields, ReadString;
    assert s[..|word|] == word && s[|word|..] == x;
    assert s[0] == word[0];
  }

  lemma EmptyObjectReads(x: string)
    ensures ReadValue("{}" + x) == Some((JObject([]), x))
  {
    hide ReadItems, ReadFields, ReadString;
    var s := "{}" + x;
    assert s[0] == '{' && s[..2] == "{}" && s[2..] == x;
  }

  lemma Opens(open: char, body: string, close: string, x: string)
    ensures var s := ([open] + (body + close)) + x;
            s[0] == open && s[1..] == body + (close + x)
  {
    Opened([open], body, close, x);
  }

  /** Reading the canonical text of a value gives the value back up to the order of keys, with all keys in
      ascending order, and leaves what follows. */
  lemma {:induction false} ReadsBack(v: Json, x: string) returns (r: Json)
    requires WellFormed(v) && Stops(x)
    ensures ReadValue(Canonical(v) + x) == Some((r, x))
    ensures Same(v, r) && KeysInOrder(r)
    decreases v
  {
    match v
    case JArray(items) =>
      var rs := ItemsReadBack(items, x);
      r := JArray(rs);
      Opens('[', PrintItems(items), "]", x);
      ListStarts(items, x);
      ArrayReads(Canonical(v) + x, items, rs, x);
    case JObject(_) => r := ObjectReadsBack(v, x);
    case DbNull =>
      r := JObject([]);
      EmptyObjectReads(x);
    case _ =>
      SimpleReadsBack(v, x);
      r := v;
      SameItself(v);
  }

  lemma SameItself(v: Json)
    requires !v.JArray? && !v.JObject? && !v.DbNull?
    ensures Same(v, v) && KeysInOrder(v)
  {
  }

  lemma ListStarts(items: seq<Json>, x: string)
    requires forall w | w in items :: WellFormed(w)
    ensures var l := PrintItems(items) + ("]" + x);
            l != "" && (l[0] == ']' <==> items == []) && (items == [] ==> l == "]" + x)
  {
    ItemsHead(items, x);
  }

  lemma ArrayReads(s: string, items: seq<Json>, rs: seq<Json>, x: string)
    requires s != "" && s[0] == '[' && s[1..] == PrintItems(items) + ("]" + x) && s[1..] != ""
    requires (s[1] == ']' <==> items == []) && (items == [] ==> s[1..] == "]" + x)
    requires items != [] ==> ReadItems(s[1..]) == Some((rs, x))
    requires items == [] ==> rs == []
    ensures ReadValue(s) == Some((JArray(rs), x))
  {
    hide ReadItems, ReadFields, ReadString, PrintItems;
    if items == [] { assert s[2..] == s[1..][1..] == x; }
  }

  lemma {:induction false} ItemsReadBack(items: seq<Json>, x: string) returns (rs: seq<Json>)
    requires forall w | w in items :: WellFormed(w)
    ensures items != [] ==> ReadItems(PrintItems(items) + ("]" + x)) == Some((rs, x))
    ensures |rs| == |items| && forall i | 0 <= i < |rs| :: Same(items[i], rs[i]) && KeysInOrder(rs[i])
    decreases items
  {
    hide *;
    rs := [];
    if items != [] {
      ItemsHead(items, x);
      assert items[0] in items;
      var u := ItemsRest(items, x);
      var first := ReadsBack(items[0], u);
      ItemsRestIs(items, x);
      if |items| == 1 {
        rs := [first];
        LastItem(PrintItems(items) + ("]" + x), first, u, x);
      } else {
        var rest := ItemsReadBack(items[1..], x);
        rs := [first] + rest;
        NextItem(PrintItems(items) + ("]" + x), first, u, PrintItems(items[1..]) + ("]" + x), rest, x);
        forall i | 0 <= i < |rs| ensures Same(items[i], rs[i]) && KeysInOrder(rs[i]) {
          if i > 0 { assert rs[i] == rest[i - 1] && items[i] == items[1..][i - 1]; }
        }
      }
    }
  }

  lemma ItemsRestIs(items: seq<Json>, x: string)
    requires items != []
    ensures ItemsRest(items, x) == if |items| == 1 then "]" + x else "," + (PrintItems(items[1..]) + ("]" + x))
  {
    hide PrintItems;
  }

  lemma LastItem(s: string, v: Json, u: string, x: string)
    requires ReadValue(s) == Some((v, u)) && u == "]" + x
    ensures ReadItems(s) == Some(([v], x))
  {
    hide ReadValue;
    assert u[1..] == x;
  }

  lemma NextItem(s: string, v: Json, u: string, t: string, rest: seq<Json>, x: string)
    requires ReadValue(s) == Some((v, u)) && u == "," + t && ReadItems(t) == Some((rest, x))
    ensures ReadItems(s) == Some(([v] + rest, x))
  {
    hide ReadValue;
    assert u[1..] == t && u[0] == ',';
  }

  lemma {:induction false} ObjectReadsBack(v: Json, x: string) returns (r: Json)
    requires v.JObject? && WellFormed(v) && Stops(x)
    ensures ReadValue(Canonical(v) + x) == Some((r, x))
    ensures Same(v, r) && KeysInOrder(r)
    decreases v, 0
  {
    hide *;
    var hs := SortedFields(v);
    var es := PrintValues(hs);
    FieldsIs(v);
    var rs := FieldsReadBack(v, hs, x);
    r := JObject(rs);
    Opens('{', PrintEntries(es), "}", x);
    EntriesHead(es, x);
    ObjectReads(Canonical(v) + x, es, rs, x);
    SortedHoldsAll(v, hs);
    SortedKeysAscend(v, hs);
    SameObjects(v, hs, rs);
  }

  lemma FieldsIs(v: Json)
    requires v.JObject?
    ensures Fields(v) == v.fields
  {
  }

  lemma SameObjects(v: Json, hs: seq<Field>, rs: seq<Field>)
    requires v.JObject? && |hs| == |v.fields| == |rs| && forall f | f in v.fields :: f in hs
    requires forall i | 0 <= i < |rs| ::
               rs[i].key == hs[i].key && Same(hs[i].value, rs[i].value) && KeysInOrder(rs[i].value)
    requires forall i, j :: 0 <= i < j < |hs| ==> Less(hs[i].key, hs[j].key)
    ensures Same(v, JObject(rs)) && KeysInOrder(JObject(rs))
  {
    hide Less;
    forall f | f in v.fields ensures exists g :: g in rs && f.key == g.key && Same(f.value, g.value) {
      var i :| 0 <= i < |hs| && hs[i] == f;
      assert rs[i] in rs;
    }
  }

  lemma ObjectReads(s: string, es: seq<(string, string)>, rs: seq<Field>, x: string)
    requires s != "" && s[0] == '{' && s[1..] == PrintEntries(es) + ("}" + x) && s[1..] != ""
    requires (s[1] == '}' <==> es == []) && (es == [] ==> s[1..] == "}" + x)
    requires es != [] ==> ReadFields(s[1..]) == Some((rs, x))
    requires es == [] ==> rs == []
    ensures ReadValue(s) == Some((JObject(rs), x))
  {
    hide ReadItems, ReadFields, ReadString, PrintEntries;
    if es == [] { assert s[2..] == s[1..][1..] == x; }
  }

  /** Sorting keeps every field. */
  lemma {:induction false} SortedHoldsAll(v: Json, hs: seq<Field>)
    requires v.JObject? && WellFormed(v)
    requires PrintValues(hs) == SortByKey(PrintValues(v.fields)) && forall h | h in hs :: h in v.fields
    ensures |hs| == |v.fields| && forall f | f in v.fields :: f in hs
  {
    hide Canonical, SortByKey;
    var es, ds := PrintValues(v.fields), PrintValues(hs);
    SortLength(es);
    forall f | f in v.fields ensures f in hs {
      var i :| 0 <= i < |v.fields| && v.fields[i] == f;
      SortMembers(es, es[i]);
      assert es[i] in ds;
      var j :| 0 <= j < |ds| && ds[j] == es[i];
      assert hs[j] in v.fields && hs[j].key == f.key;
    }
  }

  lemma {:induction false} SortedKeysAscend(v: Json, hs: seq<Field>)
    requires v.JObject? && WellFormed(v) && PrintValues(hs) == SortByKey(PrintValues(v.fields))
    ensures forall i, j :: 0 <= i < j < |hs| ==> Less(hs[i].key, hs[j].key)
  {
    EntriesDistinct(v.fields);
    SortAscends(PrintValues(v.fields));
    EntriesAscend(hs);
  }

  lemma {:induction false} EntriesDistinct(fields: seq<Field>)
    requires DistinctFields(fields)
    ensures DistinctKeys(PrintValues(fields))
  {
  }

  lemma {:induction false} EntriesAscend(hs: seq<Field>)
    requires KeysAscend(PrintValues(hs))
    ensures forall i, j :: 0 <= i < j < |hs| ==> Less(hs[i].key, hs[j].key)
  {
    var ds := PrintValues(hs);
    forall i, j | 0 <= i < j < |hs| ensures Less(hs[i].key, hs[j].key) {
      assert Less(ds[i].0, ds[j].0);
    }
  }

  lemma {:induction false} FieldsReadBack(v: Json, hs: seq<Field>, x: string) returns (rs: seq<Field>)
    requires v.JObject? && WellFormed(v) && forall h | h in hs :: h in v.fields
    ensures hs != [] ==> ReadFields(PrintEntries(PrintValues(hs)) + ("}" + x)) == Some((rs, x))
    ensures |rs| == |hs|
    ensures forall i | 0 <= i < |rs| ::
              rs[i].key == hs[i].key && Same(hs[i].value, rs[i].value) && KeysInOrder(rs[i].value)
    decreases v, 0, |hs|
  {
    hide *;
    rs := [];
    if hs != [] {
      var es := PrintValues(hs);
      FirstEntry(hs);
      EntriesHead(es, x);
      assert hs[0] in hs && hs[0] in v.fields;
      FieldFormed(v, hs[0]);
      var u := EntriesRest(es, x);
      var first := FieldReadsBack(hs[0], u);
      EntriesRestIs(es, x);
      if |hs| == 1 {
        rs := [first];
        LastField(PrintEntries(es) + ("}" + x), first, u, x);
      } else {
        var rest := FieldsReadBack(v, hs[1..], x);
        rs := [first] + rest;
        NextField(PrintEntries(es) + ("}" + x), first, u, PrintEntries(es[1..]) + ("}" + x), rest, x);
        forall i | 0 <= i < |rs|
          ensures rs[i].key == hs[i].key && Same(hs[i].value, rs[i].value) && KeysInOrder(rs[i].value)
        {
          if i > 0 { assert rs[i] == rest[i - 1] && hs[i] == hs[1..][i - 1]; }
        }
      }
    }
  }

  lemma FirstEntry(hs: seq<Field>)
    requires hs != []
    ensures PrintValues(hs)[0] == (hs[0].key, Canonical(hs[0].value)) && PrintValues(hs)[1..] == PrintValues(hs[1..])
  {
    hide Canonical;
  }

  lemma FieldFormed(v: Json, f: Field)
    requires v.JObject? && WellFormed(v) && f in v.fields
    ensures WellFormed(f.value)
  {
  }

  lemma EntriesRestIs(es: seq<(string, string)>, x: string)
    requires es != []
    ensures EntriesRest(es, x) == if |es| == 1 then "}" + x else "," + (PrintEntries(es[1..]) + ("}" + x))
  {
    hide PrintEntries;
  }

  /** A key with its value at the start of a text. */
  ghost predicate FieldAhead(s: string, f: Field, u: string) {
    && Starts(s, "\"") && ReadString(s[1..]).Some? && ReadString(s[1..]).value.0 == f.key
    && Starts(ReadString(s[1..]).value.1, ":")
    && ReadValue(ReadString(s[1..]).value.1[1..]) == Some((f.value, u))
  }

  lemma LastField(s: string, f: Field, u: string, x: string)
    requires FieldAhead(s, f, u) && u == "}" + x
    ensures ReadFields(s) == Some(([f], x))
  {
    hide ReadValue, ReadString;
    assert u[1..] == x;
  }

  lemma NextField(s: string, f: Field, u: string, t: string, rest: seq<Field>, x: string)
    requires FieldAhead(s, f, u) && u == "," + t && ReadFields(t) == Some((rest, x))
    ensures ReadFields(s) == Some(([f] + rest, x))
  {
    hide ReadValue, ReadString;
    assert u[1..] == t;
    assert u[0] == ',';
  }

  lemma {:induction false} FieldReadsBack(f: Field, u: string) returns (r: Field)
    requires WellFormed(f.value) && Stops(u)
    ensures FieldAhead(Quote(f.key) + (":" + (Canonical(f.value) + u)), r, u)
    ensures r.key == f.key && Same(f.value, r.value) && KeysInOrder(r.value)
    decreases f
  {
    var value := ReadsBack(f.value, u);
    r := Field(f.key, value);
    var c := Canonical(f.value) + u;
    var s := Quote(f.key) + (":" + c);
    Opened("\"", Escape(f.key), "\"", ":" + c);
    StringReadsBack(f.key, ":" + c);
    assert (":" + c)[1..] == c;
    hide ReadValue, ReadString, Escape, Canonical, Same, KeysInOrder;
  }
}
