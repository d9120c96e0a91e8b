/** Character classes and letter case, for ASCII text. */
module Characters {

  /** A letter, a decimal digit or an underscore. */
  predicate WordChar(c: char) {
    'a' <= c <= 'z' || 'A' <= c <= 'Z' || Decimal(c) || c == '_'
  }

  predicate Decimal(c: char) {
    '0' <= c <= '9'
  }

  predicate Space(c: char) {
    c == ' ' || 9 as char <= c <= 13 as char
  }

  function UpperChar(c: char): char {
    if 'a' <= c <= 'z' then c - 'a' + 'A' else c
  }

  function LowerChar(c: char): char {
    if 'A' <= c <= 'Z' then c - 'A' + 'a' else c
  }

  /** Without white space at either end. */
  function Trim(s: string): string {
    if s == "" then ""
    else if Space(s[0]) then Trim(s[1..])
    else if Space(s[|s| - 1]) then Trim(s[..|s| - 1])
    else s
  }

  /** The classes by code point: the letters, digits and underscore of `\\w`, and the spaces of `\\s` below 128. */
  lemma Classes(c: char)
    ensures Decimal(c) <==> 48 <= c as int <= 57
    ensures WordChar(c) <==> 48 <= c as int <= 57 || 65 <= c as int <= 90 || c as int == 95 || 97 <= c as int <= 122
    ensures Space(c) <==> c as int in {9, 10, 11, 12, 13, 32}
    ensures UpperChar(c) as int == if 97 <= c as int <= 122 then c as int - 32 else c as int
    ensures LowerChar(c) as int == if 65 <= c as int <= 90 then c as int + 32 else c as int
  {
  }

  /** Trimming takes spaces off both ends and nothing else. */
  lemma {:induction false} TrimMeans(s: string) returns (lead: string, trail: string)
    ensures s == lead + Trim(s) + trail
    ensures (forall c | c in lead :: Space(c)) && (forall c | c in trail :: Space(c))
    ensures Trim(s) != "" ==> !Space(Trim(s)[0]) && !Space(Trim(s)[|Trim(s)| - 1])
    decreases |s|
  {
    lead, trail := "", "";
    if s != "" && Space(s[0]) {
      var l, t := TrimMeans(s[1..]);
      lead, trail := [s[0]] + l, t;
    } else if s != "" && Space(s[|s| - 1]) {
      var l, t := TrimMeans(s[..|s| - 1]);
      lead, trail := l, t + [s[|s| - 1]];
    }
  }

  /** So what is left of a text between spaces is that text. */
  lemma {:induction false} TrimBetween(lead: string, s: string, trail: string)
    requires (forall c | c in lead :: Space(c)) && (forall c | c in trail :: Space(c))
    requires s != "" && !Space(s[0]) && !Space(s[|s| - 1])
    ensures Trim(lead + s + trail) == s
    decreases |lead| + |trail|
  {
    var t := lead + s + trail;
    if lead != "" {
      assert t[1..] == lead[1..] + s + trail && lead[0] in lead;
      TrimBetween(lead[1..], s, trail);
    } else if trail != "" {
      assert t[0] == s[0] && t[..|t| - 1] == lead + s + trail[..|trail| - 1] && trail[|trail| - 1] in trail;
      TrimBetween(lead, s, trail[..|trail| - 1]);
    } else {
      assert t == s;
    }
  }
}
