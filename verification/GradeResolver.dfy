/** The grade of a class from its numeric level or its name, as the services read it and as the
    integrity audit reads it. */
module GradeResolver {
  import opened Wrappers
  import opened Numerals
  import opened Characters

  predicate DirectLevel(level: int) {
    1 <= level <= 12
  }

  // ----- The services' reading -----

  /** A word starts or ends at position `i`. */
  predicate Boundary(s: string, i: nat) {
    (0 < i <= |s| && WordChar(s[i - 1])) != (i < |s| && WordChar(s[i]))
  }

  /** A grade from 1 to 12 standing as a whole word at position `i`. */
  function GradeAt(s: string, i: nat): (g: Option<nat>)
    ensures g.Some? ==> i < |s| && Decimal(s[i]) && 1 <= g.value <= 12
  {
    if i >= |s| || !Boundary(s, i) then None
    else if '1' <= s[i] <= '9' && Boundary(s, i + 1) then Some(s[i] as int - '0' as int)
    else if s[i] == '1' && i + 1 < |s| && '0' <= s[i + 1] <= '2' && Boundary(s, i + 2) then
      Some(10 + s[i + 1] as int - '0' as int)
    else None
  }

  function FindGrade(s: string, i: nat): (g: Option<nat>)
    ensures g.Some? ==> 1 <= g.value <= 12
    decreases |s| - i
  {
    if i >= |s| then None
    else if GradeAt(s, i).Some? then GradeAt(s, i)
    else FindGrade(s, i + 1)
  }

  /** Always a grade of the school system. */
  function ResolveGradeLevel(level: int, name: string): (g: int)
    ensures 1 <= g <= 12
    ensures DirectLevel(level) ==> g == level
  {
    if DirectLevel(level) then level
    else if FindGrade(name, 0).Some? then FindGrade(name, 0).value
    else 1
  }

  // ----- The audit's reading -----

  function FirstDigit(s: string): (i: nat)
    ensures i <= |s| && (i < |s| ==> Decimal(s[i])) && forall j | 0 <= j < i :: !Decimal(s[j])
  {
    if s == "" then 0 else if Decimal(s[0]) then 0 else FirstDigit(s[1..]) + 1
  }

  function DigitRun(s: string): (k: nat)
    ensures k <= |s| && (forall j | 0 <= j < k :: Decimal(s[j])) && (k < |s| ==> !Decimal(s[k]))
  {
    if s == "" || !Decimal(s[0]) then 0 else DigitRun(s[1..]) + 1
  }

  /** The first run of digits of a name; empty if there is none. */
  function FirstNumber(s: string): (digits: string)
    ensures AllDigits(digits, 10)
    ensures digits == "" <==> forall j | 0 <= j < |s| :: !Decimal(s[j])
  {
    var t := s[FirstDigit(s)..];
    t[..DigitRun(t)]
  }

  function AuditGrade(level: int, name: string): int {
    if DirectLevel(level) then level
    else if FirstNumber(name) != "" then Value(FirstNumber(name), 10)
    else level
  }

  // ----- Where the two agree -----

  lemma {:induction false} NothingBefore(s: string, i: nat, j: nat)
    requires i <= j <= |s| && forall k | i <= k < j :: !Decimal(s[k])
    ensures FindGrade(s, i) == FindGrade(s, j)
    decreases j - i
  {
    if i < j { NothingBefore(s, i + 1, j); }
  }

  /** The first number of the name is a grade and stands as a word of its own. */
  ghost predicate FirstNumberIsGrade(name: string) {
    var i := FirstDigit(name);
    && i < |name| && Boundary(name, i) && Boundary(name, i + |FirstNumber(name)|)
    && 1 <= Value(FirstNumber(name), 10) <= 12 && name[i] != '0'
  }

  lemma SmallNumeral(s: string)
    requires AllDigits(s, 10) && s != "" && s[0] != '0' && 1 <= Value(s, 10) <= 12
    requires forall j | 0 <= j < |s| :: Decimal(s[j])
    ensures |s| <= 2
    ensures |s| == 1 ==> '1' <= s[0] && Value(s, 10) == s[0] as int - '0' as int
    ensures |s| == 2 ==> s[0] == '1' && '0' <= s[1] <= '2' && Value(s, 10) == 10 + s[1] as int - '0' as int
  {
    LeadingDigit(s);
    assert s[0] in s && s[|s| - 1] in s;
    if |s| <= 2 {
      assert s[..1][..0] == "";
      if |s| == 2 { assert s[..1][0] in s[..1]; }
    }
  }

  /** A numeral that starts with a non-zero digit is at least a power of ten. */
  lemma {:induction false} LeadingDigit(s: string)
    requires AllDigits(s, 10) && s != "" && s[0] != '0' && Decimal(s[0])
    ensures |s| >= 1 ==> Value(s, 10) >= 1
    ensures |s| >= 2 ==> Value(s, 10) >= 10
    ensures |s| >= 3 ==> Value(s, 10) >= 100
  {
    assert s[|s| - 1] in s;
    if |s| > 1 {
      assert forall c | c in s[..|s| - 1] :: c in s;
      LeadingDigit(s[..|s| - 1]);
    } else {
      assert s[..0] == "";
    }
  }

  /** The two readings agree whenever the level is 1 to 12, or the first number in the name is a grade
      standing as a word of its own. */
  lemma ReadingsAgree(level: int, name: string)
    requires DirectLevel(level) || FirstNumberIsGrade(name)
    ensures ResolveGradeLevel(level, name) == AuditGrade(level, name)
  {
    if !DirectLevel(level) {
      var i := FirstDigit(name);
      var t := name[i..];
      var digits := FirstNumber(name);
      assert digits == t[..DigitRun(t)];
      assert forall j | 0 <= j < |digits| :: digits[j] == name[i + j];
      NothingBefore(name, 0, i);
      SmallNumeral(digits);
      hide Value, Boundary;
      GradeFound(name, i, digits);
    }
  }

  lemma GradeFound(name: string, i: nat, digits: string)
    requires 1 <= |digits| <= 2 && i + |digits| <= |name| && digits == name[i..i + |digits|]
    requires Boundary(name, i) && Boundary(name, i + |digits|)
    requires |digits| == 1 ==> '1' <= digits[0] <= '9'
    requires |digits| == 2 ==> digits[0] == '1' && '0' <= digits[1] <= '2'
    ensures FindGrade(name, i) == Some(if |digits| == 1 then digits[0] as int - '0' as int
                                       else 10 + digits[1] as int - '0' as int)
  {
    assert digits[0] == name[i];
    if |digits| == 2 { assert digits[1] == name[i + 1]; }
  }

  /** The first grade that stands as a word of its own has value `v`, or there is none and `v` is 1. */
  ghost predicate StandingGradeIs(name: string, v: int) {
    || (v == 1 && forall i | 0 <= i < |name| :: GradeAt(name, i).None?)
    || exists i :: 0 <= i < |name| && GradeAt(name, i).Some? && GradeAt(name, i).value == v
                   && forall j | 0 <= j < i :: GradeAt(name, j).None?
  }

  lemma {:induction false} FindGradeIs(name: string, i: nat)
    requires i <= |name|
    ensures FindGrade(name, i).None? <==> forall j | i <= j < |name| :: GradeAt(name, j).None?
    ensures FindGrade(name, i).Some? ==>
              exists k :: i <= k < |name| && GradeAt(name, k) == FindGrade(name, i)
                          && forall j | i <= j < k :: GradeAt(name, j).None?
    decreases |name| - i
  {
    hide GradeAt;
    if i < |name| && GradeAt(name, i).None? {
      FindGradeIs(name, i + 1);
      if FindGrade(name, i).Some? {
        var k :| i + 1 <= k < |name| && GradeAt(name, k) == FindGrade(name, i + 1)
                 && forall j | i + 1 <= j < k :: GradeAt(name, j).None?;
      }
    }
  }

  /** For a level outside 1 to 12 the services read the first standing grade, or 1. */
  lemma StandingGrade(level: int, name: string, v: int)
    requires !DirectLevel(level)
    ensures ResolveGradeLevel(level, name) == v <==> StandingGradeIs(name, v)
  {
    hide GradeAt, FindGrade;
    FindGradeIs(name, 0);
  }

  /** The first grade that stands as a word of its own stands at `i`. */
  predicate FirstStanding(name: string, i: nat) {
    i < |name| && GradeAt(name, i).Some? && forall j | 0 <= j < i :: GradeAt(name, j).None?
  }

  lemma RunEnds(t: string, k: nat)
    requires 1 <= k <= |t| && (forall j | 0 <= j < k :: Decimal(t[j])) && (k < |t| ==> !Decimal(t[k]))
    ensures DigitRun(t) == k
  {
  }

  lemma OneDigit(c: char)
    requires Decimal(c)
    ensures AllDigits([c], 10) && Value([c], 10) == c as int - '0' as int
  {
    ValueSnoc([], c, 10);
    assert [] + [c] == [c];
  }

  lemma TwoDigits(c: char, d: char)
    requires Decimal(c) && Decimal(d)
    ensures AllDigits([c, d], 10) && Value([c, d], 10) == 10 * (c as int - '0' as int) + d as int - '0' as int
  {
    OneDigit(c);
    ValueSnoc([c], d, 10);
    assert [c] + [d] == [c, d];
  }

  /** A grade that stands where the first digit is, is the first number. */
  lemma GradeAtFirstDigit(name: string)
    requires GradeAt(name, FirstDigit(name)).Some?
    ensures FirstNumberIsGrade(name)
  {
    var i := FirstDigit(name);
    if '1' <= name[i] <= '9' && Boundary(name, i + 1) {
      OneDigitGrade(name);
    } else {
      TwoDigitGrade(name);
    }
  }

  lemma OneDigitGrade(name: string)
    requires var i := FirstDigit(name);
             i < |name| && Boundary(name, i) && '1' <= name[i] <= '9' && Boundary(name, i + 1)
    ensures FirstNumberIsGrade(name)
  {
    hide Value, FirstDigit;
    var i := FirstDigit(name);
    assert i + 1 < |name| ==> !WordChar(name[i + 1]);
    RunEnds(name[i..], 1);
    assert FirstNumber(name) == [name[i]];
    OneDigit(name[i]);
  }

  lemma TwoDigitGrade(name: string)
    requires var i := FirstDigit(name);
             && i + 1 < |name| && Boundary(name, i) && name[i] == '1' && '0' <= name[i + 1] <= '2'
             && Boundary(name, i + 2)
    ensures FirstNumberIsGrade(name)
  {
    hide Value, FirstDigit;
    var i := FirstDigit(name);
    assert i + 2 < |name| ==> !WordChar(name[i + 2]);
    RunEnds(name[i..], 2);
    assert FirstNumber(name) == [name[i], name[i + 1]];
    TwoDigits(name[i], name[i + 1]);
  }

  lemma StandingIsFirst(name: string, v: int)
    ensures StandingGradeIs(name, v) <==>
              || (v == 1 && forall i | 0 <= i < |name| :: GradeAt(name, i).None?)
              || exists i: nat :: FirstStanding(name, i) && GradeAt(name, i).value == v
  {
    hide GradeAt;
    if i: nat :| FirstStanding(name, i) && GradeAt(name, i).value == v {
      assert 0 <= i < |name|;
    }
    if i :| 0 <= i < |name| && GradeAt(name, i).Some? && GradeAt(name, i).value == v
            && forall j | 0 <= j < i :: GradeAt(name, j).None? {
      assert FirstStanding(name, i);
    }
  }

  /** The two readings agree exactly if the level is 1 to 12; or the first number in the name is a grade
      standing as a word of its own; or it is no such word, but a later grade that stands so has its value; or
      it is 1 and no grade stands so at all. */
  lemma ReadingsAgreeIff(level: int, name: string)
    ensures ResolveGradeLevel(level, name) == AuditGrade(level, name) <==>
              || DirectLevel(level)
              || FirstNumberIsGrade(name)
              || (exists i: nat :: FirstDigit(name) < i && FirstStanding(name, i)
                                   && GradeAt(name, i).value == Value(FirstNumber(name), 10))
              || (FirstNumber(name) != "" && Value(FirstNumber(name), 10) == 1
                  && forall i | 0 <= i < |name| :: GradeAt(name, i).None?)
  {
    if DirectLevel(level) || FirstNumberIsGrade(name) {
      ReadingsAgree(level, name);
    } else {
      NumberAtFirstDigit(name);
      hide FindGrade, FirstNumber, Value, FirstNumberIsGrade, StandingGradeIs, FirstDigit, GradeAt;
      var v := AuditGrade(level, name);
      StandingGrade(level, name, v);
      StandingIsFirst(name, v);
      if GradeAt(name, FirstDigit(name)).Some? { GradeAtFirstDigit(name); }
      forall i: nat | FirstStanding(name, i) ensures FirstDigit(name) < i && FirstNumber(name) != "" {
        NotBeforeDigits(name, i);
      }
    }
  }

  lemma NumberAtFirstDigit(name: string)
    ensures FirstNumber(name) != "" <==> FirstDigit(name) < |name|
  {
    hide Value;
  }

  lemma NotBeforeDigits(name: string, i: nat)
    requires FirstStanding(name, i)
    ensures FirstDigit(name) <= i
  {
    assert Decimal(name[i]);
  }

  /** Otherwise they can differ: a digit run inside a word counts for the audit alone, and a number that
      is no grade hides a later grade from the audit. */
  lemma ReadingsDiffer()
    ensures ResolveGradeLevel(0, "10th") == 1 && AuditGrade(0, "10th") == 10
    ensures ResolveGradeLevel(0, "26 V 5") == 5 && AuditGrade(0, "26 V 5") == 26
    ensures ResolveGradeLevel(13, "KG") == 1 && AuditGrade(13, "KG") == 13
  {
    TenthDiffers();
    LaterGradeDiffers();
    assert FindGrade("KG", 2) == None && FindGrade("KG", 1) == None;
  }

  lemma TenthDiffers()
    ensures ResolveGradeLevel(0, "10th") == 1 && AuditGrade(0, "10th") == 10
  {
    var s := "10th";
    assert GradeAt(s, 0) == GradeAt(s, 1) == GradeAt(s, 2) == GradeAt(s, 3) == None;
    assert FindGrade(s, 4) == None && FindGrade(s, 3) == None && FindGrade(s, 2) == None && FindGrade(s, 1) == None;
    assert FirstDigit(s) == 0 && s[0..] == s;
    assert FirstNumber(s) == "10";
    assert "10"[..1] == "1" && "1"[..0] == "";
    assert Value("1", 10) == 1;
  }

  lemma LaterGradeDiffers()
    ensures ResolveGradeLevel(0, "26 V 5") == 5 && AuditGrade(0, "26 V 5") == 26
  {
    var s := "26 V 5";
    NoGradeBefore(s);
    assert FirstDigit(s) == 0 && s[0..] == s;
    assert FirstNumber(s) == "26";
    assert "26"[..1] == "2" && "2"[..0] == "";
    assert Value("2", 10) == 2;
  }

  lemma NoGradeBefore(s: string)
    requires s == "26 V 5"
    ensures FindGrade(s, 0) == Some(5)
  {
    assert GradeAt(s, 5) == Some(5);
    assert FindGrade(s, 5) == Some(5);
    NothingBefore(s, 2, 5);
    assert GradeAt(s, 0) == None && GradeAt(s, 1) == None;
    assert FindGrade(s, 1) == FindGrade(s, 2);
  }

  // ----- What the readings look for -----

  /** A grade as it is written. */
  ghost function Numeral(g: nat): string
    requires 1 <= g <= 12
  {
    ["1", "2", "3", "4", "5", "6", "7", "8", "9", "10", "11", "12"][g - 1]
  }

  /** The services find a grade where its numeral stands with no letter, digit or underscore on either side. */
  lemma GradeAtIff(s: string, i: nat, g: nat)
    requires 1 <= g <= 12
    ensures GradeAt(s, i) == Some(g) <==>
              var k := i + |Numeral(g)|;
              k <= |s| && s[i..k] == Numeral(g) && (i == 0 || !WordChar(s[i - 1])) && (k == |s| || !WordChar(s[k]))
  {
    NumeralDigits(g);
    hide Numeral;
    var n := Numeral(g);
    if i + |n| <= |s| && s[i..i + |n|] == n {
      assert s[i] == n[0];
      if g >= 10 { assert s[i + 1] == n[1]; }
    }
    if GradeAt(s, i) == Some(g) {
      if g <= 9 { assert s[i..i + 1] == [s[i]]; } else { assert s[i..i + 2] == [s[i], s[i + 1]]; }
    }
  }

  lemma NumeralDigits(g: nat)
    requires 1 <= g <= 12
    ensures g <= 9 ==> Numeral(g) == ['0' + g as char]
    ensures g >= 10 ==> Numeral(g) == ['1', '0' + (g - 10) as char]
  {
  }

  lemma {:induction false} FirstDigitIs(a: string, b: string)
    requires forall c | c in a :: !Decimal(c)
    requires b == "" || Decimal(b[0])
    ensures FirstDigit(a + b) == |a|
  {
    if a == "" {
      assert a + b == b;
    } else {
      assert (a + b)[1..] == a[1..] + b && a[0] in a;
      FirstDigitIs(a[1..], b);
    }
  }

  lemma {:induction false} DigitRunIs(digits: string, b: string)
    requires forall c | c in digits :: Decimal(c)
    requires b == "" || !Decimal(b[0])
    ensures DigitRun(digits + b) == |digits|
  {
    if digits == "" {
      assert digits + b == b;
    } else {
      assert (digits + b)[1..] == digits[1..] + b && digits[0] in digits;
      DigitRunIs(digits[1..], b);
    }
  }

  /** For a level outside 1 to 12 the audit reads the first run of digits, whatever stands around it, and
      without a digit it keeps the level. */
  lemma AuditReads(level: int, before: string, digits: string, after: string)
    requires !(1 <= level <= 12)
    requires (forall c | c in before :: !Decimal(c)) && AllDigits(digits, 10)
    requires after == "" || (digits != "" && !Decimal(after[0]))
    ensures AuditGrade(level, before + digits + after) == if digits == "" then level else Value(digits, 10)
  {
    assert before + digits + after == before + (digits + after);
    assert forall c | c in digits :: Decimal(c);
    if digits != "" { assert (digits + after)[0] == digits[0] && digits[0] in digits; }
    FirstDigitIs(before, digits + after);
    assert (before + (digits + after))[|before|..] == digits + after;
    DigitRunIs(digits, after);
    assert (digits + after)[..|digits|] == digits;
    hide Value, FirstDigit, DigitRun;
  }
}
