/** Sequential identifiers such as APP-2026-0001: a stored counter, a baseline taken from existing
    records on first use, and a bounded search past identifiers already taken. */
module Sequence {
  import opened Wrappers
  import opened Numerals
  import opened Characters

  const TRIES: nat := 100

  datatype Prefix = APP | ADM | STU | RCT

  function PrefixText(p: Prefix): string {
    match p
    case APP => "APP"
    case ADM => "ADM"
    case STU => "STU"
    case RCT => "RCT"
  }

  /** The fixed parameters of one counter. */
  datatype Series = Series(prefix: Prefix, year: nat, digits: nat)

  function Number(n: nat, digits: nat): string {
    PadStart(Print(n, 10), digits, '0')
  }

  function Candidate(s: Series, compact: bool, n: nat): string {
    if s.prefix.ADM? && compact then "ADM26" + Number(n, s.digits)
    else PrefixText(s.prefix) + "-" + Print(s.year, 10) + "-" + Number(n, s.digits)
  }

  /** Candidates tell their numbers apart, also beyond the padded width, and compact ones never look
      like the others. */
  lemma CandidatesDiffer(s: Series, c: bool, m: nat, d: bool, n: nat)
    requires m != n || (s.prefix.ADM? && c != d)
    ensures Candidate(s, c, m) != Candidate(s, d, n)
  {
    var compact, other := s.prefix.ADM? && c, s.prefix.ADM? && d;
    hide Print, PadStart;
    if compact == other {
      var head := if compact then "ADM26" else PrefixText(s.prefix) + "-" + Print(s.year, 10) + "-";
      assert Candidate(s, c, m) == head + Number(m, s.digits) && Candidate(s, d, n) == head + Number(n, s.digits);
      if Candidate(s, c, m) == Candidate(s, d, n) {
        SameTail(head, Number(m, s.digits), Number(n, s.digits));
        PaddedInjective(m, n, 10, s.digits);
      }
    } else {
      assert Candidate(s, c, m)[3] != Candidate(s, d, n)[3];
    }
  }

  lemma SameTail(head: string, a: string, b: string)
    requires head + a == head + b
    ensures a == b
  {
    assert (head + a)[|head|..] == a && (head + b)[|head|..] == b;
  }

  /** What identifiers look like, beyond the padded width too. */
  lemma IdentifierForms()
    ensures Candidate(Series(APP, 2026, 4), false, 7) == "APP-2026-0007"
    ensures Candidate(Series(STU, 2026, 4), false, 7) == "STU-2026-0007"
    ensures Candidate(Series(RCT, 2026, 4), false, 7) == "RCT-2026-0007"
    ensures Candidate(Series(ADM, 2026, 4), false, 12345) == "ADM-2026-12345"
    ensures Candidate(Series(ADM, 2026, 4), true, 7) == "ADM260007"
    ensures Candidate(Series(STU, 2026, 4), true, 7) == "STU-2026-0007"
  {
    NumbersPrint();
    hide Print, PadStart, Number;
  }

  lemma NumbersPrint()
    ensures Print(2026, 10) == "2026" && Number(7, 4) == "0007" && Number(12345, 4) == "12345"
  {
    assert Print(2, 10) == "2" && Print(20, 10) == "20" && Print(202, 10) == "202";
    assert Print(1, 10) == "1" && Print(12, 10) == "12" && Print(123, 10) == "123" && Print(1234, 10) == "1234";
  }

  // ----- The baseline from existing admission numbers -----

  predicate StartsWith(s: string, head: string) {
    |s| >= |head| && forall i | 0 <= i < |head| :: UpperChar(s[i]) == head[i]
  }

  predicate Digits(s: string) {
    s != "" && AllDigits(s, 10)
  }

  /** `ADM26` and a number. */
  function CompactNumber(adm: string): Option<nat> {
    if StartsWith(adm, "ADM26") && Digits(adm[5..]) then Some(Value(adm[5..], 10)) else None
  }

  /** `ADM`, a four-digit year and a number, with dashes. */
  function DashNumber(adm: string): Option<nat> {
    if StartsWith(adm, "ADM-") && |adm| > 9 && Digits(adm[4..8]) && adm[8] == '-' && Digits(adm[9..])
    then Some(Value(adm[9..], 10)) else None
  }

  datatype Baseline = Baseline(maxNum: nat, compact: bool)

  function Seen(b: Baseline, adm: string): Baseline {
    match (CompactNumber(adm), DashNumber(adm))
    case (Some(n), _) => if n > b.maxNum then Baseline(n, true) else b
    case (None, Some(n)) => if n > b.maxNum && !b.compact then b.(maxNum := n) else b
    case _ => b
  }

  function Scan(students: seq<string>): Baseline {
    if students == [] then Baseline(0, false)
    else Seen(Scan(students[..|students| - 1]), students[|students| - 1])
  }

  /** What the scan's result covers. */
  ghost predicate Covers(b: Baseline, students: seq<string>) {
    forall s | s in students ::
      && (CompactNumber(s).Some? ==> CompactNumber(s).value <= b.maxNum)
      && (!b.compact && CompactNumber(s).None? && DashNumber(s).Some? ==> DashNumber(s).value <= b.maxNum)
  }

  lemma {:induction false} ScanCovers(students: seq<string>)
    ensures Covers(Scan(students), students)
    ensures Scan(students).compact ==> exists s :: s in students && CompactNumber(s) == Some(Scan(students).maxNum)
  {
    if students != [] {
      var n := |students| - 1;
      var before, last := students[..n], students[n];
      ScanCovers(before);
      hide CompactNumber, DashNumber;
      assert students == before + [last];
      if Scan(before).compact && Scan(students).maxNum == Scan(before).maxNum {
        var s :| s in before && CompactNumber(s) == Some(Scan(before).maxNum);
        assert s in students;
      }
    }
  }

  /** A compact number larger than every dashed number before it. */
  predicate Leads(students: seq<string>, i: nat)
    requires i < |students|
  {
    && CompactNumber(students[i]).Some? && CompactNumber(students[i]).value > 0
    && forall j | 0 <= j < i && CompactNumber(students[j]).None? && DashNumber(students[j]).Some? ::
         DashNumber(students[j]).value < CompactNumber(students[i]).value
  }

  /** While no compact number has been adopted, the largest number seen is a dashed one. */
  lemma {:induction false} DashedMaximum(students: seq<string>)
    requires !Scan(students).compact && Scan(students).maxNum > 0
    ensures exists j :: 0 <= j < |students| && CompactNumber(students[j]).None?
                        && DashNumber(students[j]) == Some(Scan(students).maxNum)
  {
    hide CompactNumber, DashNumber;
    var n := |students| - 1;
    if Scan(students[..n]).maxNum == Scan(students).maxNum {
      DashedMaximum(students[..n]);
      var j :| 0 <= j < n && CompactNumber(students[..n][j]).None?
               && DashNumber(students[..n][j]) == Some(Scan(students).maxNum);
      assert students[..n][j] == students[j];
    }
  }

  /** The scan adopts the compact form exactly if some compact number exceeds all dashed numbers that come
      before it, newest record first. */
  lemma {:induction false} CompactAdoptedIff(students: seq<string>)
    ensures Scan(students).compact <==> exists i :: 0 <= i < |students| && Leads(students, i)
  {
    if students != [] {
      var n := |students| - 1;
      CompactAdoptedIff(students[..n]);
      hide CompactNumber, DashNumber, Scan;
      assert forall i | 0 <= i < n :: Leads(students[..n], i) <==> Leads(students, i);
      if !Scan(students[..n]).compact { LastLeadsIff(students, n); }
      ScanTurn(students, n);
    }
  }

  lemma ScanTurn(students: seq<string>, n: nat)
    requires n == |students| - 1
    ensures Scan(students) == Seen(Scan(students[..n]), students[n])
    ensures Scan(students[..n]).compact ==> Scan(students).compact
    ensures !Scan(students[..n]).compact ==>
              (Scan(students).compact <==>
                 CompactNumber(students[n]).Some? && CompactNumber(students[n]).value > Scan(students[..n]).maxNum)
  {
    hide CompactNumber, DashNumber;
  }

  lemma LastLeadsIff(students: seq<string>, n: nat)
    requires n == |students| - 1 && !Scan(students[..n]).compact
    ensures Leads(students, n) <==>
              CompactNumber(students[n]).Some? && CompactNumber(students[n]).value > Scan(students[..n]).maxNum
  {
    hide CompactNumber, DashNumber, Scan;
    var before := students[..n];
    ScanCovers(before);
    assert forall j | 0 <= j < n :: before[j] == students[j] && before[j] in before;
    if Scan(before).maxNum > 0 {
      DashedMaximum(before);
      var j :| 0 <= j < n && CompactNumber(before[j]).None? && DashNumber(before[j]) == Some(Scan(before).maxNum);
    }
  }

  method AdmBaseline(students: seq<string>) returns (maxNum: nat, compact: bool)
    ensures Baseline(maxNum, compact) == Scan(students)
  {
    hide CompactNumber, DashNumber;
    maxNum, compact := 0, false;
    var i := 0;
    while i < |students|
      invariant i <= |students|
      invariant Baseline(maxNum, compact) == Scan(students[..i])
    {
      var adm := students[i];
      assert students[..i + 1][..i] == students[..i];
      i := i + 1;
      var mCompact := CompactNumber(adm);
      if mCompact.Some? {
        if mCompact.value > maxNum {
          maxNum, compact := mCompact.value, true;
        }
        continue;
      }
      var mDash := DashNumber(adm);
      if mDash.Some? && mDash.value > maxNum && !compact {
        maxNum := mDash.value;
      }
    }
    assert students[..i] == students;
  }

  lemma CompactReadsBack(s: Series, n: nat)
    requires s.prefix.ADM?
    ensures CompactNumber(Candidate(s, true, n)) == Some(n)
  {
    var c := Candidate(s, true, n);
    PaddedValue(n, 10, s.digits);
    hide Print, PadStart, Value, AllDigits;
    assert c[5..] == Number(n, s.digits);
  }

  lemma DashReadsBack(s: Series, n: nat)
    requires s.prefix.ADM? && 1000 <= s.year < 10000
    ensures CompactNumber(Candidate(s, false, n)) == None
    ensures DashNumber(Candidate(s, false, n)) == Some(n)
  {
    var c := Candidate(s, false, n);
    PaddedValue(n, 10, s.digits);
    ValuePrint(s.year, 10);
    FourDigits(s.year);
    hide Print, PadStart, Value, AllDigits;
    var year := Print(s.year, 10);
    assert c == "ADM" + "-" + year + "-" + Number(n, s.digits);
    assert c[..4] == "ADM-" && c[4..8] == year && c[8] == '-' && c[9..] == Number(n, s.digits);
    assert c[0] == 'A' && c[1] == 'D' && c[2] == 'M' && c[3] == '-';
  }

  lemma FourDigits(year: nat)
    requires 1000 <= year < 10000
    ensures |Print(year, 10)| == 4
  {
    var a, b, c := Quotient(year, 10), Quotient(Quotient(year, 10), 10), Quotient(Quotient(Quotient(year, 10), 10), 10);
    assert 100 <= a < 1000 && 10 <= b < 100 && 1 <= c < 10;
    hide Quotient, LastDigit;
    assert |Print(c, 10)| == 1;
    assert |Print(b, 10)| == 2;
    assert |Print(a, 10)| == 3;
  }

  /** The number after the baseline. */
  function AfterBaseline(students: seq<string>): nat {
    var b := Scan(students);
    if b.maxNum > 0 then b.maxNum + 1 else |students| + 1
  }

  /** The number after the baseline follows the largest adopted one: the largest compact number once the
      compact form is adopted, else the largest dashed one; without any it follows the number of students. */
  lemma BaselineIs(students: seq<string>)
    ensures var b := Scan(students);
            if b.compact then
              && (exists s :: s in students && CompactNumber(s) == Some(AfterBaseline(students) - 1))
              && (forall s | s in students && CompactNumber(s).Some? ::
                    CompactNumber(s).value < AfterBaseline(students))
            else if b.maxNum > 0 then
              && (exists s :: s in students && DashNumber(s) == Some(AfterBaseline(students) - 1))
              && (forall s | s in students && CompactNumber(s).None? && DashNumber(s).Some? ::
                    DashNumber(s).value < AfterBaseline(students))
            else
              && AfterBaseline(students) == |students| + 1
              && (forall s | s in students && CompactNumber(s).Some? :: CompactNumber(s).value == 0)
              && (forall s | s in students && CompactNumber(s).None? && DashNumber(s).Some? :: DashNumber(s).value == 0)
  {
    hide CompactNumber, DashNumber;
    ScanCovers(students);
    AdoptedPositive(students);
    if !Scan(students).compact && Scan(students).maxNum > 0 {
      DashedMaximum(students);
      var j :| 0 <= j < |students| && CompactNumber(students[j]).None?
               && DashNumber(students[j]) == Some(Scan(students).maxNum);
      assert students[j] in students;
    }
  }

  lemma {:induction false} AdoptedPositive(students: seq<string>)
    ensures Scan(students).compact ==> Scan(students).maxNum > 0
  {
    hide CompactNumber, DashNumber;
    if students != [] { AdoptedPositive(students[..|students| - 1]); }
  }

  /** Which admission numbers are read, in either case of letters. */
  lemma CompactForms()
    ensures CompactNumber("ADM260012") == Some(12) && CompactNumber("adm267") == Some(7)
    ensures CompactNumber("ADM26") == None && CompactNumber("ADM-2026-0012") == None
    ensures CompactNumber("ADM2612a") == None
  {
    NumeralsRead();
    var one, two, bare, odd := "ADM260012", "adm267", "ADM26", "ADM2612a";
    assert one[5..] == "0012" && two[5..] == "7" && bare[5..] == "" && odd[5..] == "12a";
    assert "12a"[2] == 'a' && !IsDigit('a', 10) && 'a' in "12a";
    assert !AllDigits("12a", 10);
    hide Value, AllDigits, IsDigit;
    assert "ADM-2026-0012"[3] == '-';
  }

  lemma DashForms()
    ensures DashNumber("ADM-2026-0012") == Some(12) && DashNumber("adm-1999-7") == Some(7)
    ensures DashNumber("ADM-2026-") == None && DashNumber("STU-2026-0012") == None
  {
    NumeralsRead();
    hide Value, AllDigits, IsDigit;
    DashedParts("ADM-2026-0012", "2026", "0012");
    DashedParts("adm-1999-7", "1999", "7");
    assert "STU-2026-0012"[0] == 'S';
  }

  lemma DashedParts(adm: string, year: string, number: string)
    requires |year| == 4 && |adm| == 9 + |number|
    requires adm == adm[..4] + year + [adm[8]] + number
    ensures adm[4..8] == year && adm[9..] == number
  {
  }

  lemma NumeralsRead()
    ensures Digits("0012") && Value("0012", 10) == 12 && Digits("7") && Value("7", 10) == 7
    ensures Digits("2026") && Digits("1999")
  {
    assert "0012"[..3] == "001" && "001"[..2] == "00" && "00"[..1] == "0" && "0"[..0] == "" && "7"[..0] == "";
    assert Value("0", 10) == 0 && Value("00", 10) == 0 && Value("001", 10) == 1;
  }

  /** On first use the number taken from the existing admission numbers is free at once. */
  lemma AdmBaselineIsFree(s: Series, students: seq<string>)
    requires s.prefix.ADM? && 1000 <= s.year < 10000
    ensures Candidate(s, Scan(students).compact, AfterBaseline(students)) !in students
  {
    var b, n := Scan(students), AfterBaseline(students);
    ScanCovers(students);
    CompactReadsBack(s, n);
    DashReadsBack(s, n);
    hide Candidate, CompactNumber, DashNumber, Scan;
  }

  // ----- Generating -----

  /** The records as one call sees them: how many there are for the baseline, and the identifiers the
      collision check looks through, newest first. */
  datatype Records = Records(count: nat, identifiers: seq<string>)

  datatype Issue = Issue(identifier: string, number: nat, compact: bool, counter: nat)

  function Start(s: Series, current: Option<nat>, records: Records): nat {
    if current.Some? then current.value + 1
    else if s.prefix.ADM? then AfterBaseline(records.identifiers)
    else records.count + 1
  }

  function Compact(s: Series, current: Option<nat>, records: Records): bool {
    current.None? && s.prefix.ADM? && Scan(records.identifiers).compact
  }

  predicate Taken(s: Series, compact: bool, records: Records, n: nat) {
    Candidate(s, compact, n) in records.identifiers
  }

  function FirstFree(s: Series, compact: bool, records: Records, n: nat, tries: nat): (free: nat)
    ensures n <= free <= n + tries
    decreases tries
  {
    if tries == 0 || !Taken(s, compact, records, n) then n else FirstFree(s, compact, records, n + 1, tries - 1)
  }

  function Generate(s: Series, current: Option<nat>, records: Records): Issue {
    var compact, start := Compact(s, current, records), Start(s, current, records);
    var next := FirstFree(s, compact, records, start, TRIES);
    var number := if next < start + TRIES then next else next - 1;
    Issue(Candidate(s, compact, number), number, compact, next)
  }

  /** The counter row of one school, prefix and year, as one call uses it that nothing overlaps. */
  class SequenceStore {
    var current: Option<nat>

    constructor ()
      ensures current == None
    {
      current := None;
    }

    method GenerateNextSequence(s: Series, records: Records) returns (candidate: string)
      modifies this
      ensures candidate == Generate(s, old(current), records).identifier
      ensures current == Some(Generate(s, old(current), records).counter)
    {
      hide Candidate, Scan, FirstFree, Taken;
      var nextSeq: nat, compact := 1, false;
      if current.Some? {
        nextSeq := current.value + 1;
      } else if s.prefix.ADM? {
        var maxNum;
        maxNum, compact := AdmBaseline(records.identifiers);
        nextSeq := if maxNum > 0 then maxNum + 1 else |records.identifiers| + 1;
      } else {
        nextSeq := records.count + 1;
      }
      candidate, nextSeq := Search(s, compact, records, nextSeq);
      current := Some(nextSeq);
    }
  }

  /** The bounded search from `start`. After a hundred taken candidates it gives the last of them and
      the number after it. */
  method Search(s: Series, compact: bool, records: Records, start: nat) returns (candidate: string, nextSeq: nat)
    ensures nextSeq == FirstFree(s, compact, records, start, TRIES)
    ensures candidate == Candidate(s, compact, if nextSeq < start + TRIES then nextSeq else nextSeq - 1)
  {
    hide Candidate;
    nextSeq := start;
    candidate := Candidate(s, compact, nextSeq);
    var taken, safetyCounter := true, 0;
    while taken && safetyCounter < TRIES
      invariant safetyCounter <= TRIES
      invariant taken ==> nextSeq == start + safetyCounter
      invariant taken ==> (FirstFree(s, compact, records, start, TRIES)
                           == FirstFree(s, compact, records, nextSeq, TRIES - safetyCounter))
      invariant taken && safetyCounter > 0 ==> candidate == Candidate(s, compact, nextSeq - 1)
      invariant !taken ==> candidate == Candidate(s, compact, nextSeq)
                           && nextSeq == FirstFree(s, compact, records, start, TRIES) < start + TRIES
      decreases TRIES - safetyCounter
    {
      safetyCounter := safetyCounter + 1;
      candidate := Candidate(s, compact, nextSeq);
      taken := candidate in records.identifiers;
      if taken {
        nextSeq := nextSeq + 1;
      }
    }
  }

  // ----- What identifiers promise -----

  lemma {:induction false} FirstFreeIs(s: Series, compact: bool, records: Records, n: nat, tries: nat)
    ensures var free := FirstFree(s, compact, records, n, tries);
            && (forall k | n <= k < free :: Taken(s, compact, records, k))
            && (free < n + tries ==> !Taken(s, compact, records, free))
    decreases tries
  {
    hide Taken;
    if tries > 0 && Taken(s, compact, records, n) {
      FirstFreeIs(s, compact, records, n + 1, tries - 1);
    }
  }

  /** The returned identifier is already taken exactly if all of the next hundred are; otherwise it is the
      first free one. */
  lemma TakenIffHundredTaken(s: Series, current: Option<nat>, records: Records)
    ensures var issue, start := Generate(s, current, records), Start(s, current, records);
            && (issue.identifier in records.identifiers <==>
                  forall k | start <= k < start + 100 :: Taken(s, issue.compact, records, k))
            && (issue.identifier !in records.identifiers ==>
                  issue.number == issue.counter
                  && forall k | start <= k < issue.number :: Taken(s, issue.compact, records, k))
  {
    var issue, start := Generate(s, current, records), Start(s, current, records);
    FirstFreeIs(s, issue.compact, records, start, TRIES);
    assert issue.identifier in records.identifiers <==> Taken(s, issue.compact, records, issue.number);
    hide Taken, Start, Compact;
  }

  /** The first number of a series without counter follows the number of existing records; a later one follows
      the counter. It is the issued one if it is free. */
  lemma FirstNumber(s: Series, current: Option<nat>, records: Records)
    requires !s.prefix.ADM? || current.Some?
    ensures var n := if current.Some? then current.value + 1 else records.count + 1;
            Candidate(s, false, n) !in records.identifiers ==>
              Generate(s, current, records).identifier == Candidate(s, false, n)
              && Generate(s, current, records).counter == n
  {
    var n := if current.Some? then current.value + 1 else records.count + 1;
    hide Candidate, Scan;
    StopsAtNumber(s, current, records, n);
  }

  /** And that can happen, for every series and every counter. */
  lemma TakenIdentifierReturned(s: Series, current: nat)
    ensures var records := Records(100, seq(100, i requires 0 <= i < 100 => Candidate(s, false, current + 1 + i)));
            Generate(s, Some(current), records).identifier in records.identifiers
  {
    hide Candidate;
    var ids := seq(100, i requires 0 <= i < 100 => Candidate(s, false, current + 1 + i));
    var records := Records(100, ids);
    TakenIffHundredTaken(s, Some(current), records);
    forall k | current + 1 <= k < current + 101 ensures Taken(s, false, records, k) {
      assert ids[k - current - 1] == Candidate(s, false, k);
    }
    CounterIncreases(s, Some(current), records);
    hide Generate, Taken;
  }

  /** Each call moves the counter strictly forward, and the issued number lies above the old counter and
      not above the new one. */
  lemma CounterIncreases(s: Series, current: Option<nat>, records: Records)
    ensures var issue := Generate(s, current, records);
            && (current.Some? ==> current.value < issue.number && !issue.compact)
            && issue.number <= issue.counter
            && issue.identifier == Candidate(s, issue.compact, issue.number)
  {
    hide Candidate;
  }

  /** A search from `start` ends at `n`: all before it are taken, and it is free or the hundredth. */
  predicate StopsAt(s: Series, compact: bool, r: Records, start: nat, n: nat) {
    && start <= n < start + TRIES
    && (forall k | start <= k < n :: Taken(s, compact, r, k))
    && (!Taken(s, compact, r, n) || n == start + TRIES - 1)
  }

  lemma StopsAtNumber(s: Series, c: Option<nat>, r: Records, n: nat)
    ensures StopsAt(s, Compact(s, c, r), r, Start(s, c, r), n) <==> n == Generate(s, c, r).number
  {
    FirstFreeIs(s, Compact(s, c, r), r, Start(s, c, r), TRIES);
    hide Taken, Start, Compact;
  }

  /** No identifier names its school: calls for two schools return one identifier if and only if both follow
      the same form and the searches from their counters or baselines end at one number. */
  lemma SchoolsShareIff(s: Series, c: Option<nat>, r: Records, d: Option<nat>, q: Records)
    ensures Generate(s, c, r).identifier == Generate(s, d, q).identifier <==>
              && Compact(s, c, r) == Compact(s, d, q)
              && exists n :: StopsAt(s, Compact(s, c, r), r, Start(s, c, r), n)
                             && StopsAt(s, Compact(s, d, q), q, Start(s, d, q), n)
  {
    hide Candidate, Scan, FirstFree, Taken, StopsAt, Start;
    var one, other := Generate(s, c, r), Generate(s, d, q);
    StopsAtNumber(s, c, r, one.number);
    StopsAtNumber(s, d, q, other.number);
    assert !s.prefix.ADM? ==> !one.compact && !other.compact;
    if one.number != other.number || one.compact != other.compact {
      CandidatesDiffer(s, one.compact, one.number, other.compact, other.number);
    }
    forall n | StopsAt(s, Compact(s, c, r), r, Start(s, c, r), n) && StopsAt(s, Compact(s, d, q), q, Start(s, d, q), n)
      ensures n == one.number == other.number
    {
      StopsAtNumber(s, c, r, n);
      StopsAtNumber(s, d, q, n);
    }
  }

  /** Two schools whose next numbers are free share an identifier exactly if their counters are equal. */
  lemma SchoolsShareCounter(s: Series, c: nat, r: Records, d: nat, q: Records)
    requires !Taken(s, false, r, c + 1) && !Taken(s, false, q, d + 1)
    ensures Generate(s, Some(c), r).identifier == Generate(s, Some(d), q).identifier <==> c == d
  {
    StopsAtNumber(s, Some(c), r, c + 1);
    StopsAtNumber(s, Some(d), q, d + 1);
    SchoolsShareIff(s, Some(c), r, Some(d), q);
    hide Taken, Generate;
  }

  /** Two schools, concretely: each takes its first application of a year, and both get one number, which the
      records of neither hold. */
  lemma FirstApplicationsShare()
    ensures var s, none := Series(APP, 2026, 4), Records(0, []);
            && Generate(s, None, none).identifier == "APP-2026-0001"
            && var after := Records(1, ["APP-2026-0001"]);
               && Generate(s, Some(1), after).identifier != "APP-2026-0001"
               && Generate(s, None, none).identifier in after.identifiers
  {
    var s, none := Series(APP, 2026, 4), Records(0, []);
    StopsAtNumber(s, None, none, 1);
    FirstApplication();
    hide Candidate;
    CounterIncreases(s, Some(1), Records(1, ["APP-2026-0001"]));
    var second := Generate(s, Some(1), Records(1, ["APP-2026-0001"]));
    hide Generate;
    CandidatesDiffer(s, false, 1, false, second.number);
  }

  lemma FirstApplication()
    ensures Candidate(Series(APP, 2026, 4), false, 1) == "APP-2026-0001"
  {
    assert Print(2, 10) == "2" && Print(20, 10) == "20" && Print(202, 10) == "202" && Print(2026, 10) == "2026";
    assert Print(1, 10) == "1";
    assert Number(1, 4) == "0001";
  }

  /** The identifiers of consecutive calls, between which the records may change in any way. */
  function Issues(s: Series, current: Option<nat>, calls: seq<Records>): (r: seq<Issue>)
    ensures |r| == |calls|
    decreases |calls|
  {
    if calls == [] then []
    else
      var issue := Generate(s, current, calls[0]);
      [issue] + Issues(s, Some(issue.counter), calls[1..])
  }

  lemma {:induction false} LaterNumbers(s: Series, counter: nat, calls: seq<Records>, j: nat)
    requires j < |calls|
    ensures var issue := Issues(s, Some(counter), calls)[j];
            issue.number > counter && !issue.compact && issue.identifier == Candidate(s, false, issue.number)
    decreases |calls|
  {
    CounterIncreases(s, Some(counter), calls[0]);
    var next := Generate(s, Some(counter), calls[0]).counter;
    if j > 0 {
      LaterNumbers(s, next, calls[1..], j - 1);
    }
    hide Generate, Candidate;
  }

  /** Calls that follow one another never issue an identifier twice, whatever happens to the records in
      between, beyond 9999 too. */
  lemma {:induction false} NeverIssuedTwice(s: Series, current: Option<nat>, calls: seq<Records>, i: nat, j: nat)
    requires i < j < |calls|
    ensures Issues(s, current, calls)[i].identifier != Issues(s, current, calls)[j].identifier
    ensures Issues(s, current, calls)[i].counter < Issues(s, current, calls)[j].counter
    decreases |calls|
  {
    hide *;
    var first := Generate(s, current, calls[0]);
    CounterIncreases(s, current, calls[0]);
    var rest := Issues(s, Some(first.counter), calls[1..]);
    IssuesApart(s, current, calls);
    if i > 0 {
      NeverIssuedTwice(s, Some(first.counter), calls[1..], i - 1, j - 1);
    } else {
      LaterNumbers(s, first.counter, calls[1..], j - 1);
      NumberBelowCounter(s, Some(first.counter), calls[1..], j - 1);
      CandidatesDiffer(s, first.compact, first.number, false, rest[j - 1].number);
    }
  }

  /** The numbering convention of a school is matched once: of the identifiers of one counter only the very
      first can be compact, and it is exactly if the counter was new and the records are. All later ones
      have the dashed form. */
  lemma ConventionMatchedOnce(s: Series, current: Option<nat>, calls: seq<Records>, i: nat)
    requires i < |calls| && s.prefix.ADM?
    ensures Issues(s, current, calls)[i].compact <==>
              i == 0 && current.None? && exists k :: 0 <= k < |calls[0].identifiers| && Leads(calls[0].identifiers, k)
    ensures i > 0 ==>
              Issues(s, current, calls)[i].identifier == Candidate(s, false, Issues(s, current, calls)[i].number)
  {
    hide Leads, Candidate;
    IssuesApart(s, current, calls);
    CompactAdoptedIff(calls[0].identifiers);
    if i > 0 {
      LaterNumbers(s, Generate(s, current, calls[0]).counter, calls[1..], i - 1);
    }
  }

  lemma IssuesApart(s: Series, current: Option<nat>, calls: seq<Records>)
    requires calls != []
    ensures Issues(s, current, calls)
         == [Generate(s, current, calls[0])] + Issues(s, Some(Generate(s, current, calls[0]).counter), calls[1..])
  {
    hide Generate;
  }

  lemma {:induction false} NumberBelowCounter(s: Series, current: Option<nat>, calls: seq<Records>, j: nat)
    requires j < |calls|
    ensures Issues(s, current, calls)[j].number <= Issues(s, current, calls)[j].counter
    decreases j
  {
    CounterIncreases(s, current, calls[0]);
    if j > 0 {
      NumberBelowCounter(s, Some(Generate(s, current, calls[0]).counter), calls[1..], j - 1);
    }
    hide Generate;
  }
}
