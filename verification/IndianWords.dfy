/** Rupee amounts in words with Indian grouping: crore, lakh, thousand and hundred. */
module IndianWords {
  import opened Text
  import opened Numerals

  const CRORE: nat := 10_000_000
  const LAKH: nat := 100_000

  // ----- Words -----

  function Ones(v: nat): string
    requires v < 20
  {
    match v
    case 0 => ""
    case 1 => "One"
    case 2 => "Two"
    case 3 => "Three"
    case 4 => "Four"
    case 5 => "Five"
    case 6 => "Six"
    case 7 => "Seven"
    case 8 => "Eight"
    case 9 => "Nine"
    case 10 => "Ten"
    case 11 => "Eleven"
    case 12 => "Twelve"
    case 13 => "Thirteen"
    case 14 => "Fourteen"
    case 15 => "Fifteen"
    case 16 => "Sixteen"
    case 17 => "Seventeen"
    case 18 => "Eighteen"
    case _ => "Nineteen"
  }

  /** The word for a tens digit; the table ends at ninety. */
  function Tens(d: nat): string {
    match d
    case 0 => ""
    case 1 => ""
    case 2 => "Twenty"
    case 3 => "Thirty"
    case 4 => "Forty"
    case 5 => "Fifty"
    case 6 => "Sixty"
    case 7 => "Seventy"
    case 8 => "Eighty"
    case 9 => "Ninety"
    case _ => "undefined"
  }

  function ConvertTwoDigits(v: nat): string {
    if v < 20 then Ones(v)
    else Tens(v / 10) + if v % 10 != 0 then " " + Ones(v % 10) else ""
  }

  function ConvertThreeDigits(v: nat): string
    requires v < 1000
  {
    var h, rem := v / 100, v % 100;
    var hundreds := if h > 0 then Ones(h) + " Hundred" else "";
    var rest := if rem > 0 then ConvertTwoDigits(rem) else "";
    if hundreds != "" && rest != "" then hundreds + " and " + rest
    else hundreds + rest
  }

  // ----- The same as lists of words -----

  function TwoDigitWords(v: nat): (r: seq<string>)
    ensures r != []
  {
    if v < 20 then [Ones(v)]
    else [Tens(v / 10)] + if v % 10 != 0 then [Ones(v % 10)] else []
  }

  function Group(v: nat, unit: string): seq<string> {
    if v > 0 then TwoDigitWords(v) + [unit] else []
  }

  function HundredsWords(v: nat): seq<string>
    requires v < 1000
  {
    (if v / 100 > 0 then [Ones(v / 100), "Hundred"] else [])
    + (if v / 100 > 0 && v % 100 > 0 then ["and"] else [])
    + (if v % 100 > 0 then TwoDigitWords(v % 100) else [])
  }

  function AmountWords(n: nat): seq<string> {
    Group(n / CRORE, "Crore") + Group(n % CRORE / LAKH, "Lakh") + Group(n % LAKH / 1000, "Thousand")
    + HundredsWords(n % 1000)
  }

  /** What is printed. */
  function InWords(n: int): string {
    if n <= 0 then "Zero Rupees Only" else Join(["Rupees"] + AmountWords(n) + ["Only"], ' ')
  }

  lemma TwoDigitsJoin(v: nat)
    ensures ConvertTwoDigits(v) == Join(TwoDigitWords(v), ' ')
  {
    hide Ones, Tens;
    if v >= 20 && v % 10 != 0 {
      JoinAppend([Tens(v / 10)], [Ones(v % 10)], ' ');
    }
  }

  lemma GroupJoin(v: nat, unit: string)
    requires v > 0
    ensures ConvertTwoDigits(v) + " " + unit == Join(Group(v, unit), ' ')
  {
    TwoDigitsJoin(v);
    JoinAppend(TwoDigitWords(v), [unit], ' ');
  }

  lemma TwoDigitsNotEmpty(v: nat)
    requires 0 < v < 100
    ensures ConvertTwoDigits(v) != ""
  {
    if v >= 20 { TensNotEmpty(v / 10); }
    hide Tens;
  }

  lemma TensNotEmpty(d: nat)
    requires d >= 2
    ensures Tens(d) != ""
  {
  }

  lemma ThreeDigitsJoin(v: nat)
    requires 0 < v < 1000
    ensures ConvertThreeDigits(v) == Join(HundredsWords(v), ' ') && HundredsWords(v) != []
  {
    hide Ones, ConvertTwoDigits, TwoDigitWords, Join;
    var h, rem := v / 100, v % 100;
    if rem > 0 { TwoDigitsNotEmpty(rem); TwoDigitsJoin(rem); }
    if h > 0 {
      JoinHundred(h);
      if rem > 0 {
        assert HundredsWords(v) == [Ones(h), "Hundred"] + ["and"] + TwoDigitWords(rem);
        JoinAnd([Ones(h), "Hundred"], TwoDigitWords(rem));
      } else {
        assert HundredsWords(v) == [Ones(h), "Hundred"];
      }
    } else {
      assert HundredsWords(v) == TwoDigitWords(rem);
    }
  }

  lemma JoinHundred(h: nat)
    requires 0 < h < 20
    ensures Join([Ones(h), "Hundred"], ' ') == Ones(h) + " Hundred"
  {
    hide Ones;
    JoinAppend([Ones(h)], ["Hundred"], ' ');
    assert [Ones(h)] + ["Hundred"] == [Ones(h), "Hundred"];
  }

  lemma JoinAnd(a: seq<string>, b: seq<string>)
    requires a != [] && b != []
    ensures Join(a + ["and"] + b, ' ') == Join(a, ' ') + " and " + Join(b, ' ')
  {
    JoinAppend(a, ["and"], ' ');
    JoinAppend(a + ["and"], b, ' ');
    assert Join(["and"], ' ') == "and";
    hide Join;
  }

  /** The parts pushed so far, and the words they are made of. */
  ghost predicate Spelt(parts: seq<string>, words: seq<string>) {
    (parts == [] <==> words == []) && Join(parts, ' ') == Join(words, ' ')
  }

  lemma PushPart(parts: seq<string>, words: seq<string>, part: string, more: seq<string>)
    requires Spelt(parts, words) && part == Join(more, ' ') && more != []
    ensures Spelt(parts + [part], words + more)
  {
    if parts == [] {
      assert parts + [part] == [part] && words + more == more;
    } else {
      JoinAppend(parts, [part], ' ');
      JoinAppend(words, more, ' ');
    }
  }

  lemma Framed(words: seq<string>)
    requires words != []
    ensures "Rupees " + Join(words, ' ') + " Only" == Join(["Rupees"] + words + ["Only"], ' ')
  {
    JoinAppend(["Rupees"], words, ' ');
    JoinAppend(["Rupees"] + words, ["Only"], ' ');
    assert "Rupees" + " " + Join(words, ' ') == "Rupees " + Join(words, ' ');
  }

  method PushGroup(parts: seq<string>, v: nat, unit: string, ghost words: seq<string>) returns (r: seq<string>)
    requires Spelt(parts, words)
    ensures Spelt(r, words + Group(v, unit))
  {
    r := parts;
    if v > 0 {
      GroupJoin(v, unit);
      PushPart(parts, words, ConvertTwoDigits(v) + " " + unit, Group(v, unit));
      r := parts + [ConvertTwoDigits(v) + " " + unit];
    } else {
      assert words + Group(v, unit) == words;
    }
  }

  method NumberToIndianWords(n: int) returns (r: string)
    ensures r == InWords(n)
  {
    hide Join, ConvertTwoDigits, ConvertThreeDigits, Group, HundredsWords;
    if n <= 0 {
      return "Zero Rupees Only";
    }
    var crore, lakh := n / CRORE, n % CRORE / LAKH;
    var thousand, hundredAndBelow := n % LAKH / 1000, n % 1000;
    var parts: seq<string> := [];
    parts := PushGroup(parts, crore, "Crore", []);
    parts := PushGroup(parts, lakh, "Lakh", [] + Group(crore, "Crore"));
    parts := PushGroup(parts, thousand, "Thousand", [] + Group(crore, "Crore") + Group(lakh, "Lakh"));
    ghost var words := [] + Group(crore, "Crore") + Group(lakh, "Lakh") + Group(thousand, "Thousand");
    if hundredAndBelow > 0 {
      ThreeDigitsJoin(hundredAndBelow);
      PushPart(parts, words, ConvertThreeDigits(hundredAndBelow), HundredsWords(hundredAndBelow));
      parts := parts + [ConvertThreeDigits(hundredAndBelow)];
    }
    NoHundreds(hundredAndBelow);
    assert words + HundredsWords(hundredAndBelow) == AmountWords(n);
    assert hundredAndBelow == 0 ==> words == AmountWords(n);
    assert Spelt(parts, AmountWords(n));
    SomeWords(n);
    Framed(AmountWords(n));
    return "Rupees " + Join(parts, ' ') + " Only";
  }

  lemma NoHundreds(v: nat)
    requires v < 1000
    ensures v == 0 ==> HundredsWords(v) == []
  {
  }

  /** A positive amount has at least one word. */
  lemma SomeWords(n: nat)
    requires n > 0
    ensures AmountWords(n) != []
  {
    Decomposed(n);
    if n % 1000 > 0 { ThreeDigitsJoin(n % 1000); }
    hide HundredsWords, TwoDigitWords;
  }

  lemma Decomposed(n: nat)
    ensures n == n / CRORE * CRORE + n % CRORE / LAKH * LAKH + n % LAKH / 1000 * 1000 + n % 1000
    ensures n % CRORE / LAKH < 100 && n % LAKH / 1000 < 100
  {
    var q, a := n / 10_000_000, n % 10_000_000;
    var b, e := a / 100_000, a % 100_000;
    RestUnique(n, LAKH, 100 * q + b, e);
    var c, d := e / 1000, e % 1000;
    RestUnique(n, 1000, 100 * (100 * q + b) + c, d);
  }

  // ----- A reader of such words -----

  function WordValue(w: string): nat {
    if w == "One" then 1
    else if w == "Two" then 2
    else if w == "Three" then 3
    else if w == "Four" then 4
    else if w == "Five" then 5
    else if w == "Six" then 6
    else if w == "Seven" then 7
    else if w == "Eight" then 8
    else if w == "Nine" then 9
    else if w == "Ten" then 10
    else if w == "Eleven" then 11
    else if w == "Twelve" then 12
    else if w == "Thirteen" then 13
    else if w == "Fourteen" then 14
    else if w == "Fifteen" then 15
    else if w == "Sixteen" then 16
    else if w == "Seventeen" then 17
    else if w == "Eighteen" then 18
    else if w == "Nineteen" then 19
    else if w == "Twenty" then 20
    else if w == "Thirty" then 30
    else if w == "Forty" then 40
    else if w == "Fifty" then 50
    else if w == "Sixty" then 60
    else if w == "Seventy" then 70
    else if w == "Eighty" then 80
    else if w == "Ninety" then 90
    else 0
  }

  datatype Tally = Tally(total: int, current: int)

  /** One word: a multiplier acts on what has been read since the last one. */
  function Hear(t: Tally, w: string): Tally {
    if w == "Hundred" then t.(current := t.current * 100)
    else if w == "Thousand" then Tally(t.total + t.current * 1000, 0)
    else if w == "Lakh" then Tally(t.total + t.current * LAKH, 0)
    else if w == "Crore" then Tally(t.total + t.current * CRORE, 0)
    else t.(current := t.current + WordValue(w))
  }

  function HearAll(t: Tally, words: seq<string>): Tally
    decreases |words|
  {
    if words == [] then t else HearAll(Hear(t, words[0]), words[1..])
  }

  /** The amount a text names. */
  function Read(text: string): int {
    var t := HearAll(Tally(0, 0), Split(text, ' '));
    t.total + t.current
  }

  predicate Number(w: string, v: nat) {
    && WordValue(w) == v && ' ' !in w
    && w != "Hundred" && w != "Thousand" && w != "Lakh" && w != "Crore" && w != "undefined"
  }

  lemma OnesNumber(v: nat)
    requires 1 <= v < 20
    ensures Number(Ones(v), v)
  {
    if v < 10 {
      SmallOnes(v);
    } else if v < 13 {
      MiddleOnes(v);
    } else if v < 16 {
      LargeOnes(v);
    } else if v < 18 {
      LargerOnes(v);
    } else if v == 18 {
      EighteenNumber();
    } else {
      NineteenNumber();
    }
  }

  lemma SmallOnes(v: nat)
    requires 1 <= v < 10
    ensures Number(Ones(v), v)
  {
  }

  lemma MiddleOnes(v: nat)
    requires 10 <= v < 13
    ensures Number(Ones(v), v)
  {
  }

  lemma LargeOnes(v: nat)
    requires 13 <= v < 16
    ensures Number(Ones(v), v)
  {
  }

  lemma LargerOnes(v: nat)
    requires 16 <= v < 18
    ensures Number(Ones(v), v)
  {
  }

  lemma EighteenNumber()
    ensures Number("Eighteen", 18) && Ones(18) == "Eighteen"
  {
  }

  lemma NineteenNumber()
    ensures Number("Nineteen", 19) && Ones(19) == "Nineteen"
  {
  }

  lemma TensNumber(d: nat)
    requires 2 <= d < 10
    ensures Number(Tens(d), 10 * d)
  {
    if d < 6 { SmallTens(d); } else { LargeTens(d); }
  }

  lemma SmallTens(d: nat)
    requires 2 <= d < 6
    ensures Number(Tens(d), 10 * d)
  {
  }

  lemma LargeTens(d: nat)
    requires 6 <= d < 10
    ensures Number(Tens(d), 10 * d)
  {
  }

  lemma HearNumber(t: Tally, w: string, v: nat)
    requires Number(w, v)
    ensures Hear(t, w) == t.(current := t.current + v)
  {
    hide WordValue;
  }

  lemma {:induction false} HearAppend(t: Tally, a: seq<string>, b: seq<string>)
    ensures HearAll(t, a + b) == HearAll(HearAll(t, a), b)
    decreases |a|
  {
    if a == [] {
      assert a + b == b;
    } else {
      assert (a + b)[1..] == a[1..] + b;
      HearAppend(Hear(t, a[0]), a[1..], b);
    }
  }

  lemma HearOne(t: Tally, w: string)
    ensures HearAll(t, [w]) == Hear(t, w)
  {
    assert [w][1..] == [];
  }

  lemma HearTwoDigits(t: Tally, v: nat)
    requires 0 < v < 100
    ensures HearAll(t, TwoDigitWords(v)) == t.(current := t.current + v)
  {
    hide Ones, Tens, Number, Hear, WordValue;
    if v < 20 {
      OnesNumber(v);
      HearOne(t, Ones(v));
      HearNumber(t, Ones(v), v);
    } else {
      TensNumber(v / 10);
      HearOne(t, Tens(v / 10));
      HearNumber(t, Tens(v / 10), 10 * (v / 10));
      if v % 10 != 0 {
        var u := t.(current := t.current + 10 * (v / 10));
        OnesNumber(v % 10);
        HearAppend(t, [Tens(v / 10)], [Ones(v % 10)]);
        HearOne(u, Ones(v % 10));
        HearNumber(u, Ones(v % 10), v % 10);
      }
    }
  }

  /** The unit multiplies what has been read and adds it to the total. */
  ghost predicate Multiplies(unit: string, total: int, size: nat) {
    forall c: int :: Hear(Tally(total, c), unit) == Tally(total + c * size, 0)
  }

  lemma HearGroup(total: int, v: nat, unit: string, size: nat)
    requires v < 100
    requires Multiplies(unit, total, size)
    ensures HearAll(Tally(total, 0), Group(v, unit)) == Tally(total + v * size, 0)
  {
    hide TwoDigitWords, Hear;
    if v > 0 {
      HearTwoDigits(Tally(total, 0), v);
      HearAppend(Tally(total, 0), TwoDigitWords(v), [unit]);
      HearOne(Tally(total, v), unit);
    }
  }

  lemma HearHundreds(total: int, v: nat)
    requires v < 1000
    ensures HearAll(Tally(total, 0), HundredsWords(v)) == Tally(total, v)
  {
    var h, rem := v / 100, v % 100;
    var head := if h > 0 then [Ones(h), "Hundred"] else [];
    var mid: seq<string> := if h > 0 && rem > 0 then ["and"] else [];
    var tail := if rem > 0 then TwoDigitWords(rem) else [];
    assert HundredsWords(v) == head + mid + tail;
    HearHundredHead(total, h);
    var t := Tally(total, 100 * h);
    HearOne(t, "and");
    assert Hear(t, "and") == t;
    hide HundredsWords, Ones, TwoDigitWords, Hear, WordValue;
    HearAppend(Tally(total, 0), head, mid);
    HearAppend(Tally(total, 0), head + mid, tail);
    assert HearAll(Tally(total, 0), head) == t;
    assert HearAll(t, mid) == t;
    if rem > 0 { HearTwoDigits(t, rem); }
  }

  lemma HearHundredHead(total: int, h: nat)
    requires h < 10
    ensures HearAll(Tally(total, 0), if h > 0 then [Ones(h), "Hundred"] else []) == Tally(total, 100 * h)
  {
    if h > 0 {
      OnesNumber(h);
      HearNumber(Tally(total, 0), Ones(h), h);
      hide Ones, Number, WordValue;
      HearOne(Tally(total, 0), Ones(h));
      HearOne(Tally(total, h), "Hundred");
      assert [Ones(h)] + ["Hundred"] == [Ones(h), "Hundred"];
      HearAppend(Tally(total, 0), [Ones(h)], ["Hundred"]);
    }
  }

  lemma Multipliers(total: int)
    ensures Multiplies("Crore", total, CRORE) && Multiplies("Lakh", total, LAKH) && Multiplies("Thousand", total, 1000)
  {
    hide WordValue;
  }

  lemma HearAmount(n: nat)
    requires n < 1_000_000_000
    ensures HearAll(Tally(0, 0), AmountWords(n)) == Tally(n - n % 1000, n % 1000)
  {
    hide Group, HundredsWords, Hear, HearAll, Multiplies;
    var a, b, c, d := n / CRORE, n % CRORE / LAKH, n % LAKH / 1000, n % 1000;
    Decomposed(n);
    var t1, t2 := a * CRORE, a * CRORE + b * LAKH;
    var g1, g2, g3 := Group(a, "Crore"), Group(b, "Lakh"), Group(c, "Thousand");
    Multipliers(0);
    HearGroup(0, a, "Crore", CRORE);
    Multipliers(t1);
    HearGroup(t1, b, "Lakh", LAKH);
    Multipliers(t2);
    HearGroup(t2, c, "Thousand", 1000);
    HearHundreds(t2 + c * 1000, d);
    HearAppend(Tally(0, 0), g1, g2);
    HearAppend(Tally(0, 0), g1 + g2, g3);
    HearAppend(Tally(0, 0), g1 + g2 + g3, HundredsWords(d));
  }

  // ----- No word holds a space -----

  ghost predicate Solid(words: seq<string>) {
    forall w | w in words :: ' ' !in w
  }

  lemma SolidTwoDigits(v: nat)
    requires v > 0
    ensures Solid(TwoDigitWords(v))
  {
    if v < 20 { OnesNumber(v); } else {
      TensSolid(v / 10);
      if v % 10 != 0 { OnesNumber(v % 10); }
    }
    hide Ones, Tens, WordValue;
  }

  lemma TensSolid(d: nat)
    ensures ' ' !in Tens(d)
  {
  }

  lemma SolidAmount(n: nat)
    ensures Solid(AmountWords(n))
  {
    hide Group, HundredsWords;
    SolidGroup(n / CRORE, "Crore");
    SolidGroup(n % CRORE / LAKH, "Lakh");
    SolidGroup(n % LAKH / 1000, "Thousand");
    SolidHundreds(n % 1000);
  }

  lemma SolidGroup(v: nat, unit: string)
    requires ' ' !in unit
    ensures Solid(Group(v, unit))
  {
    if v > 0 { SolidTwoDigits(v); }
    hide TwoDigitWords;
  }

  lemma SolidHundreds(v: nat)
    requires v < 1000
    ensures Solid(HundredsWords(v))
  {
    hide TwoDigitWords, Ones, WordValue;
    if v / 100 > 0 { OnesNumber(v / 100); }
    if v % 100 > 0 { SolidTwoDigits(v % 100); }
  }

  lemma SplitInWords(n: nat)
    requires n > 0
    ensures Split(InWords(n), ' ') == ["Rupees"] + AmountWords(n) + ["Only"]
  {
    SolidAmount(n);
    hide AmountWords;
    var words := ["Rupees"] + AmountWords(n) + ["Only"];
    assert forall w | w in words :: ' ' !in w;
    SplitJoin(words, ' ');
  }

  // ----- What the words promise -----

  /** Reading an amount below a hundred crore gives it back. */
  lemma ReadInWords(n: nat)
    requires n < 1_000_000_000
    ensures Read(InWords(n)) == n
  {
    hide AmountWords, Hear, HearAll, Split, InWords;
    if n == 0 {
      ReadZero();
      NothingInWords();
    } else {
      SplitInWords(n);
      HearAmount(n);
      HearFramed(AmountWords(n), Tally(n - n % 1000, n % 1000));
    }
  }

  lemma NothingInWords()
    ensures InWords(0) == "Zero Rupees Only"
  {
  }

  lemma HearFramed(words: seq<string>, t: Tally)
    requires HearAll(Tally(0, 0), words) == t
    ensures HearAll(Tally(0, 0), ["Rupees"] + words + ["Only"]) == t
  {
    hide Hear, HearAll;
    Silent(Tally(0, 0));
    Silent(t);
    HearOne(Tally(0, 0), "Rupees");
    HearOne(t, "Only");
    HearAppend(Tally(0, 0), ["Rupees"], words);
    HearAppend(Tally(0, 0), ["Rupees"] + words, ["Only"]);
  }

  lemma Silent(t: Tally)
    ensures Hear(t, "Rupees") == t && Hear(t, "Only") == t && Hear(t, "Zero") == t
  {
  }

  lemma ReadZero()
    ensures Read("Zero Rupees Only") == 0
  {
    var t := Tally(0, 0);
    SplitZero();
    HearThree(t, "Zero", "Rupees", "Only");
    Silent(t);
    hide Hear, HearAll, Split;
  }

  lemma SplitZero()
    ensures Split("Zero Rupees Only", ' ') == ["Zero", "Rupees", "Only"]
  {
    hide Split;
    SplitLeading("Zero", "Rupees Only", ' ');
    SplitLeading("Rupees", "Only", ' ');
    SplitNone("Only", ' ');
    assert "Zero" + [' '] + "Rupees Only" == "Zero Rupees Only";
    assert "Rupees" + [' '] + "Only" == "Rupees Only";
  }

  lemma HearThree(t: Tally, a: string, b: string, c: string)
    ensures HearAll(t, [a, b, c]) == Hear(Hear(Hear(t, a), b), c)
  {
    hide Hear;
    HearOne(t, a);
    HearOne(Hear(t, a), b);
    HearOne(Hear(Hear(t, a), b), c);
    HearAppend(t, [a], [b]);
    HearAppend(t, [a] + [b], [c]);
    assert [a] + [b] + [c] == [a, b, c];
  }

  /** From a hundred crore on, the table of tens is exceeded and amounts ten crore apart print alike. */
  lemma TenCroreApart(n: nat)
    requires n >= 1_000_000_000
    ensures InWords(n) == InWords(n + 100_000_000)
  {
    hide Join, HundredsWords, TwoDigitWords;
    Shifted(n);
    SameTwoDigits(n / CRORE);
  }

  lemma Shifted(n: nat)
    requires n >= 1_000_000_000
    ensures var m := n + 100_000_000;
            && m / CRORE == n / CRORE + 10 && n / CRORE >= 100
            && m % CRORE == n % CRORE && m % LAKH == n % LAKH && m % 1000 == n % 1000
  {
  }

  lemma SameTwoDigits(a: nat)
    requires a >= 100
    ensures TwoDigitWords(a) == TwoDigitWords(a + 10)
  {
    assert (a + 10) % 10 == a % 10 && (a + 10) / 10 == a / 10 + 1;
    assert Tens(a / 10) == "undefined" == Tens(a / 10 + 1);
    hide Ones, Tens;
  }

  lemma DefinedTwoDigits(v: nat)
    requires v > 0
    ensures "undefined" in TwoDigitWords(v) <==> v >= 100
  {
    if v < 20 { OnesNumber(v); } else {
      if v / 10 < 10 { TensNumber(v / 10); }
      if v % 10 != 0 { OnesNumber(v % 10); }
    }
    hide Ones, WordValue;
  }

  lemma DefinedAmount(n: nat)
    requires n > 0
    ensures "undefined" in AmountWords(n) <==> n >= 1_000_000_000
  {
    var a, b, c, d := n / CRORE, n % CRORE / LAKH, n % LAKH / 1000, n % 1000;
    Decomposed(n);
    if a > 0 { DefinedTwoDigits(a); }
    if b > 0 { DefinedTwoDigits(b); }
    if c > 0 { DefinedTwoDigits(c); }
    if d / 100 > 0 { OnesNumber(d / 100); }
    if d % 100 > 0 { DefinedTwoDigits(d % 100); }
    hide TwoDigitWords, Ones, WordValue;
    assert "undefined" !in HundredsWords(d);
    assert "undefined" !in Group(b, "Lakh") && "undefined" !in Group(c, "Thousand");
    assert "undefined" in Group(a, "Crore") <==> a >= 100;
    hide Group, HundredsWords;
  }

  /** A positive amount shares its words with another exactly from a hundred crore on. */
  lemma AmbiguousIff(n: nat)
    requires n > 0
    ensures (exists m: nat :: m > 0 && m != n && InWords(m) == InWords(n)) <==> n >= 1_000_000_000
  {
    if n >= 1_000_000_000 {
      TenCroreApart(n);
      assert InWords(n + 100_000_000) == InWords(n);
    } else {
      forall m: nat | m > 0 && InWords(m) == InWords(n) ensures m == n {
        SameWordsSameAmount(m, n);
      }
    }
  }

  lemma SameWordsSameAmount(m: nat, n: nat)
    requires m > 0 && 0 < n < 1_000_000_000 && InWords(m) == InWords(n)
    ensures m == n
  {
    hide AmountWords, InWords, Read;
    SplitInWords(m);
    SplitInWords(n);
    DefinedAmount(m);
    DefinedAmount(n);
    var p, q := ["Rupees"] + AmountWords(m) + ["Only"], ["Rupees"] + AmountWords(n) + ["Only"];
    assert p == q;
    assert p[1..|p| - 1] == AmountWords(m) && q[1..|q| - 1] == AmountWords(n);
    ReadInWords(n);
    if m < 1_000_000_000 { ReadInWords(m); }
  }

  // ----- How it reads -----

  /** Nothing and less is zero rupees. */
  lemma NothingIsZero(n: int)
    ensures n <= 0 ==> InWords(n) == "Zero Rupees Only"
  {
  }

  /** Between the hundreds and the rest stands "and"; nothing stands for an empty group. */
  lemma HundredsRead(v: nat)
    requires 0 < v < 1000
    ensures ConvertThreeDigits(v) ==
            if v < 100 then ConvertTwoDigits(v)
            else if v % 100 == 0 then Ones(v / 100) + " Hundred"
            else Ones(v / 100) + " Hundred and " + ConvertTwoDigits(v % 100)
  {
    if v % 100 > 0 { TwoDigitsNotEmpty(v % 100); }
    hide Ones, ConvertTwoDigits;
    assert " Hundred" + " and " == " Hundred and ";
  }

  /** An amount with every group, word by word, and one with a single group. */
  lemma AmountReads()
    ensures InWords(12345678)
         == Join(["Rupees", "One", "Crore", "Twenty", "Three", "Lakh", "Forty", "Five", "Thousand", "Six", "Hundred",
                  "and", "Seventy", "Eight", "Only"], ' ')
    ensures InWords(1000) == Join(["Rupees", "One", "Thousand", "Only"], ' ')
  {
    hide Join;
    GroupsRead();
    hide Group, HundredsWords;
    assert 12345678 / CRORE == 1 && 12345678 % CRORE / LAKH == 23 && 12345678 % LAKH / 1000 == 45;
    assert ["Rupees"] + (["One", "Crore"] + ["Twenty", "Three", "Lakh"] + ["Forty", "Five", "Thousand"]
                         + ["Six", "Hundred", "and", "Seventy", "Eight"]) + ["Only"]
        == ["Rupees", "One", "Crore", "Twenty", "Three", "Lakh", "Forty", "Five", "Thousand", "Six", "Hundred", "and",
            "Seventy", "Eight", "Only"];
    assert ["Rupees"] + ([] + [] + ["One", "Thousand"] + []) + ["Only"] == ["Rupees", "One", "Thousand", "Only"];
  }

  lemma GroupsRead()
    ensures Group(1, "Crore") == ["One", "Crore"] && Group(23, "Lakh") == ["Twenty", "Three", "Lakh"]
    ensures Group(45, "Thousand") == ["Forty", "Five", "Thousand"] && Group(1, "Thousand") == ["One", "Thousand"]
    ensures Group(0, "Crore") == [] && Group(0, "Lakh") == [] && HundredsWords(0) == []
    ensures HundredsWords(678) == ["Six", "Hundred", "and", "Seventy", "Eight"]
  {
  }
}
