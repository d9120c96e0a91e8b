/** Similarity of two submissions by shared word shingles, and the originality report of a submission
    against its peers. Scores are counted in hundredths of a percent. */
module Similarity {
  import opened Text
  import opened Characters
  import opened Collections
  import opened Numerals

  const FULL: nat := 10_000
  const NOTICEABLE: nat := 1_500

  // ----- Words -----

  function Lower(s: string): string {
    seq(|s|, i requires 0 <= i < |s| => LowerChar(s[i]))
  }

  function Spaced(s: string, keep: char -> bool): string {
    seq(|s|, i requires 0 <= i < |s| => if keep(s[i]) then s[i] else ' ')
  }

  function LongerThan(words: seq<string>, n: nat): seq<string> {
    if words == [] then [] else (if |words[0]| > n then [words[0]] else []) + LongerThan(words[1..], n)
  }

  lemma {:induction false} LongerThanMembers(words: seq<string>, n: nat, w: string)
    ensures w in LongerThan(words, n) <==> w in words && |w| > n
  {
    if words != [] { LongerThanMembers(words[1..], n, w); }
  }

  /** The runs of more than `n` kept characters. */
  function Runs(s: string, keep: char -> bool, n: nat): seq<string> {
    LongerThan(Split(Spaced(s, keep), ' '), n)
  }

  /** The words of two or more characters, in lower case. */
  function Tokens(text: string): seq<string> {
    Runs(Lower(text), WordChar, 1)
  }

  lemma TokensHoldNoSpace(text: string)
    ensures forall w | w in Tokens(text) :: ' ' !in w && |w| > 1
  {
    forall w | w in Tokens(text) ensures ' ' !in w && |w| > 1 {
      LongerThanMembers(Split(Spaced(Lower(text), WordChar), ' '), 1, w);
      SplitPieces(Spaced(Lower(text), WordChar), ' ', w);
    }
  }

  lemma {:induction false} LongerThanAppend(a: seq<string>, b: seq<string>, n: nat)
    ensures LongerThan(a + b, n) == LongerThan(a, n) + LongerThan(b, n)
  {
    if a == [] {
      assert a + b == b;
    } else {
      assert (a + b)[1..] == a[1..] + b;
      LongerThanAppend(a[1..], b, n);
    }
  }

  lemma RunsApart(a: string, c: char, b: string, keep: char -> bool, n: nat)
    requires !keep(c)
    ensures Runs(a + [c] + b, keep, n) == Runs(a, keep, n) + Runs(b, keep, n)
  {
    hide Split, LongerThan;
    assert Spaced(a + [c] + b, keep) == Spaced(a, keep) + [' '] + Spaced(b, keep);
    SplitAppend(Spaced(a, keep), Spaced(b, keep), ' ');
    LongerThanAppend(Split(Spaced(a, keep), ' '), Split(Spaced(b, keep), ' '), n);
  }

  lemma RunAlone(w: string, keep: char -> bool, n: nat)
    requires !keep(' ') && forall c | c in w :: keep(c)
    ensures Runs(w, keep, n) == if |w| > n then [w] else []
  {
    assert forall i | 0 <= i < |w| :: w[i] in w;
    assert Spaced(w, keep) == w && ' ' !in w;
    SplitNone(w, ' ');
    OneRun(w, n);
  }

  lemma OneRun(w: string, n: nat)
    ensures LongerThan([w], n) == if |w| > n then [w] else []
  {
    assert [w][1..] == [];
  }

  lemma LowerApart(a: string, c: char, b: string)
    ensures Lower(a + [c] + b) == Lower(a) + [LowerChar(c)] + Lower(b)
  {
  }

  /** Any character that is no letter, digit or underscore separates words. */
  lemma TokensApart(a: string, c: char, b: string)
    requires !WordChar(c)
    ensures Tokens(a + [c] + b) == Tokens(a) + Tokens(b)
  {
    LowerApart(a, c, b);
    RunsApart(Lower(a), LowerChar(c), Lower(b), WordChar, 1);
  }

  /** A word stands in lower case, and words of one character are left out. */
  lemma TokenAlone(w: string)
    requires forall c | c in w :: WordChar(c)
    ensures Tokens(w) == if |w| >= 2 then [Lower(w)] else []
  {
    forall c | c in Lower(w) ensures WordChar(c) {
      var i :| 0 <= i < |w| && Lower(w)[i] == c;
      assert w[i] in w;
    }
    RunAlone(Lower(w), WordChar, 1);
  }

  // ----- Shingles -----

  /** `n` consecutive words as one string. */
  function Window(words: seq<string>, i: nat, n: nat): string
    requires i + n <= |words|
  {
    Join(words[i..i + n], ' ')
  }

  predicate IsWindow(words: seq<string>, n: nat, phrase: string) {
    exists i :: 0 <= i <= |words| - n && Window(words, i, n) == phrase
  }

  /** All windows of `n` words, or the whole text when it is shorter. */
  function Shingles(tokens: seq<string>, n: nat): set<string> {
    if |tokens| < n then (if tokens == [] then {} else {Join(tokens, ' ')})
    else set i | 0 <= i <= |tokens| - n :: Window(tokens, i, n)
  }

  function Grams(text: string): set<string> {
    Shingles(Tokens(text), 3)
  }

  /** The shingles are any three consecutive words, or all words when there are one or two. */
  lemma GramsIff(text: string, g: string)
    ensures var t := Tokens(text);
            g in Grams(text) <==>
              || (|t| == 1 && g == t[0])
              || (|t| == 2 && g == t[0] + " " + t[1])
              || exists i :: 0 <= i < |t| - 2 && g == t[i] + " " + t[i + 1] + " " + t[i + 2]
  {
    ShinglesIff(Tokens(text), g);
    hide Tokens, Shingles;
  }

  lemma ShinglesIff(t: seq<string>, g: string)
    ensures g in Shingles(t, 3) <==>
              || (|t| == 1 && g == t[0])
              || (|t| == 2 && g == t[0] + " " + t[1])
              || exists i :: 0 <= i < |t| - 2 && g == t[i] + " " + t[i + 1] + " " + t[i + 2]
  {
    if |t| < 3 {
      if |t| == 2 { TwoJoined(t); }
    } else {
      forall i | 0 <= i <= |t| - 3 ensures Window(t, i, 3) == t[i] + " " + t[i + 1] + " " + t[i + 2] {
        ThreeJoined(t[i..i + 3]);
      }
      hide Join, Window;
      if g in Shingles(t, 3) {
        var i :| 0 <= i <= |t| - 3 && g == Window(t, i, 3);
        assert g == t[i] + " " + t[i + 1] + " " + t[i + 2];
      }
      if i :| 0 <= i < |t| - 2 && g == t[i] + " " + t[i + 1] + " " + t[i + 2] {
        assert g == Window(t, i, 3);
      }
    }
  }

  lemma TwoJoined(w: seq<string>)
    requires |w| == 2
    ensures Join(w, ' ') == w[0] + " " + w[1]
  {
    assert w[1..] == [w[1]];
  }

  lemma ThreeJoined(w: seq<string>)
    requires |w| == 3
    ensures Join(w, ' ') == w[0] + " " + w[1] + " " + w[2]
  {
    TwoJoined(w[1..]);
    assert w[0] + [' '] + (w[1] + " " + w[2]) == w[0] + " " + w[1] + " " + w[2];
  }

  method GenerateNgrams(text: string, n: nat := 3) returns (ngrams: set<string>)
    ensures ngrams == Shingles(Tokens(text), n)
  {
    hide Tokens, Join, Window;
    var tokens := Tokens(text);
    ngrams := {};
    if |tokens| < n {
      if |tokens| > 0 {
        ngrams := ngrams + {Join(tokens, ' ')};
      }
      return;
    }
    var i := 0;
    while i <= |tokens| - n
      invariant 0 <= i <= |tokens| - n + 1
      invariant forall g :: g in ngrams <==> exists j :: 0 <= j < i && Window(tokens, j, n) == g
    {
      ngrams := ngrams + {Window(tokens, i, n)};
      i := i + 1;
    }
  }

  /** As text, two three-word shingles are equal exactly if their words are. */
  lemma ShinglesTellWords(a: string, b: string, i: nat, j: nat)
    requires i + 3 <= |Tokens(a)| && j + 3 <= |Tokens(b)|
    ensures Window(Tokens(a), i, 3) == Window(Tokens(b), j, 3) <==> Tokens(a)[i..i + 3] == Tokens(b)[j..j + 3]
  {
    TokensHoldNoSpace(a);
    TokensHoldNoSpace(b);
    hide Join, Split, Tokens;
    var p, q := Tokens(a)[i..i + 3], Tokens(b)[j..j + 3];
    assert forall w | w in p :: w in Tokens(a);
    assert forall w | w in q :: w in Tokens(b);
    SplitJoin(p, ' ');
    SplitJoin(q, ' ');
  }

  // ----- Similarity -----

  function Union(a: set<string>, b: set<string>): (u: nat)
    ensures u == |a| + |b| - |a * b|
  {
    Overlap(a, b);
    |a + b|
  }

  lemma Overlap(a: set<string>, b: set<string>)
    ensures |a + b| == |a| + |b| - |a * b| && |a * b| <= |a| && |a * b| <= |b|
  {
    assert |a * b| + |a - b| == |a| by { assert a == a * b + (a - b); }
    assert |a * b| + |b - a| == |b| by { assert b == a * b + (b - a); }
    assert a + b == a * b + (a - b) + (b - a);
  }

  /** `10000 * part / whole`, rounded half up. */
  function Ratio(part: nat, whole: nat): (r: nat)
    requires whole > 0
    ensures r * (2 * whole) <= 20_000 * part + whole < (r + 1) * (2 * whole)
  {
    (20_000 * part + whole) / (2 * whole)
  }

  function Jaccard(a: set<string>, b: set<string>): nat {
    if a == {} || b == {} then 0 else Ratio(|a * b|, Union(a, b))
  }

  predicate SameIgnoringCase(a: string, b: string) {
    Lower(Trim(a)) == Lower(Trim(b))
  }

  function Score(a: string, b: string): nat {
    if a == "" || b == "" then 0
    else if SameIgnoringCase(a, b) then FULL
    else Jaccard(Grams(Trim(a)), Grams(Trim(b)))
  }

  method CalculateSimilarity(textA: string, textB: string) returns (score: nat)
    ensures score == Score(textA, textB)
  {
    hide Grams, Trim;
    if textA == "" || textB == "" {
      return 0;
    }
    var a, b := Trim(textA), Trim(textB);
    if Lower(a) == Lower(b) {
      return FULL;
    }
    var ngramsA, ngramsB := Grams(a), Grams(b);
    if ngramsA == {} || ngramsB == {} {
      return 0;
    }
    score := CountedRatio(ngramsA, ngramsB);
  }

  /** Counting the shared shingles one by one gives the Jaccard ratio. */
  method CountedRatio(ngramsA: set<string>, ngramsB: set<string>) returns (score: nat)
    requires ngramsA != {} && ngramsB != {}
    ensures score == Jaccard(ngramsA, ngramsB)
  {
    var intersectionCount := 0;
    var rest := ngramsA;
    while rest != {}
      invariant rest <= ngramsA
      invariant intersectionCount == |(ngramsA - rest) * ngramsB|
    {
      var gram :| gram in rest;
      OneMore(ngramsA, ngramsB, rest, gram);
      if gram in ngramsB {
        intersectionCount := intersectionCount + 1;
      }
      rest := rest - {gram};
    }
    assert ngramsA - {} == ngramsA;
    var unionCount := |ngramsA| + |ngramsB| - intersectionCount;
    Overlap(ngramsA, ngramsB);
    return Ratio(intersectionCount, unionCount);
  }

  lemma OneMore(a: set<string>, b: set<string>, rest: set<string>, x: string)
    requires rest <= a && x in rest
    ensures |(a - (rest - {x})) * b| == |(a - rest) * b| + if x in b then 1 else 0
  {
    var before := (a - rest) * b;
    assert (a - (rest - {x})) * b == if x in b then before + {x} else before;
  }

  lemma ScoreSymmetric(a: string, b: string)
    ensures Score(a, b) == Score(b, a)
  {
    var g, h := Grams(Trim(a)), Grams(Trim(b));
    assert g * h == h * g;
    assert g + h == h + g;
    hide Grams, Trim;
  }

  lemma JaccardRange(a: set<string>, b: set<string>)
    ensures Jaccard(a, b) <= FULL
  {
    if a != {} && b != {} {
      Overlap(a, b);
      RatioRange(|a * b|, Union(a, b));
    }
  }

  lemma RatioRange(part: nat, whole: nat)
    requires part <= whole && whole > 0
    ensures Ratio(part, whole) <= FULL
    ensures part == whole ==> Ratio(part, whole) == FULL
  {
    var r := Ratio(part, whole);
    hide Ratio;
    if r > FULL { MulMonotone(FULL + 1, r, 2 * whole); }
    if part == whole && r < FULL { MulMonotone(r + 1, FULL, 2 * whole); }
  }

  /** Scores lie between 0 and 100 percent. */
  lemma ScoreRange(a: string, b: string)
    ensures Score(a, b) <= FULL
  {
    JaccardRange(Grams(Trim(a)), Grams(Trim(b)));
    hide Grams, Trim, Jaccard;
  }

  /** Unless a text is empty or the texts match ignoring case, the score is the number of shared shingles
      over the number of all shingles, to the nearest hundredth of a percent. */
  lemma ScoreIsRoundedJaccard(a: string, b: string)
    requires a != "" && b != "" && !SameIgnoringCase(a, b)
    ensures var g, h := Grams(Trim(a)), Grams(Trim(b));
            if g == {} || h == {} then Score(a, b) == 0
            else
              && |g + h| > 0
              && 2 * (Score(a, b) * |g + h|) <= 2 * (FULL * |g * h|) + |g + h|
              && 2 * (FULL * |g * h|) <= 2 * (Score(a, b) * |g + h|) + |g + h|
  {
    var g, h := Grams(Trim(a)), Grams(Trim(b));
    hide Grams, Trim, SameIgnoringCase;
    if g != {} && h != {} {
      Overlap(g, h);
      var r, u := Ratio(|g * h|, Union(g, h)), |g + h|;
      assert Score(a, b) == r && u > 0;
      Rearranged(r, u, |g * h|);
    }
  }

  lemma Rearranged(r: nat, u: nat, part: nat)
    requires r * (2 * u) <= 20_000 * part + u < (r + 1) * (2 * u)
    ensures 2 * (r * u) <= 2 * (FULL * part) + u && 2 * (FULL * part) <= 2 * (r * u) + u
  {
    assert r * (2 * u) == 2 * (r * u) && (r + 1) * (2 * u) == 2 * (r * u) + 2 * u;
  }

  /** Texts that match ignoring case have the same shingles: the shortcut gives what the ratio would,
      unless there are no words to compare. */
  lemma ShortcutAgrees(a: string, b: string)
    requires a != "" && b != "" && SameIgnoringCase(a, b)
    ensures Score(a, b) == FULL
    ensures Grams(Trim(a)) == Grams(Trim(b))
    ensures Grams(Trim(a)) != {} ==> Jaccard(Grams(Trim(a)), Grams(Trim(b))) == FULL
  {
    var g := Grams(Trim(a));
    assert Grams(Trim(b)) == g;
    hide Grams, Trim;
    if g != {} {
      assert g * g == g && g + g == g;
      assert |g| > 0;
      RatioRange(|g * g|, Union(g, g));
    }
  }

  /** An empty text is like no other. */
  lemma EmptyScores(a: string)
    ensures Score("", a) == Score(a, "") == 0
  {
  }

  // ----- Shared phrases -----

  predicate PhraseChar(c: char) {
    WordChar(c) || Space(c)
  }

  function Kept(s: string): string {
    if s == "" then "" else (if PhraseChar(s[0]) then [s[0]] else "") + Kept(s[1..])
  }

  function NotSpace(c: char): bool {
    !Space(c)
  }

  /** The words of a text with punctuation dropped, in lower case. */
  function PlainWords(text: string): seq<string> {
    Runs(Kept(Lower(text)), NotSpace, 0)
  }

  lemma {:induction false} KeptAppend(a: string, b: string)
    ensures Kept(a + b) == Kept(a) + Kept(b)
  {
    hide PhraseChar;
    if a == "" {
      assert a + b == b;
    } else {
      assert (a + b)[1..] == a[1..] + b;
      KeptAppend(a[1..], b);
    }
  }

  lemma KeptOne(c: char)
    ensures Kept([c]) == if WordChar(c) || Space(c) then [c] else ""
  {
    assert [c][1..] == "";
  }

  /** White space separates the words of a phrase. */
  lemma PlainWordsApart(a: string, c: char, b: string)
    requires Space(c)
    ensures PlainWords(a + [c] + b) == PlainWords(a) + PlainWords(b)
  {
    hide Kept, Runs;
    LowerApart(a, c, b);
    KeptAppend(Lower(a) + [LowerChar(c)], Lower(b));
    KeptAppend(Lower(a), [LowerChar(c)]);
    KeptOne(LowerChar(c));
    RunsApart(Kept(Lower(a)), LowerChar(c), Kept(Lower(b)), NotSpace, 0);
  }

  /** Punctuation disappears without separating anything. */
  lemma PunctuationDropped(a: string, c: char, b: string)
    requires !WordChar(c) && !Space(c)
    ensures PlainWords(a + [c] + b) == PlainWords(a + b)
  {
    hide Kept, Runs;
    LowerApart(a, c, b);
    KeptAppend(Lower(a) + [LowerChar(c)], Lower(b));
    KeptAppend(Lower(a), [LowerChar(c)]);
    KeptOne(LowerChar(c));
    KeptAppend(Lower(a), Lower(b));
    assert Kept(Lower(a) + [LowerChar(c)]) == Kept(Lower(a));
    assert Lower(a + b) == Lower(a) + Lower(b);
  }

  lemma {:induction false} KeptWhole(w: string)
    requires forall c | c in w :: WordChar(c)
    ensures Kept(w) == w
  {
    if w != "" {
      assert w[0] in w;
      KeptWhole(w[1..]);
    }
  }

  /** A word stands in lower case, whatever its length. */
  lemma PlainWordAlone(w: string)
    requires forall c | c in w :: WordChar(c)
    ensures PlainWords(w) == if w == "" then [] else [Lower(w)]
  {
    forall c | c in Lower(w) ensures WordChar(c) && NotSpace(c) {
      var i :| 0 <= i < |w| && Lower(w)[i] == c;
      assert w[i] in w;
    }
    KeptWhole(Lower(w));
    RunAlone(Lower(w), NotSpace, 0);
  }

  /** The windows among the first `k` of `a` that `b` has too, each once, by first appearance. */
  function Common(a: seq<string>, b: seq<string>, n: nat, k: nat): seq<string>
    requires k > 0 ==> k - 1 + n <= |a|
  {
    if k == 0 then []
    else
      var before, phrase := Common(a, b, n, k - 1), Window(a, k - 1, n);
      if IsWindow(b, n, phrase) && phrase !in before then before + [phrase] else before
  }

  lemma {:induction false} CommonMembers(a: seq<string>, b: seq<string>, n: nat, k: nat)
    requires k > 0 ==> k - 1 + n <= |a|
    ensures Distinct(Common(a, b, n, k))
    ensures forall p :: p in Common(a, b, n, k) <==> IsWindow(b, n, p) && exists i :: 0 <= i < k && Window(a, i, n) == p
  {
    hide Window, IsWindow;
    if k > 0 { CommonMembers(a, b, n, k - 1); }
  }

  /** `p` occurs in `a` before `q` does for the first time. */
  ghost predicate Before(a: seq<string>, n: nat, p: string, q: string) {
    exists x :: 0 <= x <= |a| - n && Window(a, x, n) == p && forall y | 0 <= y <= x :: Window(a, y, n) != q
  }

  lemma {:induction false} CommonInOrder(a: seq<string>, b: seq<string>, n: nat, k: nat)
    requires k > 0 ==> k - 1 + n <= |a|
    ensures var r := Common(a, b, n, k);
            forall i, j :: 0 <= i < j < |r| ==> Before(a, n, r[i], r[j])
  {
    hide Window, IsWindow, Before;
    if k > 0 {
      CommonInOrder(a, b, n, k - 1);
      var before, phrase := Common(a, b, n, k - 1), Window(a, k - 1, n);
      CommonMembers(a, b, n, k - 1);
      if IsWindow(b, n, phrase) && phrase !in before {
        forall i | 0 <= i < |before| ensures Before(a, n, before[i], phrase) {
          assert before[i] in before;
          NewAfter(a, n, before[i], phrase, k - 1);
        }
      }
    }
  }

  lemma NewAfter(a: seq<string>, n: nat, p: string, q: string, k: nat)
    requires k + n <= |a| && (forall i | 0 <= i < k :: Window(a, i, n) != q)
    requires exists i :: 0 <= i < k && Window(a, i, n) == p
    ensures Before(a, n, p, q)
  {
    hide Window;
  }

  function FirstFive(phrases: seq<string>): seq<string> {
    if |phrases| <= 5 then phrases else phrases[..5]
  }

  function Phrases(textA: string, textB: string, minWords: nat): seq<string> {
    var a, b := PlainWords(textA), PlainWords(textB);
    if |a| < minWords || |b| < minWords then [] else FirstFive(Common(a, b, minWords, |a| - minWords + 1))
  }

  method ExtractVerbatimMatches(textA: string, textB: string, minWords: nat := 4) returns (phrases: seq<string>)
    ensures phrases == Phrases(textA, textB, minWords)
  {
    hide PlainWords, Window;
    var wordsA, wordsB := PlainWords(textA), PlainWords(textB);
    if |wordsA| < minWords || |wordsB| < minWords {
      return [];
    }
    var windowsB: set<string> := {};
    var j := 0;
    while j <= |wordsB| - minWords
      invariant 0 <= j <= |wordsB| - minWords + 1
      invariant forall p :: p in windowsB <==> exists i :: 0 <= i < j && Window(wordsB, i, minWords) == p
    {
      windowsB := windowsB + {Window(wordsB, j, minWords)};
      j := j + 1;
    }
    assert forall p :: p in windowsB <==> IsWindow(wordsB, minWords, p);
    hide IsWindow;
    var matches: seq<string> := [];
    var i := 0;
    while i <= |wordsA| - minWords
      invariant 0 <= i <= |wordsA| - minWords + 1
      invariant matches == Common(wordsA, wordsB, minWords, i)
    {
      var shingle := Window(wordsA, i, minWords);
      if shingle in windowsB && shingle !in matches {
        matches := matches + [shingle];
      }
      i := i + 1;
    }
    return FirstFive(matches);
  }

  /** The sample phrases are windows of both texts, none twice; when there are fewer than five, none is
      missing. */
  lemma PhrasesAreShared(textA: string, textB: string, minWords: nat)
    ensures var a, b, r := PlainWords(textA), PlainWords(textB), Phrases(textA, textB, minWords);
            && |r| <= 5 && Distinct(r)
            && (forall p | p in r :: IsWindow(a, minWords, p) && IsWindow(b, minWords, p))
            && (|r| < 5 ==> forall p | IsWindow(a, minWords, p) && IsWindow(b, minWords, p) :: p in r)
  {
    var a, b := PlainWords(textA), PlainWords(textB);
    if |a| >= minWords && |b| >= minWords {
      CommonMembers(a, b, minWords, |a| - minWords + 1);
      var r := Common(a, b, minWords, |a| - minWords + 1);
      assert forall p | p in FirstFive(r) :: p in r;
    }
    hide PlainWords, Window, Common;
  }

  /** They are the first that both texts share, in the order in which the first text has them. */
  lemma PhrasesInOrder(textA: string, textB: string, minWords: nat)
    ensures var a, b, r := PlainWords(textA), PlainWords(textB), Phrases(textA, textB, minWords);
            && (forall i, j :: 0 <= i < j < |r| ==> Before(a, minWords, r[i], r[j]))
            && forall p | IsWindow(a, minWords, p) && IsWindow(b, minWords, p) && p !in r ::
                 |r| == 5 && forall i | 0 <= i < 5 :: Before(a, minWords, r[i], p)
  {
    var a, b := PlainWords(textA), PlainWords(textB);
    if |a| >= minWords && |b| >= minWords {
      var all := Common(a, b, minWords, |a| - minWords + 1);
      CommonMembers(a, b, minWords, |a| - minWords + 1);
      CommonInOrder(a, b, minWords, |a| - minWords + 1);
      var r := FirstFive(all);
      hide PlainWords, Common, Before;
      forall p | IsWindow(a, minWords, p) && IsWindow(b, minWords, p) && p !in r
        ensures |r| == 5 && forall i | 0 <= i < 5 :: Before(a, minWords, r[i], p)
      {
        assert p in all;
        var j :| 0 <= j < |all| && all[j] == p;
        assert j >= 5;
      }
    }
    hide PlainWords, Window, Common, Before;
  }
}
