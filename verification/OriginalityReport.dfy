/** The originality report of a submission against the other submissions of the class. */
module OriginalityReport {
  import opened Wrappers
  import opened Text
  import opened Characters
  import opened Similarity

  const ENOUGH_WORDS: nat := 10
  const PHRASE_WORDS: nat := 4

  datatype Peer = Peer(id: Option<string>, submissionId: Option<string>, studentId: string, studentName: Option<string>,
                       content: string)

  datatype Match = Match(submissionId: string, studentId: string, studentName: Option<string>, score: nat,
                         phrases: seq<string>)

  datatype Status = CLEAN | ACCEPTABLE | MODERATE_SIMILARITY | HIGH_SIMILARITY | FLAGGED_PLAGIARISM

  datatype Report = Report(score: nat, status: Status, isPlagiarized: bool, matches: seq<Match>, wordCount: nat)

  // ----- Matching peers -----

  /** Another student's non-empty submission with noticeable similarity. */
  predicate Counts(text: string, student: string, peer: Peer) {
    peer.studentId != student && peer.content != "" && Score(text, peer.content) >= NOTICEABLE
  }

  function Named(id: Option<string>): bool {
    id.Some? && id.value != ""
  }

  function MatchOf(text: string, peer: Peer): Match {
    Match(if Named(peer.id) then peer.id.value
          else if Named(peer.submissionId) then peer.submissionId.value else "peer",
          peer.studentId, peer.studentName, Score(text, peer.content), Phrases(text, peer.content, PHRASE_WORDS))
  }

  function Matches(text: string, student: string, peers: seq<Peer>): seq<Match> {
    if peers == [] then []
    else
      var last := peers[|peers| - 1];
      Matches(text, student, peers[..|peers| - 1]) + if Counts(text, student, last) then [MatchOf(text, last)] else []
  }

  function Highest(matches: seq<Match>): nat {
    if matches == [] then 0
    else
      var rest, last := Highest(matches[..|matches| - 1]), matches[|matches| - 1].score;
      if last > rest then last else rest
  }

  lemma {:induction false} HighestIsMaximum(matches: seq<Match>)
    ensures forall m | m in matches :: m.score <= Highest(matches)
    ensures matches != [] ==> exists m :: m in matches && m.score == Highest(matches)
  {
    if matches != [] {
      var n := |matches| - 1;
      HighestIsMaximum(matches[..n]);
      assert matches == matches[..n] + [matches[n]];
      assert matches[n] in matches;
      if n > 0 && Highest(matches) != matches[n].score {
        var m :| m in matches[..n] && m.score == Highest(matches[..n]);
        assert m in matches;
      }
    }
  }

  // ----- Sorting by falling score -----

  /** Equal scores keep their order. */
  function Place(m: Match, sorted: seq<Match>): (r: seq<Match>)
    ensures multiset(r) == multiset(sorted) + multiset{m}
  {
    if sorted == [] then [m]
    else
      var n := |sorted| - 1;
      assert sorted == sorted[..n] + [sorted[n]];
      if sorted[n].score >= m.score then sorted + [m] else Place(m, sorted[..n]) + [sorted[n]]
  }

  function SortFalling(matches: seq<Match>): (r: seq<Match>)
    ensures multiset(r) == multiset(matches)
  {
    if matches == [] then []
    else
      var n := |matches| - 1;
      assert matches == matches[..n] + [matches[n]];
      Place(matches[n], SortFalling(matches[..n]))
  }

  ghost predicate Falling(matches: seq<Match>) {
    forall i, j :: 0 <= i < j < |matches| ==> matches[i].score >= matches[j].score
  }

  lemma {:induction false} PlaceFalls(m: Match, sorted: seq<Match>)
    requires Falling(sorted)
    ensures Falling(Place(m, sorted))
  {
    if sorted != [] {
      var n := |sorted| - 1;
      if sorted[n].score < m.score {
        PlaceFalls(m, sorted[..n]);
        PlacedAbove(m, sorted[..n], sorted[n].score);
        FallsThen(Place(m, sorted[..n]), sorted[n]);
      } else {
        FallsThen(sorted, m);
      }
    }
  }

  lemma PlacedAbove(m: Match, sorted: seq<Match>, score: nat)
    requires m.score >= score && forall x | x in sorted :: x.score >= score
    ensures forall x | x in Place(m, sorted) :: x.score >= score
  {
    forall x | x in Place(m, sorted) ensures x.score >= score {
      assert x in multiset(Place(m, sorted));
      assert x == m || x in multiset(sorted);
    }
    hide Place;
  }

  lemma FallsThen(above: seq<Match>, last: Match)
    requires Falling(above) && forall x | x in above :: x.score >= last.score
    ensures Falling(above + [last])
  {
  }

  /** The listed matches are those found, in order of falling score, so the first has the highest. */
  lemma {:induction false} SortedFalls(matches: seq<Match>)
    ensures Falling(SortFalling(matches))
    ensures |SortFalling(matches)| == |matches|
    ensures matches != [] ==> SortFalling(matches)[0].score == Highest(matches)
  {
    SortFallingFalls(matches);
    var r := SortFalling(matches);
    assert |multiset(r)| == |multiset(matches)|;
    if matches != [] {
      HighestIsMaximum(matches);
      var m :| m in matches && m.score == Highest(matches);
      assert m in multiset(r) && r[0] in multiset(matches);
      var i :| 0 <= i < |r| && r[i] == m;
    }
  }

  lemma {:induction false} SortFallingFalls(matches: seq<Match>)
    ensures Falling(SortFalling(matches))
  {
    if matches != [] {
      SortFallingFalls(matches[..|matches| - 1]);
      PlaceFalls(matches[|matches| - 1], SortFalling(matches[..|matches| - 1]));
    }
  }

  // ----- The report -----

  method CheckPeerCollisions(text: string, student: string, peers: seq<Peer>)
    returns (highestScore: nat, peerMatches: seq<Match>)
    ensures highestScore == Highest(Matches(text, student, peers))
    ensures peerMatches == SortFalling(Matches(text, student, peers))
  {
    hide SortFalling, Score, Phrases, Matches, Highest;
    NoMatches(text, student);
    var found: seq<Match> := [];
    highestScore := 0;
    var i := 0;
    while i < |peers|
      invariant i <= |peers|
      invariant found == Matches(text, student, peers[..i])
      invariant highestScore == Highest(found)
    {
      var peer := peers[i];
      MatchesTurn(text, student, peers, i);
      i := i + 1;
      if peer.studentId == student || peer.content == "" {
        continue;
      }
      var score := CalculateSimilarity(text, peer.content);
      if score >= NOTICEABLE {
        var phrases := ExtractVerbatimMatches(text, peer.content);
        var name := if Named(peer.id) then peer.id.value
                    else if Named(peer.submissionId) then peer.submissionId.value else "peer";
        HighestTurn(found, Match(name, peer.studentId, peer.studentName, score, phrases));
        found := found + [Match(name, peer.studentId, peer.studentName, score, phrases)];
        if score > highestScore {
          highestScore := score;
        }
      }
    }
    assert peers[..i] == peers;
    peerMatches := SortFalling(found);
  }

  lemma NoMatches(text: string, student: string)
    ensures Matches(text, student, []) == [] && Highest([]) == 0
  {
  }

  lemma MatchesTurn(text: string, student: string, peers: seq<Peer>, i: nat)
    requires i < |peers|
    ensures var more := if Counts(text, student, peers[i]) then [MatchOf(text, peers[i])] else [];
            Matches(text, student, peers[..i + 1]) == Matches(text, student, peers[..i]) + more
  {
    hide Counts, MatchOf;
    assert peers[..i + 1][..i] == peers[..i];
  }

  lemma HighestTurn(matches: seq<Match>, m: Match)
    ensures Highest(matches + [m]) == if m.score > Highest(matches) then m.score else Highest(matches)
  {
    assert (matches + [m])[..|matches|] == matches;
  }

  function WordCount(content: string): nat {
    |Runs(content, NotSpace, 0)|
  }

  function StatusOf(highest: nat): Status {
    if highest >= 5_000 then FLAGGED_PLAGIARISM
    else if highest >= 3_500 then HIGH_SIMILARITY
    else if highest >= 2_000 then MODERATE_SIMILARITY
    else if highest > 0 then ACCEPTABLE
    else CLEAN
  }

  function Originality(content: string, student: string, peers: seq<Peer>): Report {
    if WordCount(content) < ENOUGH_WORDS then Report(0, CLEAN, false, [], WordCount(content))
    else
      var matches := Matches(content, student, peers);
      var highest := Highest(matches);
      Report(highest, StatusOf(highest), highest >= 3_500, SortFalling(matches), WordCount(content))
  }

  method GenerateOriginalityReport(content: string, student: string, peers: seq<Peer>) returns (report: Report)
    ensures report == Originality(content, student, peers)
  {
    hide WordCount, Matches, SortFalling, Highest;
    var wordCount := WordCount(content);
    if wordCount < ENOUGH_WORDS {
      return Report(0, CLEAN, false, [], wordCount);
    }
    var highestScore, peerMatches := CheckPeerCollisions(content, student, peers);
    var status, isPlagiarized := CLEAN, false;
    if highestScore >= 5_000 {
      status, isPlagiarized := FLAGGED_PLAGIARISM, true;
    } else if highestScore >= 3_500 {
      status, isPlagiarized := HIGH_SIMILARITY, true;
    } else if highestScore >= 2_000 {
      status := MODERATE_SIMILARITY;
    } else if highestScore > 0 {
      status := ACCEPTABLE;
    }
    return Report(highestScore, status, isPlagiarized, peerMatches, wordCount);
  }

  // ----- What the report promises -----

  lemma {:induction false} MatchesMembers(text: string, student: string, peers: seq<Peer>, m: Match)
    ensures m in Matches(text, student, peers) <==>
              exists p :: p in peers && Counts(text, student, p) && m == MatchOf(text, p)
  {
    hide Counts, MatchOf;
    if peers != [] {
      var n := |peers| - 1;
      MatchesMembers(text, student, peers[..n], m);
      assert peers == peers[..n] + [peers[n]];
      assert peers[n] in peers;
      if p :| p in peers && Counts(text, student, p) && m == MatchOf(text, p) {
        assert p in peers[..n] || p == peers[n];
      }
      if q :| q in peers[..n] && Counts(text, student, q) && m == MatchOf(text, q) {
        assert q in peers;
      }
    }
  }

  lemma {:induction false} MatchesOfPart(text: string, student: string, p: seq<Peer>, q: seq<Peer>)
    ensures Matches(text, student, p + q) == Matches(text, student, p) + Matches(text, student, q)
  {
    hide Counts, MatchOf;
    if q == [] {
      assert p + q == p;
    } else {
      var n := |q| - 1;
      assert (p + q)[..|p + q| - 1] == p + q[..n];
      MatchesOfPart(text, student, p, q[..n]);
    }
  }

  /** Peers given in another order yield the same matches. */
  lemma {:induction false} MatchesForgetOrder(text: string, student: string, p: seq<Peer>, q: seq<Peer>)
    requires multiset(p) == multiset(q)
    ensures multiset(Matches(text, student, p)) == multiset(Matches(text, student, q))
    decreases |p|
  {
    hide Counts, MatchOf, Matches;
    if p == [] {
      assert |multiset(q)| == 0;
    } else {
      var n := |p| - 1;
      var k := Elsewhere(p, q);
      MatchesForgetOrder(text, student, p[..n], Without(q, k));
      MatchesWithout(text, student, p, n);
      MatchesWithout(text, student, q, k);
      assert Without(p, n) == p[..n];
    }
  }

  lemma Elsewhere<T>(p: seq<T>, q: seq<T>) returns (k: nat)
    requires multiset(p) == multiset(q) && p != []
    ensures k < |q| && q[k] == p[|p| - 1] && multiset(Without(q, k)) == multiset(p[..|p| - 1])
  {
    var n := |p| - 1;
    Apart(p, n);
    assert Without(p, n) == p[..n];
    assert p[n] in multiset(q);
    k :| 0 <= k < |q| && q[k] == p[n];
    Apart(q, k);
  }

  lemma Apart<T>(q: seq<T>, k: nat)
    requires k < |q|
    ensures multiset(Without(q, k)) == multiset(q) - multiset{q[k]}
    ensures q[k] in multiset(q)
  {
    assert q == q[..k] + [q[k]] + q[k + 1..];
  }

  lemma MatchesWithout(text: string, student: string, q: seq<Peer>, k: nat)
    requires k < |q|
    ensures multiset(Matches(text, student, q))
         == multiset(Matches(text, student, Without(q, k))) + multiset(Matches(text, student, [q[k]]))
  {
    hide Matches;
    assert q == q[..k] + [q[k]] + q[k + 1..];
    MatchesOfPart(text, student, q[..k], q[k + 1..]);
    MatchesOfPart(text, student, q[..k] + [q[k]], q[k + 1..]);
    MatchesOfPart(text, student, q[..k], [q[k]]);
  }

  lemma HighestOfMore(small: seq<Match>, large: seq<Match>)
    requires forall m | m in small :: m in large
    ensures Highest(small) <= Highest(large)
  {
    HighestIsMaximum(small);
    HighestIsMaximum(large);
  }

  function Rank(s: Status): nat {
    match s
    case CLEAN => 0
    case ACCEPTABLE => 1
    case MODERATE_SIMILARITY => 2
    case HIGH_SIMILARITY => 3
    case FLAGGED_PLAGIARISM => 4
  }

  /** The order of the peers changes neither score nor status, and only ties can change places in the
      list of matches. */
  lemma OrderIrrelevant(content: string, student: string, p: seq<Peer>, q: seq<Peer>)
    requires multiset(p) == multiset(q)
    ensures var a, b := Originality(content, student, p), Originality(content, student, q);
            && a.score == b.score && a.status == b.status && a.isPlagiarized == b.isPlagiarized
            && a.wordCount == b.wordCount && multiset(a.matches) == multiset(b.matches)
  {
    var a, b := Matches(content, student, p), Matches(content, student, q);
    MatchesForgetOrder(content, student, p, q);
    forall m ensures m in a <==> m in b {
      assert m in multiset(a) <==> m in multiset(b);
    }
    HighestOfMore(a, b);
    HighestOfMore(b, a);
    hide Matches, Highest, WordCount;
  }

  /** More peers never lower the score or the status. */
  lemma MorePeersNeverLower(content: string, student: string, p: seq<Peer>, q: seq<Peer>)
    requires forall x | x in p :: x in q
    ensures var a, b := Originality(content, student, p), Originality(content, student, q);
            a.score <= b.score && Rank(a.status) <= Rank(b.status) && (a.isPlagiarized ==> b.isPlagiarized)
  {
    hide Matches, Highest, WordCount, SortFalling, Counts, MatchOf;
    var a, b := Matches(content, student, p), Matches(content, student, q);
    forall m | m in a ensures m in b {
      MatchesMembers(content, student, p, m);
      MatchesMembers(content, student, q, m);
    }
    HighestOfMore(a, b);
  }

  /** A submission is reported as plagiarised exactly if it has at least ten words and some other student's
      submission scores at least 35 percent. */
  lemma PlagiarizedIff(content: string, student: string, peers: seq<Peer>)
    ensures Originality(content, student, peers).isPlagiarized <==>
              && WordCount(content) >= 10
              && exists p :: p in peers && p.studentId != student && p.content != ""
                             && Score(content, p.content) >= 3_500
  {
    var matches := Matches(content, student, peers);
    HighestIsMaximum(matches);
    hide Matches, WordCount, SortFalling, Score;
    if p :| p in peers && p.studentId != student && p.content != "" && Score(content, p.content) >= 3_500 {
      MatchesMembers(content, student, peers, MatchOf(content, p));
      assert Counts(content, student, p) && MatchOf(content, p) in matches;
    }
    if m :| m in matches && m.score >= 3_500 {
      MatchesMembers(content, student, peers, m);
      var p :| p in peers && Counts(content, student, p) && m == MatchOf(content, p);
      assert Score(content, p.content) >= 3_500;
    }
  }

  // ----- The report from the submissions alone -----

  /** White space separates the words that are counted. */
  lemma WordsApart(a: string, c: char, b: string)
    requires Space(c)
    ensures WordCount(a + [c] + b) == WordCount(a) + WordCount(b)
  {
    RunsApart(a, c, b, NotSpace, 0);
    hide Runs;
  }

  lemma WordAlone(w: string)
    requires forall c | c in w :: !Space(c)
    ensures WordCount(w) == if w == "" then 0 else 1
  {
    RunAlone(w, NotSpace, 0);
    hide Runs;
  }

  /** Another student's submission scores at least `bound`. */
  ghost predicate Reaches(content: string, student: string, peers: seq<Peer>, bound: nat) {
    exists p :: p in peers && p.studentId != student && p.content != "" && Score(content, p.content) >= bound
  }

  lemma ReachesIff(content: string, student: string, peers: seq<Peer>, bound: nat)
    requires bound >= 1_500
    ensures Highest(Matches(content, student, peers)) >= bound <==> Reaches(content, student, peers, bound)
  {
    var matches := Matches(content, student, peers);
    HighestIsMaximum(matches);
    hide Matches, Score, Phrases;
    if p :| p in peers && p.studentId != student && p.content != "" && Score(content, p.content) >= bound {
      MatchesMembers(content, student, peers, MatchOf(content, p));
    }
    if m :| m in matches && m.score >= bound {
      MatchesMembers(content, student, peers, m);
    }
  }

  lemma HighestOrNone(content: string, student: string, peers: seq<Peer>)
    ensures var h := Highest(Matches(content, student, peers)); h == 0 || h >= 1_500
  {
    var matches := Matches(content, student, peers);
    HighestIsMaximum(matches);
    hide Score, Phrases;
    if matches != [] {
      hide Matches;
      var m :| m in matches && m.score == Highest(matches);
      MatchesMembers(content, student, peers, m);
    }
  }

  /** The status of a submission of ten words or more by the best score: from 50, 35, 20 and 15 percent on. A
      shorter one is clean. */
  lemma StatusIff(content: string, student: string, peers: seq<Peer>)
    ensures var status, long := Originality(content, student, peers).status, WordCount(content) >= 10;
            && (status == FLAGGED_PLAGIARISM <==> long && Reaches(content, student, peers, 5_000))
            && (status == FLAGGED_PLAGIARISM || status == HIGH_SIMILARITY <==>
                  long && Reaches(content, student, peers, 3_500))
            && (status == CLEAN || status == ACCEPTABLE <==> !long || !Reaches(content, student, peers, 2_000))
            && (status == CLEAN <==> !long || !Reaches(content, student, peers, 1_500))
  {
    ReachesIff(content, student, peers, 5_000);
    ReachesIff(content, student, peers, 3_500);
    ReachesIff(content, student, peers, 2_000);
    ReachesIff(content, student, peers, 1_500);
    HighestOrNone(content, student, peers);
    var highest := Highest(Matches(content, student, peers));
    StatusSteps(highest);
    hide Reaches, Highest, Matches, WordCount, SortFalling, StatusOf;
    assert WordCount(content) >= 10 ==> Originality(content, student, peers).status == StatusOf(highest);
    assert WordCount(content) < 10 ==> Originality(content, student, peers).status == CLEAN;
  }

  lemma StatusSteps(h: nat)
    requires h == 0 || h >= 1_500
    ensures StatusOf(h) == FLAGGED_PLAGIARISM <==> h >= 5_000
    ensures StatusOf(h) == FLAGGED_PLAGIARISM || StatusOf(h) == HIGH_SIMILARITY <==> h >= 3_500
    ensures StatusOf(h) == CLEAN || StatusOf(h) == ACCEPTABLE <==> h < 2_000
    ensures StatusOf(h) == CLEAN <==> h < 1_500
  {
  }

  /** A listed match tells of this submission of another student. */
  ghost predicate TellsOf(m: Match, content: string, p: Peer) {
    && m.studentId == p.studentId && m.studentName == p.studentName
    && m.score == Score(content, p.content) && m.phrases == Phrases(content, p.content, 4)
    && (p.id.Some? && p.id.value != "" ==> m.submissionId == p.id.value)
    && ((p.id.None? || p.id.value == "") && p.submissionId.Some? && p.submissionId.value != "" ==>
          m.submissionId == p.submissionId.value)
    && ((p.id.None? || p.id.value == "") && (p.submissionId.None? || p.submissionId.value == "") ==>
          m.submissionId == "peer")
  }

  lemma TellsOfIff(m: Match, content: string, p: Peer)
    ensures m == MatchOf(content, p) <==> TellsOf(m, content, p)
  {
    hide Score, Phrases;
  }

  /** A submission of ten words or more has a match listed exactly for every other student's submission that
      scores at least 15 percent, once for each; its score is that of the first in the list. */
  lemma ListedIff(content: string, student: string, peers: seq<Peer>, m: Match)
    ensures var r := Originality(content, student, peers);
            && (m in r.matches <==>
                  && WordCount(content) >= 10
                  && exists p | p in peers :: p.studentId != student && p.content != ""
                                              && Score(content, p.content) >= 1_500 && TellsOf(m, content, p))
            && r.score == if r.matches == [] then 0 else r.matches[0].score
  {
    var matches := Matches(content, student, peers);
    SortedFalls(matches);
    HighestIsMaximum(matches);
    MatchesMembers(content, student, peers, m);
    assert m in SortFalling(matches) <==> m in matches by {
      assert m in multiset(SortFalling(matches)) <==> m in multiset(matches);
    }
    forall p ensures m == MatchOf(content, p) <==> TellsOf(m, content, p) { TellsOfIff(m, content, p); }
    hide Matches, WordCount, SortFalling, Score, Phrases, MatchOf, TellsOf;
  }

  /** One submission yields at most one match. */
  lemma OneMatch(content: string, student: string, p: Peer)
    ensures |Matches(content, student, [p])| ==
            if p.studentId != student && p.content != "" && Score(content, p.content) >= 1_500 then 1 else 0
  {
    assert [p][..0] == [];
    hide Score, MatchOf;
  }

  /** The matches with a given score. */
  function WithScore(matches: seq<Match>, score: nat): seq<Match> {
    if matches == [] then []
    else
      var n := |matches| - 1;
      WithScore(matches[..n], score) + if matches[n].score == score then [matches[n]] else []
  }

  lemma WithScoreTurn(matches: seq<Match>, m: Match, score: nat)
    ensures WithScore(matches + [m], score) == WithScore(matches, score) + if m.score == score then [m] else []
  {
    assert (matches + [m])[..|matches|] == matches;
  }

  lemma {:induction false} PlaceKeepsTies(m: Match, sorted: seq<Match>, score: nat)
    ensures WithScore(Place(m, sorted), score) == WithScore(sorted + [m], score)
  {
    hide WithScore;
    if sorted == [] {
      assert [] + [m] == [m];
    } else {
      var n := |sorted| - 1;
      var above, last := sorted[..n], sorted[n];
      assert sorted == above + [last];
      if last.score < m.score {
        PlaceKeepsTies(m, above, score);
        hide Place;
        WithScoreTurn(above, m, score);
        WithScoreTurn(Place(m, above), last, score);
        WithScoreTurn(above, last, score);
        WithScoreTurn(above + [last], m, score);
      }
    }
  }

  lemma SortTurn(matches: seq<Match>, m: Match)
    ensures SortFalling(matches + [m]) == Place(m, SortFalling(matches))
  {
    assert (matches + [m])[..|matches|] == matches;
    hide Place;
  }

  /** Matches with the same score stay in the order of the peers. */
  lemma {:induction false} TiesKeepOrder(matches: seq<Match>, score: nat)
    ensures WithScore(SortFalling(matches), score) == WithScore(matches, score)
  {
    if matches != [] {
      hide *;
      var n := |matches| - 1;
      var above, last := matches[..n], matches[n];
      assert matches == above + [last];
      TiesKeepOrder(above, score);
      SortTurn(above, last);
      PlaceKeepsTies(last, SortFalling(above), score);
      WithScoreTurn(SortFalling(above), last, score);
      WithScoreTurn(above, last, score);
    }
  }
}
