/**
 * The decisions taken by the poll views: which questions the index page
 * lists, which questions the detail page can show, and what a vote
 * submission does to the choice counters.
 *
 * A table of questions is a sequence of rows in storage order.
 */
module Views {
  import opened Models

  /** The index page lists at most this many questions. */
  const IndexLimit: nat := 5

  // ---------------------------------------------------------------------
  // Filtering: the `pub_date <= now` restriction shared by both querysets

  /** The published rows of a table, in table order, each with its multiplicity. */
  function Published(qs: seq<Question>, now: int): (r: seq<Question>)
    ensures |r| <= |qs|
    ensures forall q :: q in r <==> q in qs && IsPublished(q, now)
    ensures forall q :: multiset(r)[q] == if IsPublished(q, now) then multiset(qs)[q] else 0
  {
    if qs == [] then []
    else
      var rest := Published(qs[1..], now);
      assert qs == [qs[0]] + qs[1..];
      if IsPublished(qs[0], now) then [qs[0]] + rest else rest
  }

  // ---------------------------------------------------------------------
  // Ordering: `order_by('-pub_date')`

  /** Newest first: publication dates never increase along the sequence. */
  ghost predicate SortedDesc(s: seq<Question>)
  {
    forall i, j :: 0 <= i < j < |s| ==> s[i].pubDate >= s[j].pubDate
  }

  /** A row no older than the head of a newest-first sequence may be put in front of it. */
  lemma ConsSorted(x: Question, t: seq<Question>)
    requires SortedDesc(t)
    requires |t| > 0 ==> x.pubDate >= t[0].pubDate
    ensures SortedDesc([x] + t)
  {
    var r := [x] + t;
    forall i, j | 0 <= i < j < |r|
      ensures r[i].pubDate >= r[j].pubDate
    {
      if i == 0 {
        assert r[j] == t[j - 1];
        assert t[0].pubDate >= t[j - 1].pubDate;
      } else {
        assert r[i] == t[i - 1] && r[j] == t[j - 1];
      }
    }
  }

  /** Puts `q` before the first row that is strictly older than it. */
  function Insert(q: Question, s: seq<Question>): (r: seq<Question>)
    requires SortedDesc(s)
    ensures |r| == |s| + 1
    ensures r[0] == q || (|s| > 0 && r[0] == s[0])
    ensures SortedDesc(r)
    ensures multiset(r) == multiset(s) + multiset{q}
  {
    if s == [] then [q]
    else if q.pubDate >= s[0].pubDate then
      ConsSorted(q, s);
      [q] + s
    else
      var tail := Insert(q, s[1..]);
      assert s == [s[0]] + s[1..];
      assert SortedDesc(s[1..]) by {
        forall i, j | 0 <= i < j < |s[1..]| ensures s[1..][i].pubDate >= s[1..][j].pubDate {
          assert s[1..][i] == s[i + 1] && s[1..][j] == s[j + 1];
        }
      }
      ConsSorted(s[0], tail);
      [s[0]] + tail
  }

  /** The rows ordered newest first; rows with equal dates keep table order. */
  function SortByPubDateDesc(s: seq<Question>): (r: seq<Question>)
    ensures SortedDesc(r)
    ensures multiset(r) == multiset(s)
  {
    if s == [] then []
    else
      assert s == [s[0]] + s[1..];
      Insert(s[0], SortByPubDateDesc(s[1..]))
  }

  // ---------------------------------------------------------------------
  // IndexView.get_queryset

  function Min(a: int, b: int): int { if a <= b then a else b }

  /** Cutting a sequence in two splits its multiset; a prefix of a sorted sequence is sorted. */
  lemma SplitAt(s: seq<Question>, k: nat)
    requires k <= |s|
    ensures multiset(s) == multiset(s[..k]) + multiset(s[k..])
    ensures SortedDesc(s) ==> SortedDesc(s[..k])
  {
    assert s == s[..k] + s[k..];
  }

  /** What a prefix leaves out of a sequence is found in the rest of it. */
  lemma LeftOutOfPrefix(s: seq<Question>, k: nat, x: Question) returns (j: nat)
    requires k <= |s|
    requires x in multiset(s) - multiset(s[..k])
    ensures k <= j < |s| && s[j] == x
  {
    SplitAt(s, k);
    assert multiset(s) - multiset(s[..k]) == multiset(s[k..]);
    assert x in s[k..];
    var d :| 0 <= d < |s[k..]| && s[k..][d] == x;
    j := k + d;
  }

  /** In a newest-first sequence, whatever a prefix leaves out is no newer than what it keeps. */
  lemma PrefixKeepsNewest(s: seq<Question>, k: nat)
    requires SortedDesc(s) && k <= |s|
    ensures forall o, x :: o in multiset(s) - multiset(s[..k]) && x in s[..k] ==> o.pubDate <= x.pubDate
  {
    forall o, x | o in multiset(s) - multiset(s[..k]) && x in s[..k]
      ensures o.pubDate <= x.pubDate
    {
      var j := LeftOutOfPrefix(s, k, o);
      var i :| 0 <= i < k && s[..k][i] == x;
      assert s[i] == x;
    }
  }

  /** `sorted` holds exactly the published rows of `qs`, each with its multiplicity, newest first. */
  ghost predicate SortedPublished(qs: seq<Question>, now: int, sorted: seq<Question>)
  {
    && SortedDesc(sorted)
    && forall q :: multiset(sorted)[q] == if IsPublished(q, now) then multiset(qs)[q] else 0
  }

  /** A prefix of the sorted published rows holds only published rows of the table. */
  lemma PrefixIsPublished(qs: seq<Question>, now: int, sorted: seq<Question>, k: nat)
    requires SortedPublished(qs, now, sorted) && k <= |sorted|
    ensures forall q :: q in sorted[..k] ==> q in qs && IsPublished(q, now)
    ensures multiset(sorted[..k]) <= multiset(qs)
  {
    SplitAt(sorted, k);
    forall q | q in sorted[..k]
      ensures q in qs && IsPublished(q, now)
    {
      assert q in multiset(sorted);
    }
  }

  /** A row that a prefix of the sorted published rows under-counts is no newer than its rows. */
  lemma PrefixOmitsOlder(qs: seq<Question>, now: int, sorted: seq<Question>, k: nat)
    requires SortedPublished(qs, now, sorted) && k <= |sorted|
    ensures forall o, x :: IsPublished(o, now) && multiset(sorted[..k])[o] < multiset(qs)[o] && x in sorted[..k]
              ==> o.pubDate <= x.pubDate
  {
    PrefixKeepsNewest(sorted, k);
    forall o, x | IsPublished(o, now) && multiset(sorted[..k])[o] < multiset(qs)[o] && x in sorted[..k]
      ensures o.pubDate <= x.pubDate
    {
      assert o in multiset(sorted) - multiset(sorted[..k]);
    }
  }

  /** The facts about the first `k` rows of the sorted published rows that the index promises. */
  lemma NewestPublishedPrefix(qs: seq<Question>, now: int, k: nat)
    requires k <= |Published(qs, now)|
    ensures var r := SortByPubDateDesc(Published(qs, now))[..k];
            && (forall q :: q in r ==> q in qs && IsPublished(q, now))
            && multiset(r) <= multiset(qs)
            && SortedDesc(r)
            && (k == |Published(qs, now)| ==>
                  forall q :: IsPublished(q, now) ==> multiset(r)[q] == multiset(qs)[q])
            && (forall o, x :: IsPublished(o, now) && multiset(r)[o] < multiset(qs)[o] && x in r
                  ==> o.pubDate <= x.pubDate)
  {
    var sorted := SortByPubDateDesc(Published(qs, now));
    assert SortedPublished(qs, now, sorted);
    SplitAt(sorted, k);
    PrefixIsPublished(qs, now, sorted, k);
    PrefixOmitsOlder(qs, now, sorted, k);
    if k == |sorted| {
      assert sorted[..k] == sorted;
    }
  }

  /**
   * The published rows, newest first, cut to the first five. A published row
   * is left out (fully or in part, counting duplicates) only if it is no newer
   * than every listed row, and only when five rows are listed.
   */
  function IndexQueryset(qs: seq<Question>, now: int): (r: seq<Question>)
    ensures |r| <= IndexLimit
    ensures forall q :: q in r ==> q in qs && IsPublished(q, now)
    ensures multiset(r) <= multiset(qs)
    ensures SortedDesc(r)
    ensures |r| < IndexLimit ==>
              forall q :: IsPublished(q, now) ==> multiset(r)[q] == multiset(qs)[q]
    ensures forall o, x :: IsPublished(o, now) && multiset(r)[o] < multiset(qs)[o] && x in r
              ==> o.pubDate <= x.pubDate
  {
    var k := Min(IndexLimit, |Published(qs, now)|);
    NewestPublishedPrefix(qs, now, k);
    SortByPubDateDesc(Published(qs, now))[..k]
  }

  /** The index on the cases of the index tests: future questions are not listed. */
  lemma IndexScenariosFuture(now: int)
    ensures var past := Question(1, "Past question.", now - 30 * Day, None);
            var future := Question(2, "Future question.", now + 30 * Day, None);
            && IndexQueryset([], now) == []
            && IndexQueryset([future], now) == []
            && IndexQueryset([past, future], now) == [past]
  {
    var past := Question(1, "Past question.", now - 30 * Day, None);
    var future := Question(2, "Future question.", now + 30 * Day, None);
    assert [past, future][1..] == [future];
    assert Published([past, future], now) == [past];
  }

  /** The index on the cases of the index tests: the newer question comes first. */
  lemma IndexScenariosOrder(now: int)
    ensures var past := Question(1, "Past question 1.", now - 30 * Day, None);
            var recent := Question(3, "Past question 2.", now - 5 * Day, None);
            IndexQueryset([past, recent], now) == [recent, past]
  {
    var past := Question(1, "Past question 1.", now - 30 * Day, None);
    var recent := Question(3, "Past question 2.", now - 5 * Day, None);
    assert [past, recent][1..] == [recent];
    assert Published([past, recent], now) == [past, recent];
    assert SortByPubDateDesc([recent]) == [recent];
    assert Insert(past, [recent]) == [recent, past];
  }

  // ---------------------------------------------------------------------
  // DetailView.get_queryset and the primary-key lookup on it

  /** The first row with primary key `pk`, or None when there is none. */
  function FindById(qs: seq<Question>, pk: int): (r: Option<Question>)
    ensures r.Some? ==> r.value in qs && r.value.id == pk
    ensures r.None? <==> forall q :: q in qs ==> q.id != pk
  {
    if qs == [] then None
    else if qs[0].id == pk then Some(qs[0])
    else FindById(qs[1..], pk)
  }

  /** Primary keys identify rows. */
  ghost predicate UniqueIds(qs: seq<Question>)
  {
    forall i, j :: 0 <= i < |qs| && 0 <= j < |qs| && qs[i].id == qs[j].id ==> i == j
  }

  /** The question the detail page shows for `pk`; None is the 404 response. */
  function DetailObject(qs: seq<Question>, pk: int, now: int): (r: Option<Question>)
    ensures r.Some? <==> exists q :: q in qs && q.id == pk && IsPublished(q, now)
    ensures r.Some? ==> r.value in qs && r.value.id == pk && IsPublished(r.value, now)
  {
    FindById(Published(qs, now), pk)
  }

  /** With unique keys, a question is reachable on the detail page iff it is published. */
  lemma DetailReachableIffPublished(qs: seq<Question>, q: Question, now: int)
    requires UniqueIds(qs)
    requires q in qs
    ensures DetailObject(qs, q.id, now) == Some(q) <==> q.pubDate <= now
  {
    var r := DetailObject(qs, q.id, now);
    if r.Some? {
      var i :| 0 <= i < |qs| && qs[i] == q;
      var j :| 0 <= j < |qs| && qs[j] == r.value;
      assert i == j;
    }
  }

  /** Every question listed on the index page can be opened on the detail page. */
  lemma IndexedQuestionsHaveDetail(qs: seq<Question>, q: Question, now: int)
    requires q in IndexQueryset(qs, now)
    ensures DetailObject(qs, q.id, now).Some?
  {
  }

  // ---------------------------------------------------------------------
  // The vote handler

  /** What the vote handler answers. */
  datatype VoteOutcome =
    | QuestionNotFound                                    // the 404 response
    | RenderDetail(questionId: int, errorMessage: string) // the detail page with an error
    | RedirectToResults(questionId: int)                  // the question's results page

  const ClosedMessage: string := "This poll cannot be voted on at this time!!!"
  const NoChoiceMessage: string := "You didn't select a choice."

  /** The submitted choice key is present and names a choice of question `questionId`. */
  predicate SelectsChoiceOf(choices: map<int, Choice>, questionId: int, posted: Option<int>)
  {
    posted.Some? && posted.value in choices && choices[posted.value].question == questionId
  }

  /** The stored questions and choices, keyed by primary key. */
  class PollData {
    var questions: map<int, Question>
    var choices: map<int, Choice>

    constructor (questions: map<int, Question>, choices: map<int, Choice>)
      ensures this.questions == questions && this.choices == choices
    {
      this.questions := questions;
      this.choices := choices;
    }

    /**
     * Handles a vote for question `questionId` with the submitted choice key
     * `posted` (None when the form carried no choice), at time `now`.
     */
    method Vote(questionId: int, posted: Option<int>, now: int) returns (r: VoteOutcome)
      modifies this`choices
      ensures r == QuestionNotFound <==> questionId !in questions
      ensures r == RenderDetail(questionId, ClosedMessage) <==>
                questionId in questions && !CanVote(questions[questionId], now)
      ensures r == RenderDetail(questionId, NoChoiceMessage) <==>
                questionId in questions && CanVote(questions[questionId], now)
                && !SelectsChoiceOf(old(choices), questionId, posted)
      ensures r == RedirectToResults(questionId) <==>
                questionId in questions && CanVote(questions[questionId], now)
                && SelectsChoiceOf(old(choices), questionId, posted)
      ensures !r.RedirectToResults? ==> choices == old(choices)
      ensures r.RedirectToResults? ==>
                var c := posted.value;
                && choices.Keys == old(choices).Keys
                && choices[c] == old(choices)[c].(votes := old(choices)[c].votes + 1)
                && forall k :: k in old(choices) && k != c ==> choices[k] == old(choices)[k]
    {
      if questionId !in questions {
        return QuestionNotFound;
      }
      var question := questions[questionId];
      if CanVote(question, now) {
        if posted.None? || posted.value !in choices || choices[posted.value].question != questionId {
          return RenderDetail(questionId, NoChoiceMessage);
        }
        var selected := choices[posted.value];
        selected := selected.(votes := selected.votes + 1);
        choices := choices[posted.value := selected];
        return RedirectToResults(questionId);
      } else {
        return RenderDetail(questionId, ClosedMessage);
      }
    }
  }

  /**
   * A client of the handler, following the voting scenarios: a question
   * published now with two choices, a vote for the first, a submission
   * without a choice, a choice of another question, and a question whose
   * voting period is over.
   */
  method VoteScenarios(now: int)
  {
    var q := Question(1, "Test Question", now, None);
    var old5 := Question(2, "Closed", now - 10 * Day, Some(now - 5 * Day));
    var c1, c2, other := NewChoice(1, "Choice 1"), NewChoice(1, "Choice 2"), NewChoice(2, "Elsewhere");
    var db := new PollData(map[1 := q, 2 := old5], map[10 := c1, 11 := c2, 12 := other]);

    var r := db.Vote(1, Some(10), now);
    assert r == RedirectToResults(1);
    assert db.choices[10].votes == 1 && db.choices[11].votes == 0;

    r := db.Vote(1, None, now);
    assert r == RenderDetail(1, NoChoiceMessage);
    r := db.Vote(1, Some(12), now);
    assert r == RenderDetail(1, NoChoiceMessage);
    r := db.Vote(2, Some(12), now);
    assert r == RenderDetail(2, ClosedMessage);
    r := db.Vote(3, Some(10), now);
    assert r == QuestionNotFound;
    assert db.choices[10].votes == 1 && db.choices[12].votes == 0;
  }
}
