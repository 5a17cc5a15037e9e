/**
 * The poll entities and the time-window rules that decide whether a
 * question is published, was published recently, and can be voted on.
 *
 * Timestamps are whole seconds; every rule takes one clock reading `now`.
 */
module Models {

  datatype Option<T> = None | Some(value: T)

  /** Length of one day in seconds (the `timedelta(days=1)` of the recency rule). */
  const Day: int := 86400

  /** A poll question: primary key, text, publication time and optional closing time. */
  datatype Question = Question(id: int, text: string, pubDate: int, endDate: Option<int>)

  /** A choice row: the question it belongs to (foreign key), its text and its vote counter. */
  datatype Choice = Choice(question: int, text: string, votes: int)

  /** Published within the last day, bounds inclusive; never for a future date. */
  predicate WasPublishedRecently(q: Question, now: int)
  {
    now - Day <= q.pubDate <= now
  }

  /** Published once the publication time has been reached (equality counts). */
  predicate IsPublished(q: Question, now: int)
  {
    q.pubDate <= now
  }

  /** Voting is open from publication up to and including the end date, if any. */
  predicate CanVote(q: Question, now: int)
  {
    if !IsPublished(q, now) then false
    else if q.endDate.None? then true
    else now <= q.endDate.value
  }

  /** A choice as the model creates it: the vote counter starts at zero. */
  function NewChoice(question: int, text: string): (c: Choice)
    ensures c.votes == 0
    ensures c.question == question && c.text == text
  {
    Choice(question, text, 0)
  }

  /** The three phases a question passes through, recomputed from the clock. */
  datatype Phase = Unpublished | Open | Closed

  function PhaseAt(q: Question, now: int): (p: Phase)
    ensures p == Unpublished <==> now < q.pubDate
    ensures p == Closed <==> q.pubDate <= now && q.endDate.Some? && q.endDate.value < now
    ensures p == Open <==> CanVote(q, now)
  {
    if now < q.pubDate then Unpublished
    else if q.endDate.Some? && q.endDate.value < now then Closed
    else Open
  }

  // ---------------------------------------------------------------------
  // Properties of the time-window rules

  /** The recency window is exactly the last 86400 seconds up to now. */
  lemma RecentlyBoundaries(q: Question, now: int)
    ensures q.pubDate > now ==> !WasPublishedRecently(q, now)
    ensures q.pubDate == now ==> WasPublishedRecently(q, now)
    ensures q.pubDate == now - Day ==> WasPublishedRecently(q, now)
    ensures q.pubDate == now - Day - 1 ==> !WasPublishedRecently(q, now)
  {
  }

  /** Being recent implies being published. */
  lemma RecentlyImpliesPublished(q: Question, now: int)
    ensures WasPublishedRecently(q, now) ==> IsPublished(q, now)
  {
  }

  /** An unpublished question can never be voted on, whatever its end date. */
  lemma CannotVoteUnpublished(q: Question, now: int)
    ensures !IsPublished(q, now) ==> !CanVote(q, now)
  {
  }

  /** Without an end date, voting is open exactly when the question is published. */
  lemma CanVoteOpenEnded(q: Question, now: int)
    requires q.endDate.None?
    ensures CanVote(q, now) <==> IsPublished(q, now)
  {
  }

  /** With an end date, voting is open on the closed interval [pubDate, endDate]. */
  lemma CanVoteWindow(q: Question, now: int)
    requires q.endDate.Some?
    ensures CanVote(q, now) <==> q.pubDate <= now <= q.endDate.value
  {
  }

  /** An end date before the publication date closes voting for good. */
  lemma NeverVotableIfEndsBeforePublication(q: Question)
    requires q.endDate.Some? && q.endDate.value < q.pubDate
    ensures forall now :: !CanVote(q, now)
  {
  }

  /** Publication is permanent: once published, a question stays published. */
  lemma PublishedStaysPublished(q: Question, t1: int, t2: int)
    requires t1 <= t2
    ensures IsPublished(q, t1) ==> IsPublished(q, t2)
  {
  }

  /**
   * The voting window is an interval: if voting is open at two instants it is
   * open at every instant in between, and once closed it never reopens.
   */
  lemma VotingWindowIsInterval(q: Question, t1: int, t2: int, t3: int)
    requires t1 <= t2 <= t3
    ensures CanVote(q, t1) && CanVote(q, t3) ==> CanVote(q, t2)
    ensures PhaseAt(q, t1) == Closed ==> PhaseAt(q, t3) == Closed
  {
  }

  /** The model on the concrete cases of the question tests. */
  lemma EligibilityScenarios(now: int)
    ensures !WasPublishedRecently(Question(0, "", now + 30 * Day, None), now)
    ensures !WasPublishedRecently(Question(0, "", now - Day - 1, None), now)
    ensures WasPublishedRecently(Question(0, "", now - (23 * 3600 + 59 * 60 + 59), None), now)
    ensures !IsPublished(Question(0, "", now + 4 * Day, None), now)
    ensures IsPublished(Question(0, "", now, None), now)
    ensures CanVote(Question(0, "", now - 5 * Day, None), now)
    ensures CanVote(Question(0, "", now - 5 * Day, Some(now + 5 * Day)), now)
    ensures !CanVote(Question(0, "", now + 5 * Day, Some(now + 10 * Day)), now)
    ensures !CanVote(Question(0, "", now - 10 * Day, Some(now - 5 * Day)), now)
  {
  }
}
