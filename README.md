# ku-polls: eligibility rules and view decisions

A model of the poll application's core logic:

- **Models** (`models.dfy`): a `Question` with a primary key, text, a publication
  time `pubDate` and an optional closing time `endDate`; a `Choice` with the key of
  its question, its text and a `votes` counter that starts at zero. Three time-window
  predicates decide whether a question was published recently, is published, and can
  be voted on. Times are whole seconds, one day is 86400, and each predicate takes
  one clock reading `now` as a parameter.
- **Views** (`views.dfy`): the index page's query (published questions, newest
  first, at most five), the detail page's query (published questions only, looked up
  by primary key, absent meaning 404), and the vote handler. The handler is a method
  on `PollData`, a class holding the stored questions and choices keyed by primary
  key. It answers 404 for an unknown question. It re-renders the detail page with
  "This poll cannot be voted on at this time!!!" when voting is closed. It re-renders
  with "You didn't select a choice." when the submitted key is missing or names a
  choice of another question. Otherwise it raises the selected counter by one and
  redirects to the results page.
- **Tally** (`tally.dfy`): the sum of a question's counters over a listing of its
  choices, and the proof that one successful vote adds exactly one to it.

The repository's design notes and its tests describe a per-user `Vote` record with
one-vote-per-user and replace-on-revote semantics. `polls/models.py` defines no such
record, and `polls/views.py` only increments `Choice.votes`. The model follows the
code: there is no per-user ledger here.

## Model

| member | source | states |
|---|---|---|
| `Models.WasPublishedRecently` | polls/models.py:36-43 | recent iff `now - 1 day <= pubDate <= now` |
| `Models.IsPublished` | polls/models.py:45-51 | published iff `pubDate <= now` |
| `Models.CanVote` | polls/models.py:53-64 | not published gives false; no end date gives true; otherwise `now <= endDate` |
| `Models.NewChoice` | polls/models.py:76-78 | a new choice belongs to the given question and starts with zero votes |
| `Models.PhaseAt` | polls/models.py:53-64 | a question is Unpublished before `pubDate`, Closed after a set `endDate`, and Open exactly when `CanVote` holds |
| `Models.RecentlyBoundaries` | polls/models.py:42-43 | a future date is not recent; `now` and `now - 86400` are recent; `now - 86401` is not |
| `Models.RecentlyImpliesPublished` | polls/models.py:43-51 | a recently published question is published |
| `Models.CannotVoteUnpublished` | polls/models.py:59-60 | an unpublished question cannot be voted on, whatever its end date |
| `Models.CanVoteOpenEnded` | polls/models.py:59-62 | with no end date, `CanVote` equals `IsPublished` |
| `Models.CanVoteWindow` | polls/models.py:59-64 | with an end date, voting is open iff `pubDate <= now <= endDate`, both bounds inclusive |
| `Models.NeverVotableIfEndsBeforePublication` | polls/models.py:59-64 | an end date before the publication date means no instant allows voting |
| `Models.PublishedStaysPublished` | polls/models.py:45-51 | once published, a question stays published at every later instant |
| `Models.VotingWindowIsInterval` | polls/models.py:53-64 | voting open at two instants implies open in between; Closed never reopens |
| `Models.EligibilityScenarios` | polls/tests.py:28-113 | the predicates give the values the question tests expect at their offsets from `now` |
| `Views.Published` | polls/views.py:22-23 | keeps exactly the published rows, each with its multiplicity, and no others |
| `Views.Insert` | polls/views.py:24 | inserting into a newest-first sequence keeps it newest-first and adds exactly that row |
| `Views.SortByPubDateDesc` | polls/views.py:24 | the result is newest-first and a permutation of the input |
| `Views.IndexQueryset` | polls/views.py:17-24 | at most 5 rows, all published rows of the table, newest first, never more copies of a row than the table holds; fewer than 5 rows means every published row is listed; a published row left out is no newer than any listed row |
| `Views.IndexScenariosFuture` | polls/tests.py:117-159 | an empty table or a future-only table gives an empty index; past plus future lists only the past question |
| `Views.IndexScenariosOrder` | polls/tests.py:161-171 | two past questions are listed newest first |
| `Views.FindById` | polls/views.py:27-31 | the lookup returns a row with the requested key, or nothing exactly when no row has that key |
| `Views.DetailObject` | polls/views.py:34-38 | the detail page finds a question iff a published row with that key exists, and what it finds is that published row |
| `Views.DetailReachableIffPublished` | polls/views.py:34-38 | with unique keys, a stored question is shown by the detail page iff `pubDate <= now` |
| `Views.IndexedQuestionsHaveDetail` | polls/views.py:17-38 | every question listed on the index page can be opened on the detail page |
| `Views.PollData.Vote` | polls/views.py:49-80 | unknown key gives 404; closed voting gives the "cannot be voted on" page and no counter changes; a missing or foreign choice gives the "didn't select a choice" page and no counter changes; otherwise only the selected counter rises by exactly 1 and the result is a redirect to that question's results |
| `Tally.VoteAddsOne` | polls/views.py:67-69 | over any listing of the choices that names each key once, raising one counter by one raises its own question's total by exactly one and leaves other questions' totals, and listings without that choice, unchanged |

## Left out

- Django's ORM, querysets, `save()`, `get_object_or_404`, templates, `render`, `reverse` and `HttpResponseRedirect` are framework code. Their effects appear only as return values (`VoteOutcome`) and as the updated `choices` map.
- `timezone.now()` and `datetime.timedelta` are replaced by an integer `now` parameter and the constant `Day`. Each predicate in `polls/models.py` reads the clock separately (lines 42, 50 and 58). The model uses one reading, so `CanVote` does not see two different instants.
- Authentication, login and logout redirects, and the `next` resumption URL are framework-provided. The vote handler shown has no authentication logic.
- `ResultsView` only renders a template, so it has no decision to model. `__str__` and the `@admin.display` metadata are also left out.
- No per-user `Vote` record exists in `polls/models.py`, so none is modelled, although `polls/tests.py` imports one.
- The read-modify-write increment at `polls/views.py:68-69` can race with concurrent requests. Concurrency is not modelled.
- Views.SortByPubDateDesc: `order_by('-pub_date')` leaves the order of equal dates to the database. The model keeps equal dates in table order, and no property here depends on that choice.
- Views.PollData.Vote: vote counters are unbounded integers. The bounds of the database's integer column are not modelled.
- Views.PollData.Vote: the submitted choice is an optional integer key. A non-numeric form value makes Django raise an uncaught error, and that path is not modelled.
- Question text length (`max_length=200`) is a storage constraint with no logic attached, so it is not modelled.
