/** The quiz state machine of the page component (src/app/page.tsx): the
    initial state, the current event, the verdict rule and the drop
    transition, with the invariant that every reachable state keeps. */
module Quiz {
  import opened Types
  import opened Events

  datatype Option<T> = None | Some(value: T)

  /** One placed card: the event and whether its zone was the right one. */
  datatype DroppedRecord = DroppedRecord(event: HistoricalEvent, isCorrect: bool)

  /** The per-zone logs of placed cards, each in drop order. */
  datatype DroppedEvents = DroppedEvents(before: seq<DroppedRecord>, during: seq<DroppedRecord>)

  /** Both state cells of the page: the quiz state and the dropped logs. */
  datatype Page = Page(quiz: QuizState, dropped: DroppedEvents)

  /** The zone an event of year `year` belongs in. */
  function CorrectZone(year: int): DropZone {
    if year < GrandpaBirthYear then Before else During
  }

  /** The verdict of placing an event of year `year` in `zone`. */
  function IsCorrect(zone: DropZone, year: int): (r: bool)
    ensures r <==> zone == CorrectZone(year)
    ensures year == GrandpaBirthYear ==> (r <==> zone == During)
  {
    (zone == Before && year < GrandpaBirthYear) || (zone == During && year >= GrandpaBirthYear)
  }

  /** The event under the index, or None once the index is past the end. */
  function CurrentEvent(q: QuizState): (r: Option<HistoricalEvent>)
    ensures r.None? <==> q.currentEventIndex >= |q.events|
    ensures r.Some? ==> r.value in q.events
  {
    if q.currentEventIndex < |q.events| then Some(q.events[q.currentEventIndex]) else None
  }

  /** The events of a log, in log order. */
  function EventsOf(rs: seq<DroppedRecord>): (es: seq<HistoricalEvent>)
    ensures |es| == |rs|
  {
    if rs == [] then [] else [rs[0].event] + EventsOf(rs[1..])
  }

  /** The number of correct records in a log. */
  function CountCorrect(rs: seq<DroppedRecord>): (n: nat)
    ensures n <= |rs|
  {
    if rs == [] then 0 else (if rs[0].isCorrect then 1 else 0) + CountCorrect(rs[1..])
  }

  /** The ids of a sequence of events. */
  function IdsOf(es: seq<HistoricalEvent>): set<nat> {
    set e | e in es :: e.id
  }

  /** The keys whose recorded verdict is `true`. */
  function TrueKeys(m: map<nat, bool>): set<nat> {
    set k | k in m && m[k]
  }

  /** The score shown on the results screen: how many recorded verdicts are true. */
  function TotalCorrect(q: QuizState): (n: nat)
    ensures n <= |q.answers|
  {
    assert TrueKeys(q.answers) <= q.answers.Keys;
    SubsetCardinality(TrueKeys(q.answers), q.answers.Keys);
    |TrueKeys(q.answers)|
  }

  /** Both zone logs, before-log first. */
  function AllRecords(d: DroppedEvents): seq<DroppedRecord> {
    d.before + d.during
  }

  /** What every state reachable from the initial state satisfies: the
      index and completion flag agree, the logs hold exactly the processed
      events with their verdicts, and the answers agree with the logs. */
  ghost predicate Inv(p: Page) {
    ProgressInv(p) && LogInv(p) && AnswersInv(p)
  }

  /** The index never passes the end, completion means the index reached
      the end of a non-empty catalog, and there is one record per drop. */
  ghost predicate ProgressInv(p: Page) {
    var q := p.quiz;
    && q.currentEventIndex <= |q.events|
    && (q.isComplete <==> 0 < q.currentEventIndex == |q.events|)
    && |AllRecords(p.dropped)| == q.currentEventIndex
  }

  /** The logs hold the processed events, each once, with the verdict of its zone. */
  ghost predicate LogInv(p: Page)
    requires p.quiz.currentEventIndex <= |p.quiz.events|
  {
    var q := p.quiz;
    && multiset(EventsOf(AllRecords(p.dropped))) == multiset(q.events[..q.currentEventIndex])
    && (forall r :: r in p.dropped.before ==> r.isCorrect == IsCorrect(Before, r.event.year))
    && (forall r :: r in p.dropped.during ==> r.isCorrect == IsCorrect(During, r.event.year))
  }

  /** The answers are keyed by exactly the processed ids, agree with the
      logs, and hold as many true verdicts as the logs hold correct records. */
  ghost predicate AnswersInv(p: Page)
    requires p.quiz.currentEventIndex <= |p.quiz.events|
  {
    var q := p.quiz;
    var all := AllRecords(p.dropped);
    && q.answers.Keys == IdsOf(q.events[..q.currentEventIndex])
    && (forall r :: r in all ==> r.event.id in q.answers && q.answers[r.event.id] == r.isCorrect)
    && |TrueKeys(q.answers)| == CountCorrect(all)
  }

  /** The state the page starts in for catalog `events`: index at the first
      event, no answers, empty logs. */
  function Initial(events: seq<HistoricalEvent>): (p: Page)
    ensures Inv(p)
    ensures p.quiz.events == events && p.quiz.currentEventIndex == 0 && !p.quiz.isComplete
  {
    Page(QuizState(events, 0, map[], false), DroppedEvents([], []))
  }

  /** Dropping the current card on `zone`. With no current event nothing
      changes; otherwise the verdict goes to the end of that zone's log and
      under the event's id in the answers, and the index moves on. */
  function Drop(p: Page, zone: DropZone): (p': Page)
    ensures p.quiz.currentEventIndex >= |p.quiz.events| ==> p' == p
    ensures p'.quiz.events == p.quiz.events
    ensures p.quiz.currentEventIndex < |p.quiz.events| ==>
      var e := p.quiz.events[p.quiz.currentEventIndex];
      var c := IsCorrect(zone, e.year);
      && p'.quiz.currentEventIndex == p.quiz.currentEventIndex + 1
      && (p'.quiz.isComplete <==> p'.quiz.currentEventIndex == |p.quiz.events|)
      && p'.quiz.answers.Keys == p.quiz.answers.Keys + {e.id}
      && p'.quiz.answers[e.id] == c
      && (forall k :: k in p.quiz.answers && k != e.id ==> p'.quiz.answers[k] == p.quiz.answers[k])
      && p'.dropped.before == (if zone == Before then p.dropped.before + [DroppedRecord(e, c)] else p.dropped.before)
      && p'.dropped.during == (if zone == During then p.dropped.during + [DroppedRecord(e, c)] else p.dropped.during)
  {
    match CurrentEvent(p.quiz)
    case None => p
    case Some(e) =>
      var isCorrect := IsCorrect(zone, e.year);
      var rec := DroppedRecord(e, isCorrect);
      var dropped := Append(p.dropped, zone, rec);
      var newIndex := p.quiz.currentEventIndex + 1;
      var quiz := p.quiz.(answers := p.quiz.answers[e.id := isCorrect],
                          currentEventIndex := newIndex,
                          isComplete := newIndex == |p.quiz.events|);
      Page(quiz, dropped)
  }

  /** The state after dropping the cards one by one on `zones`. */
  function Run(p: Page, zones: seq<DropZone>): Page
    decreases |zones|
  {
    if zones == [] then p else Run(Drop(p, zones[0]), zones[1..])
  }

  function Min(a: nat, b: nat): nat {
    if a <= b then a else b
  }

  lemma SubsetCardinality(a: set<nat>, b: set<nat>)
    requires a <= b
    ensures |a| <= |b|
  {
    assert b == a + (b - a);
  }

  lemma {:induction false} EventsOfConcat(a: seq<DroppedRecord>, b: seq<DroppedRecord>)
    ensures EventsOf(a + b) == EventsOf(a) + EventsOf(b)
  {
    if a == [] {
      assert a + b == b;
    } else {
      assert (a + b)[1..] == a[1..] + b;
      EventsOfConcat(a[1..], b);
    }
  }

  /** Position `k` of the events of a log is the event of its record `k`. */
  lemma {:induction false} EventsOfAt(rs: seq<DroppedRecord>, k: nat)
    requires k < |rs|
    ensures EventsOf(rs)[k] == rs[k].event
  {
    if k > 0 {
      EventsOfAt(rs[1..], k - 1);
    }
  }

  lemma {:induction false} CountCorrectConcat(a: seq<DroppedRecord>, b: seq<DroppedRecord>)
    ensures CountCorrect(a + b) == CountCorrect(a) + CountCorrect(b)
  {
    if a != [] {
      assert (a + b)[1..] == a[1..] + b;
      CountCorrectConcat(a[1..], b);
    } else {
      assert a + b == b;
    }
  }

  /** Extending a prefix by one event adds that event's id. */
  lemma IdsOfPrefix(es: seq<HistoricalEvent>, i: nat)
    requires i < |es|
    ensures IdsOf(es[..i + 1]) == IdsOf(es[..i]) + {es[i].id}
  {
    assert es[..i + 1] == es[..i] + [es[i]];
  }

  /** Under unique ids, the id of the event at `i` is not among the ids of
      the events before it. */
  lemma NextIdIsFresh(events: seq<HistoricalEvent>, i: nat)
    requires UniqueIds(events) && i < |events|
    ensures events[i].id !in IdsOf(events[..i])
  {
  }

  lemma TrueKeysUpdate(m: map<nat, bool>, k: nat, c: bool)
    requires k !in m
    ensures |TrueKeys(m[k := c])| == |TrueKeys(m)| + (if c then 1 else 0)
  {
    if c {
      assert TrueKeys(m[k := c]) == TrueKeys(m) + {k};
    } else {
      assert TrueKeys(m[k := c]) == TrueKeys(m);
    }
  }

  /** The dropped logs after `rec` is appended to the log of `zone`. */
  function Append(d: DroppedEvents, zone: DropZone, rec: DroppedRecord): DroppedEvents {
    if zone == Before then d.(before := d.before + [rec]) else d.(during := d.during + [rec])
  }

  /** Appending to either log adds the record to the end of the before-log or
      the during-log; both orders hold the same records. */
  lemma AppendAllRecords(d: DroppedEvents, zone: DropZone, rec: DroppedRecord)
    ensures zone == Before ==> AllRecords(Append(d, zone, rec)) == d.before + [rec] + d.during
    ensures zone == During ==> AllRecords(Append(d, zone, rec)) == AllRecords(d) + [rec]
    ensures multiset(AllRecords(Append(d, zone, rec))) == multiset(AllRecords(d)) + multiset{rec}
  {
    if zone == During {
      assert d.before + (d.during + [rec]) == (d.before + d.during) + [rec];
    }
  }

  /** Appending a record adds its event to the events of the logs. */
  lemma AppendEvents(d: DroppedEvents, zone: DropZone, rec: DroppedRecord)
    ensures multiset(EventsOf(AllRecords(Append(d, zone, rec))))
         == multiset(EventsOf(AllRecords(d))) + multiset{rec.event}
  {
    AppendAllRecords(d, zone, rec);
    if zone == Before {
      InsertEvents(d.before, d.during, rec);
    } else {
      var ab := d.before + d.during;
      InsertEvents(ab, [], rec);
      assert AllRecords(Append(d, zone, rec)) == ab + [rec] + [];
      assert ab + [] == ab;
    }
  }

  lemma InsertEvents(a: seq<DroppedRecord>, b: seq<DroppedRecord>, rec: DroppedRecord)
    ensures multiset(EventsOf(a + [rec] + b)) == multiset(EventsOf(a + b)) + multiset{rec.event}
  {
    var x, y := EventsOf(a), EventsOf(b);
    assert EventsOf(a + [rec] + b) == x + [rec.event] + y by {
      EventsOfConcat(a + [rec], b);
      EventsOfConcat(a, [rec]);
      assert EventsOf([rec]) == [rec.event];
    }
    EventsOfConcat(a, b);
    assert multiset(x + [rec.event] + y) == multiset(x + y) + multiset{rec.event};
  }

  /** Appending a record adds its verdict to the count of correct records. */
  lemma AppendCount(d: DroppedEvents, zone: DropZone, rec: DroppedRecord)
    ensures CountCorrect(AllRecords(Append(d, zone, rec)))
         == CountCorrect(AllRecords(d)) + (if rec.isCorrect then 1 else 0)
  {
    var b, dd := d.before, d.during;
    AppendAllRecords(d, zone, rec);
    CountCorrectConcat(b, dd);
    CountCorrectConcat(b, [rec]);
    if zone == Before {
      CountCorrectConcat(b + [rec], dd);
    } else {
      CountCorrectConcat(b + dd, [rec]);
    }
  }

  /** A drop keeps the invariant, provided no two catalog events share an id
      (otherwise a later answer overwrites an earlier one). */
  lemma DropPreservesInv(p: Page, zone: DropZone)
    requires UniqueIds(p.quiz.events) && Inv(p)
    ensures Inv(Drop(p, zone))
  {
    if p.quiz.currentEventIndex < |p.quiz.events| {
      var e := p.quiz.events[p.quiz.currentEventIndex];
      var rec := DroppedRecord(e, IsCorrect(zone, e.year));
      AppendAllRecords(p.dropped, zone, rec);
      DropWithCurrent(p, zone);
      assert ProgressInv(Drop(p, zone));
      DropPreservesLogInv(p, zone);
      DropPreservesAnswersInv(p, zone);
    }
  }

  /** The logs and answers a drop with a current event produces, stated
      through `Append` and map update: a bridge that lets the invariant
      lemmas and `App.Home.HandleDrop` reuse `Drop`'s contract in that form. */
  lemma DropWithCurrent(p: Page, zone: DropZone)
    requires p.quiz.currentEventIndex < |p.quiz.events|
    ensures var e := p.quiz.events[p.quiz.currentEventIndex];
      var c := IsCorrect(zone, e.year);
      && Drop(p, zone).dropped == Append(p.dropped, zone, DroppedRecord(e, c))
      && Drop(p, zone).quiz.answers == p.quiz.answers[e.id := c]
      && Drop(p, zone).quiz.currentEventIndex == p.quiz.currentEventIndex + 1
  {
  }

  /** Appending a record with its zone's verdict keeps every record's verdict
      that of its zone. */
  lemma AppendKeepsVerdicts(d: DroppedEvents, zone: DropZone, rec: DroppedRecord)
    requires forall r :: r in d.before ==> r.isCorrect == IsCorrect(Before, r.event.year)
    requires forall r :: r in d.during ==> r.isCorrect == IsCorrect(During, r.event.year)
    requires rec.isCorrect == IsCorrect(zone, rec.event.year)
    ensures forall r :: r in Append(d, zone, rec).before ==> r.isCorrect == IsCorrect(Before, r.event.year)
    ensures forall r :: r in Append(d, zone, rec).during ==> r.isCorrect == IsCorrect(During, r.event.year)
  {
  }

  lemma DropPreservesLogInv(p: Page, zone: DropZone)
    requires p.quiz.currentEventIndex < |p.quiz.events| && LogInv(p)
    ensures LogInv(Drop(p, zone))
  {
    var q := p.quiz;
    var i := q.currentEventIndex;
    var e := q.events[i];
    var rec := DroppedRecord(e, IsCorrect(zone, e.year));
    DropWithCurrent(p, zone);
    assert q.events[..i + 1] == q.events[..i] + [e];
    AppendEvents(p.dropped, zone, rec);
    AppendKeepsVerdicts(p.dropped, zone, rec);
  }

  /** Recording a verdict under a fresh key keeps the answers agreeing with
      the logs once the record carrying that verdict is appended. */
  lemma AppendKeepsAgreement(m: map<nat, bool>, d: DroppedEvents, zone: DropZone, rec: DroppedRecord)
    requires forall r :: r in AllRecords(d) ==> r.event.id in m && m[r.event.id] == r.isCorrect
    requires rec.event.id !in m
    ensures forall r :: r in AllRecords(Append(d, zone, rec)) ==>
      r.event.id in m[rec.event.id := rec.isCorrect] && m[rec.event.id := rec.isCorrect][r.event.id] == r.isCorrect
  {
    var m' := m[rec.event.id := rec.isCorrect];
    AppendAllRecords(d, zone, rec);
    forall r | r in AllRecords(Append(d, zone, rec))
      ensures r.event.id in m' && m'[r.event.id] == r.isCorrect
    {
      assert r in multiset(AllRecords(Append(d, zone, rec)));
      if r != rec {
        assert r in AllRecords(d);
      }
    }
  }

  lemma DropPreservesAnswersInv(p: Page, zone: DropZone)
    requires UniqueIds(p.quiz.events) && p.quiz.currentEventIndex < |p.quiz.events| && AnswersInv(p)
    ensures AnswersInv(Drop(p, zone))
  {
    var q := p.quiz;
    var i := q.currentEventIndex;
    var e := q.events[i];
    var c := IsCorrect(zone, e.year);
    var rec := DroppedRecord(e, c);
    var p' := Drop(p, zone);
    DropWithCurrent(p, zone);
    NextIdIsFresh(q.events, i);
    IdsOfPrefix(q.events, i);
    assert |TrueKeys(p'.quiz.answers)| == CountCorrect(AllRecords(p'.dropped)) by {
      TrueKeysUpdate(q.answers, e.id, c);
      AppendCount(p.dropped, zone, rec);
    }
    AppendKeepsAgreement(q.answers, p.dropped, zone, rec);
  }

  /** Once complete, the quiz stays as it is: every further drop is ignored. */
  lemma CompleteIsFinal(p: Page, zone: DropZone)
    requires Inv(p) && p.quiz.isComplete
    ensures Drop(p, zone) == p
  {
  }

  /** Any sequence of drops keeps the invariant and the catalog, and moves the
      index one step per drop until it reaches the end of the catalog. */
  lemma {:induction false} RunPreservesInv(p: Page, zones: seq<DropZone>)
    requires UniqueIds(p.quiz.events) && Inv(p)
    ensures Inv(Run(p, zones))
    ensures Run(p, zones).quiz.events == p.quiz.events
    ensures Run(p, zones).quiz.currentEventIndex
         == Min(p.quiz.currentEventIndex + |zones|, |p.quiz.events|)
    decreases |zones|
  {
    if zones != [] {
      DropPreservesInv(p, zones[0]);
      RunPreservesInv(Drop(p, zones[0]), zones[1..]);
    }
  }

  /** From the initial state of a non-empty catalog, at least one drop per
      event completes the quiz, and the index then sits at the end. */
  lemma RunCompletes(events: seq<HistoricalEvent>, zones: seq<DropZone>)
    requires UniqueIds(events) && 0 < |events| <= |zones|
    ensures Run(Initial(events), zones).quiz.isComplete
    ensures Run(Initial(events), zones).quiz.currentEventIndex == |events|
  {
    RunPreservesInv(Initial(events), zones);
  }

  /** Every verdict in the answers came from exactly one processed event:
      there is one answer per processed event, none overwritten. */
  lemma AnswersOnePerEvent(p: Page)
    requires UniqueIds(p.quiz.events) && Inv(p)
    ensures |p.quiz.answers| == p.quiz.currentEventIndex
  {
    var q := p.quiz;
    IdsOfUnique(q.events[..q.currentEventIndex]);
  }

  lemma {:induction false} IdsOfUnique(es: seq<HistoricalEvent>)
    requires UniqueIds(es)
    ensures |IdsOf(es)| == |es|
  {
    if es != [] {
      var n := |es| - 1;
      assert es == es[..n] + [es[n]];
      assert IdsOf(es) == IdsOf(es[..n]) + {es[n].id};
      NextIdIsFresh(es, n);
      IdsOfUnique(es[..n]);
    }
  }

  /** The zones that place each event of `es` correctly, in order. */
  function CorrectZones(es: seq<HistoricalEvent>): (zs: seq<DropZone>)
    ensures |zs| == |es|
    ensures forall i :: 0 <= i < |es| ==> zs[i] == CorrectZone(es[i].year)
  {
    if es == [] then [] else [CorrectZone(es[0].year)] + CorrectZones(es[1..])
  }

  /** Every record of the two logs is correct. */
  predicate AllCorrect(rs: seq<DroppedRecord>) {
    forall r :: r in rs ==> r.isCorrect
  }

  /** Placing every remaining event in its right zone leaves only correct records. */
  lemma {:induction false} CorrectRunIsAllCorrect(p: Page)
    requires p.quiz.currentEventIndex <= |p.quiz.events|
    requires AllCorrect(AllRecords(p.dropped))
    ensures AllCorrect(AllRecords(Run(p, CorrectZones(p.quiz.events[p.quiz.currentEventIndex..])).dropped))
    decreases |p.quiz.events| - p.quiz.currentEventIndex
  {
    var i := p.quiz.currentEventIndex;
    var rest := p.quiz.events[i..];
    var zs := CorrectZones(rest);
    if i < |p.quiz.events| {
      var p' := Drop(p, zs[0]);
      assert zs[1..] == CorrectZones(p'.quiz.events[i + 1..]);
      CorrectRunIsAllCorrect(p');
    }
  }

  /** A one-event catalog holding the 1941 event: dropping it before the
      reference year is wrong, during it is right, and either way the quiz
      is then complete. */
  lemma SingleEventScenario()
    ensures var e := HistoricalEvent(3, "The United States entered World War 2", 1941);
      var before := Drop(Initial([e]), Before);
      var during := Drop(Initial([e]), During);
      && before.dropped == DroppedEvents([DroppedRecord(e, false)], [])
      && before.quiz.answers == map[3 := false] && before.quiz.isComplete
      && during.dropped == DroppedEvents([], [DroppedRecord(e, true)])
      && during.quiz.answers == map[3 := true] && during.quiz.isComplete
  {
  }
}
