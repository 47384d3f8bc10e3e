/** The end-of-quiz summary (src/app/page.tsx:61-70): both logs merged and
    ordered by event id, one glyph per record, and the score fraction. */
module Share {
  import opened Types
  import opened Events
  import opened Quiz

  /** The two result squares: green for a correct placement, red otherwise. */
  datatype Glyph = CorrectGlyph | IncorrectGlyph

  /** The shareable summary: the glyph row and the score `correct`/`total`.
      The fixed sentences around them are not modelled. */
  datatype ShareText = ShareText(glyphs: seq<Glyph>, correct: nat, total: nat)

  /** The records are in nondecreasing order of event id. */
  predicate SortedById(rs: seq<DroppedRecord>) {
    forall i, j :: 0 <= i < j < |rs| ==> rs[i].event.id <= rs[j].event.id
  }

  /** The ids of `es` never decrease along the sequence: `SortedById` seen
      through the events of the records (`SortedEventsAreNondecreasing`). */
  predicate NondecreasingIds(es: seq<HistoricalEvent>) {
    forall i, j :: 0 <= i < j < |es| ==> es[i].id <= es[j].id
  }

  /** `r` placed into the sorted `rs` ahead of every record with an id at
      least as large. */
  function Insert(r: DroppedRecord, rs: seq<DroppedRecord>): (s: seq<DroppedRecord>)
    requires SortedById(rs)
    ensures |s| == |rs| + 1
    ensures s[0] == r || (rs != [] && s[0] == rs[0])
    ensures SortedById(s)
  {
    if rs == [] || r.event.id <= rs[0].event.id then
      [r] + rs
    else
      [rs[0]] + Insert(r, rs[1..])
  }

  /** Inserting adds exactly `r` to the records. */
  lemma {:induction false} InsertAddsRecord(r: DroppedRecord, rs: seq<DroppedRecord>)
    requires SortedById(rs)
    ensures multiset(Insert(r, rs)) == multiset(rs) + multiset{r}
  {
    if rs != [] && r.event.id > rs[0].event.id {
      InsertAddsRecord(r, rs[1..]);
      MultisetCons(rs);
    }
  }

  /** Inserting adds exactly the event of `r` to the events. */
  lemma {:induction false} InsertAddsEvent(r: DroppedRecord, rs: seq<DroppedRecord>)
    requires SortedById(rs)
    ensures multiset(EventsOf(Insert(r, rs))) == multiset(EventsOf(rs)) + multiset{r.event}
  {
    if rs == [] || r.event.id <= rs[0].event.id {
      EventsOfCons(r, rs);
    } else {
      InsertAddsEvent(r, rs[1..]);
      EventsOfCons(rs[0], Insert(r, rs[1..]));
      EventsOfHead(rs);
    }
  }

  /** Inserting adds the verdict of `r` to the count of correct records. */
  lemma {:induction false} InsertAddsVerdict(r: DroppedRecord, rs: seq<DroppedRecord>)
    requires SortedById(rs)
    ensures CountCorrect(Insert(r, rs)) == CountCorrect(rs) + (if r.isCorrect then 1 else 0)
  {
    if rs == [] || r.event.id <= rs[0].event.id {
      CountCorrectCons(r, rs);
    } else {
      var t := Insert(r, rs[1..]);
      InsertAddsVerdict(r, rs[1..]);
      CountCorrectCons(rs[0], t);
    }
  }

  lemma CountCorrectCons(r: DroppedRecord, rs: seq<DroppedRecord>)
    ensures CountCorrect([r] + rs) == CountCorrect(rs) + (if r.isCorrect then 1 else 0)
  {
    assert ([r] + rs)[1..] == rs;
  }

  lemma MultisetCons<T>(s: seq<T>)
    requires s != []
    ensures multiset(s) == multiset(s[1..]) + multiset{s[0]}
  {
    assert s == [s[0]] + s[1..];
  }

  lemma EventsOfHead(rs: seq<DroppedRecord>)
    requires rs != []
    ensures multiset(EventsOf(rs)) == multiset(EventsOf(rs[1..])) + multiset{rs[0].event}
  {
  }

  lemma EventsOfCons(r: DroppedRecord, rs: seq<DroppedRecord>)
    ensures multiset(EventsOf([r] + rs)) == multiset(EventsOf(rs)) + multiset{r.event}
  {
    assert ([r] + rs)[1..] == rs;
    EventsOfHead([r] + rs);
  }

  /** The records ordered by event id, as the comparator
      `parseInt(a.event.id) - parseInt(b.event.id)` orders them. */
  function SortById(rs: seq<DroppedRecord>): (s: seq<DroppedRecord>)
    ensures |s| == |rs|
    ensures SortedById(s)
  {
    if rs == [] then [] else Insert(rs[0], SortById(rs[1..]))
  }

  /** Sorting only rearranges the records. */
  lemma {:induction false} SortIsPermutation(rs: seq<DroppedRecord>)
    ensures multiset(SortById(rs)) == multiset(rs)
  {
    if rs != [] {
      var t := SortById(rs[1..]);
      SortIsPermutation(rs[1..]);
      InsertAddsRecord(rs[0], t);
      MultisetCons(rs);
    }
  }

  /** Sorting keeps the events of the records. */
  lemma {:induction false} SortKeepsEvents(rs: seq<DroppedRecord>)
    ensures multiset(EventsOf(SortById(rs))) == multiset(EventsOf(rs))
  {
    if rs != [] {
      SortKeepsEvents(rs[1..]);
      InsertAddsEvent(rs[0], SortById(rs[1..]));
      EventsOfHead(rs);
    }
  }

  /** Sorting keeps the number of correct records. */
  lemma {:induction false} SortKeepsCount(rs: seq<DroppedRecord>)
    ensures CountCorrect(SortById(rs)) == CountCorrect(rs)
  {
    if rs != [] {
      SortKeepsCount(rs[1..]);
      InsertAddsVerdict(rs[0], SortById(rs[1..]));
    }
  }

  function GlyphOf(r: DroppedRecord): Glyph {
    if r.isCorrect then CorrectGlyph else IncorrectGlyph
  }

  /** The number of occurrences of `g` in `gs`. */
  function CountGlyph(gs: seq<Glyph>, g: Glyph): nat {
    if gs == [] then 0 else (if gs[0] == g then 1 else 0) + CountGlyph(gs[1..], g)
  }

  /** One glyph per record, in record order; as many green glyphs as correct records. */
  function Glyphs(rs: seq<DroppedRecord>): (gs: seq<Glyph>)
    ensures |gs| == |rs|
    ensures forall i :: 0 <= i < |rs| ==> (gs[i] == CorrectGlyph <==> rs[i].isCorrect)
    ensures CountGlyph(gs, CorrectGlyph) == CountCorrect(rs)
  {
    if rs == [] then []
    else
      var t := Glyphs(rs[1..]);
      assert ([GlyphOf(rs[0])] + t)[1..] == t;
      [GlyphOf(rs[0])] + t
  }

  /** The share text: the glyph row of both logs taken together in id
      order, and the count of correct records over the catalog's size. */
  function CreateShareText(d: DroppedEvents): (t: ShareText)
    ensures |t.glyphs| == |d.before| + |d.during|
    ensures exists s :: SortedById(s) && multiset(s) == multiset(AllRecords(d)) && t.glyphs == Glyphs(s)
    ensures t.correct == CountCorrect(d.before) + CountCorrect(d.during)
    ensures t.correct == CountGlyph(t.glyphs, CorrectGlyph)
    ensures t.total == |HistoricalEvents|
  {
    var allResults := SortById(AllRecords(d));
    CountCorrectConcat(d.before, d.during);
    SortIsPermutation(AllRecords(d));
    SortKeepsCount(AllRecords(d));
    ShareText(Glyphs(allResults), CountCorrect(allResults), |HistoricalEvents|)
  }

  /** A sequence ordered by id that holds the same events as one strictly
      ordered by id is that sequence: ordering by id recovers the catalog. */
  lemma {:induction false} SortedPermutationIsUnique(a: seq<HistoricalEvent>, b: seq<HistoricalEvent>)
    requires NondecreasingIds(a) && IncreasingIds(b)
    requires multiset(a) == multiset(b)
    ensures a == b
    decreases |a|
  {
    assert |a| == |multiset(a)| == |multiset(b)| == |b|;
    if a != [] {
      assert a[0] == b[0] by {
        assert a[0] in multiset(b);
        assert b[0] in multiset(a);
        var j :| 0 <= j < |b| && b[j] == a[0];
        var k :| 0 <= k < |a| && a[k] == b[0];
        assert b[0].id <= b[j].id;
        assert a[0].id <= a[k].id;
        assert j == 0;
      }
      MultisetTail(a, b);
      SortedPermutationIsUnique(a[1..], b[1..]);
    }
  }

  lemma MultisetTail<T>(a: seq<T>, b: seq<T>)
    requires a != [] && b != [] && a[0] == b[0]
    requires multiset(a) == multiset(b)
    ensures multiset(a[1..]) == multiset(b[1..])
  {
    MultisetCons(a);
    MultisetCons(b);
    assert multiset(a[1..]) == multiset(a) - multiset{a[0]};
    assert multiset(b[1..]) == multiset(b) - multiset{a[0]};
  }

  /** The events of a log sorted by id are in nondecreasing id order. */
  lemma SortedEventsAreNondecreasing(rs: seq<DroppedRecord>)
    requires SortedById(rs)
    ensures NondecreasingIds(EventsOf(rs))
  {
    forall i, j | 0 <= i < j < |rs| ensures EventsOf(rs)[i].id <= EventsOf(rs)[j].id {
      EventsOfAt(rs, i);
      EventsOfAt(rs, j);
    }
  }

  /** The score on the results screen (the true verdicts in the answers)
      and the score in the share text agree in every reachable state. */
  lemma ScoresAgree(p: Page)
    requires Inv(p)
    ensures TotalCorrect(p.quiz) == CreateShareText(p.dropped).correct
  {
    CountCorrectConcat(p.dropped.before, p.dropped.during);
  }

  /** Once a quiz over a catalog listed in ascending id order is complete,
      the merged logs in id order are exactly the catalog, and glyph `i` is
      green exactly when the answer recorded for catalog event `i` is true. */
  lemma CompletedShareFollowsCatalog(p: Page)
    requires IncreasingIds(p.quiz.events) && Inv(p) && p.quiz.isComplete
    ensures EventsOf(SortById(AllRecords(p.dropped))) == p.quiz.events
    ensures var t := CreateShareText(p.dropped);
      && |t.glyphs| == |p.quiz.events|
      && forall i :: 0 <= i < |p.quiz.events| ==>
           p.quiz.events[i].id in p.quiz.answers
           && (t.glyphs[i] == CorrectGlyph <==> p.quiz.answers[p.quiz.events[i].id])
  {
    var q := p.quiz;
    var all := AllRecords(p.dropped);
    var s := SortById(all);
    assert q.events[..q.currentEventIndex] == q.events;
    SortedEventsAreNondecreasing(s);
    SortIsPermutation(all);
    SortKeepsEvents(all);
    SortedPermutationIsUnique(EventsOf(s), q.events);
    var t := CreateShareText(p.dropped);
    forall i | 0 <= i < |q.events|
      ensures q.events[i].id in q.answers && (t.glyphs[i] == CorrectGlyph <==> q.answers[q.events[i].id])
    {
      EventsOfAt(s, i);
      assert s[i] in multiset(all);
      assert s[i] in all;
    }
  }

  /** Placing every event in its right zone from the start of a non-empty
      catalog with distinct ids ends with an all-green row and a full score. */
  lemma AllCorrectGivesFullScore(events: seq<HistoricalEvent>)
    requires UniqueIds(events) && 0 < |events|
    ensures var t := CreateShareText(Run(Initial(events), CorrectZones(events)).dropped);
      && |t.glyphs| == |events|
      && (forall i :: 0 <= i < |t.glyphs| ==> t.glyphs[i] == CorrectGlyph)
      && t.correct == |events|
  {
    var p0 := Initial(events);
    var p := Run(p0, CorrectZones(events));
    assert events[0..] == events;
    CorrectRunIsAllCorrect(p0);
    RunPreservesInv(p0, CorrectZones(events));
    AllCorrectShareText(p.dropped);
  }

  /** When every record is correct, every glyph is green and the score
      numerator is the number of records. */
  lemma AllCorrectShareText(d: DroppedEvents)
    requires AllCorrect(AllRecords(d))
    ensures var t := CreateShareText(d);
      && (forall i :: 0 <= i < |t.glyphs| ==> t.glyphs[i] == CorrectGlyph)
      && t.correct == |d.before| + |d.during|
  {
    var all := AllRecords(d);
    var s := SortById(all);
    assert AllCorrect(s) by {
      SortIsPermutation(all);
      forall r | r in s ensures r.isCorrect {
        assert r in multiset(all);
      }
    }
    AllCorrectCount(all);
    CountCorrectConcat(d.before, d.during);
  }

  /** A log is all correct exactly when its correct count is its length. */
  lemma {:induction false} AllCorrectCount(rs: seq<DroppedRecord>)
    ensures AllCorrect(rs) <==> CountCorrect(rs) == |rs|
  {
    if rs != [] {
      AllCorrectCount(rs[1..]);
    }
  }

  /** With the shipped ten-event catalog, all placements correct give ten
      green squares and the score 10/10. */
  lemma TenOutOfTen()
    ensures var t := CreateShareText(Run(Initial(HistoricalEvents), CorrectZones(HistoricalEvents)).dropped);
      && |t.glyphs| == 10
      && (forall i :: 0 <= i < 10 ==> t.glyphs[i] == CorrectGlyph)
      && t.correct == 10 && t.total == 10
  {
    CatalogIsOrderedById();
    AllCorrectGivesFullScore(HistoricalEvents);
  }
}
