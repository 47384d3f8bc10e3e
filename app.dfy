/** The page component's state cells and its drop handler
    (src/app/page.tsx:9-55): the two cells are fields, and the handler
    builds the new values and then overwrites both cells. */
module App {
  import opened Types
  import opened Events
  import opened Quiz

  class Home {
    var quizState: QuizState
    var droppedEvents: DroppedEvents

    /** The contents of both state cells as one value. */
    function State(): Page
      reads this
    {
      Page(quizState, droppedEvents)
    }

    /** The component always runs over the shipped catalog, and its state
        is one the quiz can reach. */
    ghost predicate Valid()
      reads this
    {
      quizState.events == HistoricalEvents && Inv(State())
    }

    /** The initial state of both cells (src/app/page.tsx:10-23). */
    constructor ()
      ensures Valid()
      ensures State() == Initial(HistoricalEvents)
    {
      quizState := QuizState(HistoricalEvents, 0, map[], false);
      droppedEvents := DroppedEvents([], []);
    }

    /** The drop handler: does nothing with no current event; otherwise
        records the verdict, appends to the zone's log and advances. */
    method HandleDrop(zone: DropZone)
      requires Valid()
      modifies this
      ensures Valid()
      ensures State() == Drop(old(State()), zone)
      ensures quizState.currentEventIndex == Min(old(quizState.currentEventIndex) + 1, |HistoricalEvents|)
    {
      ghost var before := State();
      var current := CurrentEvent(quizState);
      if current.None? {
        return;
      }
      var e := current.value;
      var isCorrect := IsCorrect(zone, e.year);
      var record := DroppedRecord(e, isCorrect);
      var newDroppedEvents := Append(droppedEvents, zone, record);
      var newAnswers := quizState.answers[e.id := isCorrect];
      var newIndex := quizState.currentEventIndex + 1;
      var isComplete := newIndex == |quizState.events|;
      droppedEvents := newDroppedEvents;
      quizState := quizState.(answers := newAnswers, currentEventIndex := newIndex, isComplete := isComplete);
      assert State() == Drop(before, zone) by {
        DropWithCurrent(before, zone);
      }
      assert Inv(State()) by {
        CatalogIsOrderedById();
        DropPreservesInv(before, zone);
      }
    }
  }
}
