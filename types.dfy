/** The entity types of the quiz (src/types/index.ts). */
module Types {
  /** One entry of the event catalog. In the source `id` is a decimal string;
      here it is the number that string denotes, which is what both the answer
      map and the share-text sort key on. */
  datatype HistoricalEvent = HistoricalEvent(id: nat, description: string, year: int)

  /** Progress through the catalog: the events, an index of the current one,
      the verdict recorded for every event id answered so far, and whether
      the last event has been answered. */
  datatype QuizState = QuizState(
    events: seq<HistoricalEvent>,
    currentEventIndex: nat,
    answers: map<nat, bool>,
    isComplete: bool)

  /** The two drop targets: before the reference year, or during the
      lifetime that starts in it. */
  datatype DropZone = Before | During
}
