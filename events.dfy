/** The static event catalog and the reference year (src/data/events.ts). */
module Events {
  import opened Types

  const GrandpaBirthYear: int := 1939

  const HistoricalEvents: seq<HistoricalEvent> := [
    HistoricalEvent(1, "Launch of the Model T Ford", 1908),
    HistoricalEvent(2, "First telephone call made", 1877),
    HistoricalEvent(3, "The United States entered World War 2", 1941),
    HistoricalEvent(4, "Completion of Eiffel Tower", 1889),
    HistoricalEvent(5, "Women can vote in the US", 1920),
    HistoricalEvent(6, "The Titanic sinks", 1912),
    HistoricalEvent(7, "India gets independence from Britain", 1947),
    HistoricalEvent(8, "First animated feature film - Snow White", 1937),
    HistoricalEvent(9, "First baby boomers are born", 1950),
    HistoricalEvent(10, "Polio vaccine developed", 1952)
  ]

  /** No two events of `events` share an id. */
  predicate UniqueIds(events: seq<HistoricalEvent>) {
    forall i, j :: 0 <= i < j < |events| ==> events[i].id != events[j].id
  }

  /** The ids of `events` strictly increase along the sequence. */
  predicate IncreasingIds(events: seq<HistoricalEvent>) {
    forall i, j :: 0 <= i < j < |events| ==> events[i].id < events[j].id
  }

  /** The shipped catalog has ten events listed in ascending id order, so
      ordering by id reproduces catalog order. */
  lemma CatalogIsOrderedById()
    ensures |HistoricalEvents| == 10
    ensures IncreasingIds(HistoricalEvents) && UniqueIds(HistoricalEvents)
  {
  }
}
