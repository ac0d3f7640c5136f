/** What `renderItem` hands to each session card (frontend/screens/MySessions.js,
    lines 108-126). */
module SessionCards {
  import opened SessionRecords
  import opened SessionDuration

  /** The route a card's press navigates to, with the whole record as its parameter. */
  const DetailsRoute: string := "SessionDetails"

  datatype Card = Card(
    imageUrl: string,
    startDate: Instant,
    duration: seq<int>,
    status: string,
    numOfIncidents: int,
    route: string,
    session: Session)

  /** The `duration` prop: the elapsed time for a completed session, nothing otherwise. */
  function DurationFor(item: Session): (r: seq<int>)
    ensures IsCompleted(item) ==> r == TimeDuration(item.startDate, item.endDate)
    ensures |r| == 2 <==> IsCompleted(item)
    ensures r == [] <==> !IsCompleted(item)
  {
    TimeDurationBounds(item.startDate, item.endDate);
    if IsCompleted(item) then TimeDuration(item.startDate, item.endDate) else []
  }

  /** The props of one card; pressing it navigates to the details route with the record. */
  function CardFor(item: Session): (c: Card)
    ensures c.session == item && c.route == DetailsRoute
    ensures c.imageUrl == item.imageUrl && c.startDate == item.startDate
    ensures c.status == item.status && c.numOfIncidents == item.numOfIncidents
    ensures c.duration != [] <==> IsCompleted(item)
    ensures IsCompleted(item) ==> c.duration == TimeDuration(item.startDate, item.endDate)
  {
    Card(item.imageUrl, item.startDate, DurationFor(item), item.status, item.numOfIncidents,
         DetailsRoute, item)
  }

  /** The cards of the list, one per session, in list order. */
  function Cards(items: seq<Session>): (r: seq<Card>)
    ensures |r| == |items|
    ensures forall i :: 0 <= i < |items| ==> r[i] == CardFor(items[i])
  {
    if items == [] then [] else [CardFor(items[0])] + Cards(items[1..])
  }

  /** The sessions behind a list of cards, as navigation would pass them on. */
  function SessionsShown(cards: seq<Card>): (r: seq<Session>)
    ensures |r| == |cards|
    ensures forall i :: 0 <= i < |cards| ==> r[i] == cards[i].session
  {
    if cards == [] then [] else [cards[0].session] + SessionsShown(cards[1..])
  }

  /** Every card carries its session, so the cards determine the list they show. */
  lemma CardsShowTheirSessions(items: seq<Session>)
    ensures SessionsShown(Cards(items)) == items
  {
    var r := SessionsShown(Cards(items));
    assert |r| == |items|;
    forall i | 0 <= i < |items| ensures r[i] == items[i] {
    }
  }
}
