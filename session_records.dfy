/** Session records as the "My Trips" screen receives them from the backend and as
    it keeps them after normalisation (frontend/screens/MySessions.js, lines 44-52). */
module SessionRecords {

  datatype Option<+T> = None | Some(value: T)

  /** An instant as the number of milliseconds since the epoch (what `Date.getTime()` gives). */
  type Instant = int

  /** One session record. `D` is the type of the two date fields: the wire format carries
      them as strings, the normalised record as instants. Every other field of the wire
      object is carried along unchanged in `otherFields`. */
  datatype SessionOf<D> = SessionOf(
    imageUrl: string,
    startDate: D,
    endDate: D,
    status: string,
    numOfIncidents: int,
    otherFields: map<string, string>)

  type RawSession = SessionOf<string>
  type Session = SessionOf<Instant>

  predicate IsActive<D>(s: SessionOf<D>) {
    s.status == "ACTIVE"
  }

  predicate IsCompleted<D>(s: SessionOf<D>) {
    s.status == "COMPLETED"
  }

  /** Two records agree on every field except the two dates. */
  predicate AgreesExceptDates<A, B>(x: SessionOf<A>, y: SessionOf<B>) {
    && x.imageUrl == y.imageUrl
    && x.status == y.status
    && x.numOfIncidents == y.numOfIncidents
    && x.otherFields == y.otherFields
  }

  /** `{ ...item, startDate: new Date(item.startDate), endDate: new Date(item.endDate) }`;
      `parse` stands for the `Date` constructor. */
  function Normalize(item: RawSession, parse: string -> Instant): (r: Session)
    ensures AgreesExceptDates(item, r)
    ensures r.startDate == parse(item.startDate) && r.endDate == parse(item.endDate)
  {
    SessionOf(item.imageUrl, parse(item.startDate), parse(item.endDate),
              item.status, item.numOfIncidents, item.otherFields)
  }

  /** `json.sessionData.map(...)`: one normalised record per wire record, at the same index. */
  function NormalizeAll(raw: seq<RawSession>, parse: string -> Instant): (r: seq<Session>)
    ensures |r| == |raw|
    ensures forall i :: 0 <= i < |raw| ==>
              && AgreesExceptDates(raw[i], r[i])
              && r[i].startDate == parse(raw[i].startDate)
              && r[i].endDate == parse(raw[i].endDate)
  {
    if raw == [] then [] else [Normalize(raw[0], parse)] + NormalizeAll(raw[1..], parse)
  }
}
