/** The "My Trips" screen (frontend/screens/MySessions.js): the state it keeps, how
    `getSessions` updates that state from one backend response (lines 25-69), and what
    one render shows (lines 102-133). */
module MySessions {
  import opened SessionRecords
  import opened SessionOrder
  import opened SessionCards

  const SessionsPath: string := "api/getSessions"

  /** The request `getSessions` sends; `accessToken` is the `x-access-tokens` header. */
  datatype Request = Request(url: string, httpMethod: string, contentType: string, accessToken: Option<string>)

  function SessionsRequest(fetchPath: string, token: Option<string>): (r: Request)
    ensures |r.url| == |fetchPath| + |SessionsPath|
    ensures r.url[..|fetchPath|] == fetchPath && r.url[|fetchPath|..] == SessionsPath
    ensures r.httpMethod == "GET" && r.contentType == "application/json"
    ensures r.accessToken == token
  {
    Request(fetchPath + SessionsPath, "GET", "application/json", token)
  }

  /** The two fields of the parsed response body that the screen reads. */
  datatype Json = Json(message: Option<string>, sessionData: Option<seq<RawSession>>)

  /** What `await fetch(...)` and `await response.json()` together produced: an exception
      (the host was unreachable, the body was not JSON) or a parsed body. */
  datatype FetchOutcome = Threw | Body(json: Json)

  datatype Toast = Toast(text1: string, text2: string, kind: string)

  function ErrorToast(message: string): (t: Toast)
    ensures t.text1 == "Error" && t.text2 == message && t.kind == "error"
  {
    Toast("Error", message, "error")
  }

  /** JavaScript truthiness of `json.message`: present and not the empty string. */
  predicate Truthy(message: Option<string>)
    ensures Truthy(message) ==> message.Some? && |message.value| > 0
    ensures message.Some? && message.value != "" ==> Truthy(message)
  {
    message.Some? && message.value != ""
  }

  /** How the screen reacts to a response: an error toast, a new list, or a caught exception. */
  datatype Reaction = Notify(message: string) | Replace(sessionData: seq<RawSession>) | Failed

  function Handle(outcome: FetchOutcome): (r: Reaction)
    ensures r.Notify? <==> outcome.Body? && Truthy(outcome.json.message)
    ensures r.Notify? ==> r.message == outcome.json.message.value
    ensures r.Replace? <==> outcome.Body? && !Truthy(outcome.json.message) && outcome.json.sessionData.Some?
    ensures r.Replace? ==> r.sessionData == outcome.json.sessionData.value
  {
    match outcome
    case Threw => Failed
    case Body(json) =>
      if Truthy(json.message) then Notify(json.message.value)
      else if json.sessionData.Some? then Replace(json.sessionData.value)
      else Failed  // `undefined.map(...)` throws a TypeError, caught like any other
  }

  /** The view one render produces: the loading indicator, or the list of cards. */
  datatype View = Loading | TripList(cards: seq<Card>)

  /** The response pipeline without the state: the normalised records, sorted by the
      comparator and reversed, are the response's records in display order. */
  lemma DisplayedResponse(raw: seq<RawSession>, parse: string -> Instant, sorted: seq<Session>)
    requires Sorted(sorted)
    requires multiset(sorted) == multiset(NormalizeAll(raw, parse))
    ensures |Reversed(sorted)| == |raw|
    ensures multiset(Reversed(sorted)) == multiset(NormalizeAll(raw, parse))
    ensures DisplayOrdered(Reversed(sorted))
  {
    ReversedPermutes(sorted);
    SortedIffDisplayOrdered(sorted);
    assert |sorted| == |multiset(sorted)| == |NormalizeAll(raw, parse)|;
  }

  class MySessionsScreen {
    /** The `sessions` state slot. */
    var sessions: array<Session>
    /** The `isLoading` state slot. */
    var isLoading: bool

    constructor ()
      ensures fresh(sessions) && sessions.Length == 0 && isLoading
    {
      sessions := new Session[0];
      isLoading := true;
    }

    /** One run of `getSessions`, given the stored token (absent when the storage read
        failed), the backend as a function of the request, and the `Date` parser. Returns
        the request sent and the toast shown, if any. */
    method GetSessions(fetchPath: string, token: Option<string>, server: Request -> FetchOutcome,
                       parse: string -> Instant)
      returns (sent: Request, toast: Option<Toast>)
      modifies this
      ensures sent == SessionsRequest(fetchPath, token)
      ensures !isLoading
      ensures Handle(server(sent)).Replace? ==>
                && fresh(sessions)
                && Sorted(sessions[..])
                && multiset(sessions[..]) == multiset(NormalizeAll(Handle(server(sent)).sessionData, parse))
      ensures !Handle(server(sent)).Replace? ==> sessions == old(sessions)
      ensures toast == if Handle(server(sent)).Notify? then Some(ErrorToast(Handle(server(sent)).message)) else None
    {
      sent := SessionsRequest(fetchPath, token);
      toast := None;
      var outcome := server(sent);
      if outcome.Body? {
        var json := outcome.json;
        if Truthy(json.message) {
          toast := Some(ErrorToast(json.message.value));
        } else if json.sessionData.Some? {
          var normalized := NormalizeAll(json.sessionData.value, parse);
          var a := new Session[|normalized|](i requires 0 <= i < |normalized| => normalized[i]);
          assert a[..] == normalized;
          SortInPlace(a);
          sessions := a;
        }
      }
      isLoading := false;
    }

    /** One render: while loading, the indicator and nothing else; otherwise
        `sessions.reverse()`, which reverses the state array itself, and one card per session. */
    method Render() returns (view: View)
      modifies sessions
      ensures isLoading ==> view == Loading && sessions[..] == old(sessions[..])
      ensures !isLoading ==> sessions[..] == Reversed(old(sessions[..])) && view == TripList(Cards(sessions[..]))
    {
      if isLoading {
        view := Loading;
      } else {
        ReverseInPlace(sessions);
        view := TripList(Cards(sessions[..]));
      }
    }
  }

  /** A freshly mounted screen gains focus, runs `getSessions` once and renders once. A data
      response shows its records in display order; any other outcome shows an empty list. */
  method FocusAndRender(fetchPath: string, token: Option<string>, server: Request -> FetchOutcome,
                        parse: string -> Instant)
    returns (view: View, toast: Option<Toast>)
    ensures Handle(server(SessionsRequest(fetchPath, token))).Replace? ==>
              && view.TripList?
              && DisplayOrdered(SessionsShown(view.cards))
              && multiset(SessionsShown(view.cards))
                 == multiset(NormalizeAll(Handle(server(SessionsRequest(fetchPath, token))).sessionData, parse))
    ensures !Handle(server(SessionsRequest(fetchPath, token))).Replace? ==> view == TripList([])
    ensures Handle(server(SessionsRequest(fetchPath, token))).Notify? <==> toast.Some?
  {
    var screen := new MySessionsScreen();
    var sent;
    sent, toast := screen.GetSessions(fetchPath, token, server, parse);
    ghost var sorted := screen.sessions[..];
    view := screen.Render();
    CardsShowTheirSessions(screen.sessions[..]);
    var reaction := Handle(server(sent));
    if reaction.Replace? {
      DisplayedResponse(reaction.sessionData, parse, sorted);
    }
  }
}
