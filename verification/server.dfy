/** The HTTP query layer (internal/server/routes.go): the route table, the
    CORS wrapper and the three /api/data handlers. */
module Server {
  import opened Wrappers
  import opened Types
  import Database

  const StatusOK := 200
  const StatusNoContent := 204
  const StatusBadRequest := 400
  const StatusInternalServerError := 500

  const MethodOptions := "OPTIONS"

  const InvalidStartMessage := "Invalid start date format"
  const InvalidEndMessage := "Invalid end date format"

  datatype Header = Header(name: string, value: string)

  /** A request: its method (verb), its path and its decoded query string, where a
      key may carry several values. */
  datatype Request = Request(verb: string, path: string, query: map<string, seq<string>>)

  datatype Body =
    | NoBody
    | PlainText(text: string)
    | Records(rows: seq<Record>)
    | AverageBody(average: Average)
    | HelloWorld
    | HealthReport

  datatype Response = Response(status: int, headers: seq<Header>, body: Body)

  /** How a request ends, together with the storage data operations made for
      it: a response is written, or a `log.Fatal` on the way stops the whole
      process with the logged reason and no response is written. */
  datatype Served =
    | Served(response: Response, calls: seq<Database.StorageCall>)
    | Halted(reason: string, calls: seq<Database.StorageCall>)

  /** `url.Values.Get`: the first value of `key`, or "" when it has none. */
  function QueryParam(q: map<string, seq<string>>, key: string): (v: string)
    ensures key !in q ==> v == ""
    ensures key in q && |q[key]| == 0 ==> v == ""
    ensures key in q && |q[key]| > 0 ==> v == q[key][0]
  {
    if key in q && |q[key]| > 0 then q[key][0] else ""
  }

  /** `http.Error`: a status and a plain-text message, no storage touched. */
  function Reject(status: int, text: string, calls: seq<Database.StorageCall>): (s: Served)
    ensures s.Served? && s.calls == calls
    ensures s.response.status == status && s.response.body == PlainText(text) && s.response.headers == []
  {
    Served(Response(status, [], PlainText(text)), calls)
  }

  // ---------------------------------------------------------------------------
  // Routes

  datatype Endpoint = Root | Health | LatestData | HistoryData | AverageData

  /** The patterns registered on the mux and the handler of each. */
  const Routes: seq<(string, Endpoint)> := [
    ("/", Root),
    ("/health", Health),
    ("/api/data/latest", LatestData),
    ("/api/data/history", HistoryData),
    ("/api/data/average", AverageData)
  ]

  /** The first registered exact pattern equal to `path`, skipping the
      catch-all "/" at the head of `routes`. */
  function ExactMatch(routes: seq<(string, Endpoint)>, path: string): (e: Option<Endpoint>)
    ensures e.Some? ==> exists i :: 0 <= i < |routes| && routes[i] == (path, e.value)
    ensures e.None? ==> forall i :: 0 <= i < |routes| ==> routes[i].0 != path
    decreases |routes|
  {
    if |routes| == 0 then None
    else if routes[0].0 == path then Some(routes[0].1)
    else
      var e := ExactMatch(routes[1..], path);
      assert forall i :: 1 <= i < |routes| ==> routes[i] == routes[1..][i - 1];
      e
  }

  /** A path equal to the pattern at position `j`, and to none before it, selects that pattern's handler. */
  lemma {:induction false} ExactMatchAt(routes: seq<(string, Endpoint)>, j: nat, path: string)
    requires j < |routes| && routes[j].0 == path
    requires forall i :: 0 <= i < j ==> routes[i].0 != path
    ensures ExactMatch(routes, path) == Some(routes[j].1)
    decreases j
  {
    if j > 0 {
      ExactMatchAt(routes[1..], j - 1, path);
    }
  }

  /** ServeMux dispatch: an exact registered path selects its handler; every
      other path falls to the subtree pattern "/". */
  function Route(path: string): (e: Endpoint)
    ensures e != Root ==> exists i :: 1 <= i < |Routes| && Routes[i] == (path, e)
    ensures e == Root <==> forall i :: 1 <= i < |Routes| ==> Routes[i].0 != path
  {
    match ExactMatch(Routes[1..], path)
    case Some(e) => e
    case None => Root
  }

  /** Each registered path reaches its own handler, and no two paths share one. */
  lemma RoutesOneToOne()
    ensures forall i :: 0 <= i < |Routes| ==> Route(Routes[i].0) == Routes[i].1
    ensures forall i, j :: 0 <= i < j < |Routes| ==> Routes[i].1 != Routes[j].1
  {
  }

  /** A path that is none of the registered patterns reaches the root handler. */
  lemma UnregisteredPathsReachRoot(path: string)
    requires forall i :: 0 <= i < |Routes| ==> Routes[i].0 != path
    ensures Route(path) == Root
  {
  }

  // ---------------------------------------------------------------------------
  // CORS

  const CorsHeaders: seq<Header> := [
    Header("Access-Control-Allow-Origin", "*"),
    Header("Access-Control-Allow-Methods", "GET, POST, PUT, DELETE, OPTIONS, PATCH"),
    Header("Access-Control-Allow-Headers", "Accept, Authorization, Content-Type, X-CSRF-Token"),
    Header("Access-Control-Allow-Credentials", "false")
  ]

  /** corsMiddleware: the four CORS headers go on every response; a preflight
      OPTIONS request is answered 204 without running `next`. A handler that
      stops the process writes no response, so nothing is added to it. */
  function Cors(req: Request, next: Request -> Served): (s: Served)
    ensures s.Served? ==> |s.response.headers| >= |CorsHeaders| && s.response.headers[..|CorsHeaders|] == CorsHeaders
    ensures req.verb == MethodOptions ==> s == Served(Response(StatusNoContent, CorsHeaders, NoBody), [])
    ensures req.verb != MethodOptions ==>
      && s.calls == next(req).calls
      && (next(req).Halted? ==> s == next(req))
      && (next(req).Served? ==>
            && s.Served?
            && s.response.status == next(req).response.status
            && s.response.body == next(req).response.body)
  {
    if req.verb == MethodOptions then Served(Response(StatusNoContent, CorsHeaders, NoBody), [])
    else
      var inner := next(req);
      match inner
      case Halted(_, _) => inner
      case Served(response, calls) => Served(response.(headers := CorsHeaders + response.headers), calls)
  }

  /** A preflight answer does not depend on the wrapped handler at all. */
  lemma PreflightIgnoresHandler(req: Request, next1: Request -> Served, next2: Request -> Served)
    requires req.verb == MethodOptions
    ensures Cors(req, next1) == Cors(req, next2)
  {
  }

  // ---------------------------------------------------------------------------
  // Data handlers

  /** The device and the time window a history or average request names. */
  datatype Window = Window(deviceId: string, start: Time, end: Time)

  /** The parameter checks of the history and average handlers: `start` is
      parsed, and rejected, before `end` is looked at; `device_id` is taken
      as it is. `parse` stands for RFC 3339 parsing. */
  function ParseWindow(q: map<string, seq<string>>, parse: string -> Option<Time>): (r: Result<Window, string>)
    ensures parse(QueryParam(q, "start")).None? ==> r == Failure(InvalidStartMessage)
    ensures parse(QueryParam(q, "start")).Some? && parse(QueryParam(q, "end")).None? ==> r == Failure(InvalidEndMessage)
    ensures r.Success? <==> parse(QueryParam(q, "start")).Some? && parse(QueryParam(q, "end")).Some?
    ensures r.Success? ==> r.value == Window(QueryParam(q, "device_id"), parse(QueryParam(q, "start")).value, parse(QueryParam(q, "end")).value)
  {
    var deviceId := QueryParam(q, "device_id");
    match parse(QueryParam(q, "start"))
    case None => Failure(InvalidStartMessage)
    case Some(start) =>
      match parse(QueryParam(q, "end"))
      case None => Failure(InvalidEndMessage)
      case Some(end) => Success(Window(deviceId, start, end))
  }

  /** GetLatestData handler: one storage call. An unreachable database stops
      the process inside the storage layer before the handler sees an error;
      a returned error becomes a 500, returned rows the body. */
  function GetLatestData(backend: Database.Backend, t: Database.Table): (s: Served)
    ensures s.calls == [Database.LatestCall]
    ensures backend.Down? ==> s == Halted(backend.reason, [Database.LatestCall])
    ensures backend.Up? ==>
      && s.Served?
      && s.response.status == StatusOK
      && s.response.body.Records?
      && Database.LatestSnapshot(t, s.response.body.rows)
  {
    match Database.GetLatestData(backend, t)
    case ProcessExit(reason) => Halted(reason, [Database.LatestCall])
    case Returned(Failure(e)) => Reject(StatusInternalServerError, Database.ErrorText(e), [Database.LatestCall])
    case Returned(Success(rows)) => Served(Response(StatusOK, [], Records(rows)), [Database.LatestCall])
  }

  /** GetHistoryData handler. */
  function GetHistoryData(req: Request, parse: string -> Option<Time>, backend: Database.Backend, t: Database.Table): (s: Served)
    ensures s.Served?
    ensures ParseWindow(req.query, parse).Failure? ==>
      s == Reject(StatusBadRequest, ParseWindow(req.query, parse).error, [])
    ensures ParseWindow(req.query, parse).Success? ==>
      var w := ParseWindow(req.query, parse).value;
      && s.calls == [Database.HistoryCall(w.deviceId, w.start, w.end)]
      && (backend.Down? ==> s.response == Response(StatusInternalServerError, [], PlainText(backend.reason)))
      && (backend.Up? && !Database.StorableText(w.deviceId) ==>
            s.response == Response(StatusInternalServerError, [], PlainText(Database.ErrorText(Database.InvalidText))))
      && (backend.Up? && Database.StorableText(w.deviceId) ==>
            && s.response.status == StatusOK
            && s.response.body.Records?
            && forall r :: multiset(s.response.body.rows)[r] == if Database.InWindow(r, w.deviceId, w.start, w.end) then multiset(t)[r] else 0)
  {
    match ParseWindow(req.query, parse)
    case Failure(msg) => Reject(StatusBadRequest, msg, [])
    case Success(w) =>
      var call := Database.HistoryCall(w.deviceId, w.start, w.end);
      match Database.GetHistoryData(backend, t, w.deviceId, w.start, w.end)
      case Failure(e) => Reject(StatusInternalServerError, Database.ErrorText(e), [call])
      case Success(rows) => Served(Response(StatusOK, [], Records(rows)), [call])
  }

  /** GetAverageData handler. An empty window reaches the caller as a 500
      carrying the scan error. */
  function GetAverageData(req: Request, parse: string -> Option<Time>, backend: Database.Backend, t: Database.Table): (s: Served)
    ensures s.Served?
    ensures ParseWindow(req.query, parse).Failure? ==>
      s == Reject(StatusBadRequest, ParseWindow(req.query, parse).error, [])
    ensures ParseWindow(req.query, parse).Success? ==>
      var w := ParseWindow(req.query, parse).value;
      var rows := Database.History(t, w.deviceId, w.start, w.end);
      && s.calls == [Database.AverageCall(w.deviceId, w.start, w.end)]
      && (backend.Down? ==> s.response == Response(StatusInternalServerError, [], PlainText(backend.reason)))
      && (backend.Up? && !Database.StorableText(w.deviceId) ==>
            s.response == Response(StatusInternalServerError, [], PlainText(Database.ErrorText(Database.InvalidText))))
      && (backend.Up? && Database.StorableText(w.deviceId) && |rows| == 0 ==>
            s.response == Response(StatusInternalServerError, [], PlainText(Database.ErrorText(Database.NullAverage))))
      && (backend.Up? && Database.StorableText(w.deviceId) && |rows| > 0 ==>
            s.response == Response(StatusOK, [], AverageBody(Average(
              Database.Round2(Database.SumHumidity(rows) / |rows| as real),
              Database.Round2(Database.SumTemperature(rows) / |rows| as real)))))
  {
    match ParseWindow(req.query, parse)
    case Failure(msg) => Reject(StatusBadRequest, msg, [])
    case Success(w) =>
      var call := Database.AverageCall(w.deviceId, w.start, w.end);
      match Database.GetAverageData(backend, t, w.deviceId, w.start, w.end)
      case Failure(e) => Reject(StatusInternalServerError, Database.ErrorText(e), [call])
      case Success(avg) => Served(Response(StatusOK, [], AverageBody(avg)), [call])
  }

  /** The health handler: the database ping either succeeds and a report is
      written, or fails and `log.Fatalf("db down: %v")` stops the process. */
  function HealthCheck(backend: Database.Backend): (s: Served)
    ensures s.calls == []
    ensures backend.Up? <==> s.Served?
    ensures backend.Up? ==> s.response == Response(StatusOK, [], HealthReport)
    ensures backend.Down? ==> s == Halted("db down: " + backend.reason, [])
  {
    match backend
    case Up => Served(Response(StatusOK, [], HealthReport), [])
    case Down(reason) => Halted("db down: " + reason, [])
  }

  /** The mux behind the CORS wrapper: each registered path runs its own
      handler, and every other path the root handler. The contents of the
      root and health bodies are not modelled beyond their kind. */
  function Dispatch(req: Request, parse: string -> Option<Time>, backend: Database.Backend, t: Database.Table): (s: Served)
    ensures (forall i :: 1 <= i < |Routes| ==> Routes[i].0 != req.path) ==> s == Served(Response(StatusOK, [], HelloWorld), [])
    ensures req.path == "/health" ==> s == HealthCheck(backend)
    ensures req.path == "/api/data/latest" ==> s == GetLatestData(backend, t)
    ensures req.path == "/api/data/history" ==> s == GetHistoryData(req, parse, backend, t)
    ensures req.path == "/api/data/average" ==> s == GetAverageData(req, parse, backend, t)
  {
    match Route(req.path)
    case Root =>
      assert Routes[1].0 == "/health" && Routes[2].0 == "/api/data/latest";
      assert Routes[3].0 == "/api/data/history" && Routes[4].0 == "/api/data/average";
      Served(Response(StatusOK, [], HelloWorld), [])
    case Health => HealthCheck(backend)
    case LatestData => GetLatestData(backend, t)
    case HistoryData => GetHistoryData(req, parse, backend, t)
    case AverageData => GetAverageData(req, parse, backend, t)
  }

  /** The handler RegisterRoutes returns: the mux wrapped in the CORS middleware. */
  function Serve(req: Request, parse: string -> Option<Time>, backend: Database.Backend, t: Database.Table): (s: Served)
    ensures s.Served? ==> |s.response.headers| >= |CorsHeaders| && s.response.headers[..|CorsHeaders|] == CorsHeaders
    ensures req.verb == MethodOptions ==>
      s.Served? && s.response.status == StatusNoContent && s.response.body == NoBody && s.calls == []
    ensures req.verb != MethodOptions ==>
      var d := Dispatch(req, parse, backend, t);
      && s.calls == d.calls
      && (d.Halted? ==> s == d)
      && (d.Served? ==> s.Served? && s.response.status == d.response.status && s.response.body == d.response.body)
  {
    Cors(req, r => Dispatch(r, parse, backend, t))
  }

  /** With both dates malformed, the start error is the one reported. */
  lemma StartCheckedBeforeEnd(req: Request, parse: string -> Option<Time>, backend: Database.Backend, t: Database.Table)
    requires parse(QueryParam(req.query, "start")).None? && parse(QueryParam(req.query, "end")).None?
    ensures GetHistoryData(req, parse, backend, t) == Reject(StatusBadRequest, InvalidStartMessage, [])
    ensures GetAverageData(req, parse, backend, t) == Reject(StatusBadRequest, InvalidStartMessage, [])
  {
  }

  /** A request without device_id still reaches storage, asking for device "". */
  lemma MissingDeviceIdPassedThrough(req: Request, parse: string -> Option<Time>, backend: Database.Backend, t: Database.Table)
    requires "device_id" !in req.query
    requires parse(QueryParam(req.query, "start")).Some? && parse(QueryParam(req.query, "end")).Some?
    ensures GetHistoryData(req, parse, backend, t).calls
      == [Database.HistoryCall("", parse(QueryParam(req.query, "start")).value, parse(QueryParam(req.query, "end")).value)]
    ensures GetAverageData(req, parse, backend, t).calls
      == [Database.AverageCall("", parse(QueryParam(req.query, "start")).value, parse(QueryParam(req.query, "end")).value)]
  {
  }

  /** A device_id holding NUL reaches storage and is refused there: both data
      handlers answer 500 with the server's refusal, whatever the table holds. */
  lemma NulDeviceIdIsRefused(req: Request, parse: string -> Option<Time>, t: Database.Table)
    requires ParseWindow(req.query, parse).Success?
    requires '\0' in QueryParam(req.query, "device_id")
    ensures GetHistoryData(req, parse, Database.Up, t).response
      == Response(StatusInternalServerError, [], PlainText(Database.InvalidTextText))
    ensures GetAverageData(req, parse, Database.Up, t).response
      == Response(StatusInternalServerError, [], PlainText(Database.InvalidTextText))
  {
  }

  /** No request served by the HTTP layer writes to the table: every storage
      call it makes is a read, and there is at most one. */
  lemma ServeOnlyReads(req: Request, parse: string -> Option<Time>, backend: Database.Backend, t: Database.Table)
    ensures |Serve(req, parse, backend, t).calls| <= 1
    ensures forall c :: c in Serve(req, parse, backend, t).calls ==> !c.InsertCall?
  {
  }
}
