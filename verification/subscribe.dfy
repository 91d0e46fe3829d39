/** The MQTT ingestion handler (internal/subscribe/subscribe.go): what one
    delivered message does to storage, and what a stream of them does. */
module Subscribe {
  import opened Wrappers
  import opened Types
  import Database

  /** One delivery: the topic it arrived on and the result of JSON-decoding
      its payload into a reading (None when decoding failed). */
  datatype Message = Message(topic: string, decoded: Option<Record>)

  /** The validation check: a reading with an empty device id, a zero
      humidity, a zero temperature or an unset timestamp is incomplete. */
  function MissingRequiredFields(r: Record): (missing: bool)
    ensures !missing ==> |r.deviceId| > 0 && r.humidity != 0.0 && r.temperature != 0.0 && r.timestamp != UnsetTime
    ensures r.deviceId == "" ==> missing
    ensures r.humidity == 0.0 || r.temperature == 0.0 ==> missing
    ensures r.timestamp == UnsetTime ==> missing
  {
    r.deviceId == "" || r.humidity == 0.0 || r.temperature == 0.0 || r.timestamp == UnsetTime
  }

  datatype Drop = UnknownTopic | Undecodable | MissingFields

  /** What the handler decides to do with one message. */
  datatype Action = Ignore(reason: Drop) | Insert(rec: Record)

  /** The handler's decision: the topic first, then decoding, then validation. */
  function Decide(configuredTopic: string, m: Message): (a: Action)
    ensures a.Insert? <==> m.topic == configuredTopic && m.decoded.Some? && !MissingRequiredFields(m.decoded.value)
    ensures a.Insert? ==> a.rec == m.decoded.value
    ensures a == Ignore(UnknownTopic) <==> m.topic != configuredTopic
    ensures a == Ignore(Undecodable) <==> m.topic == configuredTopic && m.decoded.None?
  {
    if m.topic != configuredTopic then Ignore(UnknownTopic)
    else match m.decoded
      case None => Ignore(Undecodable)
      case Some(r) => if MissingRequiredFields(r) then Ignore(MissingFields) else Insert(r)
  }

  /** The line the handler logs before it returns. */
  datatype LogLine =
    | UnknownTopicLogged(topic: string)
    | UnmarshalErrorLogged
    | MissingFieldsLogged
    | InsertErrorLogged(error: Database.DbError)
    | DataInsertedLogged(rec: Record)

  /** The table after the message, the storage calls made, and the log line. */
  datatype Handled = Handled(table: Database.Table, calls: seq<Database.StorageCall>, log: LogLine)

  /** messagePubHandler: at most one insert; its error is logged and dropped. */
  function HandleMessage(configuredTopic: string, m: Message, backend: Database.Backend, t: Database.Table): (h: Handled)
    ensures m.topic != configuredTopic ==> h.calls == [] && h.table == t && h.log == UnknownTopicLogged(m.topic)
    ensures m.topic == configuredTopic && m.decoded.None? ==> h.calls == [] && h.table == t && h.log == UnmarshalErrorLogged
    ensures m.decoded.Some? && MissingRequiredFields(m.decoded.value) ==> h.calls == [] && h.table == t
    ensures m.topic == configuredTopic && m.decoded.Some? && MissingRequiredFields(m.decoded.value) ==> h.log == MissingFieldsLogged
    ensures m.topic == configuredTopic && m.decoded.Some? && !MissingRequiredFields(m.decoded.value) ==>
      var r := m.decoded.value;
      && h.calls == [Database.InsertCall(r)]
      && h.table == (if Database.Stores(backend, r) then t + [r] else t)
      && h.log == (if Database.Stores(backend, r) then DataInsertedLogged(r)
                   else if backend.Down? then InsertErrorLogged(Database.Unreachable(backend.reason))
                   else InsertErrorLogged(Database.InvalidText))
    ensures forall c :: c in h.calls ==> c.InsertCall?
  {
    match Decide(configuredTopic, m)
    case Ignore(UnknownTopic) => Handled(t, [], UnknownTopicLogged(m.topic))
    case Ignore(Undecodable) => Handled(t, [], UnmarshalErrorLogged)
    case Ignore(MissingFields) => Handled(t, [], MissingFieldsLogged)
    case Insert(r) =>
      match Database.InsertDeviceData(backend, t, r)
      case Failure(e) => Handled(t, [Database.InsertCall(r)], InsertErrorLogged(e))
      case Success(t') => Handled(t', [Database.InsertCall(r)], DataInsertedLogged(r))
  }

  /** The handler keeps nothing between messages: the calls it makes and the
      line it logs do not depend on what the table already holds. */
  lemma HandlerIsStateless(configuredTopic: string, m: Message, backend: Database.Backend, t1: Database.Table, t2: Database.Table)
    ensures HandleMessage(configuredTopic, m, backend, t1).calls == HandleMessage(configuredTopic, m, backend, t2).calls
    ensures HandleMessage(configuredTopic, m, backend, t1).log == HandleMessage(configuredTopic, m, backend, t2).log
  {
  }

  /** One message together with whether the database could be reached when it was handled. */
  datatype Delivery = Delivery(message: Message, backend: Database.Backend)

  /** The table after the handler has run on each delivery in turn. */
  function Ingest(configuredTopic: string, ds: seq<Delivery>, t: Database.Table): Database.Table
    decreases |ds|
  {
    if |ds| == 0 then t
    else Ingest(configuredTopic, ds[1..], HandleMessage(configuredTopic, ds[0].message, ds[0].backend, t).table)
  }

  /** The reading one delivery adds to the table: its decoded reading when it
      passes the checks and the database stores it, nothing otherwise. */
  function Admitted(configuredTopic: string, d: Delivery): seq<Record>
  {
    var a := Decide(configuredTopic, d.message);
    if a.Insert? && Database.Stores(d.backend, a.rec) then [a.rec] else []
  }

  /** The readings of the deliveries that pass the checks and that a working
      database stores, each judged on its own. */
  function Accepted(configuredTopic: string, ds: seq<Delivery>): seq<Record>
    decreases |ds|
  {
    if |ds| == 0 then [] else Admitted(configuredTopic, ds[0]) + Accepted(configuredTopic, ds[1..])
  }

  /** Handling one delivery appends what it admits, whatever the table holds. */
  lemma HandleAppendsAdmitted(configuredTopic: string, d: Delivery, t: Database.Table)
    ensures HandleMessage(configuredTopic, d.message, d.backend, t).table == t + Admitted(configuredTopic, d)
  {
  }

  /** Ingesting a stream appends exactly the accepted readings, in delivery order. */
  lemma {:induction false} IngestAppendsAccepted(configuredTopic: string, ds: seq<Delivery>, t: Database.Table)
    ensures Ingest(configuredTopic, ds, t) == t + Accepted(configuredTopic, ds)
    decreases |ds|
  {
    if |ds| > 0 {
      var head := Admitted(configuredTopic, ds[0]);
      var rest := Accepted(configuredTopic, ds[1..]);
      HandleAppendsAdmitted(configuredTopic, ds[0], t);
      assert Ingest(configuredTopic, ds, t) == Ingest(configuredTopic, ds[1..], t + head);
      assert Accepted(configuredTopic, ds) == head + rest;
      IngestAppendsAccepted(configuredTopic, ds[1..], t + head);
      assert (t + head) + rest == t + (head + rest);
    }
  }

  /** Every row of the table carries all four required fields. */
  predicate AllComplete(t: Database.Table)
  {
    forall i :: 0 <= i < |t| ==> !MissingRequiredFields(t[i])
  }

  /** The handler only ever stores complete readings. */
  lemma {:induction false} IngestKeepsRowsComplete(configuredTopic: string, ds: seq<Delivery>, t: Database.Table)
    requires AllComplete(t)
    ensures AllComplete(Ingest(configuredTopic, ds, t))
    decreases |ds|
  {
    if |ds| > 0 {
      var t' := HandleMessage(configuredTopic, ds[0].message, ds[0].backend, t).table;
      assert AllComplete(t');
      IngestKeepsRowsComplete(configuredTopic, ds[1..], t');
    }
  }

  /** Every row of the table has a device id PostgreSQL accepts as text. */
  predicate AllStorable(t: Database.Table)
  {
    forall i :: 0 <= i < |t| ==> Database.StorableText(t[i].deviceId)
  }

  /** A reading whose device id holds NUL never enters the table: the handler
      logs the database's refusal and keeps nothing. */
  lemma {:induction false} IngestKeepsTextStorable(configuredTopic: string, ds: seq<Delivery>, t: Database.Table)
    requires AllStorable(t)
    ensures AllStorable(Ingest(configuredTopic, ds, t))
    decreases |ds|
  {
    if |ds| > 0 {
      var t' := HandleMessage(configuredTopic, ds[0].message, ds[0].backend, t).table;
      assert AllStorable(t');
      IngestKeepsTextStorable(configuredTopic, ds[1..], t');
    }
  }

  /** A reading whose device id is the single character NUL decodes and passes
      validation, but the insert is refused and the table is left as it was. */
  lemma NulDeviceIdIsNotStored(configuredTopic: string, t: Database.Table)
    ensures
      var r := Record("\0", 1.0, 1.0, 1);
      var h := HandleMessage(configuredTopic, Message(configuredTopic, Some(r)), Database.Up, t);
      h.table == t && h.calls == [Database.InsertCall(r)] && h.log == InsertErrorLogged(Database.InvalidText)
  {
  }

  /** A table filled only by the handler holds no row for the empty device
      id, so a query for device "" finds nothing. */
  lemma EmptyDeviceHasNoHistory(t: Database.Table, start: Time, end: Time)
    requires AllComplete(t)
    ensures Database.History(t, "", start, end) == []
  {
  }
}
