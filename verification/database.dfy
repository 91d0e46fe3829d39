/** The storage engine: the append-only device_data table held in memory, and
    the meaning of the four SQL statements run against it
    (internal/database/database.go). */
module Database {
  import opened Wrappers
  import opened Types
  import Lex

  /** The device_data table, in insertion order. It has no primary key, so
      equal rows may occur more than once. */
  type Table = seq<Record>

  /** Whether the database can be reached. A statement sent to an unreachable
      database fails with the driver's error text. */
  datatype Backend = Up | Down(reason: string)

  datatype DbError =
    | Unreachable(reason: string)
      /** A text parameter holds the NUL character, which PostgreSQL's UTF8
          encoding check refuses. */
    | InvalidText
      /** AVG over no rows is NULL, and scanning NULL into a float64 fails. */
    | NullAverage

  /** Whether PostgreSQL accepts `s` as a TEXT value: it refuses the NUL
      character (byte 0x00) in any text. */
  predicate StorableText(s: string)
  {
    '\0' !in s
  }

  /** Whether an INSERT of `r` succeeds: the database is reachable and the
      device id is a text it accepts. The other columns are numbers and a
      timestamp, which it always accepts. */
  predicate Stores(backend: Backend, r: Record)
  {
    backend.Up? && StorableText(r.deviceId)
  }

  /** One call of a storage-service data operation, as its caller makes it. */
  datatype StorageCall =
    | InsertCall(rec: Record)
    | LatestCall
    | HistoryCall(deviceId: string, start: Time, end: Time)
    | AverageCall(deviceId: string, start: Time, end: Time)

  /** The pgx driver formats a server error as severity, message and SQLSTATE;
      22021 is character_not_in_repertoire. */
  const InvalidTextText := "ERROR: invalid byte sequence for encoding \"UTF8\": 0x00 (SQLSTATE 22021)"

  /** Go's database/sql reports a NULL scanned into the first float64 column with this text. */
  const NullScanText := "sql: Scan error on column index 0, name \"average_humidity\": converting NULL to float64 is unsupported"

  /** The text `err.Error()` yields for a storage error: the driver's own
      message for an unreachable database, the server's refusal for a NUL in a
      text, the scan message for a NULL average. */
  function ErrorText(e: DbError): (text: string)
    ensures e.Unreachable? ==> text == e.reason
    ensures e.InvalidText? ==> text == InvalidTextText && |text| > 0
    ensures e.NullAverage? ==> text == NullScanText && |text| > 0
  {
    match e
    case Unreachable(reason) => reason
    case InvalidText => InvalidTextText
    case NullAverage => NullScanText
  }

  // ---------------------------------------------------------------------------
  // INSERT

  /** INSERT INTO device_data VALUES ($1, $2, $3, $4): one new row at the end,
      or an error and no row. */
  function InsertDeviceData(backend: Backend, t: Table, r: Record): (res: Result<Table, DbError>)
    ensures backend.Down? ==> res == Failure(Unreachable(backend.reason))
    ensures backend.Up? && !StorableText(r.deviceId) ==> res == Failure(InvalidText)
    ensures res.Success? <==> Stores(backend, r)
    ensures res.Success? ==> |res.value| == |t| + 1 && res.value[..|t|] == t && res.value[|t|] == r
  {
    if backend.Down? then Failure(Unreachable(backend.reason))
    else if !StorableText(r.deviceId) then Failure(InvalidText)
    else Success(t + [r])
  }

  // ---------------------------------------------------------------------------
  // SELECT DISTINCT ON (device_id) ... ORDER BY device_id, timestamp DESC

  predicate HasDevice(t: Table, d: string)
  {
    exists i :: 0 <= i < |t| && t[i].deviceId == d
  }

  lemma HasDeviceCons(t: Table, d: string)
    requires |t| > 0
    ensures HasDevice(t, d) <==> t[0].deviceId == d || HasDevice(t[1..], d)
  {
  }

  /** The distinct device ids of the table, in ascending order. */
  function DeviceIds(t: Table): (ds: seq<string>)
    ensures Lex.StrictlySorted(ds)
    ensures forall d :: d in ds <==> HasDevice(t, d)
    decreases |t|
  {
    if |t| == 0 then []
    else
      var rest := DeviceIds(t[1..]);
      assert forall d :: HasDevice(t, d) <==> t[0].deviceId == d || HasDevice(t[1..], d) by {
        forall d ensures HasDevice(t, d) <==> t[0].deviceId == d || HasDevice(t[1..], d) {
          HasDeviceCons(t, d);
        }
      }
      Lex.InsertSorted(rest, t[0].deviceId)
  }

  /** The position of a row of device `d` with the greatest timestamp. Among
      rows tied on that timestamp it picks the earliest inserted one; the query
      itself leaves that choice to the database. */
  function LatestIndex(t: Table, d: string): (k: nat)
    requires HasDevice(t, d)
    ensures k < |t| && t[k].deviceId == d
    ensures forall i :: 0 <= i < |t| && t[i].deviceId == d ==> t[i].timestamp <= t[k].timestamp
    decreases |t|
  {
    HasDeviceCons(t, d);
    if !HasDevice(t[1..], d) then
      assert forall i :: 1 <= i < |t| ==> t[i] == t[1..][i - 1];
      0
    else
      var k := LatestIndex(t[1..], d) + 1;
      assert forall i :: 1 <= i < |t| ==> t[i] == t[1..][i - 1];
      if t[0].deviceId == d && t[k].timestamp <= t[0].timestamp then 0 else k
  }

  /** Rows come in strictly ascending device id order. */
  predicate OrderedByDevice(rows: seq<Record>)
  {
    forall i, j :: 0 <= i < j < |rows| ==> Lex.Less(rows[i].deviceId, rows[j].deviceId)
  }

  /** Every returned row is a stored row. */
  predicate RowsStored(t: Table, rows: seq<Record>)
  {
    forall i :: 0 <= i < |rows| ==> rows[i] in t
  }

  /** No stored row of a returned row's device is newer than it. */
  predicate MaximalPerDevice(t: Table, rows: seq<Record>)
  {
    forall i, k :: 0 <= i < |rows| && 0 <= k < |t| && t[k].deviceId == rows[i].deviceId ==>
      t[k].timestamp <= rows[i].timestamp
  }

  /** Every device of the table has a returned row. */
  ghost predicate CoversDevices(t: Table, rows: seq<Record>)
  {
    forall d :: HasDevice(t, d) ==> HasDevice(rows, d)
  }

  /** What the DISTINCT ON query may return for table `t`: the newest row of
      each device, devices ascending. Which row represents a device whose
      newest timestamp is shared by several rows is left open. */
  ghost predicate LatestSnapshot(t: Table, rows: seq<Record>)
  {
    && OrderedByDevice(rows)
    && RowsStored(t, rows)
    && MaximalPerDevice(t, rows)
    && CoversDevices(t, rows)
  }

  /** The newest row of each device in `ds`, in the order of `ds`. */
  function PickLatest(t: Table, ds: seq<string>): (rows: seq<Record>)
    requires forall j :: 0 <= j < |ds| ==> HasDevice(t, ds[j])
    ensures |rows| == |ds|
    ensures forall j :: 0 <= j < |rows| ==> rows[j].deviceId == ds[j] && rows[j] in t
    ensures forall j, k :: 0 <= j < |rows| && 0 <= k < |t| && t[k].deviceId == ds[j] ==> t[k].timestamp <= rows[j].timestamp
    decreases |ds|
  {
    if |ds| == 0 then []
    else [t[LatestIndex(t, ds[0])]] + PickLatest(t, ds[1..])
  }

  /** The rows the latest-per-device query returns. */
  function LatestRows(t: Table): (rows: seq<Record>)
    ensures LatestSnapshot(t, rows)
  {
    var ds := DeviceIds(t);
    var rows := PickLatest(t, ds);
    assert OrderedByDevice(rows);
    assert RowsStored(t, rows);
    assert MaximalPerDevice(t, rows);
    assert CoversDevices(t, rows) by {
      forall d | HasDevice(t, d)
        ensures HasDevice(rows, d)
      {
        var i :| 0 <= i < |ds| && ds[i] == d;
        assert rows[i].deviceId == d;
      }
    }
    rows
  }

  /** How a call that may reach `log.Fatal` ends: it returns a value, or the
      whole process exits with the logged reason and nothing is returned. */
  datatype Exit<+T> = Returned(value: T) | ProcessExit(reason: string)

  /** GetLatestData. It first runs CREATE TABLE IF NOT EXISTS, and a failure
      there goes to `log.Fatal`: with the database unreachable the process
      exits and no error is returned. Otherwise the snapshot is returned. */
  function GetLatestData(backend: Backend, t: Table): (out: Exit<Result<seq<Record>, DbError>>)
    ensures backend.Down? ==> out == ProcessExit(backend.reason)
    ensures backend.Up? ==> out.Returned? && out.value.Success? && LatestSnapshot(t, out.value.value)
  {
    if backend.Down? then ProcessExit(backend.reason) else Returned(Success(LatestRows(t)))
  }

  /** A latest snapshot holds at most one row per device. */
  lemma LatestOnePerDevice(t: Table, rows: seq<Record>)
    requires LatestSnapshot(t, rows)
    ensures forall i, j :: 0 <= i < |rows| && 0 <= j < |rows| && i != j ==> rows[i].deviceId != rows[j].deviceId
  {
    forall i, j | 0 <= i < |rows| && 0 <= j < |rows| && i != j
      ensures rows[i].deviceId != rows[j].deviceId
    {
      if i < j {
        Lex.LessIrreflexive(rows[i].deviceId);
      } else {
        Lex.LessIrreflexive(rows[j].deviceId);
      }
    }
  }

  function DeviceColumn(rows: seq<Record>): (ds: seq<string>)
    ensures |ds| == |rows|
    ensures forall i :: 0 <= i < |rows| ==> ds[i] == rows[i].deviceId
  {
    seq(|rows|, i requires 0 <= i < |rows| => rows[i].deviceId)
  }

  /** No two distinct rows of one device share a timestamp. */
  predicate NoTies(t: Table)
  {
    forall i, j :: 0 <= i < |t| && 0 <= j < |t| && t[i].deviceId == t[j].deviceId && t[i].timestamp == t[j].timestamp ==> t[i] == t[j]
  }

  /** Two latest snapshots list the same devices. */
  lemma SnapshotsShareDevices(t: Table, a: seq<Record>, b: seq<Record>)
    requires LatestSnapshot(t, a) && LatestSnapshot(t, b)
    ensures forall x :: x in DeviceColumn(a) <==> x in DeviceColumn(b)
  {
    var da, db := DeviceColumn(a), DeviceColumn(b);
    forall x
      ensures x in da ==> x in db
      ensures x in db ==> x in da
    {
      if x in da {
        var i :| 0 <= i < |da| && da[i] == x;
        var k :| 0 <= k < |t| && t[k] == a[i];
        assert HasDevice(t, x);
        var j :| 0 <= j < |b| && b[j].deviceId == x;
        assert db[j] == x;
      }
      if x in db {
        var i :| 0 <= i < |db| && db[i] == x;
        var k :| 0 <= k < |t| && t[k] == b[i];
        assert HasDevice(t, x);
        var j :| 0 <= j < |a| && a[j].deviceId == x;
        assert da[j] == x;
      }
    }
  }

  /** Any two answers the query may give agree on every device and on its
      newest timestamp; when no device has tied rows they are identical. */
  lemma LatestSnapshotUnique(t: Table, a: seq<Record>, b: seq<Record>)
    requires LatestSnapshot(t, a) && LatestSnapshot(t, b)
    ensures |a| == |b|
    ensures forall i :: 0 <= i < |a| ==> a[i].deviceId == b[i].deviceId && a[i].timestamp == b[i].timestamp
    ensures NoTies(t) ==> a == b
  {
    var da, db := DeviceColumn(a), DeviceColumn(b);
    SnapshotsShareDevices(t, a, b);
    Lex.SortedUnique(da, db);
    forall i | 0 <= i < |a|
      ensures a[i].deviceId == b[i].deviceId && a[i].timestamp == b[i].timestamp
    {
      assert da[i] == db[i];
      var ka :| 0 <= ka < |t| && t[ka] == a[i];
      var kb :| 0 <= kb < |t| && t[kb] == b[i];
      assert t[ka].timestamp <= b[i].timestamp;
      assert t[kb].timestamp <= a[i].timestamp;
    }
    if NoTies(t) {
      forall i | 0 <= i < |a|
        ensures a[i] == b[i]
      {
        var ka :| 0 <= ka < |t| && t[ka] == a[i];
        var kb :| 0 <= kb < |t| && t[kb] == b[i];
      }
    }
  }

  /** A reading newer than every stored reading of its device is, once
      inserted, the row the latest query returns for that device. */
  lemma NewestInsertIsLatest(t: Table, r: Record, rows: seq<Record>)
    requires forall i :: 0 <= i < |t| && t[i].deviceId == r.deviceId ==> t[i].timestamp < r.timestamp
    requires LatestSnapshot(t + [r], rows)
    ensures r in rows
    ensures forall i :: 0 <= i < |rows| && rows[i].deviceId == r.deviceId ==> rows[i] == r
  {
    var t' := t + [r];
    assert t'[|t|] == r;
    assert HasDevice(t', r.deviceId);
    var j :| 0 <= j < |rows| && rows[j].deviceId == r.deviceId;
    forall i | 0 <= i < |rows| && rows[i].deviceId == r.deviceId
      ensures rows[i] == r
    {
      var k :| 0 <= k < |t'| && t'[k] == rows[i];
      assert t'[|t|].timestamp <= rows[i].timestamp;
      assert k < |t| ==> t'[k] == t[k];
    }
  }

  // ---------------------------------------------------------------------------
  // SELECT ... WHERE device_id = $1 AND timestamp BETWEEN $2 AND $3

  /** The WHERE clause shared by history and average: BETWEEN is closed at both ends. */
  predicate InWindow(r: Record, d: string, start: Time, end: Time)
  {
    r.deviceId == d && start <= r.timestamp <= end
  }

  /** The rows of the history query. The SQL has no ORDER BY, so the database
      promises no order; listing them in table order is this model's choice,
      and only the membership and the multiplicities (HistoryCounts) are the
      query's promise. */
  function History(t: Table, d: string, start: Time, end: Time): (rows: seq<Record>)
    ensures forall r :: r in rows <==> r in t && InWindow(r, d, start, end)
    decreases |t|
  {
    if |t| == 0 then []
    else
      var rest := History(t[1..], d, start, end);
      assert forall r :: r in t <==> r == t[0] || r in t[1..];
      (if InWindow(t[0], d, start, end) then [t[0]] else []) + rest
  }

  /** The history holds each row of the window exactly as often as the table
      does, and nothing else: no row is lost or duplicated. */
  lemma {:induction false} HistoryCounts(t: Table, d: string, start: Time, end: Time)
    ensures forall r :: multiset(History(t, d, start, end))[r] == if InWindow(r, d, start, end) then multiset(t)[r] else 0
    decreases |t|
  {
    if |t| > 0 {
      HistoryCounts(t[1..], d, start, end);
      assert t == [t[0]] + t[1..];
      assert multiset(t) == multiset([t[0]]) + multiset(t[1..]);
    }
  }

  /** GetHistoryData: the rows in the window, or the error of an unreachable
      database or of a device id the server refuses as text. */
  function GetHistoryData(backend: Backend, t: Table, d: string, start: Time, end: Time): (res: Result<seq<Record>, DbError>)
    ensures backend.Down? ==> res == Failure(Unreachable(backend.reason))
    ensures backend.Up? && !StorableText(d) ==> res == Failure(InvalidText)
    ensures res.Success? <==> backend.Up? && StorableText(d)
    ensures res.Success? ==> forall r :: multiset(res.value)[r] == if InWindow(r, d, start, end) then multiset(t)[r] else 0
  {
    if backend.Down? then Failure(Unreachable(backend.reason))
    else if !StorableText(d) then Failure(InvalidText)
    else
      HistoryCounts(t, d, start, end);
      Success(History(t, d, start, end))
  }

  /** A window whose start is after its end selects nothing. */
  lemma InvertedWindowIsEmpty(t: Table, d: string, start: Time, end: Time)
    requires start > end
    ensures History(t, d, start, end) == []
  {
  }

  /** Rows stamped exactly at either end of the window are selected. */
  lemma WindowEndsIncluded(t: Table, r: Record, start: Time, end: Time)
    requires r in t && start <= end
    requires r.timestamp == start || r.timestamp == end
    ensures r in History(t, r.deviceId, start, end)
  {
  }

  /** Inserting a row extends every history by that row exactly when it lies
      in the window (as sequences, in the table order this model picks). */
  lemma {:induction false} InsertExtendsHistory(t: Table, r: Record, d: string, start: Time, end: Time)
    ensures History(t + [r], d, start, end) == History(t, d, start, end) + (if InWindow(r, d, start, end) then [r] else [])
    decreases |t|
  {
    var tail: seq<Record> := if InWindow(r, d, start, end) then [r] else [];
    if |t| == 0 {
      assert t + [r] == [r] && [r][1..] == [];
      assert History([r], d, start, end) == tail + History([], d, start, end);
    } else {
      var head: seq<Record> := if InWindow(t[0], d, start, end) then [t[0]] else [];
      assert (t + [r])[0] == t[0];
      assert (t + [r])[1..] == t[1..] + [r];
      calc {
        History(t + [r], d, start, end);
        head + History(t[1..] + [r], d, start, end);
        { InsertExtendsHistory(t[1..], r, d, start, end); }
        head + (History(t[1..], d, start, end) + tail);
        (head + History(t[1..], d, start, end)) + tail;
        History(t, d, start, end) + tail;
      }
    }
  }

  /** The order-free form: after an insert, every history holds the rows it
      held before, with the same counts, plus the new row once more exactly
      when it lies in the window. */
  lemma InsertExtendsHistoryCounts(t: Table, r: Record, d: string, start: Time, end: Time)
    ensures multiset(History(t + [r], d, start, end))
      == multiset(History(t, d, start, end)) + (if InWindow(r, d, start, end) then multiset{r} else multiset{})
  {
    InsertExtendsHistory(t, r, d, start, end);
  }

  // ---------------------------------------------------------------------------
  // SELECT ROUND(CAST(AVG(humidity) AS numeric), 2), ROUND(CAST(AVG(temperature) AS numeric), 2) ...

  /** ROUND(x, 2) on numeric: the nearest multiple of 0.01, halves away from zero. */
  function Round2(x: real): (y: real)
    ensures (y * 100.0).Floor as real == y * 100.0
    ensures x - 0.005 <= y <= x + 0.005
    ensures x >= 0.0 ==> x - 0.005 < y
    ensures x < 0.0 ==> y < x + 0.005
    ensures x >= 0.0 ==> y >= 0.0
  {
    if x >= 0.0 then RoundUpHalf(x)
    else
      var z := RoundUpHalf(-x);
      var k := (z * 100.0).Floor;
      var y := -z;
      assert y * 100.0 == (-k) as real;
      assert ((-k) as real).Floor == -k;
      y
  }

  /** Rounding commutes with negation, as PostgreSQL's ROUND does. (That a half
      goes away from zero is the half-open bound in Round2's contract.) */
  lemma Round2Symmetric(x: real)
    ensures Round2(-x) == -Round2(x)
  {
  }

  /** Exact halves go away from zero on both sides. */
  lemma HalvesRoundAwayFromZero()
    ensures Round2(0.005) == 0.01 && Round2(-0.005) == -0.01
    ensures Round2(55.215) == 55.22
  {
  }

  /** Rounding of a non-negative value to hundredths, a half rounding up. */
  function RoundUpHalf(x: real): (y: real)
    requires x >= 0.0
    ensures (y * 100.0).Floor as real == y * 100.0
    ensures x - 0.005 < y <= x + 0.005
    ensures y >= 0.0
  {
    var k := (x * 100.0 + 0.5).Floor;
    assert k as real <= x * 100.0 + 0.5 < k as real + 1.0;
    assert k >= 0;
    var y := k as real / 100.0;
    assert y * 100.0 == k as real;
    HundredthBounds(y - x, k as real - x * 100.0);
    y
  }

  /** A difference of hundredths within half a unit is within half a hundredth. */
  lemma HundredthBounds(d: real, scaled: real)
    requires d * 100.0 == scaled && -0.5 < scaled <= 0.5
    ensures -0.005 < d <= 0.005
  {
  }

  function SumHumidity(rows: seq<Record>): real
    decreases |rows|
  {
    if |rows| == 0 then 0.0 else rows[0].humidity + SumHumidity(rows[1..])
  }

  function SumTemperature(rows: seq<Record>): real
    decreases |rows|
  {
    if |rows| == 0 then 0.0 else rows[0].temperature + SumTemperature(rows[1..])
  }

  /** The running state of the aggregate: rows counted and field sums. */
  datatype Tally = Tally(count: nat, humidity: real, temperature: real)

  /** The aggregate's single pass over the table, counting and summing the
      rows the WHERE clause keeps. */
  function TallyWindow(t: Table, d: string, start: Time, end: Time): (r: Tally)
    ensures r.count <= |t|
    ensures r.count == 0 <==> forall i :: 0 <= i < |t| ==> !InWindow(t[i], d, start, end)
    decreases |t|
  {
    if |t| == 0 then Tally(0, 0.0, 0.0)
    else
      var rest := TallyWindow(t[1..], d, start, end);
      if InWindow(t[0], d, start, end)
      then Tally(rest.count + 1, t[0].humidity + rest.humidity, t[0].temperature + rest.temperature)
      else rest
  }

  /** The aggregate ranges over exactly the rows the history query returns. */
  lemma {:induction false} TallyIsHistory(t: Table, d: string, start: Time, end: Time)
    ensures var rows := History(t, d, start, end);
      TallyWindow(t, d, start, end) == Tally(|rows|, SumHumidity(rows), SumTemperature(rows))
    decreases |t|
  {
    if |t| > 0 {
      TallyIsHistory(t[1..], d, start, end);
      var rest := History(t[1..], d, start, end);
      if InWindow(t[0], d, start, end) {
        assert ([t[0]] + rest)[1..] == rest;
      } else {
        assert [] + rest == rest;
      }
    }
  }

  /** GetAverageData: the rounded means over the window. An empty window makes
      AVG NULL, and the scan of that NULL fails. */
  function GetAverageData(backend: Backend, t: Table, d: string, start: Time, end: Time): (res: Result<Average, DbError>)
    ensures backend.Down? ==> res == Failure(Unreachable(backend.reason))
    ensures backend.Up? && !StorableText(d) ==> res == Failure(InvalidText)
    ensures backend.Up? && StorableText(d) ==> (res.Failure? <==> |History(t, d, start, end)| == 0)
    ensures backend.Up? && StorableText(d) && res.Failure? ==> res.error == NullAverage
    ensures res.Success? ==>
      var rows := History(t, d, start, end);
      |rows| > 0 &&
      res.value == Average(Round2(SumHumidity(rows) / |rows| as real), Round2(SumTemperature(rows) / |rows| as real))
  {
    if backend.Down? then Failure(Unreachable(backend.reason))
    else if !StorableText(d) then Failure(InvalidText)
    else
      var tally := TallyWindow(t, d, start, end);
      TallyIsHistory(t, d, start, end);
      if tally.count == 0 then Failure(NullAverage)
      else Success(Average(Round2(tally.humidity / tally.count as real), Round2(tally.temperature / tally.count as real)))
  }

  /** Two readings in the window average to the rounded midpoints of their
      fields, unless the device id is one the server refuses as text. */
  lemma AverageOfTwo(r1: Record, r2: Record, start: Time, end: Time)
    requires r1.deviceId == r2.deviceId
    requires InWindow(r1, r1.deviceId, start, end) && InWindow(r2, r1.deviceId, start, end)
    ensures GetAverageData(Up, [r1, r2], r1.deviceId, start, end)
      == if StorableText(r1.deviceId)
         then Success(Average(Round2((r1.humidity + r2.humidity) / 2.0), Round2((r1.temperature + r2.temperature) / 2.0)))
         else Failure(InvalidText)
  {
    var d := r1.deviceId;
    assert [r1, r2][1..] == [r2] && [r2][1..] == [];
    assert History([], d, start, end) == [];
    assert History([r2], d, start, end) == [r2] + History([], d, start, end);
    assert History([r1, r2], d, start, end) == [r1] + History([r2], d, start, end);
    assert SumHumidity([r2]) == r2.humidity + SumHumidity([]);
    assert SumHumidity([r1, r2]) == r1.humidity + SumHumidity([r2]);
    assert SumTemperature([r2]) == r2.temperature + SumTemperature([]);
    assert SumTemperature([r1, r2]) == r1.temperature + SumTemperature([r2]);
    var rows := History([r1, r2], d, start, end);
    assert |rows| as real == 2.0;
    assert SumHumidity(rows) / |rows| as real == (r1.humidity + r2.humidity) / 2.0;
    assert SumTemperature(rows) / |rows| as real == (r1.temperature + r2.temperature) / 2.0;
  }
}
