# Sensor telemetry pipeline: a Dafny model

This project models the ingestion-and-query pipeline of an MQTT-to-PostgreSQL
telemetry service written in Go. It has three parts.

- **Ingestion** (`subscribe.dfy`, module `Subscribe`). `messagePubHandler` decides what to do with each MQTT
  message. A message on a foreign topic is ignored. A payload that does not decode is dropped. A reading
  with an empty device id, zero humidity, zero temperature or an unset timestamp is dropped. Any other
  reading is inserted exactly once, and an insert error is logged and swallowed.
- **Storage** (`database.dfy`, module `Database`). The `device_data` table is an append-only `seq<Record>`.
  The module gives the meaning of the four SQL statements:
  - the `INSERT`;
  - `SELECT DISTINCT ON (device_id) … ORDER BY device_id, timestamp DESC`;
  - the `BETWEEN` history query;
  - the `ROUND(AVG(…), 2)` aggregate.

  Each statement has a specification that relates its answer to the table. An unreachable database is the
  `Backend.Down` case.
- **HTTP layer** (`server.dfy`, module `Server`). This part covers the route table of `RegisterRoutes`, the
  CORS middleware with its OPTIONS short-circuit, and the three `/api/data/*` handlers. The handler
  contracts state the order of the parameter checks, the 400/500/200 outcomes, and how each handler passes
  its parameters on to storage unchanged.

Supporting modules:
- `wrappers.dfy` holds `Option` and `Result`.
- `types.dfy` holds `Record` and `Average`.
- `lex.dfy` holds the string order used by `ORDER BY device_id`, with its order lemmas and sorted-set insertion.

Two things are inputs to the model rather than computed by it, because they are library code. JSON decoding
of a payload is given as an `Option<Record>`. RFC 3339 parsing (section 5.6 of RFC 3339) is given as a
function `parse: string -> Option<Time>`. Timestamps are integers, and 0 stands for Go's zero `time.Time`.

Three behaviours of the Go code shape the model:
- The latest-per-device answer is ordered by device id ascending, because the query says
  `ORDER BY device_id`.
- An average over an empty window is an error. AVG over no rows is NULL, and scanning NULL into a
  `float64` fails. The average handler turns that error into a 500 response.
- With the database unreachable, the latest query and the health check do not return an error. The
  latest query first runs `CREATE TABLE IF NOT EXISTS`, and the health check pings; either failure goes
  to `log.Fatal`, which stops the process. The model's `Served.Halted` outcome stands for that stop.

## Model

| member | source | states |
|---|---|---|
| Database.InsertDeviceData | internal/database/database.go:184-190 | The insert succeeds if and only if the database is up and the device id holds no NUL character. Then the table gains exactly one row, the given reading, at the end, and every earlier row is unchanged. With the database down the result is the driver error. A NUL in the device id gives PostgreSQL's encoding refusal. On either error no row is written. |
| Database.InsertExtendsHistory | internal/database/database.go:184-190 | After an insert, every history query returns its old rows plus the new row exactly when the new row lies in the window. |
| Database.InsertExtendsHistoryCounts | internal/database/database.go:145-164 | Without relying on any row order: after an insert, every history holds its old rows with their old counts, plus the new row once more exactly when it lies in the window. |
| Database.DeviceIds | internal/database/database.go:123-127 | The distinct device ids of the table, strictly ascending: an id is listed if and only if some stored row carries it. |
| Database.LatestIndex | internal/database/database.go:124-126 | For a device that has rows, points at a row of that device whose timestamp is at least every timestamp stored for that device. |
| Database.PickLatest | internal/database/database.go:124-126 | For each listed device, in order, gives a stored row of that device that no stored row of the device is newer than. |
| Database.LatestRows | internal/database/database.go:123-141 | The DISTINCT ON answer is a latest snapshot: device ids strictly ascending, every row a stored row, no stored row of a returned device newer than the returned row, and every device of the table represented. |
| Database.GetLatestData | internal/database/database.go:116-142 | With the database down, the schema statement fails and the process exits with the driver's reason; no error value is returned. With it up, returns a latest snapshot of the table. |
| Database.LatestOnePerDevice | internal/database/database.go:123-127 | A latest snapshot holds at most one row per device id. |
| Database.SnapshotsShareDevices | internal/database/database.go:123-127 | Any two valid latest answers list the same set of device ids. |
| Database.LatestSnapshotUnique | internal/database/database.go:124-126 | Any two valid answers have the same devices, in the same order, with the same newest timestamps, so only ties are left open. When no device has two rows sharing a timestamp, the answer is unique. |
| Database.NewestInsertIsLatest | internal/database/database.go:123-127 | After inserting a reading newer than every stored reading of its device, every valid latest answer contains it as that device's row. |
| Database.History | internal/database/database.go:145-164 | A row is in the history if and only if it is stored, has the device id, and satisfies start <= timestamp <= end. |
| Database.HistoryCounts | internal/database/database.go:147 | Each row is returned exactly as many times as the table holds it when it lies in the window, and zero times otherwise: no row is lost or duplicated. |
| Database.GetHistoryData | internal/database/database.go:145-164 | With the database down, gives the driver error. With it up, a device id holding NUL gives the encoding refusal. Every other device id gives exactly the stored rows of the device inside the closed window, with their multiplicities. |
| Database.InvertedWindowIsEmpty | internal/database/database.go:147 | A window whose start is after its end selects no rows. |
| Database.WindowEndsIncluded | internal/database/database.go:147 | A stored row stamped exactly at the window's start or end is returned. |
| Database.Round2 | internal/database/database.go:169-170 | ROUND(x, 2) gives a whole number of hundredths. For x >= 0 the result lies in (x - 0.005, x + 0.005], and for x < 0 in [x - 0.005, x + 0.005), so an exact half goes away from zero and every other x has exactly one answer. A non-negative x keeps its sign. |
| Database.RoundUpHalf | internal/database/database.go:169-170 | For x >= 0, gives a non-negative whole number of hundredths in (x - 0.005, x + 0.005], so an exact half rounds up. |
| Database.HalvesRoundAwayFromZero | internal/database/database.go:169-170 | ROUND(0.005, 2) is 0.01, ROUND(-0.005, 2) is -0.01 and ROUND(55.215, 2) is 55.22. |
| Database.Round2Symmetric | internal/database/database.go:169-170 | Rounding commutes with negation: ROUND(-x, 2) is -ROUND(x, 2). |
| Database.TallyWindow | internal/database/database.go:168-172 | The AVG pass counts at most the table's rows, and counts none exactly when no stored row has the device id and a timestamp inside the window. |
| Database.TallyIsHistory | internal/database/database.go:168-172 | The aggregate's count and field sums come from exactly the rows the history query returns for the same device and window. |
| Database.GetAverageData | internal/database/database.go:166-181 | With the database down, gives the driver error. With it up, a device id holding NUL gives the encoding refusal. For any other id the query fails with the NULL-scan error if and only if the window holds no rows, and otherwise gives the rounded per-field sum divided by the count over the history rows. |
| Database.AverageOfTwo | internal/database/database.go:168-172 | Two readings in the window average to the rounded midpoints of their humidity and of their temperature, unless their device id holds NUL, which is refused. |
| Database.ErrorText | internal/database/database.go:176-178 | The text of an unreachable-database error is the driver's reason. The text of a NUL refusal is the pgx rendering of SQLSTATE 22021. The text of a NULL average is the non-empty database/sql scan message naming column 0, average_humidity. |
| Subscribe.MissingRequiredFields | internal/subscribe/subscribe.go:31 | An empty device id, a zero humidity or temperature, or the zero timestamp each make a reading incomplete on its own; a reading found complete has all four set. |
| Subscribe.Decide | internal/subscribe/subscribe.go:24-44 | A message is inserted if and only if it is on the configured topic, decoded, and has all four fields set, and then the decoded reading is inserted unchanged. A foreign topic is the unknown-topic drop, and a decode failure on the right topic is the decode drop. |
| Subscribe.HandleMessage | internal/subscribe/subscribe.go:21-45 | Foreign topic, decode failure and missing fields each make no storage call, leave the table as it was, and log their own line. A valid reading makes exactly one call, an insert of that reading. A failed insert, whether the database is down or refuses a NUL in the device id, leaves the table unchanged and is only logged with its error. Every call made is an insert. |
| Subscribe.HandlerIsStateless | internal/subscribe/subscribe.go:14-21 | The calls made and the line logged for a message do not depend on the table's contents. |
| Subscribe.HandleAppendsAdmitted | internal/subscribe/subscribe.go:21-45 | Handling one message appends its reading when the reading passes the checks and the database stores it, and otherwise appends nothing, whatever the table holds. |
| Subscribe.IngestAppendsAccepted | internal/subscribe/subscribe.go:21-45 | Handling a stream of messages appends exactly the readings that pass the checks and that a reachable database accepts, in delivery order, each judged on its own. |
| Subscribe.IngestKeepsRowsComplete | internal/subscribe/subscribe.go:31-36 | If every stored row has all four fields set, that still holds after handling any stream. |
| Subscribe.IngestKeepsTextStorable | internal/subscribe/subscribe.go:36-39 | If every stored device id is free of NUL, that still holds after handling any stream: a reading with NUL in its id is refused by the insert and never stored. |
| Subscribe.NulDeviceIdIsNotStored | internal/subscribe/subscribe.go:24-39 | A reading with device id NUL passes the topic, decode and field checks and is sent to the insert. The insert is refused, the refusal is logged, and the table is unchanged. |
| Subscribe.EmptyDeviceHasNoHistory | internal/subscribe/subscribe.go:31-34 | In a table where every row has all four fields set, a history query for device "" returns nothing. |
| Server.QueryParam | internal/server/routes.go:81-83 | A query key that is missing, or present with no value, reads as "". Otherwise the key's first value is used. |
| Server.Reject | internal/server/routes.go:74 | `http.Error` writes a response with the given status and the text as its plain body, and makes exactly the given storage calls. |
| Server.ExactMatch | internal/server/routes.go:14-20 | A match found is a registered (pattern, handler) pair for the path. Finding none means no pattern equals the path. |
| Server.ExactMatchAt | internal/server/routes.go:14-20 | The first registered pattern equal to the path selects its handler. |
| Server.Route | internal/server/routes.go:14-20 | A path selects a non-root handler only when that handler is registered under exactly that path, and it falls to the root handler if and only if it equals none of the four other patterns. |
| Server.RoutesOneToOne | internal/server/routes.go:14-20 | Each of the five registered paths reaches its own handler, and no two reach the same one. |
| Server.UnregisteredPathsReachRoot | internal/server/routes.go:14 | A path that equals none of the registered patterns reaches the root handler, because "/" matches every path. |
| Server.Cors | internal/server/routes.go:26-43 | Every written response starts with the four CORS headers. OPTIONS is answered 204 with no body and no storage call. Any other method gets the wrapped handler's status, body and storage calls, and a handler that stops the process is passed through unchanged. |
| Server.PreflightIgnoresHandler | internal/server/routes.go:35-38 | The answer to an OPTIONS request is the same whatever handler is wrapped. |
| Server.ParseWindow | internal/server/routes.go:80-95 | A bad start gives "Invalid start date format" whatever end is. A good start with a bad end gives "Invalid end date format". Both good gives the device id as read and both parsed times. |
| Server.GetLatestData | internal/server/routes.go:71-78 | Makes exactly one latest call. With the database down the process stops inside that call and no response is written. With it up, gives 200 with a latest snapshot of the table. |
| Server.GetHistoryData | internal/server/routes.go:80-103 | A parameter error gives 400 with its message and no storage call. Otherwise there is one history call with the unchanged device id, start and end. An unreachable database gives 500 with the driver text, and a device id holding NUL gives 500 with the encoding refusal. Otherwise the answer is 200 with exactly the stored rows in the window. |
| Server.GetAverageData | internal/server/routes.go:105-128 | A parameter error gives 400 with no storage call. Otherwise there is one average call with the unchanged parameters. An unreachable database gives 500, a device id holding NUL gives 500 with the encoding refusal, and an empty window gives 500 with the NULL-scan error text. Otherwise the answer is 200 with the rounded means over the history rows. |
| Server.HealthCheck | internal/database/database.go:66-79 | With the database up the health report is written with 200; with it down the process stops with "db down: " and the reason. No data call is made either way. |
| Server.Dispatch | internal/server/routes.go:13-20 | /health runs the health check, each /api/data path runs its own handler, and a path equal to none of those four runs the root handler: 200 with the greeting and no storage call. |
| Server.Serve | internal/server/routes.go:10-24 | Every written response carries the CORS headers. OPTIONS gives 204 with no body and no storage call. Every other request gets the status, the body and the storage calls of the handler its path routes to, or stops the process when that handler does. |
| Server.StartCheckedBeforeEnd | internal/server/routes.go:85-95 | With both dates malformed, history and average both report the start error. |
| Server.MissingDeviceIdPassedThrough | internal/server/routes.go:80-97 | Without a device_id parameter, history and average still call storage, with device id "". |
| Server.NulDeviceIdIsRefused | internal/server/routes.go:97-100 | With valid dates and a device_id holding NUL, both the history and the average handler answer 500 with PostgreSQL's encoding refusal, whatever the table holds. |
| Server.ServeOnlyReads | internal/server/routes.go:71-128 | A request makes at most one storage call, and never an insert. |

## Left out

- The contents of the health report (the pool statistics and the load messages) and of the root greeting are library I/O. `Server.HealthCheck` keeps only the ping's outcome, and the root handler is a fixed greeting body.
- Connection setup and shutdown are process plumbing: `New`, the singleton handle, the environment-variable configuration and `Close`.
- The `CREATE TABLE IF NOT EXISTS` statement in `GetLatestData` has no effect on the model's table, which always exists. Only its failure, the `log.Fatal` exit, is modelled. In the Go program that statement runs nowhere else. On a fresh database, every insert before the first `/api/data/latest` request fails because the table is missing, and the reading is lost (the error is only logged). History and average queries answer 500 until then. The model starts from an existing, possibly empty table.
- Database.GetLatestData: the backend is either up or down for the whole call, so a `SELECT` that fails after the `CREATE TABLE` succeeded is not modelled. In the Go code that error is returned, and the handler answers 500 with its text.
- Server.GetLatestData: for the same reason, the 500 answer to a failed `SELECT` is not reached by any input of the model. An unreachable database stops the process instead.
- Database.GetHistoryData: neither row loop calls `rows.Err()` after `rows.Next()` returns false (database.go lines 134-141 and 156-163). A connection lost in the middle of a result therefore gives a truncated list and a nil error, which the handlers send as a 200. The model's backend gives either the whole answer or an error, so this truncation is not modelled. The same holds for Database.GetLatestData.
- The MQTT side is broker I/O: client setup, `Subscribe`, `Start`, the connect and connection-lost handlers, and the blocking `select {}`. Logging is kept only as the `LogLine` a message produces.
- JSON decoding and encoding, and `time.Parse`, are library code and enter the model as inputs. One consequence is not modelled: an empty result is a nil Go slice, which encodes as JSON `null` rather than `[]`.
- `http.Error` adds its own `Content-Type` and `X-Content-Type-Options` headers and a trailing newline to the text. The model keeps only the status, the CORS headers and the message.
- The database's `Scan` into Go values, and the statements themselves, can fail for reasons other than those modelled. The modelled errors are an unreachable database, a NULL average, and PostgreSQL's refusal of a NUL character in the device id. A query parameter carrying bytes that are not valid UTF-8 (such as `%FF`) is refused the same way, but strings here are sequences of Unicode characters, so such input cannot be written down.
- Database.Round2: the model rounds exact reals. The Go service averages float64 values, casts the result to numeric and then rounds, and float64 error is not modelled.
- Database.GetAverageData: the sums and means are exact reals, not float64 arithmetic.
- Subscribe.MissingRequiredFields: Go's float comparison `== 0` is modelled as real equality with 0.0.
- Database.LatestRows: `ORDER BY device_id` is modelled as code-point lexicographic order, which is the database's "C" collation. A database created with another collation orders device ids differently.
- The TIMESTAMP-without-time-zone conversion is not modelled. Times are plain integers.
- Concurrent writers and readers are not modelled. The Go service leaves all concurrency to PostgreSQL. Each operation here is one atomic step on the table, and a failed insert writes nothing.
- ServeMux path cleaning, redirects and host-specific patterns are not modelled. Routing is exact match, with "/" as the fallback.
