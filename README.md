# speedwatch-rs, modelled in Dafny

speedwatch measures an internet connection's download bandwidth and
latency at a fixed interval and pushes each result to a Prometheus
remote-write endpoint, authenticated with HTTP Basic credentials. The
program is one file, `src/main.rs`. This project models the three pieces of
it that hold logic: assembling the write request, authenticating and
transferring the HTTP request, and the interval scheduler.

- `common.dfy`: the `Option`/`Result` wrappers and the `byte` type.
- `metrics.dfy` (module `Metrics`): labels, samples, time series and the
  write request. It also holds the conversion of the wall clock into an `i64`
  millisecond timestamp, and `Assemble`, which builds the two series:
  bandwidth first, latency second.
- `base64.dfy` (module `Base64`): the standard base64 alphabet with padding,
  from section 4 of RFC 4648. The strict decoder beside it is a reference
  for the proof that encoding loses nothing.
- `basic_auth.dfy` (module `BasicAuth`): the value `"Basic " + base64(user ":" password)`
  from section 2 of RFC 7617, built over the UTF-8 bytes of the credentials.
  The parser beside it shows that a server gets the credentials back.
- `headers.dfy` (module `HttpHeaders`): the `http` crate's `HeaderMap`. It
  is a list of entries with distinct names, each holding one or more values.
  It supports `insert` (replace in place), `append` (add after the existing
  values) and `iter` (every pair, in order). The class `HeaderMap` is the
  request's mutable header map.
- `delivery.dfy` (module `Delivery`): reqwest's `RequestBuilder` as a
  class, and `Transfer`, the loop that copies the request's parts into it.
- `speedwatch.dfy` (module `Speedwatch`): `CollectAndPush`, one whole
  cycle, with the host-name, clock, encoding and transport exits in the
  source's order.
- `scheduler.dfy` (module `Scheduler`): `execute_at_interval` as a method
  over a finite sequence of task outcomes. It records the calls and sleeps
  it performs.

Things the model takes as parameters rather than performing: the host
name, the wall clock, the measured values, the remote-write encoder and
the transport's answer. Elapsed task times and sleeps are durations in
nanoseconds. The float measurements are of a type parameter `V`, because
they are only passed through.

A non-2xx response is not a delivery failure in the code: `send()` fails
only when no response arrives, and the status is only logged. The model
follows the code, so any response ends the cycle successfully.

## Model

| member | source | states |
|---|---|---|
| `Metrics.EpochMillis` | src/main.rs:61-66 | A clock before the epoch is an error, and only then. A count above `i64::MAX` is an error, never a wrapped value, and only then. Otherwise the conversion succeeds, and the timestamp is the whole number of milliseconds since the epoch (floor of the nanoseconds). |
| `Metrics.Assemble` | src/main.rs:68-104 | The request has exactly two series: bandwidth at index 0 and latency at index 1. Each series has two labels with distinct names: `hostname` with the host, and `__name__` with its metric name. Each series has the single sample (its value, the cycle's timestamp). |
| `Metrics.AssembledMetrics` | src/main.rs:68-104 | Looking a metric name up finds the series carrying that measurement. Every series carries the host label, and every sample carries the same timestamp. |
| `Base64.Encode` | src/main.rs:116-119 | The output has `4 * ceil(n / 3)` characters, each from the base64 alphabet or `=`, all visible ASCII. |
| `Base64.DecodeEncode` | src/main.rs:116-119 | Strict decoding of the encoding gives back the original bytes. |
| `BasicAuth.Utf8Concat` | src/main.rs:116-118 | The bytes of `format!("{}:{}", user, password)` are the user's bytes, one colon byte, then the password's bytes. |
| `BasicAuth.Utf8NoColon` | src/main.rs:116-118 | A user name without `:` has no colon byte in its UTF-8 form. |
| `BasicAuth.AuthorizationIsHeaderValue` | src/main.rs:120-123 | The `Basic` value is visible ASCII of the stated length, so the `parse().unwrap()` that makes it a `HeaderValue` cannot panic. |
| `BasicAuth.AuthorizationRoundTrip` | src/main.rs:116-123 | For a user name without a colon, parsing the header value gives back exactly the UTF-8 user name and password. |
| `HttpHeaders.InsertValue` | src/main.rs:120-123 | Insertion keeps every name's position. A new name goes at the end. |
| `HttpHeaders.InsertValid` | src/main.rs:120-123 | Insertion keeps names unique and no entry empty. |
| `HttpHeaders.InsertSets` | src/main.rs:120-123 | After insertion, the name's only value is the inserted one, whatever values it had before. |
| `HttpHeaders.InsertKeepsOthers` | src/main.rs:120-123 | Insertion leaves every other name's values unchanged. |
| `HttpHeaders.InsertedPairs` | src/main.rs:120-123 | The iterated pairs carry the inserted value once under its name, and every other name's values as before. |
| `HttpHeaders.PairsValues` | src/main.rs:134 | Iterating a header map yields, for each name, exactly the values stored under it, in order. |
| `HttpHeaders.AppendValue` | src/main.rs:135 | Appending keeps every name's position. A new name goes at the end. |
| `HttpHeaders.AppendValid` | src/main.rs:135 | Appending keeps names unique and no entry empty. |
| `HttpHeaders.RebuildFromPairs` | src/main.rs:134-136 | Appending every iterated pair, in order, to empty headers rebuilds the original header map. |
| `HttpHeaders.HeaderMap.constructor` | src/main.rs:120 | The mutable map starts as the encoder's headers. |
| `HttpHeaders.HeaderMap.Insert` | src/main.rs:120-123 | The map becomes the insertion of the value into its old contents, and stays valid. |
| `Delivery.RequestBuilder.constructor` | src/main.rs:133 | The builder has the given method and URL, and no headers or body. |
| `Delivery.RequestBuilder.Header` | src/main.rs:135 | The builder's headers become the old headers with the pair appended. The body is unchanged. |
| `Delivery.RequestBuilder.Body` | src/main.rs:137 | The body is set. The headers are unchanged. |
| `Delivery.Transfer` | src/main.rs:131-137 | The builder gets the request's method, URI and body. After appending every header pair in iteration order, its header map equals the request's. |
| `Speedwatch.AuthorizedRequest` | src/main.rs:116-137 | The sent request keeps the encoder's method, URI, body and every other header. `Authorization` has the single value `Basic` + base64(user:password), which is a valid header value and, when the user name has no colon, gives the credentials back. |
| `Speedwatch.CollectAndPush` | src/main.rs:45-138 | The cycle fails, in this order, on a host-name error, a clock error, an encoding error or a transport error, and returns exactly that error. Otherwise it sends the encoded request with the credentials inserted. |
| `Scheduler.Cycle` | src/main.rs:157-163 | A successful cycle is one call, then a single sleep of exactly `interval - elapsed` when `elapsed < interval`, and no sleep otherwise. Call time plus sleep is `max(elapsed, interval)`. |
| `Scheduler.StopsAtFirstFailure` | src/main.rs:153-164 | The scheduler stops at the first failing call, with that call's error. It makes exactly `k + 1` calls and does nothing after the failing one. |
| `Scheduler.ExhaustedIffAllCompleted` | src/main.rs:153-164 | The loop ends other than by a task error exactly when no call failed. |
| `Scheduler.AllCompletedRun` | src/main.rs:153-164 | With no failures, the events are the cycles' events, one call per outcome. |
| `Scheduler.CyclesKeepTime` | src/main.rs:159-163 | Over successful cycles, call time plus sleep time equals the sum over cycles of the longer of the call and the interval (`MaxTotal`), so no lag carries over and an overrun is never made up for by a shorter later sleep; hence it is at least one interval per cycle. |
| `Scheduler.CyclesOnSchedule` | src/main.rs:159-163 | When no call overruns the interval, calls and sleeps take exactly one interval per cycle, so the n-th call starts n intervals after the first. |
| `Scheduler.ExecuteAtInterval` | src/main.rs:147-165 | The interval is `interval_minutes * 60` seconds, with no `u64` overflow. The recorded calls, sleeps and stop reason are those of the recursive definition `Run`. |

## Left out

- The bandwidth and latency measurements (src/main.rs:48-58) are network-bound and live in another crate. Their results are the opaque inputs `bandwidth` and `latency`.
- `hostname::get` and `SystemTime::now` (src/main.rs:46, 61) are operating-system calls. Their results, including the host-name error, are parameters, and the clock is given as signed nanoseconds from the epoch.
- The lossy `OsString`-to-`String` conversion of the host name (src/main.rs:71, 88): the host name arrives as a string.
- URL parsing and `WriteRequest::build_http_request` (src/main.rs:106-114) are protobuf and snappy encoding in a library that is not part of this model. Together they are the parameter `encode`, which may fail. The map it returns is assumed valid, as `http::HeaderMap` guarantees.
- Building the reqwest client with its 30-second timeout, and `send()` (src/main.rs:126-129, 138), are network I/O. The transport's error is a parameter. A failure to build the client is not modelled.
- `reqwest::Method::from_str` (src/main.rs:132) is not modelled: it parses a method taken from a valid `http::Method`, so it does not fail. The re-parsing of names and values in `RequestBuilder::header` is left out for the same reason, as are the client's default headers added at send time.
- Header names are taken in the lower-case form `HeaderName` stores; case folding is not modelled. `HeaderMap`'s hashing, capacity limit and internal layout are not modelled, only its observable insert, append and iteration order.
- `thread::sleep` and `Instant` (src/main.rs:154, 160-162): sleeps are recorded as events, and elapsed times are inputs. The time between reading `elapsed` and starting the sleep is not modelled.
- Scheduler.ExecuteAtInterval: the real loop never returns normally. The model takes a finite sequence of outcomes and stops with `OutcomesExhausted` when it runs out.
- Scheduler.ExecuteAtInterval: `interval_minutes * 60` overflowing `u64` (a panic or a wrap, depending on the build) is excluded by a precondition rather than modelled.
- Wiring `collect_and_push` into `execute_at_interval` in `main` (src/main.rs:178-183) is plain composition and is not modelled separately. The logging, `tracing_subscriber` setup and `clap` parsing (src/main.rs:19-43, 140-143, 167-176) are configuration and I/O.
- BasicAuth.AuthorizationRoundTrip: the round trip is proved only for user names without a colon. Section 2 of RFC 7617 forbids a colon there, and the program does not check for one.
