# Sliding-window-log rate limiter

This project models the core of `nepomnyaschih/limiter`, a Spring Boot rate
limiter, and proves properties of the model. A method annotated with
`@LimitMeByIp` is intercepted by an aspect. The aspect does four things:

- It resolves the client address from the forwarding headers.
- It resolves the policy: `rate` calls per `time` minutes, where the
  annotation's values override the configured defaults.
- It keeps one fixed-capacity circular buffer of call timestamps per
  `ip_class_method` key.
- It admits a call while the key's buffer holds fewer than `rate`
  timestamps, or when the call comes more than the window after the oldest
  stored timestamp. The buffer's capacity is fixed when it is created, so the
  two can differ when the rate changes later.

The model has six modules:

- `Common`: `Option` and `Result`, plus two small map lemmas.
- `Rings`: the fields of `CircularBuffer` as a value `Ring`, each buffer
  operation as a function on it, and the FIFO meaning `Contents`. The live
  entries start at `head`, and every slot index is taken modulo `capacity`.
  `Sound` holds in every reachable state, including after an overflowing
  `add`. `WellFormed` adds `tail == head + size - 1` and `size <= capacity`.
- `CircularBuffers`: the class `CircularBuffer` over an `array<int>`. Every
  method is tied to its `Rings` function and, on a well-formed buffer, to
  its effect on `Contents`.
- `SlidingWindow`: the admission rule on the list of stored timestamps, and
  replays of many calls. The window bound, the order of admitted calls, the
  decisions for a burst of calls inside one window, and the single-client
  timing scenario of the test suite are proved here.
- `IpUtils`: header precedence, the `"unknown"` test and Java's
  `split(",")[0]`.
- `LimiterAspect`:
  - `DecideOn` is a pure function: one intercepted call against a snapshot of
    the cache.
  - Lemmas cover bypass, buffer creation, key independence and the per-key
    window bound.
  - The class `Limiter` holds a `map<string, CircularBuffer>` and runs the
    same call on real buffer objects. Its methods are proved to follow
    `DecideOn`.

Java exceptions become values: `Rings.Outcome`, `Result` and
`LimiterAspect.Decision.Fault`. Rejection by the limiter is
`Decision.Reject`. The clock is a parameter `now` in milliseconds.

Points where the code differs from what its surroundings suggest. The model
follows the code in each case:

- **The window is in minutes.** The comparison is with `time * 1000 * 60`
  (`WindowMillis`).
- **Missing buffer methods.** The aspect calls `isEmpty()`, `size()` and
  `delete()` on the buffer. The buffer class has neither `isEmpty` nor
  `size` methods, and its `delete` is private. The model gives the buffer
  `IsEmpty`, `Size` and `Delete` methods that do what those names and the
  `size` field mean.
- **Two admission rules.** The aspect compares with the oldest timestamp
  first and mutates only on admission: rule `DeleteThenAdd`, used by
  `Limiter.Decide` and `Limiter.LimitMe`. The buffer also has a
  `replaceFirst` operation that the aspect never calls
  (`CircularBuffer.java:35-38`), and the expectation of the timing test at
  `LimiterApplicationTests.java:59-60` holds only for a variant built on it.
  That variant replaces the oldest timestamp by the new one on every call of
  a full buffer, and then compares. It is rule `ReplaceThenCompare`, used by
  `Limiter.DecideReplacing`.
- **The timing test needs the variant.** In the timing test with ideal
  clocks (calls at 0, 5, 10, 15, 20, 25, 66 and 66 seconds), the rule as
  written admits the eighth call, but the test expects it to be rejected.
  Only the replacing variant rejects it (`TimingTestAsWritten`,
  `TimingTestReplacing`).

## Model

| member | source | states |
|---|---|---|
| Rings.New | src/main/java/net/amzscout/limiter/circularbuffer/CircularBuffer.java:5-15 | a new buffer of positive capacity has a zero-filled array of length `capacity`, `size == 0`, `head == 0`, `tail == -1`, is well formed and holds no entries |
| CircularBuffers.CircularBuffer.constructor | src/main/java/net/amzscout/limiter/circularbuffer/CircularBuffer.java:12-15 | the constructed object's fields are `Rings.New(capacity)` with a fresh array; it is well formed and empty |
| Rings.Add | src/main/java/net/amzscout/limiter/circularbuffer/CircularBuffer.java:17-25 | `add` keeps the buffer sound and the capacity fixed, and completes normally exactly when `size < capacity` |
| Rings.AddAppends | src/main/java/net/amzscout/limiter/circularbuffer/CircularBuffer.java:17-25 | on a well-formed buffer with room, `add` writes only slot `(tail+1) % capacity`, increments `size` and `tail`, keeps `head`, stays well formed and appends the element to the contents, so no live entry is overwritten |
| Rings.AddOverflows | src/main/java/net/amzscout/limiter/circularbuffer/CircularBuffer.java:18-22 | on a full or overflowed buffer, `add` throws Buffer Overflow; the array, `head` and `tail` stay, but `size` has grown by one and the buffer is no longer well formed |
| CircularBuffers.CircularBuffer.Add | src/main/java/net/amzscout/limiter/circularbuffer/CircularBuffer.java:17-25 | the new fields are `Rings.Add` of the old; with room the contents gain the element, and when full the call throws Buffer Overflow |
| Rings.Peek | src/main/java/net/amzscout/limiter/circularbuffer/CircularBuffer.java:27-33 | `peek` throws Empty Buffer when `size == 0` and otherwise reads slot `head % capacity`, changing nothing |
| Rings.PeekOldest | src/main/java/net/amzscout/limiter/circularbuffer/CircularBuffer.java:27-33 | `peek` throws Empty Buffer on an empty buffer and otherwise returns the oldest entry |
| CircularBuffers.CircularBuffer.Peek | src/main/java/net/amzscout/limiter/circularbuffer/CircularBuffer.java:27-33 | the result is `Rings.Peek` of the fields, the first element of the contents when non-empty, Empty Buffer when `size == 0`; nothing changes |
| Rings.Delete | src/main/java/net/amzscout/limiter/circularbuffer/CircularBuffer.java:44-50 | `delete` keeps the buffer sound and its capacity fixed |
| Rings.DeleteDropsOldest | src/main/java/net/amzscout/limiter/circularbuffer/CircularBuffer.java:44-50 | on a non-empty well-formed buffer, `delete` completes, keeps the array, stays well formed and drops the first element of the contents |
| Rings.DeleteEmpty | src/main/java/net/amzscout/limiter/circularbuffer/CircularBuffer.java:45-47 | on an empty buffer, `delete` throws Empty Buffer and changes nothing |
| CircularBuffers.CircularBuffer.Delete | src/main/java/net/amzscout/limiter/circularbuffer/CircularBuffer.java:44-50 | the new fields are `Rings.Delete` of the old; a non-empty buffer loses its oldest entry, and an empty one throws with the object unchanged |
| Rings.ReplaceFirst | src/main/java/net/amzscout/limiter/circularbuffer/CircularBuffer.java:35-38 | `replaceFirst` keeps the buffer sound and its capacity fixed |
| Rings.ReplaceFirstRotates | src/main/java/net/amzscout/limiter/circularbuffer/CircularBuffer.java:35-38 | on a non-empty well-formed buffer, `replaceFirst` turns contents `c` into `c[1..] + [element]`, keeps `size`, and a full buffer stays full |
| CircularBuffers.CircularBuffer.ReplaceFirst | src/main/java/net/amzscout/limiter/circularbuffer/CircularBuffer.java:35-38 | the new fields are `Rings.ReplaceFirst` of the old, i.e. `delete` then `add`; on a non-empty well-formed buffer the contents rotate |
| Rings.IsFull | src/main/java/net/amzscout/limiter/circularbuffer/CircularBuffer.java:40-42 | `isFull` is `size == capacity` |
| Rings.IsFullMeansNoRoom | src/main/java/net/amzscout/limiter/circularbuffer/CircularBuffer.java:40-42 | on a well-formed buffer, `isFull` holds exactly when the contents fill the capacity |
| CircularBuffers.CircularBuffer.IsFull | src/main/java/net/amzscout/limiter/circularbuffer/CircularBuffer.java:40-42 | the result is `size == capacity`, which on a well-formed buffer is "the contents fill the capacity" |
| CircularBuffers.CircularBuffer.IsEmpty | src/main/java/net/amzscout/limiter/aspects/LimiterByIpAspect.java:60 | the result is `size == 0`, which on a well-formed buffer means no entries |
| CircularBuffers.CircularBuffer.Size | src/main/java/net/amzscout/limiter/circularbuffer/CircularBuffer.java:8 | the result is the `size` field, which on a well-formed buffer is the number of entries |
| LimiterAspect.Limiter.constructor | src/main/java/net/amzscout/limiter/aspects/LimiterByIpAspect.java:28-34 | the defaults are the configured values, or 0 when a setting is missing; the cache starts empty |
| LimiterAspect.HasText | src/main/java/net/amzscout/limiter/aspects/LimiterByIpAspect.java:41 | `StringUtils.hasText`: the address is present and holds a character that is not Java whitespace |
| LimiterAspect.Resolve | src/main/java/net/amzscout/limiter/aspects/LimiterByIpAspect.java:49-50 | the annotation's value when nonzero, else the configured default |
| LimiterAspect.CacheKey | src/main/java/net/amzscout/limiter/aspects/LimiterByIpAspect.java:57 | the key is `ip + "_" + className + "_" + methodName` |
| LimiterAspect.WindowMillis | src/main/java/net/amzscout/limiter/aspects/LimiterByIpAspect.java:65 | the window in milliseconds is `time * 1000 * 60`, `time` being minutes |
| LimiterAspect.Admission | src/main/java/net/amzscout/limiter/aspects/LimiterByIpAspect.java:60-71 | the admission step keeps the buffer sound and its capacity fixed, never bypasses, and, as written, leaves the buffer unchanged on rejection |
| LimiterAspect.ApplyRule | src/main/java/net/amzscout/limiter/aspects/LimiterByIpAspect.java:60-71 | the admission step performed through the buffer's methods gives the decision and the fields that `Admission` describes |
| LimiterAspect.AdmissionFollowsLog | src/main/java/net/amzscout/limiter/aspects/LimiterByIpAspect.java:60-71 | on a well-formed buffer of capacity `rate`, a call is admitted and appended while fewer than `rate` timestamps are held; when full, it is admitted exactly when `now - oldest > time*60*1000`, the oldest is then dropped and `now` appended, and otherwise it is rejected with the log unchanged |
| LimiterAspect.DecideOn | src/main/java/net/amzscout/limiter/aspects/LimiterByIpAspect.java:39-75 | one call keeps every cached buffer sound |
| LimiterAspect.BypassExactly | src/main/java/net/amzscout/limiter/aspects/LimiterByIpAspect.java:41-55 | the call bypasses the limiter exactly when the address has no text or the resolved rate or time is 0, the annotation's value winning when nonzero; a bypassed call leaves the cache as it was |
| LimiterAspect.FirstCallCreatesBuffer | src/main/java/net/amzscout/limiter/aspects/LimiterByIpAspect.java:57-61 | the first enabled call under a key creates only that key's buffer, with capacity equal to the resolved rate and holding just this call's time, and is admitted; a negative rate throws and creates nothing |
| LimiterAspect.BufferReused | src/main/java/net/amzscout/limiter/aspects/LimiterByIpAspect.java:58 | a call under a cached key adds no key and keeps its buffer's capacity, even if the resolved rate is different |
| LimiterAspect.OtherKeysUntouched | src/main/java/net/amzscout/limiter/aspects/LimiterByIpAspect.java:57-58 | a call neither adds, removes nor changes the entry of any key but its own |
| LimiterAspect.DecisionIsLocal | src/main/java/net/amzscout/limiter/aspects/LimiterByIpAspect.java:57-71 | two caches that agree on the call's key give the same decision and still agree on that key afterwards |
| LimiterAspect.KeysAreIndependent | src/test/java/net/amzscout/limiter/LimiterApplicationTests.java:169-170 | any interleaving of calls under other keys gives key `k` the same decisions and the same buffer as the calls under `k` alone |
| LimiterAspect.CallFollowsLog | src/main/java/net/amzscout/limiter/aspects/LimiterByIpAspect.java:58-71 | an enabled call with a positive rate does to its key's buffer what the log-level rule does to the buffer's contents, including creating the buffer on the first call |
| LimiterAspect.SingleKeyFollowsLog | src/main/java/net/amzscout/limiter/aspects/LimiterByIpAspect.java:57-71 | calls under one key with one enabled policy get, one by one, the decisions of the log-level replay on their times; they admit the same calls, and the buffer holds the replay's log |
| LimiterAspect.KeyAdmissionBound | src/main/java/net/amzscout/limiter/aspects/LimiterByIpAspect.java:60-71 | for calls in time order under one key and one policy, no `rate + 1` admitted calls fall within `time` minutes: admitted call `j` is more than the window after admitted call `j - rate` and every earlier one |
| LimiterAspect.KeyBurst | src/test/java/net/amzscout/limiter/LimiterApplicationTests.java:93-98 | calls under one key with one enabled policy, all at most the window after the first: the first `rate` are admitted and every later one rejected, so exactly `min(n, rate)` are admitted |
| LimiterAspect.InterleavedBurst | src/test/java/net/amzscout/limiter/LimiterApplicationTests.java:164-170 | the one-thread-at-a-time reading of the concurrent tests: whatever calls under other keys are interleaved, the calls under one key that come within the window of its first call are admitted for the first `rate` and rejected after (10 calls under one address with rate 5: 5 admitted, 5 rejected; 5 calls under each of two addresses: all admitted) |
| LimiterAspect.CacheKeyInjective | src/main/java/net/amzscout/limiter/aspects/LimiterByIpAspect.java:57 | when the address and class name contain no `_`, the key `ip_class_method` determines all three parts |
| LimiterAspect.Limiter.Limit | src/main/java/net/amzscout/limiter/aspects/LimiterByIpAspect.java:41-71 | the decision and the buffers' new fields are `DecideOn` of the old snapshot; cached buffers are never replaced |
| LimiterAspect.Limiter.LimitKey | src/main/java/net/amzscout/limiter/aspects/LimiterByIpAspect.java:58-71 | the key's buffer, created when absent, gets the admission step; only that entry of the snapshot changes |
| LimiterAspect.Limiter.Create | src/main/java/net/amzscout/limiter/aspects/LimiterByIpAspect.java:58 | a fresh empty buffer of capacity `rate` is cached under the new key, and the other entries are unchanged |
| LimiterAspect.Limiter.Install | src/main/java/net/amzscout/limiter/aspects/LimiterByIpAspect.java:58 | the buffer is cached under the new key and owned by it; the snapshot gains that key's fields and no other entry changes |
| LimiterAspect.Limiter.ApplyAt | src/main/java/net/amzscout/limiter/aspects/LimiterByIpAspect.java:60-71 | the admission step on one key's buffer changes that entry of the snapshot and no other |
| LimiterAspect.Limiter.Decide | src/main/java/net/amzscout/limiter/aspects/LimiterByIpAspect.java:39-75 | `limitMe` as written for a resolved address: its decision and new snapshot are `DecideOn` with rule `DeleteThenAdd` |
| LimiterAspect.Limiter.DecideReplacing | src/main/java/net/amzscout/limiter/circularbuffer/CircularBuffer.java:35-38 | the variant built on `replaceFirst`: its decision and new snapshot are `DecideOn` with rule `ReplaceThenCompare` |
| LimiterAspect.Limiter.LimitMe | src/main/java/net/amzscout/limiter/aspects/LimiterByIpAspect.java:39-75 | resolving the address first: an all-comma header throws with the cache unchanged, and otherwise the call is `DecideOn` of the resolved address |
| SlidingWindow.LogHoldsLastAdmitted | src/main/java/net/amzscout/limiter/aspects/LimiterByIpAspect.java:60-71 | as written, the buffer always holds the times of the last `rate` admitted calls |
| SlidingWindow.LogHoldsLastAttempts | src/main/java/net/amzscout/limiter/circularbuffer/CircularBuffer.java:35-38 | with replacement, the buffer holds the times of the last `rate` calls, admitted or not |
| SlidingWindow.AdmittedSpacing | src/main/java/net/amzscout/limiter/aspects/LimiterByIpAspect.java:62-69 | as written, each admitted call is more than the window after the admitted call `rate` places before it |
| SlidingWindow.ReplaceDecisions | src/main/java/net/amzscout/limiter/circularbuffer/CircularBuffer.java:35-38 | with replacement, call `j` is admitted exactly when `j < rate` or it is more than the window after call `j - rate` |
| SlidingWindow.BurstDecisions | src/main/java/net/amzscout/limiter/aspects/LimiterByIpAspect.java:60-69 | as written, when every call comes at most the window after the first, call `j` is admitted exactly when `j < rate`, and the admitted calls are the first `min(n, rate)` |
| SlidingWindow.TenQuickCalls | src/test/java/net/amzscout/limiter/LimiterApplicationTests.java:96-98 | ten calls within a minute with rate 5 and a one-minute window give admit×5 then reject×5 |
| SlidingWindow.AdmittedInOrder | src/main/java/net/amzscout/limiter/aspects/LimiterByIpAspect.java:60-71 | for calls in time order, the admitted times are in order and none is later than the last call |
| SlidingWindow.AdmissionBound | src/main/java/net/amzscout/limiter/aspects/LimiterByIpAspect.java:60-71 | as written, for calls in time order, any two admitted calls `rate` or more places apart are more than the window apart |
| SlidingWindow.ReplayAppend | src/main/java/net/amzscout/limiter/aspects/LimiterByIpAspect.java:60-71 | one more call extends a replay by that call's verdict on the current log |
| SlidingWindow.TimingTestFills | src/test/java/net/amzscout/limiter/LimiterApplicationTests.java:45-51 | five calls 5 s apart with rate 5 are all admitted under either rule and fill the buffer |
| SlidingWindow.TimingTestAsWritten | src/test/java/net/amzscout/limiter/LimiterApplicationTests.java:40-60 | as written, the timing test's calls get admit×5, reject, admit, admit: the sixth call is rejected but the eighth is admitted, against the test's expectation |
| SlidingWindow.TimingTestReplacing | src/test/java/net/amzscout/limiter/LimiterApplicationTests.java:40-60 | with replacement, the same calls get admit×5, reject, admit, reject, as the test expects |
| IpUtils.IpHeaderCandidates | src/main/java/net/amzscout/limiter/utils/IpUtils.java:9-13 | the candidate headers, in order: `X-Forwarded-For`, `Proxy-Client-IP`, `HTTP_X_FORWARDED_FOR` |
| IpUtils.IsUnknown | src/main/java/net/amzscout/limiter/utils/IpUtils.java:22 | `"unknown".equalsIgnoreCase(v)`: seven characters, each equal to the letter of `unknown` up to ASCII case (or the Kelvin sign for `k`) |
| IpUtils.Acceptable | src/main/java/net/amzscout/limiter/utils/IpUtils.java:22 | a header value is used when it is present, non-empty and not `"unknown"` in any case |
| IpUtils.Split | src/main/java/net/amzscout/limiter/utils/IpUtils.java:23 | Java's `split(",")`: the whole value when it has no comma, else the comma-separated pieces without the trailing empty ones |
| IpUtils.FirstField | src/main/java/net/amzscout/limiter/utils/IpUtils.java:23 | `split(",")[0]`, or the index exception when `split` gives no piece |
| IpUtils.ClientIpAddress | src/main/java/net/amzscout/limiter/utils/IpUtils.java:15-31 | `null` without a request; else the first field of the first acceptable candidate header, or the index exception; else the remote address |
| IpUtils.FirstAcceptable | src/main/java/net/amzscout/limiter/utils/IpUtils.java:20-24 | the index found is of an acceptable header with no acceptable header before it; none is found exactly when no candidate is acceptable |
| IpUtils.GetClientIpAddress | src/main/java/net/amzscout/limiter/utils/IpUtils.java:15-31 | the loop over the candidates returns what `ClientIpAddress` describes |
| IpUtils.NoRequestGivesNull | src/main/java/net/amzscout/limiter/utils/IpUtils.java:17-30 | without a current request the result is `null` |
| IpUtils.HeaderPrecedence | src/main/java/net/amzscout/limiter/utils/IpUtils.java:9-27 | `X-Forwarded-For`, `Proxy-Client-IP` and `HTTP_X_FORWARDED_FOR` are tried in this order; the first acceptable one (present, non-empty, not `"unknown"` in any case) supplies the address, else the remote address is returned |
| IpUtils.FirstFieldIsPrefix | src/main/java/net/amzscout/limiter/utils/IpUtils.java:23 | `split(",")[0]` of a non-empty value is the text before the first comma, untrimmed, or the whole value without a comma; it throws exactly when the value is only commas |
| IpUtils.FirstPiece | src/main/java/net/amzscout/limiter/utils/IpUtils.java:23 | the first comma-separated piece is the text before the first comma |
| IpUtils.PiecesAllEmpty | src/main/java/net/amzscout/limiter/utils/IpUtils.java:23 | every piece is empty exactly when the value is only commas |
| IpUtils.DropTrailingEmptyFirst | src/main/java/net/amzscout/limiter/utils/IpUtils.java:23 | dropping trailing empty pieces leaves nothing exactly when all were empty, and otherwise keeps the first piece |

## Left out

- Concurrency is not modelled: the atomicity of `ConcurrentHashMap.computeIfAbsent`, the unlocked read-modify-write of a buffer, and the multi-threaded tests. The model is sequential; it gives the one-thread-at-a-time reading of those tests, with exact counts per key (`KeysAreIndependent`, `InterleavedBurst`). Which interleavings the real threads produce, and any lost update between them, is not captured.
- `System.currentTimeMillis()` and `Thread.sleep` are not modelled; the time of a call is the parameter `now`.
- Logging, the Spring AOP plumbing (`joinPoint.proceed()`, reflection on the method signature and annotation, `@Value` injection), the REST controller, its exception-to-status mapping, the demo service and the exception's message text are left out. `Admit` and `Bypass` both stand for `proceed()`.
- `RequestContextHolder` and the servlet request are abstracted as an optional `Request`: a header lookup function and the remote address.
- IpUtils.Request: header names are looked up exactly; the servlet container's case-insensitive header lookup is not modelled.
- Java strings are UTF-16; the model uses Dafny `char`, and `equalsIgnoreCase` is modelled for the seven letters of `"unknown"` (ASCII case and the Kelvin sign).
- CircularBuffers.CircularBuffer.Add: `head`, `tail` and `size` are unbounded integers; Java `int` wrap-around after 2^31 calls is not modelled, nor is `long` overflow of timestamps.
- LimiterAspect.WindowMillis: `time * 1000L * 60L` is computed without `long` overflow.
- CircularBuffers.CircularBuffer.constructor: requires a positive capacity. With capacity 0, `add` would throw `ArithmeticException` at the modulo on its first line, before `size` is incremented; `peek` would then always throw Empty Buffer, and `isFull` would always hold. The aspect never creates such a buffer, since a rate of 0 bypasses. A negative capacity is modelled in the aspect as the array-size exception, `Fault(NegativeArraySize)`.
- LimiterAspect.Admission: the `peek` failure branch is kept for faithfulness but is unreachable, since an empty buffer takes the `add` branch.
