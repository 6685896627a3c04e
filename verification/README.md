# OpenFrp in Dafny

A Dafny 4.11 model of the parts of OpenFrp whose correctness does not show in any one
function: an index that must agree with the map it speeds up, a rule written four times that
must be one rule, counters updated by several threads, parsers that must invert what the other
side wrote, and ledgers that must add up. `dafny verify dfyconfig.toml` checks all of it.

Code that changes state step by step is modelled by classes, arrays and loops, each proved
against a function that says what it computes; the theorems are about those functions. Threads
are modelled as step machines: a state, the steps any thread may take next, and a theorem about
every sequence of enabled steps.

| files | subject |
|---|---|
| `Patterns`, `Normalise`, `Trie`, `Slots`, `Router` | domain patterns, the label trie on the heap, the router that rebuilds it from a map |
| `Certs`, `Coverage` | the certificate store, and the promise that a routed visitor gets a certificate that covers the name |
| `Limiter`, `Relay` | the token bucket in 64-bit arithmetic, and the copy loop that charges it |
| `Requests`, `PoolConns`, `Refill` | a session's work connections: asking for them, owning them, how many to keep |
| `ClientHello`, `HttpHead`, `Sniff` | finding the host in the first bytes of a connection without losing any of them |
| `Frames`, `Udp` | control messages, the preamble, UDP packets |
| `Lmo` | the translation catalogue compiler and its reader |
| `History` | live traffic counters, the recorder, the daily table |
| `Rollback` | installing an update and putting the old files back |
| `Listener` | several listeners behind one |
| `Conditions` | when a form field is shown, in Go and in JavaScript |
| `Options`, `Text`, `Bytes`, `Streams` | shared by the others |

## What holds

- The router's snapshot indexes its map after every run of `Add`, `Remove` and `RemoveClient` on keys
  that normalisation leaves alone (`Agrees`); adding is then all or nothing. For every host `Lookup`
  gives the answer read off the map (the name, else `*.` before its parent, else the catch-all) if and
  only if every key reads back as itself.
- After a removal every host of another tunnel is answered as before; after an installation every name
  of the new certificate has it and every other name has what it had.
- The trie's rule, the certificate tables' rule, `matchesName` and the page's `certificateCovers`
  are compared by if-and-only-if theorems, and the README's promise is proved from them.
- No interleaving loses a wake-up, hands one connection to two owners, or delivers one twice.
- Every parser inverts its writer, however the stream is cut into reads, and sniffed bytes are
  replayed exactly.
- The rate limit bounds every run that does not end in a debt too large to be slept off, and is
  reached; any number of connections that share a limiter and wait out their sleeps keep it, as long
  as no idle time overflows and a chunk from each is no more than that debt.
- What is stored for a tunnel is what was last recorded, and a rolled-back file has its contents.

## Where the code and its promise differ

Each of these is proved, with the exact condition.

- `ParsePattern` is not stable on its own results: `h:p:q` is filed under `h:p`, which reads back
  as `h`. With `h` registered, `Add` then stores the new key and fails to rebuild
  (`AddCanHalfApply`, `AddIsAllOrNothingIff`). Without it, `Add` succeeds, and requests for `h`, which
  nobody registered, are routed (`UnregisteredRouted`, `LookupIsSimpleIff`).
- `*` in the router also stands for an empty first label; such a host is routed and has no
  certificate (`EmptyLabelRoutedUncovered`, `RoutedHostsAreCovered`).
- Two products in the limiter overflow an int64. `elapsed * rate` does after a long idle time, and the
  bucket is then charged instead of credited (`CreditExactIff`): at 1 MiB/s and 2^43 ns, a full bucket
  makes the next byte wait more than two hours (`LongIdleStalls`). `owed * 10^9` does for debts above
  9,223,372,036 bytes, and then nobody sleeps long enough (`SleepCoversIff`, `RateBoundIff`): with the
  burst spent before the same idle time, the next chunk does not sleep and some nine gigabytes follow
  it at once (`IdleOpensTheGate`, `FreePass`). Calls at one instant get there without any idle time
  exactly when they take more than a burst and that debt (`AtOnceIff`).
- The relay goes on after any timeout, also one of the writing side that lost bytes; the destination
  has a prefix exactly when nothing moves after a loss (`PrefixIff`). The copy loop sets only the
  source's read deadline and every other deadline is cleared before a relay begins, so nothing in this
  code makes a write time out and a later one succeed: the condition is one on the connections.
- After `Session.Close` the pool holds exactly what late calls of `AddWorkConn` put there and nobody
  took, whether they began before or after it; such a call is always possible (`CloseLeaksIff`,
  `LateAddLeaks`).
- The control loops take a stream that was cut right after a header, or inside the payload of a frame
  of unknown type, for one that ended (`CutTakenForEndIff`). The two UDP readers differ in this on one
  kind of cut (`ReadersAgreeIff`).
- After a hello without extensions, what follows it in the record is read as its extensions
  (`ParseInvertsSerialise`, `TrailingIsBelieved`).
- A backup copy that fails part way leaves a partial file, which the rollback puts in place
  (`CutBackupHarms`); a saved executable comes back without its bit (`ExecBitLostIff`); new files that
  were put in place stay (`NewFileStaysIff`).
- A tunnel forgotten and counted anew can be under-recorded (`ForgottenCounterIff`). Nothing in the
  program calls `Registry.Forget` yet.
- `!=` is looked for before `==`, also inside a quoted literal (`AsWrittenIff`), and the page answers
  the comparisons without a field name that the server rejects (`NamelessIff`).

## Model

| member | source | states |
|---|---|---|
| Patterns.ParsePattern | internal/tunnel/vhost/pattern.go:28-67 | The loop over the labels returns the first faulty label's fault, and otherwise the normalised name with its labels reversed, for any normaliser. |
| Patterns.ParseAccepts | internal/tunnel/vhost/pattern.go:34-66 | A pattern is accepted if and only if its normal form is `*`, or has two or more labels, none empty, `*` only as the whole leftmost label and then over at least two more; its key is the normal form. |
| Patterns.RefusalIff | internal/tunnel/vhost/pattern.go:29-64 | Each refusal, exactly when: no normal form; one label only; the first label that is empty, a `*` not leftmost or a `*` not alone; a wildcard over one label. |
| Patterns.Reverse | internal/tunnel/vhost/pattern.go:136-142 | Filling a new array from the back gives the labels in reverse order. |
| Patterns.SplitHostLabels | internal/tunnel/vhost/pattern.go:125-134 | A host is looked up by its normalised labels reversed; one that does not normalise, or is `*`, has none. |
| Normalise.AcceptedStableIff | internal/tunnel/vhost/pattern.go:73-96 | On ASCII names, an accepted pattern's key normalises to itself if and only if it has no outer white space and no port left to strip. |
| Normalise.TwoPorts | internal/tunnel/vhost/pattern.go:79-85 | For every stable valid host `h` and digits `p`, `q`: `h:p:q` normalises to `h:p`, a valid name, and that to `h`. |
| Normalise.StripPortIff | internal/tunnel/vhost/pattern.go:79-85 | What follows the last colon is stripped unless it has a dot or the name opens with a bracket. |
| Normalise.CaseIgnored | internal/tunnel/vhost/pattern.go:87 | Names that differ in the case of ASCII letters have one normal form. |
| Normalise.DotIgnored | internal/tunnel/vhost/pattern.go:89 | So do a name and the name with a dot at its end. |
| Normalise.SpaceIgnored | internal/tunnel/vhost/pattern.go:74 | And a name with white space around it. |
| Trie.Node.Descend | internal/tunnel/vhost/trie.go:18-32 | One step of insertion reaches the node one label below, making it when missing; the trie stays linked as its ghost description says and no route moves. |
| Trie.Node.Claim | internal/tunnel/vhost/trie.go:34-39 | A route is put on a node if and only if the node has none. |
| Trie.Node.Insert | internal/tunnel/vhost/trie.go:15-40 | Succeeds exactly when the labels' path has no route; the routes by path are then the old ones and this one, and otherwise unchanged. |
| Trie.Node.Lookup | internal/tunnel/vhost/trie.go:42-60 | Backtracking over the heap gives what a descent over the plain map of paths gives (`Best`), the exact child before the wildcard at every level. |
| Trie.BestIsSimple | internal/tunnel/vhost/trie.go:42-60 | With wildcards only as last steps, the backtracking search equals two probes: the exact path, then the path with `*` for its last label. |
| Trie.DownInjective | internal/tunnel/vhost/trie.go:18-32 | Distinct label lists reach distinct nodes. |
| Routing.Table.Enter | internal/tunnel/vhost/router.go:124-132 | One key takes its own slot (the catch-all always, a node if free), the count goes up by one, and every other slot keeps its route. |
| Routing.Build | internal/tunnel/vhost/router.go:107-134 | A table can be built if and only if every key parses and no two take one node; it then holds exactly the map's routes, and its count is their number. |
| Routing.Router.constructor | internal/tunnel/vhost/router.go:44-48 | A new router's snapshot agrees with its empty map. |
| Routing.Router.Add | internal/tunnel/vhost/router.go:50-81 | Refused: an error that says why, and nothing changed. Accepted: every parsed key is claimed, and the snapshot is replaced, or the error is the rebuild's, according to whether the keys index. On keys that read back as themselves: an error exactly when refused, and agreement is kept. Keys stay valid names, each on its own route. |
| Routing.RefusalIff | internal/tunnel/vhost/router.go:51-72 | Which refusal, exactly when: no patterns; a pattern that does not parse, with the fault of the first; a key already held, with its holder. |
| Routing.RefusedIff | internal/tunnel/vhost/router.go:51-72 | Adding is refused if and only if there are no patterns, or one has no normal form or no valid one, or the normal form of one is a key already. |
| Routing.AddedIff | internal/tunnel/vhost/router.go:74-78 | An accepted add files, under each pattern's normal form and nothing else, the route given with that form for its pattern; held routes stay. |
| Routing.Router.Remove | internal/tunnel/vhost/router.go:83-93 | A key stays if and only if its route's client or tunnel differs, and with the same route; agreement is kept. |
| Routing.Router.RemoveClient | internal/tunnel/vhost/router.go:95-105 | A key stays if and only if its route's client differs, and with the same route; agreement is kept. |
| Routing.AfterRemoval | internal/tunnel/vhost/router.go:83-93 | With a tunnel's routes gone, every host that another tunnel's route answered is answered by it still, and none by the tunnel. |
| Routing.Router.RebuildLocked | internal/tunnel/vhost/router.go:107-137 | Publishes a fresh snapshot of the whole map, or keeps the old one, the latter exactly when the keys do not index; never when they all read back as themselves. |
| Routing.Router.Lookup | internal/tunnel/vhost/router.go:139-158 | The published snapshot's answer; under agreement, the one read off the plain map, for any host string. |
| Routing.AnswerIff | internal/tunnel/vhost/router.go:139-158 | The answer off the map is the route of some key that serves the host by the one-label rule, the host's own first; only without any, the catch-all's; only without that, none. |
| Routing.LookupIsSimpleIff | internal/tunnel/vhost/router.go:139-158 | On any indexed table of keys as `Add` files them, every host gets the simple answer if and only if every key reads back as itself. |
| Routing.UnstableMisroutes | internal/tunnel/vhost/router.go:139-158 | A key that does not is itself a host that is answered wrongly, by its own route. |
| Routing.UnregisteredRouted | internal/tunnel/vhost/router.go:74-80 | Adding `h:p:q` to an empty router succeeds and routes `h`, for which the map has no answer. |
| Routing.StableCanIndex | internal/tunnel/vhost/router.go:107-137 | Rebuilding never fails on keys that normalisation leaves alone. |
| Routing.StableCatchAll | internal/tunnel/vhost/router.go:124-128 | The snapshot's catch-all is the route filed under `*`, if any. |
| Routing.IndexAnswers | internal/tunnel/vhost/router.go:150-152 | On such keys the trie finds a route exactly when the map has the host or `*.` before its parent, and it is that route, the host's own first. |
| Routing.CanIndexByName | internal/tunnel/vhost/router.go:116-133 | Keys index if and only if each still parses and no two read back as the same name other than `*`. |
| Routing.AddIsAllOrNothingIff | internal/tunnel/vhost/router.go:67-80 | With stable keys held, the rebuild of an accepted `Add` succeeds if and only if each new key, normalised once more, is still a name, not a held one, and no other new key's. |
| Routing.AddCanHalfApply | internal/tunnel/vhost/router.go:74-80 | With `h` registered, adding `h:p:q` passes every check, claims `h:p`, and cannot rebuild. |
| Certs.CertStore.Install | internal/tunnel/server/certstore.go:45-82 | Succeeds exactly for a pair that parses, has names and has not expired. Each of its names then has this certificate, whatever it had before, every other name keeps its own, and the tables hold the new map. |
| Certs.InstalledIff | internal/tunnel/server/certstore.go:66-79 | The same of the map: installing replaces. |
| Certs.LastInstalledWins | internal/tunnel/server/certstore.go:66-79 | After any sequence of installations a name has the last certificate that carries it. |
| Certs.ServedAfterInstall | internal/tunnel/server/certstore.go:102-122 | Right after an installation, whoever asks for a name of the certificate is given it, and so is whoever asks for a host under its wildcard that has no entry of its own. |
| Certs.OthersServedAsBefore | internal/tunnel/server/certstore.go:102-122 | Whoever asks for anything else is given what was given before. |
| Certs.CertStore.RebuildLocked | internal/tunnel/server/certstore.go:84-100 | The published tables hold exactly the map's entries. |
| Certs.Tabulate | internal/tunnel/server/certstore.go:84-97 | The loop splits any map into plain names and wildcard zones without losing, adding or mixing entries, and counts them. |
| Certs.PutNames | internal/tunnel/server/certstore.go:67-77 | After the loop the map is the old one overridden by the certificate at each of its names; the names returned are theirs in order. |
| Certs.CertStore.GetCertificate | internal/tunnel/server/certstore.go:102-122 | The two-table search gives the certificate filed under the name, else under `*.` before its parent if the first label is not empty, else none. |
| Certs.InstallAllKeeps | internal/tunnel/server/certstore.go:66-79 | Over any sequence of installations no name is lost, and every name stays filed under a certificate that carries it. |
| Coverage.MatchesNameIff | internal/cert/certificate.go:86-101 | The string test holds if and only if the host is the name, or one non-empty label followed by the wildcard's zone: the router's rule less the empty label. |
| Coverage.CertKeyIff | internal/tunnel/server/certstore.go:108-121 | The table search finds a key if and only if some stored name matches by `matchesName`; the one found matches, and is the name itself if stored. |
| Routing.MatchedIff | internal/tunnel/vhost/router.go:150-152 | The router matches a name if and only if some pattern serves it by the one-label rule; the one matched does, the exact one first. |
| Coverage.CertificateCoversIff | openwrt/luci/luci-app-openfrp/htdocs/luci-static/resources/view/openfrp/tunnels.js:351-368 | For every valid domain, the page accepts a certificate name exactly when that name matches every host (first label not empty) the router sends to the domain. |
| Coverage.StarDomainCovers | openwrt/luci/luci-app-openfrp/htdocs/luci-static/resources/view/openfrp/tunnels.js:357-360 | A domain that starts with a star is covered by itself only. |
| Coverage.RoutedHostsAreCovered | README.md:166-169 | If a name of an installed certificate passes the page's test for a domain, then after any further installations a host routed through that domain is given a certificate if and only if its first label is not empty (or the name itself is stored), and the one given covers it. |
| Coverage.SameNameAskedFor | internal/tunnel/server/certstore.go:103 | For an ASCII server name with nothing to trim and no port, the store asks by exactly the host the router looks up, and by none when there is none. |
| Coverage.EmptyLabelRoutedUncovered | internal/tunnel/vhost/trie.go:54-58 | `.zone` is routed by `*.zone` and given no certificate, unless one is filed under it. |
| Limiter.NewLimiter | pkg/netutil/limit.go:24-31 | No limiter for a rate of zero or less; otherwise a full bucket. |
| Limiter.BurstIff | pkg/netutil/limit.go:40-46 | The burst is a tenth of a second's traffic, and at least 4096 bytes, if and only if the rate times 10^8 is below 2^63; the chunk is the burst, at most 1 MiB. |
| Limiter.Limiter.Wait | pkg/netutil/limit.go:48-67 | The new tokens, clock mark and sleep, with each int64 product and sum wrapped and each division truncated; nothing for sizes of zero or less. |
| Limiter.CreditBounds | pkg/netutil/limit.go:57 | Idle time is never over-credited, even when its product wraps. |
| Limiter.CreditExactIff | pkg/netutil/limit.go:57 | It is credited in full if and only if time times rate is below 2^63. |
| Limiter.LongIdleStalls | pkg/netutil/limit.go:57-65 | At 1 MiB/s a full bucket idle for 2^43 ns makes a one-byte call sleep over two hours. |
| Limiter.SleepCoversIff | pkg/netutil/limit.go:60-65 | A debt is slept off, to within a nanosecond, if and only if 10^9 times it is below 2^63. |
| Limiter.RateBound | pkg/netutil/limit.go:48-67 | Over any consecutive calls that do not end in such a debt, bytes times 10^9 are at most 10^9 bursts plus the rate times the time from the bucket's last touch to the last return, plus one rate; whatever debts and idle times lie before. |
| Limiter.RateBoundIff | pkg/netutil/limit.go:48-67 | Every run that ends in a given debt keeps the rate if and only if the debt is one that is slept off. |
| Limiter.AtOnceIff | pkg/netutil/limit.go:48-67 | Calls at one instant from a full bucket keep the rate if and only if they take at most a burst and the largest such debt. |
| Limiter.FreePass | pkg/netutil/limit.go:60-65 | Past it, any calls up to as much again go through at once, none of which sleeps. |
| Limiter.IdleOpensTheGate | pkg/netutil/limit.go:57-65 | At 1 MiB/s one caller gets there by spending the burst, idling 2^43 ns and taking one chunk. |
| Limiter.RateReached | pkg/netutil/limit.go:48-67 | Conversely, a run that never fills the bucket, has no idle time that overflows, and ends in debt, returns no later than its bytes take at the rate, up to a byte of rounding a call. |
| Limiter.SequentialInReach | pkg/netutil/limit.go:48-67 | A lone caller that waits out its sleeps, with no idle time that overflows, never owes so much that a sleep overflows. |
| Limiter.CrowdInReach | internal/tunnel/server/limits.go:61-66 | The same for any number of connections that share a limiter and each wait out their own sleeps, as long as a chunk from each is within the largest debt: what is owed is owed by those asleep. |
| Limiter.CrowdKeepsRate | internal/tunnel/server/limits.go:61-66 | Such a crowd keeps the rate from the limiter's start on. |
| Relay.CopyStream | pkg/netutil/splice.go:98-153 | For every sequence of chunks, timeouts and errors: what was delivered and what is left, `total` as the bytes delivered, progress reports and limiter charges that each sum to `total`, and which turn ended the loop and why. |
| Relay.EndIff | pkg/netutil/splice.go:142-151 | A run has ended well, failed, or goes on, exactly according to its last copy: fell short cleanly; failed, a timeout only when no progress is wanted; full, or timed out with progress wanted. Every earlier copy was of the last kind. |
| Relay.HowMuch | pkg/netutil/splice.go:122-136 | As much is delivered as was moved, and the source is left after what was read. |
| Relay.DeliveredIsPrefix | pkg/netutil/splice.go:122-152 | If after a turn that lost bytes nothing more moves, the destination has exactly a prefix of the source. |
| Relay.PrefixIff | pkg/netutil/splice.go:122-152 | On elements told apart, the destination has a prefix if and only if every turn that lost bytes is followed only by turns that move nothing. |
| Relay.NothingLost | pkg/netutil/splice.go:122-152 | If no turn lost any, delivered followed by left is the source. |
| Relay.LossyTimeoutBreaksOrder | pkg/netutil/splice.go:142-145 | For every script, a loss carried on from to a turn that moves something leaves the destination without a prefix. |
| Requests.Always | internal/tunnel/server/session.go:439-472 | The invariant below, from any state that has it, over every interleaving. |
| Requests.NoLostWakeUp | internal/tunnel/server/session.go:439-472 | In every interleaving a pending unit has a full kick slot, a caller about to kick, or a requester about to swap; units asked for are pending, held, sent or cut off by the cap. |
| Requests.MessagesCapped | internal/tunnel/server/session.go:459-468 | In every interleaving each message asks for at least one connection and at most the capacity, and the messages add up to what was sent. |
| Requests.InternalRunsEnd | internal/tunnel/server/session.go:443-470 | Without new requests the threads take a bounded number of further steps. |
| Requests.AtRestNothingPending | internal/tunnel/server/session.go:451-470 | Where they come to rest with the requester alive, everything asked for was sent or cut off. |
| Requests.CutOnlyAboveCapacity | internal/tunnel/server/session.go:464-466 | Nothing is cut off while all that is asked for fits the pool. |
| PoolConns.Always | internal/tunnel/server/session.go:136-211 | The ownership invariant over every interleaving of adding, taking, starting, draining and closing. |
| PoolConns.OwnedExactlyOnce | internal/tunnel/server/session.go:136-211 | Each connection given to a session is in exactly one place, once; none is returned to two visitors; the pool never exceeds its capacity. |
| PoolConns.StaysDrained | internal/tunnel/server/session.go:591-599 | A drained pool that nobody pushes into stays empty. |
| PoolConns.PoolIsQueue | internal/tunnel/server/session.go:136-211 | In every interleaving the pool is what was in it and was pushed, in order, less what was received. |
| PoolConns.LateAddLeaks | internal/tunnel/server/server.go:315-327 | In every state the draining loop can end in, a late `AddWorkConn` can put a connection into the pool. |
| PoolConns.CloseLeaksIff | internal/tunnel/server/session.go:565-603 | In every run from the start in which the draining loop ended, the pool holds a connection if and only if more were pushed after that than received; they are exactly the last ones pushed. |
| Refill.LoadMaxPoolCount | internal/config/server.go:48-78 | A configuration that loads gives a bound of at least one; a positive one is kept and zero means 64. |
| Refill.ClampPoolTarget | internal/tunnel/server/control.go:47-55 | The client's wish, brought into 1..bound. |
| Refill.Login | internal/tunnel/server/control.go:47-66 | Every login under a configuration that loads makes a session with that bound and the client's wish brought into it. |
| Refill.Gauges.constructor | internal/tunnel/server/session.go:94-124 | A new session has `1 <= poolTarget <= refillTarget <= capacity`. |
| Refill.Gauges.AddWorkConn | internal/tunnel/server/session.go:136-155 | Taken as one step: in-flight falls by one but not below zero; kept exactly when open and not full; the bounds hold. |
| Refill.CountAlways | internal/tunnel/server/session.go:137-139 | Operation by atomic operation, in every interleaving: in-flight is below zero by at most the arrivals that have yet to reset it, and not at all when there are none. |
| Refill.Gauges.TakePooled | internal/tunnel/server/session.go:312-319 | Takes one exactly when the pool is not empty; the bounds hold. |
| Refill.Gauges.WaitWorkConn | internal/tunnel/server/session.go:328-329 | One more in flight, one more asked for; the bounds hold. |
| Refill.Gauges.TopUpPool | internal/tunnel/server/session.go:353-370 | Taken as one step: does nothing, or makes pooled plus in flight exactly the refill target; the cap on room never binds. |
| Refill.TopUpsAtOnce | internal/tunnel/server/session.go:353-370 | `k` top-ups that read before any of them adds ask for the whole deficit `k` times. |
| Refill.Gauges.AdjustRefillTarget | internal/tunnel/server/session.go:374-392 | Halves towards the client's target when stalled, grows by one on a miss below capacity; the bounds hold. |
| Refill.Gauges.RefillTick | internal/tunnel/server/session.go:409-423 | With a carrier: the stall test, the new target, and pooled plus in flight afterwards; without one, nothing. |
| Refill.Gauges.SweepTick | internal/tunnel/server/session.go:425-434 | Without a carrier, dials that brought nothing since the last look are written off. |
| Refill.TargetStaysInBounds | internal/tunnel/server/session.go:374-392 | Over any sequence of ticks the target stays between the client's and the capacity. |
| Refill.StallsReachPoolTarget | internal/tunnel/server/session.go:379-386 | `k` stalls in a row bring any target below `(poolTarget + 1) * 2^k` to exactly the client's. |
| Refill.MissesRaiseTarget | internal/tunnel/server/session.go:388-391 | `k` misses without a stall raise it by `k`, up to capacity. |
| ClientHello.ByteReader.Skip | internal/tunnel/vhost/sniff_tls.go:150-157 | Takes exactly the next `n` bytes, or moves nothing when `n` is negative or too large. |
| ClientHello.ByteReader.Vector8 | internal/tunnel/vhost/sniff_tls.go:183-189 | Reads the vector behind a one-byte length, and leaves what follows it. |
| ClientHello.ByteReader.Vector16 | internal/tunnel/vhost/sniff_tls.go:191-197 | The same behind a two-byte length. |
| ClientHello.ParseNameList | internal/tunnel/vhost/sniff_tls.go:121-135 | The cursor loop finds the list's first host_name. |
| ClientHello.ParseExtensions | internal/tunnel/vhost/sniff_tls.go:101-138 | The cursor loop finds the first server_name extension and its name. |
| ClientHello.ParseClientHello | internal/tunnel/vhost/sniff_tls.go:69-139 | The cursor parser ends, stays in bounds, and computes `ServerName` on every byte string, each fault in its place. |
| ClientHello.ParseInvertsSerialise | internal/tunnel/vhost/sniff_tls.go:69-139 | For every well-formed hello (section 4.1.2 of RFC 8446, section 3 of RFC 6066), whatever its length field says and whatever follows it, `ServerName` gives the first host_name of the first server_name extension; for one without an extensions block, nothing, or what the bytes after it say when read as one. |
| ClientHello.TrailingIsBelieved | internal/tunnel/vhost/sniff_tls.go:95-99 | After a hello without extensions, any extensions that follow it are read as its own. |
| ClientHello.CutHello | internal/tunnel/vhost/sniff_tls.go:69-99 | Every strict prefix of a hello is the error of the part it was cut in, except that one cut in its extensions passes for a hello without a name. |
| ClientHello.ServerNameIsSlice | internal/tunnel/vhost/sniff_tls.go:69-139 | On any bytes, a non-empty name is a piece of them. |
| HttpHead.AsciiEqualFold | internal/tunnel/vhost/sniff_http.go:90-104 | Equality up to ASCII case of the first argument. |
| HttpHead.FindHostLine | internal/tunnel/vhost/sniff_http.go:62-80 | The loop over the lines finds the first Host line's trimmed value. |
| HttpHead.ParseHead | internal/tunnel/vhost/sniff_http.go:39-80 | On a complete head, the verdict on the head alone. |
| HttpHead.PrefaceWithinHead | internal/tunnel/vhost/sniff_http.go:42-45 | The preface test on the whole buffer is decided by the head. |
| HttpHead.EndStable | internal/tunnel/vhost/sniff_http.go:34-36 | Where the head ends does not change as more is read. |
| HttpHead.ReadBackRequest | internal/tunnel/vhost/sniff_http.go:49-80 | Every written request that is not the HTTP/2 preface reads back to its method, path and first Host value, normalised, or to the right error. |
| HttpHead.HostLineGivesValue | internal/tunnel/vhost/sniff_http.go:62-78 | A Host line in any case and spacing gives its value. |
| HttpHead.TrimSpaceOf | internal/tunnel/vhost/sniff_http.go:68-72 | Trimming takes off all outer white space and nothing else. |
| HttpHead.PriorKnowledgeIff | internal/tunnel/vhost/sniff_http.go:42-45 | A request is refused as HTTP/2 if and only if its request line is `PRI * HTTP/2.0`. |
| HttpHead.FirstLineIff | internal/tunnel/vhost/sniff_http.go:49-58 | Otherwise a head is refused for its first line exactly when that is empty, or is not a non-empty method, a space, a non-empty path, a space and more. |
| HttpHead.WrittenHeadEnds | internal/tunnel/vhost/sniff_http.go:34-36 | A written request's head ends exactly where the request does. |
| Sniff.HeadReader.Ensure | internal/tunnel/vhost/sniff.go:54-76 | Growing and filling the buffer loses nothing of the stream. It fails exactly past the limit, or with an error the network gave, and not while the network brings the bytes without one, in pieces of any size. |
| Sniff.HeadReader.ReadMore | internal/tunnel/vhost/sniff.go:78-98 | Loses nothing; success means progress; the same for when it fails, a read of nothing being one more case. |
| Sniff.SniffTls | internal/tunnel/vhost/sniff_tls.go:25-67 | Consumed followed by unread is the stream, on every outcome. The answer is the verdict on the stream, however it was cut into reads, unless the network gave an error; with none before the record is there, it is. |
| Sniff.SniffRecord | internal/tunnel/vhost/sniff_tls.go:44-66 | The same for the second half, once the header is known. |
| Sniff.EnoughIsSteady | internal/tunnel/vhost/sniff.go:58-74 | Pieces without error that come to enough bytes are all that is asked of the network. |
| Sniff.RecordGivesName | internal/tunnel/vhost/sniff_tls.go:33-66 | A record within the limit that holds a hello gives the normalised name the hello asks for, whatever follows. |
| Sniff.RecordRefusedIff | internal/tunnel/vhost/sniff_tls.go:34-48 | Refused on sight are exactly other records, empty ones, and ones over 16384 bytes. |
| Sniff.TlsVerdictStable | internal/tunnel/vhost/sniff_tls.go:33-48 | More of the stream never changes a verdict. |
| Sniff.SniffHttp | internal/tunnel/vhost/sniff_http.go:20-80 | Nothing lost, and with a complete head the verdict on the stream's own head. A head that ends within 16384 bytes is found if the network brings it without error; without one the error is the network's, the limit, or a read of nothing. |
| Sniff.ReplayConn.Read | internal/tunnel/server/vhost.go:390-397 | Gives consumed bytes first, touching nothing else, and after them exactly what a read of the connection gives. |
| Sniff.ReplayConn.ReadAll | internal/tunnel/server/vhost.go:385-397 | Successive reads into buffers of any sizes concatenate to the consumed bytes and then the stream. |
| Frames.Encode | internal/tunnel/protocol/codec.go:77-92 | The array filled in place is type, four length bytes, payload; the error cases. |
| Frames.FrameIff | internal/tunnel/protocol/codec.go:77-92 | A message is framed if and only if it marshals to at most 262144 bytes; the frame is its type, the length in four bytes, most significant first, and the payload. |
| Frames.Read | internal/tunnel/protocol/codec.go:94-152 | One read returns and leaves what `Decode` says of the stream, on any bytes, with the cause of a cut. |
| Frames.ReadAll | internal/tunnel/client/control.go:216-237 | The control loop gets the messages up to the first error that is not an unknown type, and reports no error exactly when that one is or wraps the end of the stream. |
| Frames.DecodeInvertsEncode | internal/tunnel/protocol/codec.go:77-122 | A message comes back from its frame and the bytes after it are left. |
| Frames.UnknownIsSkipped | internal/tunnel/protocol/codec.go:103-110 | A frame of unknown type is skipped by exactly its length. |
| Frames.OversizedRefused | internal/tunnel/protocol/codec.go:98-101 | A frame that claims more is refused before its payload is read. |
| Frames.BadPayloadSkipped | internal/tunnel/protocol/codec.go:112-120 | A payload that does not unmarshal is an error, and what follows is left. |
| Frames.EofOnlyAtBoundary | internal/tunnel/protocol/codec.go:144-151 | The bare end of stream is reported if and only if nothing was left. |
| Frames.PrefixDoesNotDecode | internal/tunnel/protocol/codec.go:94-122 | A frame cut anywhere inside is never a message or a skip; which error it is says where it was cut. |
| Frames.StreamRoundTrip | internal/tunnel/protocol/codec.go:77-152 | Any messages with any foreign frames between them come back in order, and the stream ends cleanly. |
| Frames.CutStream | internal/tunnel/protocol/codec.go:94-152 | A stream cut inside a frame gives every message before it and then that error. |
| Frames.CutTakenForEndIff | internal/tunnel/client/control.go:229-231 | The loop takes the cut for the end of the stream if and only if it came right after a header, or inside the payload of a frame of unknown type. |
| Frames.WriteGreeting | internal/tunnel/protocol/preamble.go:43-58 | One write of preamble and first frame. |
| Frames.ReadPreamble | internal/tunnel/protocol/preamble.go:72-94 | Accepts exactly magic, this version and a known mode, each error in its order, and takes six bytes. |
| Frames.PreambleIff | internal/tunnel/protocol/preamble.go:72-94 | A connection is accepted if and only if it opens with `OFRP`, version 1, and mode 1 or 2. |
| Frames.GreetingRoundTrip | internal/tunnel/protocol/preamble.go:43-94 | After a greeting the preamble comes back or is refused by version or mode, and the stream after it gives the greeting's message and all others. |
| Udp.AppendUDPPacket | internal/tunnel/protocol/udp.go:33-50 | Appends exactly the packet's frame, or nothing and which error. |
| Udp.ReadUDPPacketInto | internal/tunnel/protocol/udp.go:67-95 | On every stream the outcome, address, payload and remaining input that `Next` says for a body read at once; it always fits a full-size scratch buffer. |
| Udp.ReadUDPPacket | internal/tunnel/protocol/udp.go:97-136 | The same for address and payload read apart. |
| Udp.ReadersAgreeIff | internal/tunnel/protocol/udp.go:67-136 | The readers leave the same input and succeed on the same streams with the same packet; they differ only in whether a cut right after a non-empty address, with a payload to come, wraps the end of the stream. |
| Udp.NextOfWritten | internal/tunnel/protocol/udp.go:33-136 | A written packet comes back and what follows is left. |
| Udp.OversizedRefused | internal/tunnel/protocol/udp.go:83-87 | A header that claims more than 65507 bytes is refused before its body is read. |
| Udp.PacketsRoundTrip | internal/tunnel/protocol/udp.go:33-136 | Any sequence of packets comes back, and the stream then ends cleanly. |
| Udp.CutPacket | internal/tunnel/protocol/udp.go:67-136 | A packet cut anywhere inside is an error that says where, by either reader. |
| Lmo.Compile | tools/luci-i18n/lmo.go:97-154 | Succeeds if and only if there are messages and no two ids share a key; the texts are then laid out in order from 0, 4-aligned, each followed by fewer than four zeroes and then by the next or the index, and the index is a key-sorted permutation of the entries. |
| Lmo.Place | tools/luci-i18n/lmo.go:112-132 | The loop over the messages: layout, padding, entries, and the collision test. |
| Lmo.SortByKey | tools/luci-i18n/lmo.go:134 | A sorted permutation. |
| Lmo.LookupOne | tools/luci-i18n/lmo.go:205-218 | The scan's answer on any file, 32-bit sums included. |
| Lmo.IndexOfFile | tools/luci-i18n/lmo.go:156-177 | A reader accepts a compiled file whose texts are under 4 GiB and finds its index. |
| Lmo.IndexIff | tools/luci-i18n/lmo.go:156-177 | A file is accepted, with this index, if and only if it is data, the index in whole entries, and the length of the data. |
| Lmo.PlacedText | tools/luci-i18n/lmo.go:213-215 | Every entry of such a file leads to its own text. |
| Lmo.LookupAnswers | tools/luci-i18n/lmo.go:205-218 | For any id asked for and any order of equal keys: a miss exactly when no message has its key, otherwise the text of one that has. |
| Lmo.EveryMessageFound | tools/luci-i18n/lmo.go:97-218 | With pairwise distinct ids, looking any message up in its compiled file gives its own text. |
| History.TrafficHistory.Record | internal/tunnel/client/history.go:62-82 | The loop adds each tunnel's increase and moves its mark, except where the store fails. |
| History.TrafficHistory.Add | internal/storage/repo/traffic.go:26-44 | Adds to the day's row of the tunnel or starts one; nothing for a zero increase or a failure. |
| History.UpsertIff | internal/storage/repo/traffic.go:31-39 | The rows of other days and tunnels are there as they were, and the row of this key holds what it held and the increase. |
| History.OthersStay | internal/storage/repo/traffic.go:31-39 | The other rows also keep their order. |
| History.StoredOnUpsert | internal/storage/repo/traffic.go:31-39 | What is stored under a day and tunnel grows by the increase for that key and for no other. |
| History.StoredUpsert | internal/storage/repo/traffic.go:31-39 | A tunnel's sum over all days goes up by the increase; other tunnels' do not change. |
| History.KeyedUpsert | internal/storage/repo/traffic.go:34-38 | Day and tunnel stay a key. |
| History.NoReset | internal/tunnel/client/history.go:68-74 | In every reachable state the increase is the difference and not negative: the reset branch is not taken. |
| History.Always | internal/tunnel/client/history.go:62-82 | The ledger's invariant over every interleaving of traffic, readings, flushes, day changes and store failures. |
| History.StoredIsRecorded | internal/tunnel/client/history.go:62-82 | From the start, in every such run: a tunnel's sum over all days is its last recorded snapshot and at most its live counter. |
| History.DayByDay | internal/tunnel/client/history.go:62-82 | In every run, what is stored for a tunnel under a day grows by exactly the increases recorded for it on that day. |
| History.LiveIsTraffic | internal/stats/stats.go:77-99 | After any run a tunnel's live counter has grown by its traffic and its closed connections. |
| History.FlushOfEach | internal/tunnel/client/history.go:65-81 | A flush moves each tunnel's mark and adds its increase unless its own row could not be written, whatever happens to the others. |
| History.FlushCatchesUp | internal/tunnel/client/history.go:65-81 | A flush without failures records every snapshot it was given. |
| History.ForgottenCounterIff | internal/tunnel/client/history.go:72-74 | A counter begun anew is recorded in full if and only if the old mark was zero or exceeds it somewhere. |
| Rollback.FileSystem.Install | internal/update/install.go:237-259 | The loop's disk, wherever and however it stops. |
| Rollback.FileSystem.Restore | internal/update/install.go:261-273 | The loop's disk, going on past failures; an error exactly when a saved file could not be put back. |
| Rollback.RestoreEachPast | internal/update/install.go:261-273 | A listed file with a backup that can be put back is its backup afterwards, also past files that cannot; every other file stays as it was. |
| Rollback.RollbackRestores | internal/update/install.go:181-207 | With distinct names, wherever the install stopped, a successful restore gives every earlier file its contents, except one whose backup copy was cut, and leaves other files alone. |
| Rollback.OutsideUntouched | internal/update/install.go:237-259 | Files outside the list are not touched. |
| Rollback.InRootIff | internal/update/install.go:237-259 | A listed file is in place after the install if and only if it was there or everything up to it was put in place, and in the latter case in its new version. |
| Rollback.InBackupIff | internal/update/install.go:241-249 | It has a backup if and only if it was there and the install came to saving it. |
| Rollback.NewFileStaysIff | internal/update/install.go:261-273 | A file that was not there before is there after rolling back, in its new version, if and only if everything up to it was put in place. |
| Rollback.CutBackupHarms | internal/update/install.go:309-328 | The file whose backup was cut is restored if and only if the part left is the whole. |
| Rollback.ExecBitLostIff | internal/update/install.go:280-328 | Wherever the install stopped, a file whose backup was not cut comes back exactly as it was if and only if it was not executable or the install had not come to saving it. |
| Listener.Always | pkg/netutil/listener.go:140-226 | The invariant behind the next two, over every interleaving. |
| Listener.OneMode | pkg/netutil/listener.go:140-171 | Serve and Accept never share a listener; the pumps start at most once, one for each underlying listener. |
| Listener.HasOneHolder | pkg/netutil/listener.go:173-212 | A connection is accepted if and only if it has a holder, and it has one: the pump offering it, the one Accept that returned it, or the pump's closing. |
| Listener.Returns | pkg/netutil/listener.go:201-212 | A waiting Accept returns the connection or the error of the pump it meets, or that the listener was closed; no other step touches it. |
| Listener.OutcomeStays | pkg/netutil/listener.go:201-212 | What an Accept returned, it returned for good. |
| Listener.CallsAlwaysFit | pkg/netutil/listener.go:154-163 | In every interleaving only a listener in Serve's mode turns an Accept away for that, and only one in Accept's mode lets one wait. |
| Listener.PumpsRunOut | pkg/netutil/listener.go:214-226 | Once the listeners are closed nothing more is accepted and the pumps take boundedly many steps, counting those a late Accept starts. |
| Listener.AtRestAllSettled | pkg/netutil/listener.go:173-226 | Then the pumps have all ended if and only if none can move, and every connection accepted was returned or closed. |
| Conditions.SplitTop | pkg/schema/condition.go:65-94 | The index-and-quote loop gives the pieces between separators outside quotes. |
| Conditions.JoinParts | pkg/schema/condition.go:65-94 | Joining the pieces gives the text back, for any text. |
| Conditions.PartsOfJoin | pkg/schema/condition.go:65-94 | Splitting joined pieces gives them back, when each closes its quotes and has no separator character outside them. |
| Conditions.BlankIsShown | pkg/schema/condition.go:9-12 | A field without a condition, or with one of white space only, is shown, in Go and in JavaScript. |
| Conditions.AnyOfIff | pkg/schema/condition.go:14-23 | A condition is decided by its first term that is not false, an error beyond it not being seen; it is false if all are. |
| Conditions.AllOfIff | pkg/schema/condition.go:26-37 | A term is decided by its first comparison that does not hold; it is true if all do. |
| Conditions.AtomMalformedIff | pkg/schema/condition.go:39-63 | A comparison is an error if and only if it has no operator, or only white space before the one looked for first. |
| Conditions.NoOperatorHides | openwrt/luci/luci-app-openfrp/htdocs/luci-static/resources/openfrp/schema-form.js:16-32 | Without an operator the JavaScript answer is no. |
| Conditions.BareLiteral | pkg/schema/condition.go:53-59 | A literal without quotes is read as it stands. |
| Conditions.EvaluatorsAgree | openwrt/luci/luci-app-openfrp/htdocs/luci-static/resources/openfrp/schema-form.js:5-32 | Wherever the Go evaluator reports no error, the JavaScript one gives the same answer, for every condition and all values. |
| Conditions.NamelessIff | openwrt/luci/luci-app-openfrp/htdocs/luci-static/resources/openfrp/schema-form.js:16-32 | For every literal, a comparison without a field name is an error in Go if and only if it is not an `==` whose literal contains `!=`; JavaScript then compares with the value filed under the empty name. |
| Conditions.AsWrittenIff | pkg/schema/condition.go:39-63 | A written comparison is read as meant for all values if and only if it is not an `==` whose literal contains `!=`. |
| Conditions.WrittenIsMeant | pkg/schema/condition.go:8-63 | Every condition written from such comparisons, however spaced, quoted either way, and whatever separators its literals hold, shows its field exactly when some term's comparisons all hold, in both languages. |

## Left out

- Patterns.ParsePattern: white space trimming, lower-casing and IDNA are one abstract normaliser; `Normalise` gives its ASCII steps, where the IDNA conversion returns its argument.
- Routing.Router.Lookup: readers run beside a writer in the source; here a snapshot is safe because a published table is in no later call's `modifies` clause.
- Routing.Router.RebuildLocked: keys are taken in any order, not sorted, since the order only decides which clash an error names.
- Trie: `walk` and the listing of routes are left out.
- Coverage.RoutedHostsAreCovered: routes through the catch-all carry no promise, as in the source; expiry after installation, certificate chains and the handshake are not modelled.
- Limiter.RateBound: assumes that no debt passes 2^62 bytes (`Fits`), beyond which the token count itself would wrap.
- Limiter.RateBoundIff: for debts below 2^60 bytes, for the same reason.
- Limiter.CrowdKeepsRate: assumes that no idle time overflows and `CrowdDebt` is within the largest debt, which at ordinary rates allows some 8,700 connections; `IdleOpensTheGate` and `AtOnceIff` say what happens beyond.
- Relay.CopyStream: the untracked single-call path, half-closing and the two directions at once are left out; a copy's turns are given by the environment.
- Requests.NoLostWakeUp: a failed write of a request counts as sent, as in the source, which only logs it.
- PoolConns.OwnedExactlyOnce: how an overflow carrier is chosen is left out, including that dropping one compacts a shared array in place, so that a search already under way may skip a carrier.
- Refill.Gauges.TopUpPool: one step; `TopUpsAtOnce` says what several at once do.
- Refill.Gauges.AddWorkConn: its decrement and its reset to zero are one step; `CountAlways` takes them apart.
- Sniff.SniffHttp: the network is a plan of pieces, each with an error at its end or none; deadlines are errors of the plan.
- Sniff.HeadReader.Ensure: buffer pooling appears only as a buffer of any capacity to start with, so that more than the limit may be read into a reused one.
- HttpHead.ParseHead: white space is ASCII white space, here as everywhere.
- Frames.DecodeInvertsEncode: JSON is a pair of functions of which only decoding after encoding is assumed, for the message at hand.
- Frames.Read: buffering, deadlines and the write lock are left out; a stream is a byte sequence that ends.
- Frames.ReadPreamble: whether a cut preamble wraps the end of the stream is left out, since no caller asks.
- Udp.ReadUDPPacketInto: the pool of scratch buffers is left out.
- Lmo.Compile: reading the .po file, the hash function's mixing and white space folding are left out; the hash is any function to 32 bits.
- Lmo.LookupOne: where the source's slice expression panics the model answers `OutOfRange`; `LookupAnswers` shows that a compiled file never leads there.
- History.StoredIsRecorded: counters are not forgotten and the table is not pruned in these runs; `Registry.Forget` has no caller in the program, and `ForgottenCounterIff` says what it would do to one recording, not to a run. Names and days are numbers, and time stamps are left out.
- Rollback.RollbackRestores: files are contents and an executable bit; directories, temporary files beside the target and names ending in `.openfrp-new` are left out.
- Listener.OneMode: the retry loop of `Serve` is left out.
- Conditions.EvaluatorsAgree: white space is ASCII white space, and values are strings; a JavaScript field name found on the prototype of the values object is left out.
- Sockets, splice(2), yamux, TLS handshakes and x509 parsing are foreign calls.
- DNS providers, ACME, deployment over SSH, the cloud client and the update download are network clients.
- The LuCI views, apart from `certificateCovers` and the condition evaluator, are user interface.
- Version comparison, port checks, backoff and jitter would only add easy members.
