# iperf-lb session table, modelled in Dafny

iperf-lb is a TCP load balancer for iperf3. Each client gets its own
single-shot `iperf3 -s` backend process on its own port. The heart of the
router is the **session table**. It binds a client key to a backend port and
process, and it picks ports by the rule "one past the largest live port,
never below 5202". The repository has two versions of the table, and both are
modelled here:

- `main.go` (module `LegacyRouter`): keyed by client IP. The accept loop
  looks the client up, and on a miss it appends a session on the next port.
  A reaper removes the session when the backend process exits. Removal
  compares process handles (`removeSession`).
- `internal/session/session.go` (module `SessionTable`): keyed by the iperf
  handshake cookie. It offers `GetNextPort`, `Get` (first match), `Count`,
  `Add` (append) and `Remove` (drop every entry equal to a given session,
  compared with Go struct equality).

Shared modules:

- `Process`: the process handle `*exec.Cmd`, modelled as an opaque identity
  `Cmd(id)` plus Go's `nil` (`NilHandle`).
- `Options`: a small `Option` type for lookups that may miss.
- `Seqs`: the order-preserving filter that both removals perform. It is
  proved to distribute over concatenation, to keep exact multiplicities, to
  be idempotent and to preserve pairwise relations.
- `Ports`: the port scan shared by `getNextPort` and `GetNextPort`, as a
  left fold over the live ports. The source writes this scan twice, once per
  session type. Each table module therefore has its own `GetNextPort`
  wrapper, and both delegate to `Ports.NextPort`.

The tables are immutable sequences. Every operation is a pure function that
returns the new table. The `containsClient` helpers are the
`ContainsClient` predicates, plain key tests. What the key test guarantees is
stated by the lookups built on it: `FindLast` and `Get` characterise the match
they return, and `FindLastOnlyMatch` and `GetFindsTheOnlyMatch` show that in a
valid table it singles out exactly one session. `Count` is the sequence length. Its
behaviour under `Add` and `Remove` is stated by `Add` and `RemoveCount`.

The invariant `Valid` says three things. Live ports are pairwise distinct.
There is at most one session per key. Every port is at least 5202. In the
legacy table it also says that every session has its own non-nil process. The
invariant is proved to hold after a miss followed by an insert on the next
port, and after any removal. For the legacy router it is also proved for
every history of connections and process exits that starts from an empty
table.

## Model

| member | source | states |
|---|---|---|
| Ports.NextPort | internal/session/session.go:24-33 | the allocated port is at least 5202, above every live port, and is either 5202 or one past a live port |
| Ports.NextPortIsMaxPlusOne | internal/session/session.go:24-33 | the scan yields 5202 on an empty table and otherwise max(5202, largest live port + 1) |
| Ports.NextPortIsLeast | internal/session/session.go:25-30 | no value at least 5202 and above every live port is smaller than the allocated port |
| Ports.NextPortAboveCount | internal/session/session.go:24-33 | with distinct live ports all at least 5202, the allocated port is at least 5202 + number of live ports |
| LegacyRouter.GetNextPort | main.go:30-39 | getNextPort is at least 5202, strictly above every live session's port, and 5202 or one past a live port |
| LegacyRouter.RemoveSession | main.go:67-79 | a nil handle returns the table unchanged; otherwise no session of the handle survives, every other session does, and nothing new appears |
| LegacyRouter.RemoveSessionKeepsOrder | main.go:72-78 | survivors keep their relative order: removal from a concatenation is the concatenation of removals |
| LegacyRouter.RemoveSessionExact | main.go:72-78 | for a non-nil handle each session keeps all its copies unless the handle runs it, in which case none remain |
| LegacyRouter.RemoveSessionIdempotent | main.go:67-79 | removing by the same handle twice equals removing once |
| LegacyRouter.RemoveSessionUnchanged | main.go:67-78 | the table is unchanged if and only if the handle is nil or runs no session |
| LegacyRouter.RemoveSessionRemovesOne | main.go:72-78 | in a valid table removal by a session's handle cuts out exactly that one entry |
| LegacyRouter.FindLastOnlyMatch | main.go:24-26 | in a valid table, looking up a session's client IP finds exactly that session, so the client test singles out one entry |
| LegacyRouter.FindLast | main.go:110-116 | the lookup finds nothing iff no session has the client IP; otherwise it finds a session with that IP after which none has it (last match) |
| LegacyRouter.LookupLoop | main.go:105-116 | the no-break loop sets the found flag iff some session has the client IP, and then leaves the port of the last such session |
| LegacyRouter.Route | main.go:105-128 | a hit routes to the last matching session's port with the table unchanged; a miss appends a session for the client with the new process on exactly the getNextPort port, which is at least 5202, above every live port, and 5202 or one past a live port |
| LegacyRouter.RoutePreservesValid | main.go:119-128 | inserting on a miss at getNextPort with a new process keeps ports distinct, clients unique and handles distinct |
| LegacyRouter.RemovePreservesValid | main.go:67-79 | removal keeps the table invariant |
| LegacyRouter.ReapLoop | main.go:142-147 | the reaper's scan-and-remove loop equals one removeSession by the exited handle: the exited handle runs no session afterwards, and the table is unchanged if it ran none |
| LegacyRouter.NextPortAboveLiveCount | main.go:30-39 | in a valid table the next port is at least 5202 + number of live sessions |
| LegacyRouter.RouteIsSticky | main.go:109-128 | a second connection of the same client goes to the same port, spawns nothing and leaves the table unchanged |
| LegacyRouter.DistinctClientsDistinctPorts | main.go:119-128 | connections of two different clients, routed one after the other from a valid table, get different ports |
| LegacyRouter.RunPreservesValid | main.go:105-147 | any history of accepted connections (each with its own new process) and process exits keeps the invariant |
| LegacyRouter.RunFromEmptyIsValid | main.go:82-147 | starting from the empty table, any such history keeps the invariant |
| LegacyRouter.RouteScenario | main.go:105-128 | client A gets 5202, A again reuses 5202 without spawning, client B gets 5203 |
| SessionTable.GetNextPort | internal/session/session.go:24-33 | GetNextPort is at least 5202, above every live port, and 5202 or one past a live port |
| SessionTable.Count | internal/session/session.go:45-47 | the count is zero only for the empty table, and in a valid table it equals the number of distinct live cookies |
| SessionTable.CookiesCard | internal/session/session.go:45-47 | in a valid table there are exactly as many distinct cookies as sessions |
| SessionTable.Get | internal/session/session.go:35-43 | found iff some session has the cookie; when found, the result is the first such session; otherwise the zero session |
| SessionTable.Add | internal/session/session.go:62-66 | the count grows by one, the new session is last, and earlier entries are unchanged |
| SessionTable.Remove | internal/session/session.go:49-60 | no entry equal to the session remains, every other entry stays, and nothing new appears |
| SessionTable.RemoveKeepsOrder | internal/session/session.go:51-56 | survivors keep their relative order: removal from a concatenation is the concatenation of removals |
| SessionTable.RemoveExact | internal/session/session.go:51-56 | each other session keeps all its copies and no copy of the removed session remains |
| SessionTable.RemoveCount | internal/session/session.go:45-60 | Count drops by exactly the number of copies of the removed session |
| SessionTable.RemoveIdempotent | internal/session/session.go:49-60 | removing twice equals removing once |
| SessionTable.RemoveUnchanged | internal/session/session.go:49-60 | Remove changes nothing if and only if the session is absent |
| SessionTable.AddAfterMissPreservesValid | internal/session/session.go:24-66 | adding a session whose cookie Get did not find, on the port GetNextPort chose, keeps ports distinct and cookies unique |
| SessionTable.RemovePreservesValid | internal/session/session.go:49-60 | removal keeps the table invariant |
| SessionTable.GetFindsTheOnlyMatch | internal/session/session.go:15-40 | in a valid table Get of a session's cookie returns that session |
| SessionTable.GetAfterAdd | internal/session/session.go:35-66 | after Add an earlier match still wins; otherwise the added session is found iff it has the cookie |
| SessionTable.GetAfterRemove | internal/session/session.go:35-60 | in a valid table, once the session Get returned is removed, its cookie is no longer found |
| SessionTable.NextPortAboveLiveCount | internal/session/session.go:24-47 | in a valid table GetNextPort is at least 5202 + Count |
| SessionTable.AllocationScenario | internal/session/session.go:24-66 | cookie T1 gets 5202 on an empty table and is then found; T2 is not found and would get 5203 |

## Left out

- Concurrency: the `sync.Mutex` in `Sessions` and the goroutines of `main.go`. Each table operation is one atomic step. The unlocked reads in `Get`, `Count` and `GetNextPort`, and the unsynchronised sharing of the `main.go` slice between the accept loop and the reapers, are not modelled.
- Go slice aliasing: both removals filter in place (`sessions[:0]`). They are modelled as building a fresh sequence. The reaper's range over the table it is rewriting is modelled as a range over a snapshot.
- Process spawning and waiting (`exec.Command`, `Start`, `Wait`, the one-second sleep). The new process is a parameter of `Route`, and its exit is an `Exit` event.
- `getClientIp`, flag parsing, logging, `main`, and the listen/accept loop with its fatal error returns: these are I/O plumbing.
- `connect` and `copy` in `main.go`, and `internal/proxy/proxy.go`: these are network dialing and concurrent byte relays with no sequential contract.
- The upstream address string `localhost:<port>` is modelled by the port alone.
- LegacyRouter.GetNextPort: Go's 64-bit `int` wrap-around at `IperfPort + 1` is not modelled. Ports start at 5202 and grow by at most one per allocation, so they never approach 2^63. The source also applies no upper bound of 65535, and neither does the model.
- SessionTable.GetNextPort: the same 64-bit wrap-around is not modelled, for the same reason.
- The newer router that calls `internal/session` is not part of this model. Its lookup-then-add discipline is stated by `SessionTable.AddAfterMissPreservesValid`.
