# Live status dashboard — Dafny model of its state and string logic

The dashboard (`live_status.py`) is a single-host liveness page. A background
worker pings a fixed list of targets. A second worker appends a heartbeat line
to a file. An HTTP handler renders both results as HTML. This project models
the parts of that program that are logic rather than I/O:

- `html_escape`: the five-pass HTML escaping applied to every dynamic value on
  the page (`html_escape.dfy`, module `HtmlEscape`).
- `PingState`: the per-target store of the latest probe record, and one round
  of the ping worker that fills it (`ping_state.dfy` and `ping_probe.dfy`,
  modules `PingStore` and `PingProbe`).
- `try_ping_once`: the attempt control flow over the two `ping` command
  variants (`ping_probe.dfy`).
- `HeartbeatState`: the record of the last heartbeat write and error
  (`heartbeat_state.dfy`, module `HeartbeatStore`).
- `all_ipv4_addrs`: assembly of the deduplicated, loopback-filtered address
  list (`addresses.dfy`, module `Addresses`).

Shared value types (`Option`, `Instant`, `Latency`) are in `status_types.dfy`.

Each store operation runs under the store's lock in the source. Here each one
is an atomic state-to-state function. A snapshot is a copy of immutable values,
so it is the state itself.

Some parameters stand for things the model does not execute:
- The socket lookups are inputs to `AllIpv4Addrs`. `primary` is what
  `get_primary_ipv4` returned. `resolved` is the address list from
  `getaddrinfo`, or `None` when that call raised.
- Running a ping command is the input `run`. It gives the outcome a command
  line would have if run in the current round.
- Clock readings are the input `now` or `clock`. `Instant` and `Latency` are
  opaque wrappers that no operation inspects.

## Model

| member | source | states |
|---|---|---|
| HtmlEscape.ReplaceChar | live_status.py:238-242 | One replacement pass leaves a string that lacks the pattern character unchanged. If the replacement text lacks that character, none is left in the output. |
| HtmlEscape.EscapeIsSinglePass | live_status.py:236-243 | The five sequential `replace` passes equal one left-to-right pass that swaps each special character for its entity. So no entity produced by a later pass is escaped again, because `&` goes first. |
| HtmlEscape.NoRawMarkup | live_status.py:236-243 | The escaped text never contains a raw `<`, `>`, `"` or `'`. |
| HtmlEscape.AmpersandsBeginEntities | live_status.py:237-242 | Every `&` in the escaped text starts one of `&amp;`, `&lt;`, `&gt;`, `&quot;` or `&#39;`. |
| HtmlEscape.EscapeLength | live_status.py:236-243 | Escaping never shortens its input. The output equals the input if and only if the input has none of `& < > " '`. |
| HtmlEscape.UnescapeEscape | live_status.py:236-243 | Decoding the five entities recovers the original string exactly, so no information is lost. |
| HtmlEscape.EscapeInjective | live_status.py:236-243 | Two different strings never escape to the same text. |
| PingStore.Init | live_status.py:77-80 | The keys of a fresh store are exactly the configured targets. Each record is not ok, with no latency and no timestamp, so no record has a latency without being ok. |
| PingStore.Update | live_status.py:82-84 | Updating a target replaces only that target's record with the new values and a timestamp, and adds the key if it was missing. Every other record stays the same. The latency-only-when-ok invariant survives when the new values respect it. |
| PingStore.UpdatesCommute | live_status.py:82-84 | Updates to two different targets have the same effect in either order. |
| PingStore.LatestUpdateWins | live_status.py:82-84 | A second update of the same target completely replaces the first. |
| PingProbe.TryPingOnce | live_status.py:95-132 | Runs at least one variant and at most two, in order. Every earlier attempt neither replied nor lacked the executable. The probe stops early only on a reply or a missing executable. It returns ok with that reply's latency exactly when the last attempt replied, and otherwise `(False, None)`. This agrees with the reference definitions `ProbeSucceeds` and `ReplyLatency`. |
| PingProbe.PingRound | live_status.py:138-140 | One worker round replaces every probed target's record with its probe's outcome. The record is ok exactly when the probe succeeds. Its latency is the replying variant's latency, or none. Its timestamp is the clock reading taken at the target's last position in the round. Records of targets outside the round stay the same. The keys gain the probed targets. The latency-only-when-ok invariant is kept. |
| HeartbeatStore.RecordSuccess | live_status.py:164-168 | A success sets the byte count and the write timestamp, clears the error and keeps the path. |
| HeartbeatStore.RecordError | live_status.py:170-172 | A failure sets only the error. The path, last write timestamp and byte count stay the same. |
| HeartbeatStore.ReplayFromInit | live_status.py:148-172 | After any history of successes and failures from a fresh record: the path is unchanged. Timestamp and byte count are those of the most recent success, or none and 0 if there was none, however many failures followed. The error is the last event's message if it failed, and absent if it succeeded. |
| HeartbeatStore.SuccessSupersedesError | live_status.py:164-172 | A success after a failure leaves the same record as the success alone. |
| Addresses.CollectQualified | live_status.py:53-70 | Before the fallback step, the list has no duplicates. It holds exactly the usable primary address (listed first) and the non-loopback resolved addresses, in the order they were first resolved. |
| Addresses.AllIpv4Addrs | live_status.py:52-73 | The result is non-empty with no duplicates, and a usable primary address comes first. Only the primary may start with `127.`. If something qualified, the entries are exactly the qualifying addresses, in the order they were first resolved. The result is `["Unknown"]` exactly when nothing other than the text `Unknown` qualified. |

## Left out

- Running `ping` and parsing its output (live_status.py:105-119). This includes the latency regular expression, the elapsed-time fallback and rounding to two decimals. It is an external process plus floating point, so a reply's latency is an opaque input.
- A zero exit whose latency parse raises is not a reply. Output such as `time=. ms` matches the pattern at live_status.py:115, and `float` then raises at line 117. Lines 128-129 catch this and the next variant is tried. In the model such an attempt is a `Failed` outcome of `run`, not `Replied`.
- PingProbe.TryPingOnce: does not return the `last_error` text, because the source computes it and then discards it. Within one round, the same command line is assumed to give the same outcome.
- The socket calls `get_primary_ipv4`, `gethostname` and `getaddrinfo` (live_status.py:35-49, 62-63). These are foreign calls, so their results are parameters.
- The `while True` loops of both workers, their sleeps and the `max(0, interval - elapsed)` pacing (live_status.py:135-144, 187-201). These are concurrency and float time. Only one ping round is modelled. The lock is treated as making each store operation atomic.
- The heartbeat write itself: `makedirs`, building the JSON payload, append, `fsync` (live_status.py:178-201). This is file-system I/O. Its outcome reaches the store as a `WriteOk` or `WriteFailed` event.
- `disk_usage_summary` and `human_bytes` (live_status.py:204-233). These are a file-system query and float formatting.
- `now_utc` and `format_dt` (live_status.py:26-32). The clock and date formatting are replaced by the opaque `Instant`.
- `render_index`, the HTTP `Handler`, `run` and `main` (live_status.py:246-388). These are templating and server glue. The escaping they rely on is modelled.
- Per-target `checks`/`misses` counters, a per-record error string and a transition event log are not modelled: `live_status.py` has none of them.
- `PingState.snapshot` and `HeartbeatState.snapshot` (live_status.py:86-89, 155-162) copy values under the lock. With immutable values the copy is the state itself, so `PingStore.Snapshot` and `HeartbeatStore.Snapshot` are identities and carry no contract.
- Python's `str.replace` is modelled only for the one-character patterns used by `html_escape`.

## Notes on the code as written

- `all_ipv4_addrs` filters `127.` only from the resolved addresses, not from the primary. A primary address from the hostname fallback such as `127.0.1.1` is therefore listed. `AllIpv4Addrs` states exactly this.
- `PingState.update` adds an entry for a target that was not configured, rather than rejecting it. `Update` models this.
