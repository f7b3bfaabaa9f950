# Aggregating HTTP body chunks: a Dafny model

This project models the core of `http-extras`, a small Rust crate with three parts:

- **`Aggregate`**: a read cursor (the `bytes::Buf` operations) over a deque of byte chunks. The chunks are kept in arrival order and read as their concatenation.
- **`AggregateFuture`**: the collector that drains an HTTP body into an `Aggregate`. The crate has two versions. The one in `src/body/aggregate.rs` checks the tally against a declared content length. The one in `src/aggregate.rs` has no check.
- **`Authorization`**: pulls a scheme-prefixed token (`Bearer …`) out of a request's Authorization header.

Files:

- `std_types.dfy`: `Option`, `Result` and `Poll`, shaped as in Rust.
- `chunks.dfy`: sequences of chunks and what they mean.
  - `Concat` is the logical content; `TotalLength` is the sum of the chunk lengths.
  - `Drop(bs, n)` is the chunk deque left after consuming `n` bytes.
  - The lemmas tie these to each other.
- `aggregate.dfy`: the class `Aggregate`.
  - Its field `bufs: seq<seq<bv8>>` is the deque.
  - `Valid()` says no retained chunk is empty; `Content()` is `Concat(bufs)`.
  - Every operation is stated against `Content()` and `Drop`.
  - `src/aggregate.rs` has a line-for-line copy of this type (src/aggregate.rs:50-135). This one class models both copies, and the table cites the `src/body/aggregate.rs` copy.
- `collect.dfy`: one call of `poll`, as a pure function `Pump` over the body's events: `Data(bytes)`, `BodyError(e)`, `End` and `NotReady` (a body with no events left has ended).
  - The `Guard` type selects the length check: none (`src/aggregate.rs`), the comparison as written, or the over-length check (`used > content_len`) that the error variant `AggregateError::ContentLength` and the field `content_len` suggest.
  - The lemmas fully describe what one poll pushes, tallies and returns.
- `body_aggregate.dfy`, `plain_aggregate.dfy`: the two collectors as classes.
  - Each has a `Poll` method whose loop consumes events greedily.
  - Its postcondition ties the new state and the result to `Pump`, or to the run of leading data events.
- `auth.dfy`: `to_str`, `token` and `bearer` as functions over header bytes (integers 0 to 255), with the round trip through `strip_prefix` and the three failures.

The comparison at `src/body/aggregate.rs:48` is modelled as the code writes it: `content_len > used`. The guard therefore fails while the tally is still *below* the declared length. The crate's own names suggest the opposite: the error variant `AggregateError::ContentLength` and the field `content_len` point to a check that a body does not run over its declared length. This model follows the code. The lemmas spell out the consequences (see "Findings").

## Model

| member | source | states |
|---|---|---|
| `Aggregates.Aggregate.constructor` | src/body/aggregate.rs:71-75 | a new aggregate holds no chunks and has empty content |
| `Aggregates.Aggregate.Push` | src/body/aggregate.rs:77-81 | requires a non-empty chunk; appends it at the back, so the content grows by exactly the chunk's bytes; no chunk is ever empty |
| `Aggregates.Aggregate.Remaining` | src/body/aggregate.rs:91-94 | the sum of the chunk lengths equals the length of the logical content |
| `Aggregates.Aggregate.Chunk` | src/body/aggregate.rs:96-99 | the slice returned is a prefix of the content; it is empty exactly when no bytes remain; nothing changes |
| `Aggregates.Aggregate.Advance` | src/body/aggregate.rs:101-117 | requires `cnt` at most the remaining bytes; afterwards the content is the old content minus its first `cnt` bytes; the deque is `Drop(old, cnt)`, with used-up chunks popped and none left empty; `advance(0)` changes nothing |
| `Aggregates.Aggregate.ChunksVectored` | src/body/aggregate.rs:119-132 | fills `min(slots, chunks)` slots; slot `i` is chunk `i`; the other slots are untouched; returns 0 for no slots; the filled slots are a prefix of the content; the buffer is unchanged |
| `Aggregates.Aggregate.CopyToBytes` | src/body/aggregate.rs:134-150 | requires `len` at most the remaining bytes; returns the first `len` bytes and removes exactly them; an exact front match pops one chunk; a longer front chunk keeps the chunk count |
| `Aggregates.Aggregate.PutFront` | src/body/aggregate.rs:146 | one round of `bm.put(self.take(len))`: requires a positive limit within the remaining bytes; copies a non-empty prefix of the content no longer than the limit and advances the deque past exactly it |
| `Aggregates.Aggregate.CopyAcross` | src/body/aggregate.rs:143-148 | the cross-chunk copy of `take(len)` gathers the first `len` bytes chunk by chunk and leaves the rest; requires `len` at most the remaining bytes, the assertion at line 144 |
| `Chunks.TotalLengthIsLength` | src/body/aggregate.rs:92-94 | the summed chunk lengths equal the length of the concatenation |
| `Chunks.ConcatAppend` | src/body/aggregate.rs:78-80 | pushing a chunk at the back appends its bytes to the content |
| `Chunks.ConcatJoin` | src/aggregate.rs:37-41 | the content of chunks pushed one after another is the content before, followed by theirs |
| `Chunks.ConcatSplit` | src/body/aggregate.rs:125-130 | the chunks before slot `k`, followed by the rest, give the whole content, so the filled slots cover a prefix |
| `Chunks.DropContent` | src/body/aggregate.rs:102-117 | consuming `n` bytes from the front drops exactly the first `n` bytes of the content |
| `Chunks.DropNonEmpty` | src/body/aggregate.rs:107-115 | consuming from the front pops every chunk it exhausts, so no empty chunk is retained |
| `Chunks.DropDrop` | src/body/aggregate.rs:102-117 | advancing by `m` and then by `k` is advancing by `m + k` |
| `Collect.Pump` | src/body/aggregate.rs:44-61 | the reference definition of one poll, and with `NoCheck` of src/aggregate.rs:35-46: each data chunk is tallied, a rejected tally fails with `ContentLength` without pushing, an accepted chunk is pushed and the loop goes on; a body error, the end and not-ready break |
| `Collect.PumpProgress` | src/body/aggregate.rs:44-61 | a poll consumes events from the front only, at least one when there is one; the tally never decreases and chunks are only appended |
| `Collect.RejectedEmptyChunk` | src/body/aggregate.rs:46-49 | an empty chunk arriving below the declared length is rejected before `push`, so a body holding it is admitted by `PushesNonEmpty` and its poll fails with `ContentLength` with nothing pushed |
| `Collect.PumpAccepted` | src/body/aggregate.rs:44-61 | when every tally passes the guard, a poll pushes the body's whole leading run of data chunks in order and adds their lengths to `used`; it then breaks on the next event: a body error fails with `Body(e)`, end (or no events left) finishes, not-ready suspends |
| `Collect.PumpRejected` | src/body/aggregate.rs:46-50 | when a tally fails the guard, a poll fails with `ContentLength` at the first failing chunk; that chunk is counted in `used` but not pushed, and the accepted chunks before it are pushed |
| `Collect.AcceptedPrefix` | src/body/aggregate.rs:47-49 | the chunks before the first failing tally all pass the guard; a run fails exactly when such a chunk exists, and that chunk's tally is the one rejected |
| `Collect.TallyOkEveryPrefix` | src/body/aggregate.rs:47-49 | a run passes the guard exactly when the guard holds after every chunk's tally |
| `Collect.AsWrittenPassesOnceReached` | src/body/aggregate.rs:48 | once the tally has reached the declared length, the comparison as written never fails again |
| `Collect.AsWrittenFirstChunkDecides` | src/body/aggregate.rs:48 | with the comparison as written, a run passes exactly when its first chunk already brings the tally to at least `content_len` |
| `Collect.IntendedWithinLength` | src/body/aggregate.rs:48 | with the over-length comparison, a non-empty run passes exactly when its total stays within the declared length |
| `Collect.NoCheckAccepts` | src/aggregate.rs:37-41 | without a length check every run of chunks is accepted |
| `Collect.PumpNoCheck` | src/aggregate.rs:35-46 | a poll without a length check pushes every leading data chunk and breaks on the first other event |
| `Collect.RunIsLeadingData` | src/body/aggregate.rs:44-55 | the run is exactly the payloads of the body's leading data events, and the event after it is not data |
| `Collect.AsWrittenRejectsExactLength` | src/body/aggregate.rs:46-50 | declared length 10 with chunks of 4 and then 6: the poll fails with `ContentLength` after the first chunk, with `used == 4` and nothing pushed |
| `Collect.AsWrittenAcceptsOverLength` | src/body/aggregate.rs:46-59 | declared length 10 and a single 12-byte chunk: the poll finishes with that chunk pushed |
| `Collect.IntendedAcceptsExactLength` | src/body/aggregate.rs:46-59 | with the over-length check, 4 then 6 bytes of 10 finish with both chunks, in order, and `used == 10` |
| `Collect.IntendedRejectsOverLength` | src/body/aggregate.rs:46-50 | with the over-length check, 6 then 6 bytes of 10 fail after the second chunk, which is not pushed |
| `BodyAggregate.AggregateFuture.constructor` | src/body/aggregate.rs:25-32 | requires that every chunk the collector would push is non-empty; a new collector has an empty buffer, a zero tally and the declared length |
| `BodyAggregate.AggregateFuture.PollData` | src/body/aggregate.rs:45 | `poll_data`: yields the body's next event and removes it, or `End` once no events are left; the tally and the buffer are unchanged |
| `BodyAggregate.AggregateFuture.Poll` | src/body/aggregate.rs:42-63 | the new body position, tally and pushed chunks equal `Pump` with the comparison as written; the result follows how the poll broke: `Ok` hands over the buffer and leaves `bufs == None`, while an error or `Pending` keeps the buffer |
| `PlainAggregate.AggregateFuture.constructor` | src/aggregate.rs:18-23 | requires that every chunk before the end is non-empty; a new collector has an empty buffer |
| `PlainAggregate.AggregateFuture.PollData` | src/aggregate.rs:36 | `poll_data`: yields the body's next event and removes it, or `End` once no events are left; the buffer is unchanged |
| `PlainAggregate.AggregateFuture.Poll` | src/aggregate.rs:33-47 | every leading data chunk is pushed in arrival order, so the content grows by their concatenation; a body error is returned unwrapped; end hands over the buffer and leaves `buf == None`; `Pending` keeps it |
| `Auth.ToStrOf` | src/request/auth.rs:41-46 | `MissingHeader` exactly when no header is present; `InvalidStr` exactly when it is present but not text; otherwise the header's text |
| `Auth.StripPrefix` | src/request/auth.rs:38 | yields a value exactly when the string starts with the prefix, and then prefix + value is the string |
| `Auth.TokenOf` | src/request/auth.rs:34-39 | a `to_str` failure is reported as `ToStr(e)`, before the prefix is looked at; on text, the result is `Token` exactly when the prefix is missing; on success, prefix + token is the header text |
| `Auth.TokenOfJoined` | src/request/auth.rs:38 | a header whose text is `prefix + t` yields the token `t` (the other half of the round trip) |
| `Auth.Bearer` | src/request/auth.rs:29-32 | succeeds exactly when the header is present, is text and starts with `"Bearer "`, and then returns the rest of it |
| `Auth.BearerOfExample` | src/request/mod.rs:22-29 | the header `Bearer 1234` yields the token `1234` |
| `Auth.BearerFailures` | src/request/auth.rs:36-45 | the three failures: no header gives `ToStr(MissingHeader)`, a NUL byte gives `ToStr(InvalidStr)`, `Basic 1234` gives `Token` |

## Findings

| source | as written | input that shows it | evidently intended | confidence | as-written member | corrected member |
|---|---|---|---|---|---|---|
| src/body/aggregate.rs:48 | `if me.content_len > me.used` fails the collection while the tally is still below the declared length | declared length 10, chunks of 4 then 6: fails with `ContentLength` after the first chunk; one 12-byte chunk is accepted | fail only once the tally exceeds the declared length (`used > content_len`), so 4 + 6 succeeds and 6 + 6 fails after the second chunk | high; not executed | `Collect.AsWrittenRejectsExactLength` | `Collect.IntendedWithinLength` |

The collector class `BodyAggregate.AggregateFuture` keeps the comparison as written, since it models the code. The corrected comparison is `Collect.Guard.Intended`. `Pump` runs the same loop under it. `IntendedWithinLength`, `IntendedAcceptsExactLength` and `IntendedRejectsOverLength` prove the described behaviour for it. Even with the corrected comparison, a body that ends short of the declared length is accepted. The model does not add an under-length check.

## Left out

- Futures: `Pin`, `Context`, wakers and the `http_body::Body` trait are not modelled. The body is a finite sequence of events held by the collector. `poll_data` returning `Poll::Pending` is the `NotReady` event, which the poll consumes. No real asynchrony, scheduling or cancellation is modelled.
- `Bytes`/`BytesMut`: reference counting and zero-copy are not modelled. Results are byte sequences compared by value. The only trace of zero-copy is the chunk count, which `CopyToBytes` states.
- `IoSlice` lifetimes are not modelled, and neither is a generic `T: Buf` chunk that fills several slots. A chunk is `seq<bv8>` and fills at most one slot, which is the default `Buf::chunks_vectored`.
- `bufs_cnt` (built only with the `http1` feature) is not modelled as a member. The chunk count is `|bufs|`.
- `usize` arithmetic: the tally `used` and `remaining()` are unbounded naturals. Wrap-around or an overflow panic at 2^64 bytes is not modelled.
- BodyAggregate.AggregateFuture.Poll: requires the buffer not to have been taken yet. It does not model polling again after `Ready(Ok)`. In that case later data would still be tallied but not pushed, and `End` would panic on `unwrap`.
- PlainAggregate.AggregateFuture.Poll: requires the buffer not to have been taken yet, for the same reason.
- Both collectors require that every data chunk they would push is non-empty (`PushesNonEmpty`). This is the `debug_assert!` in `push` (src/body/aggregate.rs:79). The requirement follows the body up to its end and, for `BodyAggregate`, the tally: an empty chunk that the comparison at line 48 rejects is allowed (`Collect.RejectedEmptyChunk`), and so is anything after `End`, which is never polled. A release build would accept and retain an empty chunk that is pushed; that case is not modelled.
- `HeaderValue::to_str` belongs to the `http` crate, which is not part of this model. `IsText` uses that crate's rule: every byte is visible ASCII or a tab. Only the scenario lemmas depend on that rule. `Authorization::new` (the header lookup) is not modelled: an `Authorization` is given its header value directly.
- `src/body/json.rs` (wraps `serde_json::from_reader` and maps its errors), `src/response.rs` (JSON response builder), and the re-exports and extension traits in `src/body/mod.rs`, `src/request/mod.rs` and `src/lib.rs` are not part of this model.
- `src/aggregate.rs` is not declared as a module in `src/lib.rs`, so its code is unreachable. It is modelled anyway, sharing the `Aggregate` class.
