# Peer rate counter and account-ID errors, in Dafny

This project models two small pieces of a peer-to-peer blockchain node.

**The per-peer rate counter** (`rate_counter.dfy`, module `PeerRateCounter`).
A `RateCounter` tracks the transfers a peer made during the last minute. It
holds a queue of entries (bytes, time recorded) in arrival order and a cached
total `bytesPerMin`. It is modelled as a class whose two fields are updated
in place:

- `Increment(bytes, now)` pushes `Entry(bytes, now)` at the back, adds
  `bytes` to the total and then truncates at `now`.
- `Truncate(now)` is a `while` loop. It pops entries from the front while the
  front entry was recorded strictly before `now - MINUTE`, and subtracts each
  popped entry's bytes from the total.
- The read path returns the cached total and the number of entries.

The invariant `Valid()` says the cached total is the sum of the entries'
bytes. It is kept by every method, and it is why the subtraction in the loop
never goes below zero. Both mutating methods are specified by the pure
function `Truncated`: a suffix of the old entries whose dropped prefix is all
stale and whose first kept entry is not. Eviction looks only at the front.
So "every kept entry is inside the window" is guaranteed only when timestamps
are non-decreasing; out of order it may hold or fail. The guarantee is proved
as a conditional lemma (`ChronologicalTruncatedIsWindow`), and
`OutOfOrderEntryOutlivesWindow` shows a stale entry that survives when the
order is broken. Over a whole run of increments at non-decreasing times,
`IncrementTracksWindow` shows that the counter holds exactly the transfers of
the last minute and reports their total and number; the step it needs is
`TruncatedAppendLater`: an entry evicted at an earlier time is still stale at
a later one.

Time is a parameter. A timestamp is a natural number of milliseconds, and
`MINUTE` is 60 000. The cutoff `now - MINUTE` is computed over the integers.
When `now < MINUTE` the cutoff is negative and nothing is stale.

**Account-ID parse errors** (`account_id_errors.dfy`, module `AccountIdErrors`).
This module has the six-kind `ParseErrorKind` with one predicate per kind and
a message per kind. The invalid-characters kind gets its message through the
catch-all arm. `ParseAccountError` pairs a kind with the rejected account ID
and displays as `[<id>]: <message>`.

The six predicates are named after the source's `is_too_long`, `is_too_short`
and `has_*` methods. Four of the source names would clash with the
constructors of the same name, so those four carry a `Kind` suffix
(`HasCapsCharsKind` and so on).

Where the written behaviour departs from a plain reading of the names, the
model follows the code:

- `get_bytes_per_min_and_count_per_min_and_truncate` does not truncate. The
  modelled method changes nothing. `StaleReadScenario` shows that a read made
  61 s after a transfer still reports it until `Truncate` runs.
- Entries are not guaranteed to be in time order, because the timestamps come
  from the wall clock, which may go backwards.

## Model

| member | source | states |
|---|---|---|
| `PeerRateCounter.Truncated` | chain/network/src/peer/rate_counter.rs:66-71 | truncation keeps a suffix of the entries, in order and unchanged; every dropped entry was recorded strictly before `now - MINUTE`; the first kept entry, if any, was not |
| `PeerRateCounter.InWindow` | chain/network/src/peer/rate_counter.rs:28-29 | reference window: an entry is in it exactly when it is one of the entries and is not older than one minute |
| `PeerRateCounter.RateCounter.constructor` | chain/network/src/peer/rate_counter.rs:41-43 | a new counter has no entries and a zero total, and satisfies the total-equals-sum invariant |
| `PeerRateCounter.RateCounter.Increment` | chain/network/src/peer/rate_counter.rs:46-51 | the new entries are the old entries plus `Entry(bytes, now)` at the back, truncated at `now`; the total stays equal to the sum of the entries' bytes |
| `PeerRateCounter.RateCounter.BytesPerMin` | chain/network/src/peer/rate_counter.rs:58-60 | the cached total is the sum of the bytes of the retained entries |
| `PeerRateCounter.RateCounter.CountPerMin` | chain/network/src/peer/rate_counter.rs:62-64 | the count is the number of retained entries, and a zero count means a zero byte total |
| `PeerRateCounter.RateCounter.GetBytesPerMinAndCountPerMinAndTruncate` | chain/network/src/peer/rate_counter.rs:53-56 | returns the sum of the retained bytes and the number of entries; it may modify nothing, so it does not truncate |
| `PeerRateCounter.RateCounter.Truncate` | chain/network/src/peer/rate_counter.rs:66-71 | the loop leaves exactly `Truncated(old entries, now)`, and every subtraction stays within the cached total, so the invariant is kept |
| `PeerRateCounter.SumAppend` | chain/network/src/peer/rate_counter.rs:48-49 | the total of appended entries is the old total plus the new bytes, which is why adding `bytes` keeps the invariant |
| `PeerRateCounter.TruncatedUnique` | chain/network/src/peer/rate_counter.rs:68 | any cut point whose prefix is all stale and whose next entry is fresh is exactly where truncation cuts |
| `PeerRateCounter.TruncatedFreshFront` | chain/network/src/peer/rate_counter.rs:68 | a front entry inside the window stops eviction at once, so nothing is removed |
| `PeerRateCounter.TruncatedAllStale` | chain/network/src/peer/rate_counter.rs:68-69 | when every entry is stale, truncation removes all of them |
| `PeerRateCounter.TruncatedLater` | chain/network/src/peer/rate_counter.rs:66-71 | truncating at `t1` and then at a later `t2` leaves the same entries as truncating at `t2` alone; truncation is idempotent |
| `PeerRateCounter.InWindowAllFresh` | chain/network/src/peer/rate_counter.rs:28-29 | when no entry is stale the window is all the entries |
| `PeerRateCounter.ChronologicalTruncatedIsWindow` | chain/network/src/peer/rate_counter.rs:66-71 | for entries in time order, truncation keeps exactly the in-window entries, so every kept entry is in the window and the total and count are the window's |
| `PeerRateCounter.IncrementKeepsChronological` | chain/network/src/peer/rate_counter.rs:46-50 | an increment whose time is no earlier than the retained entries keeps them in time order, and its result is exactly the window |
| `PeerRateCounter.TruncatedAppendLater` | chain/network/src/peer/rate_counter.rs:66-71 | truncating at `t1`, appending, then truncating at a later `t2` leaves what truncating the whole appended sequence at `t2` leaves: what was evicted earlier would be evicted anyway |
| `PeerRateCounter.IncrementTracksWindow` | chain/network/src/peer/rate_counter.rs:28-50 | after any run of increments at non-decreasing times, the counter holds exactly the recorded transfers inside the window at the latest time, and reports their byte total and their number |
| `PeerRateCounter.AppendChronological` | chain/network/src/peer/rate_counter.rs:48 | pushing an entry no earlier than all others keeps time order |
| `PeerRateCounter.SuffixChronological` | chain/network/src/peer/rate_counter.rs:69 | popping from the front keeps time order |
| `PeerRateCounter.OutOfOrderEntryOutlivesWindow` | chain/network/src/peer/rate_counter.rs:68 | with a fresh entry in front of a stale one, truncation keeps the stale entry, so the kept entries differ from the window |
| `PeerRateCounter.UnitTestScenario` | chain/network/src/peer/rate_counter.rs:79-95 | `increment(1000)` reads (1000, 1); then `increment(123)` reads (1123, 2); truncating a minute and a millisecond later reads (0, 0) |
| `PeerRateCounter.StaleReadScenario` | chain/network/src/peer/rate_counter.rs:54-71 | transfers of 500 bytes 30 s apart read (1000, 2) even after the first has aged out; truncating 61 s after the first leaves (500, 1) |
| `AccountIdErrors.ParseErrorKind.IsTooLong` | core/account-id/src/errors.rs:62-64 | holds exactly for `TooLong`; with `ExactlyOnePredicateHolds`, it is the one predicate that holds for that kind |
| `AccountIdErrors.ParseErrorKind.IsTooShort` | core/account-id/src/errors.rs:69-71 | holds exactly for `TooShort`; see `ExactlyOnePredicateHolds` |
| `AccountIdErrors.ParseErrorKind.HasCapsCharsKind` | core/account-id/src/errors.rs:76-78 | holds exactly for `HasCapsChars`; see `ExactlyOnePredicateHolds` |
| `AccountIdErrors.ParseErrorKind.HasConsecutiveSeparatorsKind` | core/account-id/src/errors.rs:83-85 | holds exactly for `HasConsecutiveSeparators`; see `ExactlyOnePredicateHolds` |
| `AccountIdErrors.ParseErrorKind.HasUnterminatedSeparatorsKind` | core/account-id/src/errors.rs:90-92 | holds exactly for `HasUnterminatedSeparators`; see `ExactlyOnePredicateHolds` |
| `AccountIdErrors.ParseErrorKind.HasInvalidCharsKind` | core/account-id/src/errors.rs:97-99 | holds exactly for `HasInvalidChars`; see `ExactlyOnePredicateHolds` |
| `AccountIdErrors.ParseErrorKind.Message` | core/account-id/src/errors.rs:102-117 | every kind has a non-empty message; `MessageInjective` shows the six messages are distinct and `InvalidCharsMessage` gives the catch-all message |
| `AccountIdErrors.ExactlyOnePredicateHolds` | core/account-id/src/errors.rs:58-100 | each of the six predicates holds for its own kind and for no other, so exactly one holds for any kind |
| `AccountIdErrors.MessagesSuffixFree` | core/account-id/src/errors.rs:104-115 | no kind's message ends with a different kind's message |
| `AccountIdErrors.MessageInjective` | core/account-id/src/errors.rs:104-115 | distinct kinds have distinct messages |
| `AccountIdErrors.InvalidCharsMessage` | core/account-id/src/errors.rs:114 | the invalid-characters kind displays "the account ID has an invalid format", through the catch-all arm |
| `AccountIdErrors.ParseAccountError.Kind` | core/account-id/src/errors.rs:9-11 | the kind is the first component: the error is this kind paired with some account ID |
| `AccountIdErrors.ParseAccountError.GetAccountId` | core/account-id/src/errors.rs:14-16 | the account ID is the second component: the error is some kind paired with this account ID |
| `AccountIdErrors.AccessorsRecoverComponents` | core/account-id/src/errors.rs:7-17 | `Kind` returns the first component and `GetAccountId` returns the second |
| `AccountIdErrors.ParseAccountError.ToString` | core/account-id/src/errors.rs:20-24 | the display form is `[`, then the account ID, then `]: `, then the kind's message |
| `AccountIdErrors.DisplayDeterminesKind` | core/account-id/src/errors.rs:20-24 | two errors with the same display form have the same kind, because the display ends with the message and no message ends with another |
| `AccountIdErrors.DisplayInjective` | core/account-id/src/errors.rs:20-24 | two errors with the same display form are the same error: kind and account ID can be recovered from the text |

## Left out

- `PeerRateCounter.RateCounter.Increment`: byte counts and the total are unbounded naturals. The source's `u64` addition would panic on overflow, and that is not modelled.
- `PeerRateCounter.RateCounter.Truncate`: the cutoff is computed over the integers. The source's `SystemTime - Duration` panics when the result cannot be represented, and that is not modelled.
- Reading the system clock: `now` is a parameter of `Increment` and `Truncate`. Timestamps are whole milliseconds, so the order of clock readings less than a millisecond apart, which the source's clock can tell apart, is lost.
- `TransmittedData.count_per_min` is a `usize` in the source and a natural number here.
- The `Display`, `Formatter` and `std::error::Error` machinery and the derived `Eq`, `Clone` and `Debug` impls: display is a function that returns a string.
- The `#[non_exhaustive]` marker on `ParseErrorKind`: it only affects code outside the crate.
- The account-ID validation algorithm that produces these errors, and the order in which the kinds take precedence, are not part of this model.
- Ownership and locking of counters by a peer manager are not part of this model. The counter is single-owner mutable state.
