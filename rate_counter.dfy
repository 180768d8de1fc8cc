/** Per-peer sliding-window transfer counter.

    A counter keeps, in arrival order, the transfers recorded during the
    trailing minute together with a cached total of their bytes. Recording a
    transfer appends it at the back; window maintenance ("truncation") pops
    stale entries from the front only, stopping at the first entry that is
    still inside the window.

    Time is an explicit parameter: a timestamp is a natural number of
    milliseconds from an arbitrary origin, standing for the wall-clock
    instant the source reads from the system clock. */
module PeerRateCounter {

  /** Length of the trailing window: one minute, in milliseconds. */
  const MINUTE: nat := 60_000

  /** One recorded transfer: how many bytes, and when it was recorded. */
  datatype Entry = Entry(bytes: nat, recorded: nat)

  /** What the read path reports about the window. */
  datatype TransmittedData = TransmittedData(bytesPerMin: nat, countPerMin: nat)

  /** Total bytes of a sequence of entries. */
  function Sum(es: seq<Entry>): (s: nat)
  {
    if es == [] then 0 else es[0].bytes + Sum(es[1..])
  }

  /** The window boundary `now - MINUTE`, computed over the integers. */
  function Cutoff(now: nat): (c: int)
  {
    now as int - MINUTE as int
  }

  /** An entry is stale at `now` when it was recorded strictly before the
      window boundary; an entry exactly on the boundary is kept. */
  predicate Stale(e: Entry, now: nat)
  {
    e.recorded < Cutoff(now)
  }

  /** Entries in non-decreasing order of their timestamps. */
  predicate Chronological(es: seq<Entry>)
  {
    forall i, j :: 0 <= i < j < |es| ==> es[i].recorded <= es[j].recorded
  }

  /** What truncation at `now` leaves of `es`: the longest run of stale
      entries at the front is dropped, nothing else. The result is a suffix
      of `es`, every dropped entry was stale, and the first kept entry (if
      any) is not stale. */
  function Truncated(es: seq<Entry>, now: nat): (r: seq<Entry>)
    ensures |r| <= |es| && r == es[|es| - |r|..]
    ensures forall i :: 0 <= i < |es| - |r| ==> Stale(es[i], now)
    ensures r == [] || !Stale(r[0], now)
    decreases |es|
  {
    if es != [] && Stale(es[0], now) then Truncated(es[1..], now) else es
  }

  /** Reference definition of the window: the entries of `es` that are not
      stale at `now`, in their original order. */
  function InWindow(es: seq<Entry>, now: nat): (r: seq<Entry>)
    ensures |r| <= |es|
    ensures forall e :: e in r <==> e in es && !Stale(e, now)
    decreases |es|
  {
    if es == [] then []
    else (if Stale(es[0], now) then [] else [es[0]]) + InWindow(es[1..], now)
  }

  /** A counter owned by one peer connection. Both fields are updated in
      place; `Valid` is the invariant that the cached total is the sum of
      the retained entries' bytes. */
  class RateCounter {
    var entries: seq<Entry>
    var bytesPerMin: nat

    ghost predicate Valid()
      reads this
    {
      bytesPerMin == Sum(entries)
    }

    /** A fresh counter: no entries and a zero total. */
    constructor ()
      ensures Valid()
      ensures entries == [] && bytesPerMin == 0
    {
      entries := [];
      bytesPerMin := 0;
    }

    /** Records a transfer of `bytes` at time `now`, then truncates at `now`. */
    method Increment(bytes: nat, now: nat)
      requires Valid()
      modifies this
      ensures Valid()
      ensures entries == Truncated(old(entries) + [Entry(bytes, now)], now)
    {
      SumAppend(entries, [Entry(bytes, now)]);
      entries := entries + [Entry(bytes, now)];
      bytesPerMin := bytesPerMin + bytes;
      Truncate(now);
    }

    /** Cached byte total of the retained entries. */
    function BytesPerMin(): (r: nat)
      reads this
      requires Valid()
      ensures r == Sum(entries)
    {
      bytesPerMin
    }

    /** Number of retained transfers; when there are none, the total is zero. */
    function CountPerMin(): (r: nat)
      reads this
      requires Valid()
      ensures r == |entries|
      ensures r == 0 ==> BytesPerMin() == 0
    {
      |entries|
    }

    /** Reports the cached total and the number of entries. Despite its
        name it does not truncate: it changes nothing. */
    method GetBytesPerMinAndCountPerMinAndTruncate() returns (data: TransmittedData)
      requires Valid()
      ensures data.bytesPerMin == Sum(entries)
      ensures data.countPerMin == |entries|
    {
      data := TransmittedData(BytesPerMin(), CountPerMin());
    }

    /** Pops stale entries from the front, subtracting each one's bytes from
        the total; stops at the first entry still inside the window. */
    method Truncate(now: nat)
      requires Valid()
      modifies this
      ensures Valid()
      ensures entries == Truncated(old(entries), now)
    {
      while entries != [] && Stale(entries[0], now)
        invariant Valid()
        invariant Truncated(entries, now) == Truncated(old(entries), now)
        decreases |entries|
      {
        var front := entries[0];
        entries := entries[1..];
        bytesPerMin := bytesPerMin - front.bytes;
      }
    }
  }

  /** The total of a concatenation is the sum of the totals. */
  lemma {:induction false} SumAppend(a: seq<Entry>, b: seq<Entry>)
    ensures Sum(a + b) == Sum(a) + Sum(b)
    decreases |a|
  {
    if a == [] {
      assert a + b == b;
    } else {
      assert (a + b)[1..] == a[1..] + b;
      SumAppend(a[1..], b);
    }
  }

  /** Truncation is determined by its three defining properties: any split
      point `k` whose prefix is all stale and whose next entry is not stale
      is exactly where truncation cuts. */
  lemma TruncatedUnique(es: seq<Entry>, now: nat, k: nat)
    requires k <= |es|
    requires forall i :: 0 <= i < k ==> Stale(es[i], now)
    requires k == |es| || !Stale(es[k], now)
    ensures Truncated(es, now) == es[k..]
  {
  }

  /** A front entry inside the window stops truncation at once. */
  lemma TruncatedFreshFront(es: seq<Entry>, now: nat)
    requires es != [] && !Stale(es[0], now)
    ensures Truncated(es, now) == es
  {
  }

  /** When every entry is stale, truncation empties the sequence. */
  lemma TruncatedAllStale(es: seq<Entry>, now: nat)
    requires forall i :: 0 <= i < |es| ==> Stale(es[i], now)
    ensures Truncated(es, now) == []
  {
  }

  /** Truncating at an earlier time first does not change what a later
      truncation leaves; in particular truncation is idempotent. */
  lemma {:induction false} TruncatedLater(es: seq<Entry>, t1: nat, t2: nat)
    requires t1 <= t2
    ensures Truncated(Truncated(es, t1), t2) == Truncated(es, t2)
    decreases |es|
  {
    if es != [] && Stale(es[0], t1) {
      TruncatedLater(es[1..], t1, t2);
    }
  }

  /** When no entry is stale the window keeps every entry. */
  lemma {:induction false} InWindowAllFresh(es: seq<Entry>, now: nat)
    requires forall i :: 0 <= i < |es| ==> !Stale(es[i], now)
    ensures InWindow(es, now) == es
    decreases |es|
  {
    if es != [] {
      InWindowAllFresh(es[1..], now);
    }
  }

  /** For chronologically ordered entries, front-only truncation keeps
      exactly the entries inside the window, so every retained entry is
      inside it and the totals agree with the window's. */
  lemma {:induction false} ChronologicalTruncatedIsWindow(es: seq<Entry>, now: nat)
    requires Chronological(es)
    ensures Truncated(es, now) == InWindow(es, now)
    ensures forall i :: 0 <= i < |Truncated(es, now)| ==> !Stale(Truncated(es, now)[i], now)
    ensures Sum(Truncated(es, now)) == Sum(InWindow(es, now))
    ensures |Truncated(es, now)| == |InWindow(es, now)|
    decreases |es|
  {
    if es != [] {
      if Stale(es[0], now) {
        ChronologicalTruncatedIsWindow(es[1..], now);
      } else {
        InWindowAllFresh(es, now);
      }
    }
  }

  /** Recording with a timestamp no earlier than any retained one keeps the
      entries in chronological order, so the window property above keeps
      holding after every such increment. */
  lemma IncrementKeepsChronological(es: seq<Entry>, bytes: nat, now: nat)
    requires Chronological(es)
    requires forall i :: 0 <= i < |es| ==> es[i].recorded <= now
    ensures Chronological(Truncated(es + [Entry(bytes, now)], now))
    ensures Truncated(es + [Entry(bytes, now)], now) == InWindow(es + [Entry(bytes, now)], now)
  {
    var grown := es + [Entry(bytes, now)];
    AppendChronological(es, Entry(bytes, now));
    ChronologicalTruncatedIsWindow(grown, now);
    SuffixChronological(grown, |grown| - |Truncated(grown, now)|);
  }

  /** Entries evicted at an earlier time are still stale later, so what
      was appended after an earlier truncation ends up exactly as if nothing
      had been evicted before. */
  lemma {:induction false} TruncatedAppendLater(h: seq<Entry>, x: seq<Entry>, t1: nat, t2: nat)
    requires t1 <= t2
    ensures Truncated(Truncated(h, t1) + x, t2) == Truncated(h + x, t2)
    decreases |h|
  {
    if h != [] && Stale(h[0], t1) {
      assert (h + x)[1..] == h[1..] + x;
      TruncatedAppendLater(h[1..], x, t1, t2);
    }
  }

  /** The counter over a whole run of transfers. If the counter holds what
      truncation at `last` leaves of the transfers recorded so far
      (`history`, in time order, none later than `last`), then after
      recording one more transfer at `now >= last` it holds exactly the
      transfers of the extended history that lie in the window at `now`,
      and it reports their total and their number. The first requirement
      holds again afterwards with `history + [Entry(bytes, now)]` and
      `now`, and it holds of a new counter with an empty history. */
  method IncrementTracksWindow(rc: RateCounter, ghost history: seq<Entry>, ghost last: nat, bytes: nat, now: nat)
    requires rc.Valid() && rc.entries == Truncated(history, last)
    requires Chronological(history)
    requires forall i :: 0 <= i < |history| ==> history[i].recorded <= last
    requires last <= now
    modifies rc
    ensures rc.Valid()
    ensures rc.entries == Truncated(history + [Entry(bytes, now)], now)
    ensures rc.entries == InWindow(history + [Entry(bytes, now)], now)
    ensures rc.BytesPerMin() == Sum(InWindow(history + [Entry(bytes, now)], now))
    ensures rc.CountPerMin() == |InWindow(history + [Entry(bytes, now)], now)|
  {
    rc.Increment(bytes, now);
    TruncatedAppendLater(history, [Entry(bytes, now)], last, now);
    IncrementKeepsChronological(history, bytes, now);
  }

  /** Appending an entry no earlier than every other keeps the order. */
  lemma AppendChronological(es: seq<Entry>, e: Entry)
    requires Chronological(es)
    requires forall i :: 0 <= i < |es| ==> es[i].recorded <= e.recorded
    ensures Chronological(es + [e])
  {
    var grown := es + [e];
    forall i, j | 0 <= i < j < |grown|
      ensures grown[i].recorded <= grown[j].recorded
    {
      assert grown[i] == es[i];
      if j < |es| {
        assert grown[j] == es[j];
      }
    }
  }

  /** Every suffix of a chronological sequence is chronological. */
  lemma SuffixChronological(es: seq<Entry>, k: nat)
    requires Chronological(es) && k <= |es|
    ensures Chronological(es[k..])
  {
    forall i, j | 0 <= i < j < |es| - k
      ensures es[k..][i].recorded <= es[k..][j].recorded
    {
      assert es[k..][i] == es[k + i] && es[k..][j] == es[k + j];
    }
  }

  /** Total of a one- or two-entry sequence. */
  lemma SumSmall(a: Entry, b: Entry)
    ensures Sum([a]) == a.bytes
    ensures Sum([a, b]) == a.bytes + b.bytes
  {
    assert [a][1..] == [] && [b][1..] == [];
    assert [a, b][1..] == [b];
  }

  /** Out-of-order timestamps defeat front-only eviction: a stale entry
      behind a fresh one is kept. */
  lemma OutOfOrderEntryOutlivesWindow()
    ensures var es := [Entry(1, 2 * MINUTE), Entry(5, 0)];
      Truncated(es, 2 * MINUTE) == es && Stale(es[1], 2 * MINUTE)
      && InWindow(es, 2 * MINUTE) == [Entry(1, 2 * MINUTE)]
  {
    var es := [Entry(1, 2 * MINUTE), Entry(5, 0)];
    assert es[1..] == [Entry(5, 0)];
    assert InWindow(es[1..][1..], 2 * MINUTE) == [];
  }

  /** The unit-test scenario: two increments at t1 <= t2 within a minute of
      each other, then a truncation a minute and a millisecond after a
      later instant t3. */
  method UnitTestScenario(t1: nat, t2: nat, t3: nat)
    returns (afterFirst: TransmittedData, afterSecond: TransmittedData, afterTruncate: TransmittedData)
    requires t1 <= t2 <= t1 + MINUTE && t2 <= t3
    ensures afterFirst == TransmittedData(1000, 1)
    ensures afterSecond == TransmittedData(1123, 2)
    ensures afterTruncate == TransmittedData(0, 0)
  {
    var rc := new RateCounter();
    ghost var first := [Entry(1000, t1)];
    assert [] + [Entry(1000, t1)] == first;
    TruncatedFreshFront(first, t1);
    rc.Increment(1000, t1);
    SumSmall(Entry(1000, t1), Entry(123, t2));
    afterFirst := rc.GetBytesPerMinAndCountPerMinAndTruncate();

    ghost var second := [Entry(1000, t1), Entry(123, t2)];
    assert first + [Entry(123, t2)] == second;
    TruncatedFreshFront(second, t2);
    rc.Increment(123, t2);
    afterSecond := rc.GetBytesPerMinAndCountPerMinAndTruncate();

    TruncatedAllStale(second, t3 + MINUTE + 1);
    rc.Truncate(t3 + MINUTE + 1);
    afterTruncate := rc.GetBytesPerMinAndCountPerMinAndTruncate();
  }

  /** Two increments 30 s apart, read 31 s after the second: the read path
      still reports both, because it does not truncate; an explicit
      truncation at that time leaves only the second transfer. */
  method StaleReadScenario(t: nat)
    returns (beforeTruncate: TransmittedData, afterTruncate: TransmittedData)
    ensures beforeTruncate == TransmittedData(1000, 2)
    ensures afterTruncate == TransmittedData(500, 1)
  {
    var rc := new RateCounter();
    ghost var first := [Entry(500, t)];
    assert [] + [Entry(500, t)] == first;
    TruncatedFreshFront(first, t);
    rc.Increment(500, t);

    ghost var second := [Entry(500, t), Entry(500, t + 30_000)];
    assert first + [Entry(500, t + 30_000)] == second;
    TruncatedFreshFront(second, t + 30_000);
    rc.Increment(500, t + 30_000);
    SumSmall(Entry(500, t), Entry(500, t + 30_000));
    SumSmall(Entry(500, t + 30_000), Entry(500, t));
    beforeTruncate := rc.GetBytesPerMinAndCountPerMinAndTruncate();

    assert second[1..] == [Entry(500, t + 30_000)];
    TruncatedFreshFront(second[1..], t + 61_000);
    rc.Truncate(t + 61_000);
    afterTruncate := rc.GetBytesPerMinAndCountPerMinAndTruncate();
  }
}
