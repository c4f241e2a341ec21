/** The swap-tracking contract: an append-only log of swap records kept in
    the contract's persistent storage, plus the events it publishes.

    Persistent storage is a key-value store with two kinds of key
    (`DataKey`). The model keeps the entry under each kind in its own field:
    `count` is the entry under `SwapCount`, and `records[i]` the entry under
    `Swap(i)`. The event sink is an append-only sequence. */
module SwapTracker {
  import opened Values
  import opened SwapLog

  /** One swap as stored on-chain. The user's address is the type parameter `A`. */
  datatype SwapRecord<A> = SwapRecord(
    user: A,
    fromAsset: string,
    toAsset: string,
    amount: I128,
    timestamp: U64)

  /** The storage keys of the contract. */
  datatype DataKey = SwapCount | Swap(index: U64)

  /** A published contract event: its topic symbols and its data tuple. */
  datatype ContractEvent<A> = ContractEvent(
    topics: seq<string>,
    data: (A, string, string, I128, U64))

  /** How an invocation ended. A trapped invocation's writes and events are
      discarded by the host, so the contract's state is as before the call. */
  datatype Outcome = Committed | Trapped(reason: string)

  /** The topic under which `record_swap` publishes. */
  const SwapTopic: seq<string> := ["swap"]

  /** The first `n` records of `records`, keyed `0 .. n - 1`, in key order. */
  function Entries<A>(records: map<U64, SwapRecord<A>>, n: U64): (log: seq<SwapRecord<A>>)
    requires forall i: U64 :: i < n ==> i in records
    ensures |log| == n
    ensures forall i: U64 :: i < n ==> log[i] == records[i]
  {
    if n == 0 then [] else Entries(records, n - 1) + [records[n - 1]]
  }

  /** A map whose keys are exactly `0 .. n - 1` has `n` entries. */
  lemma {:induction false} KeysBelowCount<T>(m: map<U64, T>, n: U64)
    requires forall i: U64 :: i in m <==> i < n
    ensures |m| == n
  {
    if n == 0 {
      assert m.Keys == {};
    } else {
      var rest := m - {n - 1};
      assert forall i: U64 :: i in rest <==> i < n - 1;
      KeysBelowCount(rest, n - 1);
      assert m.Keys == rest.Keys + {n - 1};
    }
  }

  class SwapTrackerContract<A> {
    /** The `SwapCount` entry; absent until the first swap is recorded. */
    var count: Option<U64>
    /** The `Swap(i)` entries. */
    var records: map<U64, SwapRecord<A>>
    /** Every event published so far, oldest first. */
    var events: seq<ContractEvent<A>>

    /** The number of swaps recorded, read the way every operation reads it:
        the `SwapCount` entry, or 0 when it is absent. */
    function Total(): U64
      reads this
    {
      count.UnwrapOr(0)
    }

    /** Whether storage holds an entry under `key`. */
    predicate Present(key: DataKey)
      reads this
      ensures Valid() && key.Swap? ==> (Present(key) <==> key.index < Total())
    {
      match key
      case SwapCount => count.Some?
      case Swap(i) => i in records
    }

    /** The storage invariant: the `Swap(i)` entries are exactly those with
        `i` below the count. */
    ghost predicate Valid()
      reads this
    {
      forall i: U64 :: i in records <==> i < Total()
    }

    /** In a valid state the stored count is the number of `Swap(i)` entries. */
    lemma CountIsNumberOfRecords()
      requires Valid()
      ensures Total() == |records|
    {
      KeysBelowCount(records, Total());
    }

    /** The log of recorded swaps, oldest first. */
    ghost function Log(): (log: seq<SwapRecord<A>>)
      reads this
      requires Valid()
      ensures |log| == Total()
    {
      Entries(records, Total())
    }

    /** A freshly deployed contract: empty storage, no events. */
    constructor ()
      ensures Valid()
      ensures count == None && records == map[] && events == []
      ensures Log() == []
    {
      count := None;
      records := map[];
      events := [];
    }

    /** `record_swap`: store the swap under `Swap(count)`, store `count + 1`
        as the new count, and publish one event. When the count is already at
        the `u64` maximum, `count + 1` overflows and the invocation traps. */
    method RecordSwap(user: A, fromAsset: string, toAsset: string, amount: I128, timestamp: U64)
      returns (outcome: Outcome)
      requires Valid()
      modifies this
      ensures Valid()
      ensures outcome.Committed? <==> old(Total()) < U64_MAX
      ensures outcome.Trapped? ==>
        count == old(count) && records == old(records) && events == old(events)
      ensures outcome.Committed? ==>
        && records == old(records)[old(Total()) := SwapRecord(user, fromAsset, toAsset, amount, timestamp)]
        && count == Some(old(Total()) + 1)
        && events == old(events) + [ContractEvent(SwapTopic, (user, fromAsset, toAsset, amount, timestamp))]
      ensures outcome.Committed? ==>
        Log() == old(Log()) + [SwapRecord(user, fromAsset, toAsset, amount, timestamp)]
    {
      ghost var oldLog := Log();
      var current := Total();
      var record := SwapRecord(user, fromAsset, toAsset, amount, timestamp);
      var saved := records;
      records := records[current := record];
      if current == U64_MAX {
        // `current + 1` overflows: the host discards the write above.
        records := saved;
        return Trapped("arithmetic overflow");
      }
      var newCount: U64 := current + 1;
      count := Some(newCount);
      events := events + [ContractEvent(SwapTopic, (user, fromAsset, toAsset, amount, timestamp))];
      outcome := Committed;
      assert Valid();
      assert Log() == oldLog + [record] by {
        forall i: U64 | i < newCount
          ensures Log()[i] == (oldLog + [record])[i]
        {
          if i < current {
            assert saved[i] == oldLog[i];
          }
        }
      }
    }

    /** `get_recent_swaps`: at most `limit` records, newest first. The walk
        never skips an index, because every `Swap(i)` below the count is
        present. No storage entry or event changes. */
    method GetRecentSwaps(limit: U32) returns (swaps: seq<SwapRecord<A>>)
      requires Valid()
      ensures swaps == Recent(Log(), limit)
      ensures |swaps| == Min(limit, Total())
      ensures forall i :: 0 <= i < |swaps| ==> swaps[i] == Log()[Total() - 1 - i]
    {
      var total := Total();
      ghost var log := Log();
      swaps := [];
      var bound: U64 := if limit > total then total else limit;
      for i := 0 to bound
        invariant swaps == Recent(log, i)
      {
        var index := total - 1 - i;
        if Present(Swap(index)) {
          swaps := swaps + [records[index]];
        }
        RecentStep(log, i);
      }
      RecentClamp(log, limit);
      RecentIsNewestFirst(log, limit, swaps);
    }

    /** `get_swap_count`: the stored count, 0 on a contract that has recorded
        nothing; it is the length of the log. Nothing changes. */
    method GetSwapCount() returns (n: U64)
      ensures count.None? ==> n == 0
      ensures count.Some? ==> n == count.value
      ensures Valid() ==> n == |Log()| && n == |records|
    {
      n := count.UnwrapOr(0);
      if Valid() {
        CountIsNumberOfRecords();
      }
    }
  }

  /** A fresh contract reports no swaps and an empty window for every limit. */
  method FreshContract<A>(limit: U32) returns (total: U64, swaps: seq<SwapRecord<A>>)
    ensures total == 0 && swaps == []
  {
    var contract := new SwapTrackerContract<A>();
    total := contract.GetSwapCount();
    swaps := contract.GetRecentSwaps(limit);
  }

  /** One recorded swap is counted and comes back with its fields unchanged. */
  method RecordAndRetrieve<A>(user: A) returns (total: U64, swaps: seq<SwapRecord<A>>)
    ensures total == 1
    ensures swaps == [SwapRecord(user, "XLM", "USDC", 1_000_000, 1700000000)]
  {
    var contract := new SwapTrackerContract<A>();
    var _ := contract.RecordSwap(user, "XLM", "USDC", 1_000_000, 1700000000);
    total := contract.GetSwapCount();
    swaps := contract.GetRecentSwaps(1);
  }

  /** Three swaps, then a window of two: the newest two, newest first. */
  method MultipleSwapsOrdering<A>(user: A) returns (total: U64, swaps: seq<SwapRecord<A>>)
    ensures total == 3
    ensures |swaps| == 2
    ensures swaps[0].amount == 300 && swaps[1].amount == 200
    ensures swaps == [SwapRecord(user, "XLM", "USDC", 300, 3000), SwapRecord(user, "USDC", "XLM", 200, 2000)]
  {
    var contract := new SwapTrackerContract<A>();
    var _ := contract.RecordSwap(user, "XLM", "USDC", 100, 1000);
    var _ := contract.RecordSwap(user, "USDC", "XLM", 200, 2000);
    var _ := contract.RecordSwap(user, "XLM", "USDC", 300, 3000);
    total := contract.GetSwapCount();
    swaps := contract.GetRecentSwaps(2);
  }

  /** Recording a swap publishes exactly one event under the `swap` topic. */
  method EventEmission<A>(user: A) returns (events: seq<ContractEvent<A>>)
    ensures events == [ContractEvent(["swap"], (user, "XLM", "USDC", 500, 1700000000))]
  {
    var contract := new SwapTrackerContract<A>();
    var _ := contract.RecordSwap(user, "XLM", "USDC", 500, 1700000000);
    events := contract.events;
  }

  /** From any valid state: after one more committed swap, a window of `k`
      is the new record followed by the window of `k - 1` taken before. */
  method RecordThenRecent<A>(contract: SwapTrackerContract<A>, user: A, fromAsset: string,
                             toAsset: string, amount: I128, timestamp: U64, k: U32)
    returns (before: seq<SwapRecord<A>>, after: seq<SwapRecord<A>>)
    requires contract.Valid() && contract.Total() < U64_MAX && k > 0
    modifies contract
    ensures contract.Valid()
    ensures after == [SwapRecord(user, fromAsset, toAsset, amount, timestamp)] + before
  {
    before := contract.GetRecentSwaps(k - 1);
    ghost var oldLog := contract.Log();
    var _ := contract.RecordSwap(user, fromAsset, toAsset, amount, timestamp);
    after := contract.GetRecentSwaps(k);
    RecentAfterAppend(oldLog, SwapRecord(user, fromAsset, toAsset, amount, timestamp), k);
  }
}
