/** The swap log as a plain sequence, oldest record first, and the
    newest-first window that `get_recent_swaps` returns from it. */
module SwapLog {
  import opened Values

  /** `s` in the opposite order. */
  function Reverse<T>(s: seq<T>): (r: seq<T>)
    ensures |r| == |s|
  {
    if s == [] then [] else Reverse(s[1..]) + [s[0]]
  }

  lemma {:induction false} ReverseAt<T>(s: seq<T>, k: nat)
    requires k < |s|
    ensures Reverse(s)[k] == s[|s| - 1 - k]
  {
    if k < |s| - 1 {
      ReverseAt(s[1..], k);
    }
  }

  /** Reversal turns a concatenation around. */
  lemma {:induction false} ReverseAppend<T>(s: seq<T>, t: seq<T>)
    ensures Reverse(s + t) == Reverse(t) + Reverse(s)
  {
    if s == [] {
      assert s + t == t;
    } else {
      assert (s + t)[1..] == s[1..] + t;
      ReverseAppend(s[1..], t);
    }
  }

  /** Reversal is its own inverse. */
  lemma {:induction false} ReverseReverse<T>(s: seq<T>)
    ensures Reverse(Reverse(s)) == s
  {
    if s != [] {
      ReverseAppend(Reverse(s[1..]), [s[0]]);
      ReverseReverse(s[1..]);
      assert Reverse([s[0]]) == [s[0]];
    }
  }

  /** At most `k` records of `log`, newest first: the last `Min(k, |log|)`
      entries in reverse order. */
  function Recent<T>(log: seq<T>, k: nat): (r: seq<T>)
    ensures |r| == Min(k, |log|)
  {
    Reverse(log[|log| - Min(k, |log|)..])
  }

  /** Pointwise reading of `Recent`: element `i` is the record that was logged
      `i` places before the newest one. */
  ghost predicate IsNewestFirst<T>(log: seq<T>, k: nat, r: seq<T>) {
    && |r| == Min(k, |log|)
    && forall i :: 0 <= i < |r| ==> r[i] == log[|log| - 1 - i]
  }

  /** Entry `i` of the window is the record logged `i` places before the newest. */
  lemma RecentAt<T>(log: seq<T>, k: nat, i: nat)
    requires i < Min(k, |log|)
    ensures Recent(log, k)[i] == log[|log| - 1 - i]
  {
    var tail := log[|log| - Min(k, |log|)..];
    ReverseAt(tail, i);
    assert tail[|tail| - 1 - i] == log[|log| - 1 - i];
  }

  /** `Recent` is exactly the sequence of the pointwise description: it meets
      it, and nothing else does. */
  lemma RecentIsNewestFirst<T>(log: seq<T>, k: nat, r: seq<T>)
    ensures IsNewestFirst(log, k, r) <==> r == Recent(log, k)
  {
    var window := Recent(log, k);
    forall i | 0 <= i < |window|
      ensures window[i] == log[|log| - 1 - i]
    {
      RecentAt(log, k, i);
    }
    if IsNewestFirst(log, k, r) {
      assert forall i :: 0 <= i < |r| ==> r[i] == window[i];
    }
  }

  /** One more pass of the newest-first walk appends the next older record. */
  lemma RecentStep<T>(log: seq<T>, i: nat)
    requires i < |log|
    ensures Recent(log, i + 1) == Recent(log, i) + [log[|log| - 1 - i]]
  {
  }

  /** After one more record is logged, it heads every non-empty window, and
      the rest of the window is the previous window one shorter. */
  lemma RecentAfterAppend<T>(log: seq<T>, x: T, k: nat)
    requires k > 0
    ensures Recent(log + [x], k) == [x] + Recent(log, k - 1)
  {
    var n := Min(k - 1, |log|);
    assert (log + [x])[|log| + 1 - (n + 1)..] == log[|log| - n..] + [x];
    ReverseAppend(log[|log| - n..], [x]);
    assert Reverse([x]) == [x];
  }

  /** Read back in reverse, the window is the log's last entries, oldest first. */
  lemma RecentReversed<T>(log: seq<T>, k: nat)
    ensures Reverse(Recent(log, k)) == log[|log| - Min(k, |log|)..]
  {
    ReverseReverse(log[|log| - Min(k, |log|)..]);
  }

  /** A smaller limit yields a prefix of the window of a larger one. */
  lemma RecentPrefix<T>(log: seq<T>, j: nat, k: nat)
    requires j <= k
    ensures Recent(log, j) == Recent(log, k)[..Min(j, |log|)]
  {
    var rj, rk := Recent(log, j), Recent(log, k);
    RecentIsNewestFirst(log, j, rj);
    RecentIsNewestFirst(log, k, rk);
  }

  /** A limit of at least the log's length returns the whole log, newest first. */
  lemma RecentAll<T>(log: seq<T>, k: nat)
    requires |log| <= k
    ensures Recent(log, k) == Reverse(log)
  {
  }

  /** The window depends on the limit only through `Min(k, |log|)`. */
  lemma RecentClamp<T>(log: seq<T>, k: nat)
    ensures Recent(log, k) == Recent(log, Min(k, |log|))
  {
  }
}
