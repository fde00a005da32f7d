/**
 * The read counter of counter.go: a per-id read count and an optional read
 * limit; the read that reaches the limit reports that the snippet should go.
 */
module Counter {

  /** Go's `m[k]` on a map of ints: zero for a missing key. */
  function Count(m: map<string, int>, k: string): (v: int)
    ensures k in m ==> v == m[k]
    ensures k !in m ==> v == 0
  {
    if k in m then m[k] else 0
  }

  /** The read of `id` that brings its count to its limit expires it (counter.go:30-37). */
  predicate Expires(counts: map<string, int>, maxReads: map<string, int>, id: string)
  {
    id in maxReads && Count(counts, id) + 1 >= maxReads[id]
  }

  class ReadCounter {
    var counts: map<string, int>
    var maxReads: map<string, int>

    /** newReadCounter (counter.go:13-18). */
    constructor ()
      ensures counts == map[] && maxReads == map[]
    {
      counts, maxReads := map[], map[];
    }

    /** setMaxReads (counter.go:20-24): sets (or replaces) the limit of one id. */
    method SetMaxReads(id: string, max: int)
      modifies this`maxReads
      ensures maxReads == old(maxReads)[id := max]
      ensures counts == old(counts)
    {
      maxReads := maxReads[id := max];
    }

    /**
     * incrementAndCheck (counter.go:26-40): counts one read; when a limit is
     * set and the count has reached it, both entries of the id are dropped
     * and the result is true.
     */
    method IncrementAndCheck(id: string) returns (expired: bool)
      modifies this
      ensures expired <==> Expires(old(counts), old(maxReads), id)
      ensures expired ==> counts == old(counts) - {id} && maxReads == old(maxReads) - {id}
      ensures !expired ==> counts == old(counts)[id := Count(old(counts), id) + 1] && maxReads == old(maxReads)
    {
      counts := counts[id := Count(counts, id) + 1];
      if id in maxReads && counts[id] >= maxReads[id] {
        counts := counts - {id};
        maxReads := maxReads - {id};
        return true;
      }
      return false;
    }
  }

  /**
   * A fresh counter with limit `n` for an id: the first n-1 reads do not
   * expire it, the n-th does, and afterwards, with no limit left, no read
   * expires it again.
   */
  method ExpiresOnNthRead(id: string, n: nat, extra: nat) returns (results: seq<bool>)
    requires n >= 1
    ensures |results| == n + extra
    ensures forall k :: 0 <= k < |results| ==> (results[k] <==> k == n - 1)
  {
    var rc := new ReadCounter();
    rc.SetMaxReads(id, n);
    results := [];
    while |results| < n + extra
      invariant |results| <= n + extra
      invariant forall k :: 0 <= k < |results| ==> (results[k] <==> k == n - 1)
      invariant |results| < n ==> rc.maxReads == map[id := n] && Count(rc.counts, id) == |results|
      invariant |results| >= n ==> id !in rc.maxReads
    {
      var expired := rc.IncrementAndCheck(id);
      results := results + [expired];
    }
  }

  /** With no limit set for an id, however many reads there are, none expires it. */
  method NeverExpiresWithoutLimit(rc: ReadCounter, id: string, count: nat) returns (results: seq<bool>)
    requires id !in rc.maxReads
    modifies rc
    ensures |results| == count
    ensures forall k :: 0 <= k < count ==> !results[k]
    ensures id !in rc.maxReads && Count(rc.counts, id) == Count(old(rc.counts), id) + count
  {
    results := [];
    while |results| < count
      invariant |results| <= count
      invariant forall k :: 0 <= k < |results| ==> !results[k]
      invariant id !in rc.maxReads && Count(rc.counts, id) == Count(old(rc.counts), id) + |results|
    {
      var expired := rc.IncrementAndCheck(id);
      results := results + [expired];
    }
  }

  /**
   * Counts outlive snippets: deleting a snippet leaves the counter alone and
   * ids are reused, so an id read `earlier` times without a limit and then
   * given a limit `n` no greater than `earlier + 1` expires on its very next
   * read.
   */
  method StaleCountExpiresAtOnce(id: string, earlier: nat, n: nat) returns (expired: bool)
    requires 1 <= n <= earlier + 1
    ensures expired
  {
    var rc := new ReadCounter();
    var before := NeverExpiresWithoutLimit(rc, id, earlier);
    rc.SetMaxReads(id, n);
    expired := rc.IncrementAndCheck(id);
  }
}
