/**
 * The rate cache of cache.py: a dictionary from a base-currency code to
 * the last rates saved for it and the second they were saved, with one
 * fixed maximum age. Expiry is lazy: a read that finds an entry older than
 * the maximum age deletes it and reports a miss.
 *
 * The pure functions `Saved` and `Lookup` say what one call does to the
 * dictionary; `Replay` runs a sequence of calls, and the lemmas after it
 * state what a caller can rely on across calls. The class `Cache` is the
 * object itself, whose methods are proved to do what those functions say.
 * The clock is the explicit argument `now`.
 */
module Caching {
  import opened Wrappers

  /** The `{'rates': rates, 'last_updated': time}` record kept per base. */
  datatype Entry<R> = Entry(rates: R, lastUpdated: int)

  type Store<R> = map<string, Entry<R>>

  /** An entry is stale only when its age is strictly greater than `maxTime`. */
  predicate IsExpired<R>(e: Entry<R>, maxTime: int, now: int)
  {
    maxTime < now - e.lastUpdated
  }

  /** The dictionary after `save_rates(rates, base)` at second `now`. */
  function Saved<R>(data: Store<R>, rates: R, base: string, now: int): (d: Store<R>)
    ensures d.Keys == data.Keys + {base}
    ensures d[base] == Entry(rates, now)
    ensures forall k :: k in data && k != base ==> d[k] == data[k]
  {
    data[base := Entry(rates, now)]
  }

  /** The answer of `rates(base)` at second `now`, and the dictionary after it. */
  function Lookup<R>(data: Store<R>, maxTime: int, base: string, now: int): (res: (Option<R>, Store<R>))
    ensures res.0.Some? <==> base in data && !IsExpired(data[base], maxTime, now)
    ensures res.0.Some? ==> res.0.value == data[base].rates
    ensures base in res.1 <==> res.0.Some?
    ensures data.Keys - {base} <= res.1.Keys <= data.Keys
    ensures forall k :: k in res.1 ==> res.1[k] == data[k]
  {
    if base !in data then (None, data)
    else if IsExpired(data[base], maxTime, now) then (None, data - {base})
    else (Some(data[base].rates), data)
  }

  // ---------------------------------------------------------------------
  // Sequences of calls.
  // ---------------------------------------------------------------------

  /** One call on the cache: `save_rates(rates, base)` or `rates(base)`, made at second `now`. */
  datatype Call<R> = SaveCall(rates: R, base: string, now: int) | ReadCall(base: string, now: int)

  predicate SavesTo<R>(c: Call<R>, b: string)
  {
    c.SaveCall? && c.base == b
  }

  predicate ReadsFrom<R>(c: Call<R>, b: string)
  {
    c.ReadCall? && c.base == b
  }

  /** What one call returns (`None` for a save) and the dictionary after it. */
  function Apply<R>(data: Store<R>, maxTime: int, c: Call<R>): (res: (Option<R>, Store<R>))
  {
    match c
    case SaveCall(r, b, t) => (None, Saved(data, r, b, t))
    case ReadCall(b, t) => Lookup(data, maxTime, b, t)
  }

  /** The answers of a sequence of calls, in order, and the final dictionary. */
  function Replay<R>(data: Store<R>, maxTime: int, calls: seq<Call<R>>): (res: (seq<Option<R>>, Store<R>))
    ensures |res.0| == |calls|
    decreases |calls|
  {
    if calls == [] then ([], data)
    else
      var step := Apply(data, maxTime, calls[0]);
      var rest := Replay(step.1, maxTime, calls[1..]);
      ([step.0] + rest.0, rest.1)
  }

  /**
   * Reading right after saving: the saved rates come back while their age
   * is at most `maxTime` (an age of exactly `maxTime` is still fresh), and
   * a miss that deletes the entry comes back once the age exceeds it.
   */
  lemma SaveThenRead<R>(data: Store<R>, maxTime: int, rates: R, base: string, saved: int, now: int)
    ensures Lookup(Saved(data, rates, base, saved), maxTime, base, now).0
         == if now - saved <= maxTime then Some(rates) else None
    ensures now - saved == maxTime ==>
         Lookup(Saved(data, rates, base, saved), maxTime, base, now).0 == Some(rates)
    ensures now - saved == maxTime + 1 ==>
         base !in Lookup(Saved(data, rates, base, saved), maxTime, base, now).1
  {
  }

  /** A second save replaces the first entirely: no earlier rates or timestamp survive. */
  lemma SaveReplaces<R>(data: Store<R>, r1: R, r2: R, base: string, t1: int, t2: int)
    ensures Saved(Saved(data, r1, base, t1), r2, base, t2) == Saved(data, r2, base, t2)
  {
  }

  /**
   * A base that is absent stays absent, and every read of it misses,
   * whatever the times, until something saves it again.
   */
  lemma {:induction false} AbsentUntilSaved<R>(data: Store<R>, maxTime: int, b: string, calls: seq<Call<R>>)
    requires b !in data
    requires forall k :: 0 <= k < |calls| ==> !SavesTo(calls[k], b)
    ensures forall k :: 0 <= k < |calls| && ReadsFrom(calls[k], b) ==> Replay(data, maxTime, calls).0[k] == None
    ensures b !in Replay(data, maxTime, calls).1
    decreases |calls|
  {
    if calls != [] {
      var (out, next) := Apply(data, maxTime, calls[0]);
      assert b !in next;
      AbsentUntilSaved(next, maxTime, b, calls[1..]);
      var outs := Replay(next, maxTime, calls[1..]).0;
      assert Replay(data, maxTime, calls).0 == [out] + outs;
      forall k | 0 <= k < |calls| && ReadsFrom(calls[k], b)
        ensures Replay(data, maxTime, calls).0[k] == None
      {
        if k > 0 {
          assert calls[1..][k - 1] == calls[k];
        }
      }
    }
  }

  /**
   * An expired read deletes the entry and misses; every later read of that
   * base misses too, until the next save of it.
   */
  lemma ExpiredStaysEvicted<R>(data: Store<R>, maxTime: int, b: string, now: int, calls: seq<Call<R>>)
    requires b in data && IsExpired(data[b], maxTime, now)
    requires forall k :: 0 <= k < |calls| ==> !SavesTo(calls[k], b)
    ensures Replay(data, maxTime, [ReadCall(b, now)] + calls).0[0] == None
    ensures forall k :: 1 <= k <= |calls| && ReadsFrom(calls[k - 1], b) ==>
      Replay(data, maxTime, [ReadCall(b, now)] + calls).0[k] == None
    ensures b !in Replay(data, maxTime, [ReadCall(b, now)] + calls).1
  {
    var all := [ReadCall(b, now)] + calls;
    assert all[1..] == calls;
    var next := data - {b};
    AbsentUntilSaved(next, maxTime, b, calls);
    forall k | 1 <= k <= |calls| && ReadsFrom(calls[k - 1], b)
      ensures Replay(data, maxTime, all).0[k] == None
    {
      assert Replay(data, maxTime, all).0[k] == Replay(next, maxTime, calls).0[k - 1];
    }
  }

  /**
   * Once `b` holds `Entry(r, t)`, every read of `b` answers `r` as long as
   * no save of `b` intervenes and each read comes at most `maxTime` seconds
   * after `t`; calls on other bases do not disturb it.
   */
  lemma {:induction false} ServedWhileFresh<R>(data: Store<R>, maxTime: int, b: string, r: R, t: int, calls: seq<Call<R>>)
    requires b in data && data[b] == Entry(r, t)
    requires forall k :: 0 <= k < |calls| ==> !SavesTo(calls[k], b)
    requires forall k :: 0 <= k < |calls| && ReadsFrom(calls[k], b) ==> calls[k].now - t <= maxTime
    ensures forall k :: 0 <= k < |calls| && ReadsFrom(calls[k], b) ==> Replay(data, maxTime, calls).0[k] == Some(r)
    ensures b in Replay(data, maxTime, calls).1 && Replay(data, maxTime, calls).1[b] == Entry(r, t)
    decreases |calls|
  {
    if calls != [] {
      var (out, next) := Apply(data, maxTime, calls[0]);
      assert b in next && next[b] == Entry(r, t);
      ServedWhileFresh(next, maxTime, b, r, t, calls[1..]);
      var outs := Replay(next, maxTime, calls[1..]).0;
      assert Replay(data, maxTime, calls).0 == [out] + outs;
      forall k | 0 <= k < |calls| && ReadsFrom(calls[k], b)
        ensures Replay(data, maxTime, calls).0[k] == Some(r)
      {
        if k > 0 {
          assert calls[1..][k - 1] == calls[k];
        }
      }
    }
  }

  /** Calls that name only other bases leave the entry of `b` as it was. */
  lemma {:induction false} OtherBasesIndependent<R>(data: Store<R>, maxTime: int, b: string, calls: seq<Call<R>>)
    requires forall k :: 0 <= k < |calls| ==> calls[k].base != b
    ensures b in Replay(data, maxTime, calls).1 <==> b in data
    ensures b in data ==> Replay(data, maxTime, calls).1[b] == data[b]
    decreases |calls|
  {
    if calls != [] {
      var (out, next) := Apply(data, maxTime, calls[0]);
      assert (b in next <==> b in data) && (b in data ==> next[b] == data[b]);
      OtherBasesIndependent(next, maxTime, b, calls[1..]);
    }
  }

  /**
   * With a maximum age of 10: rates saved at second 0 are served at second
   * 5, missed at second 15 (and deleted), and still missed at second 16.
   */
  lemma TenSecondScenario<R>(r: R)
    ensures Replay(map[], 10, [SaveCall(r, "USD", 0), ReadCall("USD", 5), ReadCall("USD", 15), ReadCall("USD", 16)]).0
         == [None, Some(r), None, None]
    ensures Replay(map[], 10, [SaveCall(r, "USD", 0), ReadCall("USD", 5), ReadCall("USD", 15), ReadCall("USD", 16)]).1
         == map[]
  {
    var empty: Store<R> := map[];
    var s1 := Saved(empty, r, "USD", 0);
    assert s1 - {"USD"} == empty;
    var c16: seq<Call<R>> := [ReadCall("USD", 16)];
    var c15: seq<Call<R>> := [ReadCall("USD", 15)] + c16;
    var c5: seq<Call<R>> := [ReadCall("USD", 5)] + c15;
    var c0: seq<Call<R>> := [SaveCall(r, "USD", 0)] + c5;
    assert c16[1..] == [] && c15[1..] == c16 && c5[1..] == c15 && c0[1..] == c5;
    assert Replay(empty, 10, c16).1 == empty && Replay(empty, 10, c16).0 == [None];
    assert Replay(s1, 10, c15).1 == empty && Replay(s1, 10, c15).0 == [None, None];
    assert Replay(s1, 10, c5).1 == empty && Replay(s1, 10, c5).0 == [Some(r), None, None];
    assert Replay(empty, 10, c0).1 == empty && Replay(empty, 10, c0).0 == [None, Some(r), None, None];
    assert c0 == [SaveCall(r, "USD", 0), ReadCall("USD", 5), ReadCall("USD", 15), ReadCall("USD", 16)];
  }

  // ---------------------------------------------------------------------
  // The cache object.
  // ---------------------------------------------------------------------

  class Cache<R> {
    /** `max_time`: fixed at construction. */
    const maxTime: int
    /** `data`: base code to its entry. */
    var data: Store<R>

    /** `Cache(max_time=10)`: an empty cache. */
    constructor (maxTime: int := 10)
      ensures this.maxTime == maxTime
      ensures data == map[]
    {
      this.maxTime := maxTime;
      data := map[];
    }

    /** `save_rates(rates, base)` at second `now`: overwrite the entry for `base`. */
    method SaveRates(rates: R, base: string, now: int)
      modifies this
      ensures data == Saved(old(data), rates, base, now)
      ensures data[base] == Entry(rates, now)
    {
      var res := Entry(rates, now);
      data := data[base := res];
    }

    /**
     * `rates(base)` at second `now`: the stored rates if the entry is at
     * most `maxTime` seconds old; otherwise delete the entry (if any) and
     * return `None`.
     */
    method Rates(base: string, now: int) returns (r: Option<R>)
      modifies this
      ensures (r, data) == Lookup(old(data), maxTime, base, now)
      ensures r.Some? || base !in old(data) ==> data == old(data)
      ensures r.None? ==> base !in data
    {
      if base !in data {
        return None;
      }
      var res := data[base];
      var timeSinceUpdate := now - res.lastUpdated;
      var isExpired := maxTime < timeSinceUpdate;
      if isExpired {
        data := data - {base};
        return None;
      }
      return Some(res.rates);
    }
  }
}
