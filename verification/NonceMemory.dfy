/** The replay memory as the object that the verifier keeps (cockpit/identity/verifier.py, `NonceCache`). */
module NonceMemory {
  import opened Bytes
  import opened NonceTable
  import opened NonceHistory

  class NonceCache {
    const cfg: Config
    var order: seq<string>
    var seen: map<string, Bucket>
    var total: int

    function State(): Table
      reads this
    {
      Table(order, seen)
    }

    ghost predicate Valid()
      reads this
    {
      cfg.Usable() && WithinCaps(cfg, State()) && total == Total(State())
    }

    constructor (skew: nat, maxPerPrincipal: nat, maxTotal: nat)
      requires maxPerPrincipal >= 1 && maxTotal >= 1
      ensures Valid() && State() == NonceTable.EMPTY && cfg == Config(2 * skew, maxPerPrincipal, maxTotal)
    {
      cfg := Config(2 * skew, maxPerPrincipal, maxTotal);
      order, seen, total := [], map[], 0;
    }

    // `_expire_bucket`
    method ExpireBucket(p: string, now: int)
      requires Ordered(State()) && p in seen
      modifies this
      ensures State() == WithBucket(old(State()), p, DropExpired(old(seen)[p], now))
      ensures total == old(total) - (|old(seen)[p]| - |seen[p]|)
    {
      while seen[p] != []
        invariant order == old(order) && p in seen && seen == old(seen)[p := seen[p]]
        invariant DropExpired(seen[p], now) == DropExpired(old(seen)[p], now)
        invariant total == old(total) - (|old(seen)[p]| - |seen[p]|)
        decreases |seen[p]|
      {
        if seen[p][0].exp > now {
          break;
        }
        seen := seen[p := seen[p][1..]];
        total := total - 1;
      }
    }

    // `_evict_one_global`
    method EvictOneGlobal()
      requires Ordered(State()) && total == Total(State()) && total >= 1
      modifies this
      ensures State() == EvictOne(old(State())) && total == Total(State()) == old(total) - 1
    {
      EvictOneTotal(State());
      var i := 0;
      while i < |order|
        invariant i <= |order| && State() == old(State()) && total == old(total)
        invariant FirstFull(State(), i) == FirstFull(State(), 0)
        decreases |order| - i
      {
        var p := order[i];
        if seen[p] != [] {
          total := total - 1;
          if |seen[p]| == 1 {
            order, seen := order[..i] + order[i + 1..], seen - {p};
          } else {
            seen := seen[p := seen[p][1..]];
          }
          return;
        }
        i := i + 1;
      }
      SumZero(order, seen);
    }

    // `check_and_record`
    method CheckAndRecord(p: string, nonce: string, now: int) returns (accepted: bool)
      requires Valid()
      modifies this
      ensures Valid() && (State(), accepted) == Step(cfg, old(State()), Call(p, nonce, now))
    {
      hide WithinCaps, Ordered, Total, Refreshed, Trimmed, EvictBelow, GoodBucket, Distinct, DistinctNonces, Newest, Without;
      ghost var before, c := State(), Call(p, nonce, now);
      StepKeepsCaps(cfg, before, c);
      CapsOrdered(cfg, before);
      Refresh(p, nonce, now);
      var exp := ExpiryOf(seen[p], nonce);
      if exp.Some? && exp.value > now {
        return false;
      }
      DeleteNonce(p, nonce);
      DropOldest(p);
      assert State() == Trimmed(cfg, before, c) by {
        TrimmedIs(cfg, before, c);
      }
      EvictUntilBelow(p);
      Append(p, Entry(nonce, now + cfg.ttl));
      return true;
    }

    // The bucket of the principal, created if need be, without its expired front.
    method Refresh(p: string, nonce: string, now: int)
      requires Valid()
      modifies this
      ensures Ordered(State()) && p in seen && total == Total(State()) && DistinctNonces(seen[p])
      ensures State() == Refreshed(old(State()), Call(p, nonce, now))
    {
      ghost var before := State();
      RefreshedFacts(before, Call(p, nonce, now));
      JoinedTotal(before, p);
      DropExpiredIsSuffix(BucketOf(before, p), now);
      SuffixGood(cfg, DropExpired(BucketOf(before, p), now), BucketOf(before, p));
      if p !in seen {
        order, seen := order + [p], seen[p := []];
      }
      ExpireBucket(p, now);
    }

    // `del bucket[nonce]`, if it is there.
    method DeleteNonce(p: string, nonce: string)
      requires Ordered(State()) && p in seen && total == Total(State()) && DistinctNonces(seen[p])
      modifies this
      ensures State() == WithBucket(old(State()), p, Without(old(seen)[p], nonce))
      ensures Ordered(State()) && p in seen && total == Total(State())
    {
      WithBucketTotal(State(), p, Without(seen[p], nonce));
      ExpiryOfFound(seen[p], nonce);
      if ExpiryOf(seen[p], nonce).Some? {
        WithoutOne(seen[p], nonce);
        seen := seen[p := Without(seen[p], nonce)];
        total := total - 1;
      } else {
        WithoutAbsent(seen[p], nonce);
        assert seen == seen[p := seen[p]];
      }
    }

    // Dropping the oldest nonces of the bucket until one more fits.
    method DropOldest(p: string)
      requires cfg.Usable() && Ordered(State()) && p in seen && total == Total(State())
      modifies this
      ensures State() == WithBucket(old(State()), p, Newest(old(seen)[p], cfg.maxPerPrincipal - 1))
      ensures Ordered(State()) && p in seen && total == Total(State())
    {
      ghost var b := seen[p];
      while |seen[p]| >= cfg.maxPerPrincipal
        invariant order == old(order) && p in seen && seen == old(seen)[p := seen[p]]
        invariant |seen[p]| <= |b| && seen[p] == b[|b| - |seen[p]|..]
        invariant |seen[p]| == |b| || |seen[p]| >= cfg.maxPerPrincipal - 1
        invariant Ordered(State()) && total == Total(State())
        decreases |seen[p]|
      {
        WithBucketTotal(State(), p, seen[p][1..]);
        seen := seen[p := seen[p][1..]];
        total := total - 1;
      }
    }

    method Append(p: string, e: Entry)
      requires Ordered(State()) && p in seen && total == Total(State())
      modifies this
      ensures State() == WithBucket(old(State()), p, old(seen)[p] + [e])
      ensures Ordered(State()) && total == Total(State())
    {
      WithBucketTotal(State(), p, seen[p] + [e]);
      seen := seen[p := seen[p] + [e]];
      total := total + 1;
    }

    // The loop over `_evict_one_global`; it ends because every round takes one entry away.
    method EvictUntilBelow(p: string)
      requires cfg.Usable() && Ordered(State()) && p in seen && total == Total(State())
      modifies this
      ensures State() == EvictBelow(old(State()), p, cfg.maxTotal)
      ensures Ordered(State()) && p in seen && total == Total(State())
    {
      hide EvictOne, Total, Ordered;
      while total >= cfg.maxTotal
        invariant Ordered(State()) && p in seen && total == Total(State())
        invariant EvictBelow(State(), p, cfg.maxTotal) == EvictBelow(old(State()), p, cfg.maxTotal)
        decreases total
      {
        EvictOneGlobal();
        JoinedTotal(State(), p);
        if p !in seen {
          order, seen := order + [p], seen[p := []];
        }
      }
    }

    // `seen`
    method Seen(p: string, nonce: string, now: int) returns (b: bool)
      requires Valid()
      ensures b <==> exists e :: e in BucketOf(State(), p) && e.nonce == nonce && e.exp > now
    {
      var bucket := if p in seen then seen[p] else [];
      var exp := ExpiryOf(bucket, nonce);
      ExpiryOfFound(bucket, nonce);
      b := exp.Some? && exp.value > now;
      if exp.Some? {
        assert Entry(nonce, exp.value) in bucket;
      }
      forall e | e in bucket && e.nonce == nonce
        ensures exp == Some(e.exp)
      {
        assert e.nonce in Nonces(bucket);
      }
    }
  }

  lemma CapsOrdered(cfg: Config, t: Table)
    requires WithinCaps(cfg, t)
    ensures Ordered(t)
  {
  }

  lemma TrimmedIs(cfg: Config, t: Table, c: Call)
    requires cfg.Usable() && Ordered(t)
    ensures var u := Refreshed(t, c);
      var v := WithBucket(u, c.principal, Without(u.seen[c.principal], c.nonce));
      Trimmed(cfg, t, c) == WithBucket(v, c.principal, Newest(v.seen[c.principal], cfg.maxPerPrincipal - 1))
  {
  }

  // Distinct nonces: deleting one that is there shortens the bucket by one.
  lemma {:induction false} WithoutOne(b: Bucket, nonce: string)
    requires DistinctNonces(b) && ExpiryOf(b, nonce).Some?
    ensures |Without(b, nonce)| == |b| - 1
  {
    if b[0].nonce == nonce {
      assert nonce !in Nonces(b[1..]);
      WithoutAbsent(b[1..], nonce);
    } else {
      WithoutOne(b[1..], nonce);
    }
  }
}
