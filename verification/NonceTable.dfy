/**
 The replay memory of cockpit/identity/verifier.py as a value: one ordered bucket of nonces for each
 principal, a cap on each bucket, and a cap on all of them together.
 */
module NonceTable {
  import opened Bytes

  datatype Entry = Entry(nonce: string, exp: int)

  type Bucket = seq<Entry>

  // `order` is the iteration order of the dict `_seen`.
  datatype Table = Table(order: seq<string>, seen: map<string, Bucket>)

  datatype Config = Config(ttl: nat, maxPerPrincipal: nat, maxTotal: nat) {
    predicate Usable() {
      maxPerPrincipal >= 1 && maxTotal >= 1
    }
  }

  datatype Call = Call(principal: string, nonce: string, now: int)

  // ----- Buckets -----

  predicate DistinctNonces(b: Bucket) {
    forall i, j :: 0 <= i < j < |b| ==> b[i].nonce != b[j].nonce
  }

  function DropExpired(b: Bucket, now: int): (r: Bucket)
    ensures |r| <= |b|
  {
    if b != [] && b[0].exp <= now then DropExpired(b[1..], now) else b
  }

  function ExpiryOf(b: Bucket, nonce: string): Option<int> {
    if b == [] then None
    else if b[0].nonce == nonce then Some(b[0].exp)
    else ExpiryOf(b[1..], nonce)
  }

  function Without(b: Bucket, nonce: string): (r: Bucket)
    ensures |r| <= |b|
  {
    if b == [] then []
    else if b[0].nonce == nonce then Without(b[1..], nonce)
    else [b[0]] + Without(b[1..], nonce)
  }

  lemma {:induction false} WithoutMembers(b: Bucket, nonce: string)
    ensures forall e :: e in Without(b, nonce) <==> e in b && e.nonce != nonce
  {
    if b != [] {
      WithoutMembers(b[1..], nonce);
      assert forall e :: e in b <==> e == b[0] || e in b[1..];
    }
  }

  lemma {:induction false} WithoutKeepsDistinct(b: Bucket, nonce: string)
    requires DistinctNonces(b)
    ensures DistinctNonces(Without(b, nonce))
  {
    if b != [] {
      WithoutKeepsDistinct(b[1..], nonce);
      WithoutMembers(b[1..], nonce);
      var rest := Without(b[1..], nonce);
      assert forall i :: 0 <= i < |rest| ==> rest[i] in b[1..];
    }
  }

  lemma {:induction false} WithoutAbsent(b: Bucket, nonce: string)
    requires nonce !in Nonces(b)
    ensures Without(b, nonce) == b
  {
    if b != [] {
      assert b[0].nonce in Nonces(b);
      assert forall e :: e in b[1..] ==> e in b;
      WithoutAbsent(b[1..], nonce);
    }
  }

  lemma {:induction false} DropExpiredIsSuffix(b: Bucket, now: int)
    ensures SuffixOf(DropExpired(b, now), b)
  {
    if b != [] && b[0].exp <= now {
      DropExpiredIsSuffix(b[1..], now);
    }
  }

  function Nonces(b: Bucket): set<string> {
    set e | e in b :: e.nonce
  }

  // The newest n entries.
  function Newest(b: Bucket, n: nat): (r: Bucket)
    ensures |r| <= n && |r| <= |b|
  {
    if |b| <= n then b else b[|b| - n..]
  }

  // ----- The table -----

  const EMPTY := Table([], map[])

  ghost predicate Ordered(t: Table) {
    Distinct(t.order) && (forall p :: p in t.seen <==> p in t.order)
  }

  function SumSizes(order: seq<string>, seen: map<string, Bucket>): nat
    requires forall p :: p in order ==> p in seen
  {
    if order == [] then 0 else |seen[order[0]]| + SumSizes(order[1..], seen)
  }

  function Total(t: Table): nat
    requires Ordered(t)
  {
    SumSizes(t.order, t.seen)
  }

  function BucketOf(t: Table, p: string): Bucket {
    if p in t.seen then t.seen[p] else []
  }

  // `_seen.setdefault(p, {})`
  function Joined(t: Table, p: string): (r: Table)
    ensures p in r.seen && (Ordered(t) ==> Ordered(r))
  {
    if p in t.seen then t else Table(t.order + [p], t.seen[p := []])
  }

  function WithBucket(t: Table, p: string, b: Bucket): (r: Table)
    requires p in t.seen
    ensures Ordered(t) ==> Ordered(r)
  {
    t.(seen := t.seen[p := b])
  }

  // Index of the first principal from i on whose bucket holds something.
  function FirstFull(t: Table, i: nat): (k: nat)
    requires Ordered(t) && i <= |t.order|
    ensures i <= k <= |t.order|
    ensures k < |t.order| ==> t.seen[t.order[k]] != []
    ensures forall j :: i <= j < k ==> t.seen[t.order[j]] == []
    decreases |t.order| - i
  {
    if i == |t.order| || t.seen[t.order[i]] != [] then i else FirstFull(t, i + 1)
  }

  // `_evict_one_global`
  function EvictOne(t: Table): (r: Table)
    requires Ordered(t)
    ensures Ordered(r)
  {
    var k := FirstFull(t, 0);
    if k == |t.order| then t
    else
      var p := t.order[k];
      if |t.seen[p]| == 1 then Table(t.order[..k] + t.order[k + 1..], t.seen - {p})
      else WithBucket(t, p, t.seen[p][1..])
  }

  // The loop over `_evict_one_global` and `setdefault`.
  function EvictBelow(t: Table, p: string, limit: nat): (r: Table)
    requires Ordered(t) && p in t.seen && limit >= 1
    ensures Ordered(r) && p in r.seen && Total(r) < limit
    decreases Total(t)
  {
    if Total(t) < limit then t
    else
      EvictOneTotal(t);
      JoinedTotal(EvictOne(t), p);
      EvictBelow(Joined(EvictOne(t), p), p, limit)
  }

  // ----- Sums -----

  lemma {:induction false} SumUpdate(order: seq<string>, seen: map<string, Bucket>, p: string, b: Bucket)
    requires Distinct(order) && (forall q :: q in order ==> q in seen)
    ensures SumSizes(order, seen[p := b]) ==
      SumSizes(order, seen) + (if p in order then |b| - |seen[p]| else 0)
  {
    if order != [] {
      assert order == [order[0]] + order[1..];
      assert order[0] == p ==> p !in order[1..];
      SumUpdate(order[1..], seen, p, b);
    }
  }

  lemma {:induction false} SumAppend(a: seq<string>, b: seq<string>, seen: map<string, Bucket>)
    requires forall q :: q in a + b ==> q in seen
    ensures SumSizes(a + b, seen) == SumSizes(a, seen) + SumSizes(b, seen)
  {
    if a == [] {
      assert a + b == b;
    } else {
      assert (a + b)[1..] == a[1..] + b;
      SumAppend(a[1..], b, seen);
    }
  }

  lemma {:induction false} SumAgree(order: seq<string>, seen: map<string, Bucket>, other: map<string, Bucket>)
    requires forall q :: q in order ==> q in seen && q in other && seen[q] == other[q]
    ensures SumSizes(order, seen) == SumSizes(order, other)
  {
    if order != [] {
      SumAgree(order[1..], seen, other);
    }
  }

  lemma {:induction false} SumZero(order: seq<string>, seen: map<string, Bucket>)
    requires forall q :: q in order ==> q in seen && seen[q] == []
    ensures SumSizes(order, seen) == 0
  {
    if order != [] {
      SumZero(order[1..], seen);
    }
  }

  lemma JoinedTotal(t: Table, p: string)
    requires Ordered(t)
    ensures Total(Joined(t, p)) == Total(t)
  {
    if p !in t.seen {
      SumAppend(t.order, [p], t.seen[p := []]);
      SumUpdate(t.order, t.seen, p, []);
      assert [p][1..] == [];
    }
  }

  lemma WithBucketTotal(t: Table, p: string, b: Bucket)
    requires Ordered(t) && p in t.seen
    ensures Total(WithBucket(t, p, b)) == Total(t) + |b| - |t.seen[p]|
  {
    SumUpdate(t.order, t.seen, p, b);
  }

  lemma Apart(a: seq<string>, p: string, b: seq<string>)
    requires Distinct(a + [p] + b)
    ensures p !in a && p !in b
  {
    var s := a + [p] + b;
    assert s[|a|] == p;
    assert forall i :: 0 <= i < |b| ==> s[|a| + 1 + i] == b[i];
    assert forall i :: 0 <= i < |a| ==> s[i] == a[i];
  }

  lemma RemoveTotal(t: Table, a: seq<string>, p: string, b: seq<string>)
    requires Ordered(t) && t.order == a + [p] + b
    ensures (forall q :: q in a + b ==> q in t.seen - {p})
    ensures SumSizes(a + b, t.seen - {p}) == Total(t) - |t.seen[p]|
  {
    Apart(a, p, b);
    assert t.order == a + ([p] + b);
    hide Distinct;
    SumAppend(a, [p] + b, t.seen);
    SumAppend([p], b, t.seen);
    SumAppend(a, b, t.seen);
    assert [p][1..] == [];
    SumAgree(a + b, t.seen, t.seen - {p});
  }

  lemma EvictOneTotal(t: Table)
    requires Ordered(t) && Total(t) >= 1
    ensures Total(EvictOne(t)) == Total(t) - 1
  {
    var k := FirstFull(t, 0);
    if k == |t.order| {
      SumZero(t.order, t.seen);
    } else {
      var p := t.order[k];
      if |t.seen[p]| == 1 {
        RemoveTotal(t, t.order[..k], p, t.order[k + 1..]);
      } else {
        WithBucketTotal(t, p, t.seen[p][1..]);
      }
    }
  }

  ghost predicate SuffixOf(a: Bucket, b: Bucket) {
    |a| <= |b| && a == b[|b| - |a|..]
  }

  lemma EvictOneBuckets(t: Table, q: string)
    requires Ordered(t)
    ensures SuffixOf(BucketOf(EvictOne(t), q), BucketOf(t, q))
    ensures q in EvictOne(t).seen ==> q in t.seen && (EvictOne(t).seen[q] == [] ==> t.seen[q] == [])
  {
    hide Distinct, FirstFull, SuffixOf;
    Suffixes(BucketOf(t, q));
  }

  lemma Suffixes(b: Bucket)
    ensures SuffixOf(b, b) && SuffixOf([], b)
    ensures b != [] ==> SuffixOf(b[1..], b)
  {
  }

  // Eviction only ever drops the oldest nonces of a bucket, and empties no bucket it keeps but p's.
  lemma {:induction false} EvictBelowBuckets(t: Table, p: string, limit: nat, q: string)
    requires Ordered(t) && p in t.seen && limit >= 1
    ensures var r := EvictBelow(t, p, limit);
      SuffixOf(BucketOf(r, q), BucketOf(t, q)) &&
      (q != p && q in r.seen ==> q in t.seen && (r.seen[q] == [] ==> t.seen[q] == []))
    decreases Total(t)
  {
    hide SuffixOf, EvictOne, Total, Ordered;
    if Total(t) >= limit {
      var u := EvictOne(t);
      EvictOneTotal(t);
      EvictOneBuckets(t, q);
      JoinedTotal(u, p);
      EvictBelowBuckets(Joined(u, p), p, limit, q);
      SuffixChain(BucketOf(EvictBelow(t, p, limit), q), BucketOf(u, q), BucketOf(t, q));
    } else {
      Suffixes(BucketOf(t, q));
    }
  }

  lemma SuffixChain(a: Bucket, b: Bucket, c: Bucket)
    requires SuffixOf(a, b) && SuffixOf(b, c)
    ensures SuffixOf(a, c)
  {
  }

  // ----- One call -----

  // The state in which the nonce is looked up: the bucket exists and its expired front is gone.
  function Refreshed(t: Table, c: Call): (r: Table)
    requires Ordered(t)
    ensures Ordered(r) && c.principal in r.seen
  {
    var u := Joined(t, c.principal);
    WithBucket(u, c.principal, DropExpired(u.seen[c.principal], c.now))
  }

  predicate Refuses(t: Table, c: Call)
    requires Ordered(t)
  {
    match ExpiryOf(Refreshed(t, c).seen[c.principal], c.nonce)
    case Some(exp) => exp > c.now
    case None => false
  }

  // Room for one more in the principal's own bucket.
  function Trimmed(cfg: Config, t: Table, c: Call): (r: Table)
    requires Ordered(t) && cfg.Usable()
    ensures Ordered(r) && c.principal in r.seen
  {
    var u := Refreshed(t, c);
    WithBucket(u, c.principal, Newest(Without(u.seen[c.principal], c.nonce), cfg.maxPerPrincipal - 1))
  }

  // `check_and_record`: the new table, and whether the nonce was fresh.
  function Step(cfg: Config, t: Table, c: Call): (r: (Table, bool))
    requires Ordered(t) && cfg.Usable()
    ensures Ordered(r.0)
  {
    if Refuses(t, c) then (Refreshed(t, c), false)
    else
      var u := EvictBelow(Trimmed(cfg, t, c), c.principal, cfg.maxTotal);
      (WithBucket(u, c.principal, u.seen[c.principal] + [Entry(c.nonce, c.now + cfg.ttl)]), true)
  }
}
