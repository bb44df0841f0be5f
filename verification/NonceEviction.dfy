/**
 What the global cap of the replay memory costs (cockpit/identity/verifier.py, `check_and_record` and
 `_evict_one_global`): the buckets one behind the other lose their front, and not one nonce more than
 makes room for the new one.
 */
module NonceEviction {
  import opened Bytes
  import opened NonceTable
  import opened NonceHistory

  // A nonce with the principal that holds it.
  datatype Held = Held(principal: string, entry: Entry)

  function Owned(p: string, b: Bucket): (r: seq<Held>)
    ensures |r| == |b|
  {
    seq(|b|, i requires 0 <= i < |b| => Held(p, b[i]))
  }

  function FlatOf(order: seq<string>, seen: map<string, Bucket>): seq<Held>
    requires forall p :: p in order ==> p in seen
  {
    if order == [] then [] else Owned(order[0], seen[order[0]]) + FlatOf(order[1..], seen)
  }

  // All buckets, in the order in which their principals came.
  function Flat(t: Table): seq<Held>
    requires Ordered(t)
  {
    FlatOf(t.order, t.seen)
  }

  lemma {:induction false} FlatSize(order: seq<string>, seen: map<string, Bucket>)
    requires forall p :: p in order ==> p in seen
    ensures |FlatOf(order, seen)| == SumSizes(order, seen)
  {
    if order != [] {
      FlatSize(order[1..], seen);
    }
  }

  lemma {:induction false} FlatAppend(a: seq<string>, b: seq<string>, seen: map<string, Bucket>)
    requires forall p :: p in a + b ==> p in seen
    ensures FlatOf(a + b, seen) == FlatOf(a, seen) + FlatOf(b, seen)
  {
    if a == [] {
      assert a + b == b;
    } else {
      assert (a + b)[1..] == a[1..] + b;
      FlatAppend(a[1..], b, seen);
    }
  }

  lemma {:induction false} FlatAgree(order: seq<string>, seen: map<string, Bucket>, other: map<string, Bucket>)
    requires forall p :: p in order ==> p in seen && p in other && seen[p] == other[p]
    ensures FlatOf(order, seen) == FlatOf(order, other)
  {
    if order != [] {
      FlatAgree(order[1..], seen, other);
    }
  }

  lemma {:induction false} FlatNothing(order: seq<string>, seen: map<string, Bucket>)
    requires forall p :: p in order ==> p in seen && seen[p] == []
    ensures FlatOf(order, seen) == []
  {
    if order != [] {
      FlatNothing(order[1..], seen);
    }
  }

  lemma JoinedFlat(t: Table, p: string)
    requires Ordered(t)
    ensures Flat(Joined(t, p)) == Flat(t)
  {
    if p !in t.seen {
      var seen := t.seen[p := []];
      FlatAppend(t.order, [p], seen);
      FlatAgree(t.order, t.seen, seen);
      assert [p][1..] == [];
    }
  }

  // One eviction takes the front of the first bucket that holds something.
  lemma EvictOneFlat(t: Table)
    requires Ordered(t) && Flat(t) != []
    ensures Flat(EvictOne(t)) == Flat(t)[1..]
  {
    hide FlatOf, Distinct;
    var k := FirstFull(t, 0);
    NothingBefore(t, k);
    if k < |t.order| {
      var a, p, b := t.order[..k], t.order[k], t.order[k + 1..];
      assert t.order == a + ([p] + b);
      FrontIsEmpty(t, a, p, b);
      OthersStay(t, a, p, b);
      FirstDropped(Owned(p, t.seen[p]), FlatOf(b, t.seen));
    }
  }

  lemma NothingBefore(t: Table, k: nat)
    requires Ordered(t) && k == FirstFull(t, 0)
    ensures forall q :: q in t.order[..k] ==> t.seen[q] == []
    ensures k == |t.order| ==> Flat(t) == []
  {
    hide Distinct;
    if k == |t.order| {
      FlatNothing(t.order, t.seen);
    }
  }

  lemma FirstDropped(a: seq<Held>, b: seq<Held>)
    requires a != []
    ensures (a + b)[1..] == a[1..] + b
  {
  }

  lemma FlatTotal(t: Table)
    requires Ordered(t)
    ensures |Flat(t)| == Total(t)
  {
    FlatSize(t.order, t.seen);
  }

  lemma FrontIsEmpty(t: Table, a: seq<string>, p: string, b: seq<string>)
    requires Ordered(t) && t.order == a + ([p] + b) && forall q :: q in a ==> t.seen[q] == []
    ensures Flat(t) == Owned(p, t.seen[p]) + FlatOf(b, t.seen)
  {
    hide Distinct;
    FlatAppend(a, [p] + b, t.seen);
    FlatNothing(a, t.seen);
    assert ([p] + b)[1..] == b;
  }

  lemma OthersStay(t: Table, a: seq<string>, p: string, b: seq<string>)
    requires Ordered(t) && t.order == a + ([p] + b) && t.seen[p] != [] && forall q :: q in a ==> t.seen[q] == []
    ensures var u := if |t.seen[p]| == 1 then Table(a + b, t.seen - {p}) else WithBucket(t, p, t.seen[p][1..]);
      Ordered(u) && Flat(u) == Owned(p, t.seen[p])[1..] + FlatOf(b, t.seen)
  {
    assert t.order == a + [p] + b;
    Apart(a, p, b);
    hide Distinct, Flat;
    if |t.seen[p]| == 1 {
      BucketGone(t, a, p, b);
    } else {
      BucketShorter(t, a, p, b);
    }
  }

  lemma BucketGone(t: Table, a: seq<string>, p: string, b: seq<string>)
    requires Ordered(t) && t.order == a + [p] + b && p !in a && p !in b && |t.seen[p]| == 1
    requires forall q :: q in a ==> t.seen[q] == []
    ensures Ordered(Table(a + b, t.seen - {p}))
    ensures Flat(Table(a + b, t.seen - {p})) == Owned(p, t.seen[p])[1..] + FlatOf(b, t.seen)
  {
    RemoveTotal(t, a, p, b);
    RestOrdered(t, a, p, b);
    hide Distinct;
    FlatAppend(a, b, t.seen - {p});
    FlatNothing(a, t.seen - {p});
    FlatAgree(b, t.seen, t.seen - {p});
  }

  lemma BucketShorter(t: Table, a: seq<string>, p: string, b: seq<string>)
    requires Ordered(t) && t.order == a + [p] + b && p !in a && p !in b && |t.seen[p]| > 1
    requires forall q :: q in a ==> t.seen[q] == []
    ensures Ordered(WithBucket(t, p, t.seen[p][1..]))
    ensures Flat(WithBucket(t, p, t.seen[p][1..])) == Owned(p, t.seen[p])[1..] + FlatOf(b, t.seen)
  {
    var seen := t.seen[p := t.seen[p][1..]];
    assert t.order == a + ([p] + b);
    OwnedRest(p, t.seen[p]);
    hide Distinct, Owned, FlatOf;
    FlatAppend(a, [p] + b, seen);
    FlatNothing(a, seen);
    FlatFirst(p, b, seen);
    FlatAgree(b, t.seen, seen);
  }

  lemma OwnedRest(p: string, b: Bucket)
    requires b != []
    ensures Owned(p, b[1..]) == Owned(p, b)[1..]
  {
  }

  lemma FlatFirst(p: string, b: seq<string>, seen: map<string, Bucket>)
    requires forall q :: q in [p] + b ==> q in seen
    ensures FlatOf([p] + b, seen) == Owned(p, seen[p]) + FlatOf(b, seen)
  {
    assert ([p] + b)[1..] == b;
  }

  lemma RestOrdered(t: Table, a: seq<string>, p: string, b: seq<string>)
    requires Ordered(t) && t.order == a + [p] + b && p !in a && p !in b
    ensures Ordered(Table(a + b, t.seen - {p}))
  {
    forall i, j | 0 <= i < j < |a + b|
      ensures (a + b)[i] != (a + b)[j]
    {
      var x, y := if i < |a| then i else i + 1, if j < |a| then j else j + 1;
      assert t.order[x] == (a + b)[i] && t.order[y] == (a + b)[j];
    }
  }

  // How many have to go so that one more fits below the limit.
  function Excess(total: nat, limit: nat): nat {
    if total < limit then 0 else total - limit + 1
  }

  // The loop drops exactly the front, and exactly as much as has to go.
  lemma {:induction false} EvictBelowFlat(t: Table, p: string, limit: nat)
    requires Ordered(t) && p in t.seen && limit >= 1
    ensures Excess(Total(t), limit) <= |Flat(t)| == Total(t)
    ensures Flat(EvictBelow(t, p, limit)) == Flat(t)[Excess(Total(t), limit)..]
    decreases Total(t)
  {
    hide Ordered, Flat, EvictOne, Joined, Total;
    FlatTotal(t);
    if Total(t) >= limit {
      var u := EvictOne(t);
      EvictOneTotal(t);
      EvictOneFlat(t);
      JoinedTotal(u, p);
      JoinedFlat(u, p);
      EvictBelowFlat(Joined(u, p), p, limit);
    }
  }

  // The memory once the principal's own bucket has room: its expired front is gone, the nonce if it
  // was there, and the oldest that its own cap leaves no room for.
  function WithRoom(cfg: Config, t: Table, c: Call): Table
    requires cfg.Usable()
  {
    var own := Newest(Without(DropExpired(BucketOf(t, c.principal), c.now), c.nonce), cfg.maxPerPrincipal - 1);
    Table(if c.principal in t.seen then t.order else t.order + [c.principal], t.seen[c.principal := own])
  }

  // A table, and the one in which a nonce has been put behind a principal's bucket.
  ghost predicate Adds(w: Table, v: Table, p: string, e: Entry) {
    p in w.seen && v == w.(seen := w.seen[p := w.seen[p] + [e]])
  }

  /**
   A fresh nonce, exactly. Of the memory with room in the principal's own bucket, the global cap drops
   just the excess, from the front of all buckets, before the nonce is put behind the principal's.
   Once the cap is met, the memory stays full.
   */
  lemma FreshExactly(cfg: Config, t: Table, c: Call) returns (w: Table)
    requires cfg.Usable() && Ordered(t) && !Refuses(t, c)
    ensures var u, v := WithRoom(cfg, t, c), Step(cfg, t, c).0;
      Ordered(u) && Ordered(w) && Excess(Total(u), cfg.maxTotal) <= |Flat(u)|
      && Flat(w) == Flat(u)[Excess(Total(u), cfg.maxTotal)..]
      && Adds(w, v, c.principal, Entry(c.nonce, c.now + cfg.ttl))
      && Total(v) == Total(u) - Excess(Total(u), cfg.maxTotal) + 1
      && (Total(u) >= cfg.maxTotal ==> Total(v) == cfg.maxTotal)
  {
    hide Flat, Ordered, Total, EvictBelow, Step, Refuses;
    TrimmedIsWithRoom(cfg, t, c);
    var u := Trimmed(cfg, t, c);
    hide Trimmed, WithRoom;
    w := EvictBelow(u, c.principal, cfg.maxTotal);
    EvictBelowFlat(u, c.principal, cfg.maxTotal);
    FlatTotal(w);
    AddedFacts(cfg, t, c);
    AddedOrder(cfg, t, c);
  }

  lemma TrimmedIsWithRoom(cfg: Config, t: Table, c: Call)
    requires cfg.Usable() && Ordered(t)
    ensures Trimmed(cfg, t, c) == WithRoom(cfg, t, c)
  {
    hide Trimmed, Newest, Without, DropExpired, BucketOf;
    TrimmedFacts(cfg, t, c);
    TrimmedOrder(cfg, t, c);
  }

  lemma TrimmedOrder(cfg: Config, t: Table, c: Call)
    requires cfg.Usable() && Ordered(t)
    ensures Trimmed(cfg, t, c).order == if c.principal in t.seen then t.order else t.order + [c.principal]
  {
  }

  lemma AddedOrder(cfg: Config, t: Table, c: Call)
    requires cfg.Usable() && Ordered(t) && !Refuses(t, c)
    ensures Step(cfg, t, c).0.order == EvictBelow(Trimmed(cfg, t, c), c.principal, cfg.maxTotal).order
  {
    hide Trimmed, EvictBelow;
  }
}
