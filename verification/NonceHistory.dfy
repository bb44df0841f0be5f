/**
 What the replay memory promises over whole runs (cockpit/identity/verifier.py): its caps hold for
 any clock, and under a clock that never runs backwards it remembers exactly the newest accepted
 nonces of each principal that have not expired.
 */
module NonceHistory {
  import opened Bytes
  import opened NonceTable

  // ----- Caps -----

  ghost predicate WithinCaps(cfg: Config, t: Table) {
    Ordered(t) && Total(t) <= cfg.maxTotal &&
    forall p :: p in t.seen ==> t.seen[p] != [] && GoodBucket(cfg, t.seen[p])
  }

  lemma {:induction false} ExpiryOfFound(b: Bucket, nonce: string)
    ensures ExpiryOf(b, nonce) == None <==> nonce !in Nonces(b)
    ensures ExpiryOf(b, nonce).Some? ==> Entry(nonce, ExpiryOf(b, nonce).value) in b
  {
    if b != [] {
      ExpiryOfFound(b[1..], nonce);
      assert b == [b[0]] + b[1..];
      assert b[0].nonce in Nonces(b);
      assert Nonces(b) == {b[0].nonce} + Nonces(b[1..]);
    }
  }

  lemma RefreshedFacts(t: Table, c: Call)
    requires Ordered(t)
    ensures Refreshed(t, c).seen == t.seen[c.principal := DropExpired(BucketOf(t, c.principal), c.now)]
    ensures Total(Refreshed(t, c)) ==
      Total(t) + |DropExpired(BucketOf(t, c.principal), c.now)| - |BucketOf(t, c.principal)|
  {
    var u := Joined(t, c.principal);
    JoinedTotal(t, c.principal);
    WithBucketTotal(u, c.principal, DropExpired(u.seen[c.principal], c.now));
  }

  lemma AddedFacts(cfg: Config, t: Table, c: Call)
    requires cfg.Usable() && Ordered(t) && !Refuses(t, c)
    ensures var u, v := EvictBelow(Trimmed(cfg, t, c), c.principal, cfg.maxTotal), Step(cfg, t, c).0;
      v.seen == u.seen[c.principal := u.seen[c.principal] + [Entry(c.nonce, c.now + cfg.ttl)]] &&
      Total(v) == Total(u) + 1
  {
    hide Ordered, Trimmed, EvictBelow, Total, Refuses;
    var u := EvictBelow(Trimmed(cfg, t, c), c.principal, cfg.maxTotal);
    WithBucketTotal(u, c.principal, u.seen[c.principal] + [Entry(c.nonce, c.now + cfg.ttl)]);
  }

  ghost predicate GoodBucket(cfg: Config, b: Bucket) {
    |b| <= cfg.maxPerPrincipal && DistinctNonces(b)
  }

  lemma SuffixGood(cfg: Config, a: Bucket, b: Bucket)
    requires GoodBucket(cfg, b) && SuffixOf(a, b)
    ensures GoodBucket(cfg, a)
  {
  }

  lemma RefusalKeepsCaps(cfg: Config, t: Table, c: Call)
    requires cfg.Usable() && WithinCaps(cfg, t) && Refuses(t, c)
    ensures WithinCaps(cfg, Step(cfg, t, c).0)
  {
    hide GoodBucket, DropExpired, ExpiryOf, Nonces, SuffixOf, Total, Ordered;
    var b := BucketOf(t, c.principal);
    var r := DropExpired(b, c.now);
    RefreshedFacts(t, c);
    ExpiryOfFound(r, c.nonce);
    DropExpiredIsSuffix(b, c.now);
    assert b != [] && c.principal in t.seen;
    SuffixGood(cfg, r, b);
  }

  lemma OwnBucketKept(cfg: Config, b: Bucket, c: Call, kept: Bucket)
    requires cfg.Usable() && GoodBucket(cfg, b)
    requires SuffixOf(kept, Own(cfg, b, c))
    ensures GoodBucket(cfg, kept + [Entry(c.nonce, c.now + cfg.ttl)])
  {
    var r := DropExpired(b, c.now);
    DropExpiredIsSuffix(b, c.now);
    SuffixGood(cfg, r, b);
    WithoutMembers(r, c.nonce);
    WithoutKeepsDistinct(r, c.nonce);
    var w := Without(r, c.nonce);
    var n := Newest(w, cfg.maxPerPrincipal - 1);
    SuffixGood(cfg, n, w);
    assert forall e :: e in n ==> e in w;
    AppendGood(cfg, n, kept, Entry(c.nonce, c.now + cfg.ttl));
  }

  lemma TrimmedFacts(cfg: Config, t: Table, c: Call)
    requires cfg.Usable() && Ordered(t)
    ensures Trimmed(cfg, t, c).seen == t.seen[c.principal :=
      Newest(Without(DropExpired(BucketOf(t, c.principal), c.now), c.nonce), cfg.maxPerPrincipal - 1)]
  {
    hide Newest, Without, DropExpired, BucketOf, Refreshed;
    RefreshedFacts(t, c);
  }

  // What is left of the bucket of q when the new nonce is about to be added.
  function Kept(cfg: Config, t: Table, c: Call, q: string): Bucket
    requires cfg.Usable() && Ordered(t)
  {
    BucketOf(EvictBelow(Trimmed(cfg, t, c), c.principal, cfg.maxTotal), q)
  }

  // The principal's own bucket before the global cap has a say.
  function Own(cfg: Config, b: Bucket, c: Call): Bucket
    requires cfg.Usable()
  {
    Newest(Without(DropExpired(b, c.now), c.nonce), cfg.maxPerPrincipal - 1)
  }

  lemma KeptFacts(cfg: Config, t: Table, c: Call, q: string)
    requires cfg.Usable() && Ordered(t)
    ensures var b := if q == c.principal then Own(cfg, BucketOf(t, q), c) else BucketOf(t, q);
      SuffixOf(Kept(cfg, t, c, q), b) &&
      (Total(Trimmed(cfg, t, c)) < cfg.maxTotal ==> Kept(cfg, t, c, q) == b)
  {
    hide Newest, Without, DropExpired, SuffixOf, Ordered, Trimmed, Total;
    TrimmedFacts(cfg, t, c);
    EvictBelowBuckets(Trimmed(cfg, t, c), c.principal, cfg.maxTotal, q);
  }

  // The bucket of q after a call.
  lemma BucketAfter(cfg: Config, t: Table, c: Call, q: string)
    requires cfg.Usable() && Ordered(t)
    ensures BucketOf(Step(cfg, t, c).0, q) ==
      if Step(cfg, t, c).1 then
        Kept(cfg, t, c, q) + (if q == c.principal then [Entry(c.nonce, c.now + cfg.ttl)] else [])
      else if q == c.principal then DropExpired(BucketOf(t, q), c.now)
      else BucketOf(t, q)
  {
    RefreshedFacts(t, c);
    if !Refuses(t, c) {
      AddedFacts(cfg, t, c);
    }
  }

  lemma EmptyOnlyIfBefore(cfg: Config, t: Table, c: Call, q: string)
    requires cfg.Usable() && Ordered(t) && !Refuses(t, c)
    requires q != c.principal && q in Step(cfg, t, c).0.seen
    ensures q in t.seen && (Kept(cfg, t, c, q) == [] ==> t.seen[q] == [])
  {
    TrimmedFacts(cfg, t, c);
    AddedFacts(cfg, t, c);
    EvictBelowBuckets(Trimmed(cfg, t, c), c.principal, cfg.maxTotal, q);
  }

  lemma AcceptanceKeepsBucket(cfg: Config, t: Table, c: Call, q: string)
    requires cfg.Usable() && Ordered(t) && !Refuses(t, c)
    requires GoodBucket(cfg, BucketOf(t, q)) && (q in t.seen ==> t.seen[q] != [])
    ensures var b := BucketOf(Step(cfg, t, c).0, q);
      GoodBucket(cfg, b) && (q in Step(cfg, t, c).0.seen ==> b != [])
  {
    hide Kept, Own, Trimmed;
    BucketAfter(cfg, t, c, q);
    KeptFacts(cfg, t, c, q);
    if q == c.principal {
      OwnBucketKept(cfg, BucketOf(t, q), c, Kept(cfg, t, c, q));
    } else {
      SuffixGood(cfg, Kept(cfg, t, c, q), BucketOf(t, q));
      if q in Step(cfg, t, c).0.seen {
        EmptyOnlyIfBefore(cfg, t, c, q);
      }
    }
  }

  lemma AcceptanceKeepsCaps(cfg: Config, t: Table, c: Call)
    requires cfg.Usable() && WithinCaps(cfg, t) && !Refuses(t, c)
    ensures WithinCaps(cfg, Step(cfg, t, c).0)
  {
    AddedFacts(cfg, t, c);
    var r := Step(cfg, t, c).0;
    forall q | q in r.seen
      ensures r.seen[q] != [] && GoodBucket(cfg, r.seen[q])
    {
      AcceptanceKeepsBucket(cfg, t, c, q);
    }
  }

  lemma AppendGood(cfg: Config, own: Bucket, kept: Bucket, e: Entry)
    requires |own| < cfg.maxPerPrincipal && DistinctNonces(own) && e.nonce !in Nonces(own)
    requires SuffixOf(kept, own)
    ensures GoodBucket(cfg, kept + [e])
  {
    forall i | 0 <= i < |kept|
      ensures kept[i].nonce != e.nonce
    {
      assert kept[i] in own;
    }
  }

  // Whatever the clock does, no call breaks a cap, leaves a bucket empty, or doubles a nonce.
  lemma StepKeepsCaps(cfg: Config, t: Table, c: Call)
    requires cfg.Usable() && WithinCaps(cfg, t)
    ensures WithinCaps(cfg, Step(cfg, t, c).0)
  {
    if Refuses(t, c) {
      RefusalKeepsCaps(cfg, t, c);
    } else {
      AcceptanceKeepsCaps(cfg, t, c);
    }
  }

  // ----- Runs -----

  // A run from the empty memory: call i takes table i to table i + 1 and answers verdicts[i].
  datatype Run = Run(calls: seq<Call>, verdicts: seq<bool>, tables: seq<Table>)

  ghost predicate IsRun(cfg: Config, r: Run)
    requires cfg.Usable()
  {
    |r.verdicts| == |r.calls| && |r.tables| == |r.calls| + 1 && r.tables[0] == EMPTY &&
    (forall i :: 0 <= i <= |r.calls| ==> Ordered(r.tables[i])) &&
    forall i :: 0 <= i < |r.calls| ==> IsStep(cfg, r, i)
  }

  ghost predicate IsStep(cfg: Config, r: Run, i: nat)
    requires cfg.Usable() && i < |r.calls| == |r.verdicts| < |r.tables| && Ordered(r.tables[i])
  {
    Step(cfg, r.tables[i], r.calls[i]) == (r.tables[i + 1], r.verdicts[i])
  }

  // Every list of calls has a run.
  lemma {:induction false} RunExists(cfg: Config, calls: seq<Call>) returns (r: Run)
    requires cfg.Usable()
    ensures IsRun(cfg, r) && r.calls == calls
  {
    if calls == [] {
      return Run([], [], [EMPTY]);
    }
    var n := |calls| - 1;
    var q := RunExists(cfg, calls[..n]);
    var s := Step(cfg, q.tables[n], calls[n]);
    r := Run(calls, q.verdicts + [s.1], q.tables + [s.0]);
    RunGrows(cfg, q, r, n);
  }

  lemma RunGrows(cfg: Config, q: Run, r: Run, n: nat)
    requires cfg.Usable() && IsRun(cfg, q) && n == |q.calls| && |r.calls| == n + 1 && r.calls[..n] == q.calls
    requires var s := Step(cfg, q.tables[n], r.calls[n]);
      r.verdicts == q.verdicts + [s.1] && r.tables == q.tables + [s.0]
    ensures IsRun(cfg, r)
  {
    hide Step, Ordered;
    forall i | 0 <= i < |r.calls|
      ensures IsStep(cfg, r, i)
    {
      assert i < n ==> IsStep(cfg, q, i) && r.calls[i] == r.calls[..n][i];
    }
  }

  // What the first n calls of the run had accepted from p, oldest first; nothing is ever dropped.
  function History(cfg: Config, r: Run, n: nat, p: string): Bucket
    requires n <= |r.calls| == |r.verdicts|
  {
    if n == 0 then []
    else
      var c := r.calls[n - 1];
      History(cfg, r, n - 1, p) +
      (if c.principal == p && r.verdicts[n - 1] then [Entry(c.nonce, c.now + cfg.ttl)] else [])
  }

  function Unexpired(h: Bucket, now: int): Bucket {
    if h == [] then []
    else (if h[0].exp > now then [h[0]] else []) + Unexpired(h[1..], now)
  }

  ghost predicate Monotone(r: Run) {
    forall i, j :: 0 <= i <= j < |r.calls| ==> r.calls[i].now <= r.calls[j].now
  }

  // None of the first n calls had to evict for the sake of the global cap.
  ghost predicate Roomy(cfg: Config, r: Run, n: nat)
    requires cfg.Usable() && IsRun(cfg, r) && n <= |r.calls|
  {
    forall i :: 0 <= i < n && r.verdicts[i] ==> Total(Trimmed(cfg, r.tables[i], r.calls[i])) < cfg.maxTotal
  }

  lemma EmptyWithinCaps(cfg: Config)
    ensures WithinCaps(cfg, EMPTY)
  {
  }

  // In every table of every run, under any clock.
  lemma {:induction false} RunKeepsCaps(cfg: Config, r: Run, n: nat)
    requires cfg.Usable() && IsRun(cfg, r) && n <= |r.calls|
    ensures WithinCaps(cfg, r.tables[n])
  {
    hide Step, WithinCaps, Ordered;
    if n == 0 {
      EmptyWithinCaps(cfg);
    } else {
      RunKeepsCaps(cfg, r, n - 1);
      assert IsStep(cfg, r, n - 1);
      StepKeepsCaps(cfg, r.tables[n - 1], r.calls[n - 1]);
    }
  }

  // ----- The bucket is a suffix of the history -----

  ghost predicate InExpiryOrder(h: Bucket) {
    forall i, j :: 0 <= i <= j < |h| ==> h[i].exp <= h[j].exp
  }

  // How many entries at the front have expired.
  function ExpiredCount(h: Bucket, now: int): (n: nat)
    ensures n <= |h|
  {
    if h != [] && h[0].exp <= now then 1 + ExpiredCount(h[1..], now) else 0
  }

  lemma {:induction false} ExpiredCountIs(h: Bucket, now: int, i: nat)
    ensures i < ExpiredCount(h, now) ==> h[i].exp <= now
    ensures ExpiredCount(h, now) < |h| ==> h[ExpiredCount(h, now)].exp > now
  {
    if h != [] && h[0].exp <= now {
      ExpiredCountIs(h[1..], now, if i == 0 then 0 else i - 1);
    }
  }

  // In expiry order, the rest of the entries have not expired.
  lemma RestUnexpired(h: Bucket, now: int, i: nat)
    requires InExpiryOrder(h) && ExpiredCount(h, now) <= i < |h|
    ensures h[i].exp > now
  {
    hide ExpiredCount;
    ExpiredCountIs(h, now, 0);
  }

  lemma {:induction false} DropExpiredCount(h: Bucket, now: int)
    ensures DropExpired(h, now) == h[ExpiredCount(h, now)..]
    ensures InExpiryOrder(h) ==> Unexpired(h, now) == DropExpired(h, now)
  {
    if h != [] {
      DropExpiredCount(h[1..], now);
      if InExpiryOrder(h) && h[0].exp > now {
        AllUnexpired(h, now);
      }
    }
  }

  lemma {:induction false} AllUnexpired(h: Bucket, now: int)
    requires forall i :: 0 <= i < |h| ==> h[i].exp > now
    ensures Unexpired(h, now) == h
  {
    if h != [] {
      AllUnexpired(h[1..], now);
    }
  }

  function Max(a: nat, b: nat): nat {
    if a < b then b else a
  }

  // Dropping the expired front of a suffix.
  lemma {:induction false} SuffixDropped(h: Bucket, k: nat, now: int)
    requires k <= |h| && InExpiryOrder(h)
    ensures DropExpired(h[k..], now) == h[Max(k, ExpiredCount(h, now))..]
  {
    OrderOfRest(h);
    hide InExpiryOrder;
    if k == 0 {
      DropExpiredCount(h, now);
    } else if h[0].exp <= now {
      assert h[1..][k - 1..] == h[k..];
      SuffixDropped(h[1..], k - 1, now);
    } else if k < |h| {
      RestUnexpired(h, now, k);
    }
  }

  lemma OrderOfRest(h: Bucket)
    requires InExpiryOrder(h)
    ensures h != [] ==> InExpiryOrder(h[1..])
  {
  }

  /**
   The bucket is `h[k..]`, a suffix of the history. `complete` says that nothing was dropped but
   expired entries and those beyond the principal's own cap.
   */
  ghost predicate Remembers(cfg: Config, h: Bucket, k: nat, last: int, complete: bool) {
    k <= |h| <= k + cfg.maxPerPrincipal &&
    InExpiryOrder(h) && (h != [] ==> h[|h| - 1].exp <= last + cfg.ttl) &&
    (complete ==> |h| == k + cfg.maxPerPrincipal || k <= ExpiredCount(h, last))
  }

  lemma {:induction false} ExpiredCountGrows(h: Bucket, more: Bucket, now: int, later: int)
    requires now <= later
    ensures ExpiredCount(h, now) <= ExpiredCount(h + more, later)
  {
    if h != [] {
      assert (h + more)[1..] == h[1..] + more;
      ExpiredCountGrows(h[1..], more, now, later);
    }
  }

  lemma RefreshKeeps(cfg: Config, h: Bucket, k: nat, last: int, now: int, complete: bool)
    requires Remembers(cfg, h, k, last, complete) && last <= now
    ensures Remembers(cfg, h, Max(k, ExpiredCount(h, now)), now, complete)
    ensures DropExpired(h[k..], now) == h[Max(k, ExpiredCount(h, now))..]
  {
    SuffixDropped(h, k, now);
    ExpiredCountGrows(h, [], last, now);
    assert h + [] == h;
    hide InExpiryOrder, ExpiredCount, DropExpired;
  }

  // After a refresh the bucket holds unexpired nonces only, so being there means being refused.
  lemma RefusedExactly(t: Table, c: Call, h: Bucket, k: nat)
    requires Ordered(t) && InExpiryOrder(h) && k <= |h| && BucketOf(t, c.principal) == h[k..]
    ensures var r := Refreshed(t, c).seen[c.principal];
      r == h[Max(k, ExpiredCount(h, c.now))..] && (Refuses(t, c) <==> c.nonce in Nonces(r))
  {
    hide InExpiryOrder, ExpiredCount, DropExpired, ExpiryOf;
    var r := Refreshed(t, c).seen[c.principal];
    SuffixDropped(h, k, c.now);
    ExpiryOfFound(r, c.nonce);
    forall i | Max(k, ExpiredCount(h, c.now)) <= i < |h| ensures h[i].exp > c.now {
      RestUnexpired(h, c.now, i);
    }
  }

  // ----- One call, seen from one bucket -----

  lemma LaterKeeps(cfg: Config, h: Bucket, k: nat, last: int, now: int, complete: bool)
    requires Remembers(cfg, h, k, last, complete) && last <= now
    ensures Remembers(cfg, h, k, now, complete)
  {
    ExpiredCountGrows(h, [], last, now);
    assert h + [] == h;
  }

  lemma EvictKeeps(cfg: Config, h: Bucket, k: nat, now: int, complete: bool, kept: Bucket)
    requires Remembers(cfg, h, k, now, complete) && SuffixOf(kept, h[k..])
    ensures |kept| <= |h|
    ensures Remembers(cfg, h, |h| - |kept|, now, complete && kept == h[k..])
    ensures kept == h[|h| - |kept|..]
  {
  }

  lemma AcceptKeeps(cfg: Config, h: Bucket, k: nat, now: int, complete: bool, kept: Bucket, e: Entry)
    requires cfg.Usable() && Remembers(cfg, h, k, now, complete) && e.exp == now + cfg.ttl
    requires SuffixOf(kept, Newest(h[k..], cfg.maxPerPrincipal - 1))
    requires complete ==> kept == Newest(h[k..], cfg.maxPerPrincipal - 1)
    ensures Remembers(cfg, h + [e], |h| - |kept|, now, complete)
    ensures kept + [e] == (h + [e])[|h| - |kept|..]
  {
    hide InExpiryOrder, ExpiredCount, SuffixOf, Newest;
    ExpiredCountGrows(h, [e], now, now);
    OrderGrows(h, e);
    TailIndex(h, k, cfg.maxPerPrincipal - 1, kept);
  }

  lemma OrderGrows(h: Bucket, e: Entry)
    requires InExpiryOrder(h) && (h != [] ==> h[|h| - 1].exp <= e.exp)
    ensures InExpiryOrder(h + [e])
  {
  }

  // A suffix of the newest entries of a suffix.
  lemma TailIndex(h: Bucket, k: nat, n: nat, kept: Bucket)
    requires k <= |h| && SuffixOf(kept, Newest(h[k..], n))
    ensures |kept| <= |h| - k && |kept| <= n && kept == h[|h| - |kept|..]
    ensures kept == Newest(h[k..], n) ==> |kept| == n || |kept| == |h| - k
  {
  }

  lemma OwnAccepted(cfg: Config, h: Bucket, k: nat, c: Call, last: int, complete: bool, kept: Bucket)
    requires cfg.Usable() && Remembers(cfg, h, k, last, complete) && last <= c.now
    requires c.nonce !in Nonces(DropExpired(h[k..], c.now))
    requires SuffixOf(kept, Own(cfg, h[k..], c)) && (complete ==> kept == Own(cfg, h[k..], c))
    ensures |kept| <= |h|
    ensures var e := Entry(c.nonce, c.now + cfg.ttl);
      Remembers(cfg, h + [e], |h| - |kept|, c.now, complete) &&
      kept + [e] == (h + [e])[|h| - |kept|..]
  {
    RefreshKeeps(cfg, h, k, last, c.now, complete);
    WithoutAbsent(DropExpired(h[k..], c.now), c.nonce);
    AcceptKeeps(cfg, h, Max(k, ExpiredCount(h, c.now)), c.now, complete, kept, Entry(c.nonce, c.now + cfg.ttl));
  }

  // ----- Every run -----

  lemma OwnRemembers(cfg: Config, t: Table, c: Call, h: Bucket, k: nat, last: int, complete: bool)
    returns (next: nat)
    requires cfg.Usable() && Ordered(t) && last <= c.now
    requires Remembers(cfg, h, k, last, complete) && BucketOf(t, c.principal) == h[k..]
    requires complete && !Refuses(t, c) ==> Total(Trimmed(cfg, t, c)) < cfg.maxTotal
    ensures var more := if Refuses(t, c) then [] else [Entry(c.nonce, c.now + cfg.ttl)];
      Remembers(cfg, h + more, next, c.now, complete) &&
      BucketOf(Step(cfg, t, c).0, c.principal) == (h + more)[next..]
  {
    BucketAfter(cfg, t, c, c.principal);
    if Refuses(t, c) {
      RefreshKeeps(cfg, h, k, last, c.now, complete);
      assert h + [] == h;
      next := Max(k, ExpiredCount(h, c.now));
    } else {
      next := FreshRemembers(cfg, t, c, h, k, last, complete);
    }
  }

  lemma RemembersOrder(cfg: Config, h: Bucket, k: nat, last: int, complete: bool)
    requires Remembers(cfg, h, k, last, complete)
    ensures InExpiryOrder(h) && k <= |h|
  {
  }

  lemma FreshRemembers(cfg: Config, t: Table, c: Call, h: Bucket, k: nat, last: int, complete: bool)
    returns (next: nat)
    requires cfg.Usable() && Ordered(t) && last <= c.now && !Refuses(t, c)
    requires Remembers(cfg, h, k, last, complete) && BucketOf(t, c.principal) == h[k..]
    requires complete ==> Total(Trimmed(cfg, t, c)) < cfg.maxTotal
    ensures var more := [Entry(c.nonce, c.now + cfg.ttl)];
      Remembers(cfg, h + more, next, c.now, complete) &&
      Kept(cfg, t, c, c.principal) + more == (h + more)[next..]
  {
    hide Remembers, Kept, Own, SuffixOf, Trimmed, Refuses, Ordered, DropExpired, Nonces, BucketOf;
    RemembersOrder(cfg, h, k, last, complete);
    var kept := Kept(cfg, t, c, c.principal);
    KeptFacts(cfg, t, c, c.principal);
    FreshNonce(t, c, h, k);
    OwnAccepted(cfg, h, k, c, last, complete, kept);
    next := |h| - |kept|;
  }

  lemma FreshNonce(t: Table, c: Call, h: Bucket, k: nat)
    requires Ordered(t) && InExpiryOrder(h) && k <= |h| && BucketOf(t, c.principal) == h[k..]
    requires !Refuses(t, c)
    ensures c.nonce !in Nonces(DropExpired(h[k..], c.now))
  {
    RefusedExactly(t, c, h, k);
    RefreshedFacts(t, c);
  }

  lemma StepVerdict(cfg: Config, t: Table, c: Call)
    requires cfg.Usable() && Ordered(t)
    ensures Step(cfg, t, c).1 <==> !Refuses(t, c)
  {
  }

  lemma OtherRemembers(cfg: Config, t: Table, c: Call, q: string, h: Bucket, k: nat, last: int, complete: bool)
    returns (next: nat)
    requires cfg.Usable() && Ordered(t) && last <= c.now && q != c.principal
    requires Remembers(cfg, h, k, last, complete) && BucketOf(t, q) == h[k..]
    requires complete && !Refuses(t, c) ==> Total(Trimmed(cfg, t, c)) < cfg.maxTotal
    ensures Remembers(cfg, h, next, c.now, complete) && BucketOf(Step(cfg, t, c).0, q) == h[next..]
  {
    hide Kept, Trimmed, Step, BucketOf, InExpiryOrder, ExpiredCount, SuffixOf, Own, Refuses;
    StepVerdict(cfg, t, c);
    BucketAfter(cfg, t, c, q);
    LaterKeeps(cfg, h, k, last, c.now, complete);
    next := k;
    if !Refuses(t, c) {
      KeptFacts(cfg, t, c, q);
      EvictKeeps(cfg, h, k, c.now, complete, Kept(cfg, t, c, q));
      next := |h| - |Kept(cfg, t, c, q)|;
    }
  }

  // One more call on a table whose bucket for p is `h[k..]`.
  lemma StepRemembers(cfg: Config, t: Table, c: Call, p: string, h: Bucket, k: nat, last: int, complete: bool)
    returns (next: nat)
    requires cfg.Usable() && Ordered(t) && last <= c.now
    requires Remembers(cfg, h, k, last, complete) && BucketOf(t, p) == h[k..]
    requires complete && Step(cfg, t, c).1 ==> Total(Trimmed(cfg, t, c)) < cfg.maxTotal
    ensures var more := if p == c.principal && Step(cfg, t, c).1 then [Entry(c.nonce, c.now + cfg.ttl)] else [];
      Remembers(cfg, h + more, next, c.now, complete) && BucketOf(Step(cfg, t, c).0, p) == (h + more)[next..]
  {
    if p == c.principal {
      next := OwnRemembers(cfg, t, c, h, k, last, complete);
    } else {
      next := OtherRemembers(cfg, t, c, p, h, k, last, complete);
      assert h + [] == h;
    }
  }

  lemma {:induction false} RunRemembers(cfg: Config, r: Run, n: nat, p: string) returns (k: nat, last: int)
    requires cfg.Usable() && IsRun(cfg, r) && Monotone(r) && n <= |r.calls|
    ensures n < |r.calls| ==> last <= r.calls[n].now
    ensures k <= |History(cfg, r, n, p)|
    ensures Remembers(cfg, History(cfg, r, n, p), k, last, Roomy(cfg, r, n))
    ensures BucketOf(r.tables[n], p) == History(cfg, r, n, p)[k..]
  {
    hide History, Roomy, Remembers, IsStep, BucketOf, Ordered;
    if n == 0 {
      k, last := 0, if |r.calls| == 0 then 0 else r.calls[0].now;
      StartRemembers(cfg, r, p, last);
    } else {
      k, last := RunRemembers(cfg, r, n - 1, p);
      k := NextRemembers(cfg, r, n - 1, p, k, last);
      last := r.calls[n - 1].now;
    }
  }

  lemma StartRemembers(cfg: Config, r: Run, p: string, last: int)
    requires cfg.Usable() && IsRun(cfg, r)
    ensures History(cfg, r, 0, p) == [] && BucketOf(r.tables[0], p) == []
    ensures Remembers(cfg, [], 0, last, Roomy(cfg, r, 0))
  {
    hide IsStep, Ordered, Roomy;
  }

  lemma RoomyBefore(cfg: Config, r: Run, n: nat)
    requires cfg.Usable() && IsRun(cfg, r) && n < |r.calls|
    ensures Roomy(cfg, r, n + 1) ==> Roomy(cfg, r, n)
    ensures Roomy(cfg, r, n + 1) && Step(cfg, r.tables[n], r.calls[n]).1 ==>
      Total(Trimmed(cfg, r.tables[n], r.calls[n])) < cfg.maxTotal
  {
    assert IsStep(cfg, r, n);
  }

  lemma WeakerRemembers(cfg: Config, h: Bucket, k: nat, last: int, before: bool, after: bool)
    requires Remembers(cfg, h, k, last, before) && (after ==> before)
    ensures Remembers(cfg, h, k, last, after) && k <= |h|
  {
  }

  lemma NextHistory(cfg: Config, r: Run, n: nat, p: string)
    requires cfg.Usable() && IsRun(cfg, r) && n < |r.calls|
    ensures var s := Step(cfg, r.tables[n], r.calls[n]);
      r.tables[n + 1] == s.0 &&
      History(cfg, r, n + 1, p) == History(cfg, r, n, p) +
        (if p == r.calls[n].principal && s.1 then [Entry(r.calls[n].nonce, r.calls[n].now + cfg.ttl)] else [])
  {
    assert IsStep(cfg, r, n);
  }

  lemma NextRemembers(cfg: Config, r: Run, n: nat, p: string, k: nat, last: int) returns (next: nat)
    requires cfg.Usable() && IsRun(cfg, r) && n < |r.calls| && last <= r.calls[n].now
    requires Remembers(cfg, History(cfg, r, n, p), k, last, Roomy(cfg, r, n)) && k <= |History(cfg, r, n, p)|
    requires BucketOf(r.tables[n], p) == History(cfg, r, n, p)[k..]
    ensures next <= |History(cfg, r, n + 1, p)|
    ensures Remembers(cfg, History(cfg, r, n + 1, p), next, r.calls[n].now, Roomy(cfg, r, n + 1))
    ensures BucketOf(r.tables[n + 1], p) == History(cfg, r, n + 1, p)[next..]
  {
    hide Step, Roomy, Remembers, IsStep, Trimmed, BucketOf, History;
    var h, complete := History(cfg, r, n, p), Roomy(cfg, r, n + 1);
    RoomyBefore(cfg, r, n);
    WeakerRemembers(cfg, h, k, last, Roomy(cfg, r, n), complete);
    next := StepRemembers(cfg, r.tables[n], r.calls[n], p, h, k, last, complete);
    NextHistory(cfg, r, n, p);
    WeakerRemembers(cfg, History(cfg, r, n + 1, p), next, r.calls[n].now, complete, complete);
  }

  // What a principal's nonce is compared with: its newest accepted nonces that have not expired.
  function Window(cfg: Config, h: Bucket, now: int): Bucket {
    Newest(Unexpired(h, now), cfg.maxPerPrincipal)
  }

  lemma WindowIndex(cfg: Config, h: Bucket, k: nat, last: int, now: int, complete: bool)
    requires Remembers(cfg, h, k, last, complete) && last <= now
    ensures var w := Window(cfg, h, now);
      SuffixOf(h[Max(k, ExpiredCount(h, now))..], w) &&
      (complete ==> h[Max(k, ExpiredCount(h, now))..] == w)
  {
    hide InExpiryOrder, ExpiredCount, Newest, Unexpired, DropExpired;
    DropExpiredCount(h, now);
    LaterKeeps(cfg, h, k, last, now, complete);
    NewestTail(h, ExpiredCount(h, now), cfg.maxPerPrincipal);
  }

  lemma NewestTail(h: Bucket, u: nat, n: nat)
    requires u <= |h|
    ensures Newest(h[u..], n) == h[if |h| <= u + n then u else |h| - n..]
  {
  }

  /**
   Refinement of the full history. A refused nonce is always one of the principal's newest accepted
   nonces that have not expired; as long as the global cap was never reached, every one of those is
   refused, and the refreshed bucket is exactly that window.
   */
  lemma RefusesTheWindow(cfg: Config, r: Run, n: nat)
    requires cfg.Usable() && IsRun(cfg, r) && Monotone(r) && n < |r.calls|
    ensures var c := r.calls[n]; var w := Window(cfg, History(cfg, r, n, c.principal), c.now);
      (!r.verdicts[n] ==> c.nonce in Nonces(w)) &&
      (Roomy(cfg, r, n) ==>
        (!r.verdicts[n] <==> c.nonce in Nonces(w)) &&
        Refreshed(r.tables[n], c).seen[c.principal] == w)
  {
    var c := r.calls[n];
    var h := History(cfg, r, n, c.principal);
    var k, last := RunRemembers(cfg, r, n, c.principal);
    assert IsStep(cfg, r, n);
    RefusedExactly(r.tables[n], c, h, k);
    WindowIndex(cfg, h, k, last, c.now, Roomy(cfg, r, n));
  }
}
