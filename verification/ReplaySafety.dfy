/**
 No envelope is accepted twice, over every run of the verifier (cockpit/identity/verifier.py): the
 replay memory and the skew window cover for each other, but for readings that meet at the exact
 moment where the one ends and the other has not yet.
 */
module ReplaySafety {
  import opened Bytes
  import opened Canonical
  import opened Registry
  import opened Enrollment
  import opened NonceTable
  import opened NonceHistory
  import opened Verifier

  // ----- The memory: when a nonce is taken again -----

  lemma {:induction false} HistoryGrows(cfg: Config, r: NonceHistory.Run, m: nat, n: nat, p: string)
    requires m <= n <= |r.calls| == |r.verdicts|
    ensures History(cfg, r, m, p) <= History(cfg, r, n, p)
    decreases n
  {
    if m < n {
      HistoryGrows(cfg, r, m, n - 1, p);
    }
  }

  // The entry of call m in the history.
  lemma EntryOf(cfg: Config, r: NonceHistory.Run, m: nat, n: nat, p: string)
    requires m < n <= |r.calls| == |r.verdicts| && r.verdicts[m] && r.calls[m].principal == p
    ensures var h, i := History(cfg, r, n, p), |History(cfg, r, m, p)|;
      i < |h| && h[i] == Entry(r.calls[m].nonce, r.calls[m].now + cfg.ttl)
  {
    HistoryGrows(cfg, r, m + 1, n, p);
  }

  // Every entry of the history stems from an accepted call.
  lemma {:induction false} CallOf(cfg: Config, r: NonceHistory.Run, n: nat, p: string, e: Entry) returns (m: nat)
    requires n <= |r.calls| == |r.verdicts| && e in History(cfg, r, n, p)
    ensures m < n && r.verdicts[m] && r.calls[m].principal == p
    ensures e == Entry(r.calls[m].nonce, r.calls[m].now + cfg.ttl)
  {
    if e in History(cfg, r, n - 1, p) {
      m := CallOf(cfg, r, n - 1, p, e);
    } else {
      m := n - 1;
    }
  }

  // Fewer acceptances since call m than fit a bucket.
  predicate FewSince(cfg: Config, r: NonceHistory.Run, m: nat, n: nat, p: string)
    requires m <= n <= |r.calls| == |r.verdicts|
  {
    |History(cfg, r, n, p)| - |History(cfg, r, m, p)| <= cfg.maxPerPrincipal
  }

  lemma InWindow(cfg: Config, h: Bucket, i: nat, now: int)
    requires InExpiryOrder(h) && i < |h| && h[i].exp > now && |h| - i <= cfg.maxPerPrincipal
    ensures h[i].nonce in Nonces(Window(cfg, h, now))
  {
    DropExpiredCount(h, now);
    ExpiredCountIs(h, now, i);
    NewestTail(h, ExpiredCount(h, now), cfg.maxPerPrincipal);
    assert h[i] in Window(cfg, h, now);
  }

  lemma {:induction false} WindowUnexpired(h: Bucket, now: int)
    ensures forall e :: e in Unexpired(h, now) ==> e in h && e.exp > now
  {
    if h != [] {
      WindowUnexpired(h[1..], now);
    }
  }

  /**
   While no cap is reached, a nonce accepted at reading c and not accepted again since is accepted
   by a later call exactly if that call reads c + ttl or later.
   */
  lemma AcceptedAgainExactly(cfg: Config, r: NonceHistory.Run, m: nat, n: nat)
    requires cfg.Usable() && NonceHistory.IsRun(cfg, r) && Monotone(r) && m < n < |r.calls|
    requires r.verdicts[m] && r.calls[m].principal == r.calls[n].principal && r.calls[m].nonce == r.calls[n].nonce
    requires Roomy(cfg, r, n) && FewSince(cfg, r, m, n, r.calls[n].principal)
    requires forall k :: m < k < n && r.verdicts[k] ==>
      r.calls[k].principal != r.calls[n].principal || r.calls[k].nonce != r.calls[n].nonce
    ensures r.verdicts[n] <==> r.calls[n].now >= r.calls[m].now + cfg.ttl
  {
    hide *;
    StillRefused(cfg, r, m, n);
    ForgottenLater(cfg, r, m, n);
  }

  lemma StillRefused(cfg: Config, r: NonceHistory.Run, m: nat, n: nat)
    requires cfg.Usable() && NonceHistory.IsRun(cfg, r) && Monotone(r) && m < n < |r.calls|
    requires r.verdicts[m] && r.calls[m].principal == r.calls[n].principal && r.calls[m].nonce == r.calls[n].nonce
    requires Roomy(cfg, r, n) && FewSince(cfg, r, m, n, r.calls[n].principal)
    ensures r.calls[n].now < r.calls[m].now + cfg.ttl ==> !r.verdicts[n]
  {
    hide IsStep, Roomy, Refreshed, Window;
    var p, h := r.calls[n].principal, History(cfg, r, n, r.calls[n].principal);
    RefusesTheWindow(cfg, r, n);
    EntryOf(cfg, r, m, n, p);
    var k, last := RunRemembers(cfg, r, n, p);
    if r.calls[n].now < r.calls[m].now + cfg.ttl {
      InWindow(cfg, h, |History(cfg, r, m, p)|, r.calls[n].now);
    }
  }

  lemma ForgottenLater(cfg: Config, r: NonceHistory.Run, m: nat, n: nat)
    requires cfg.Usable() && NonceHistory.IsRun(cfg, r) && Monotone(r) && m < n < |r.calls|
    requires r.calls[m].principal == r.calls[n].principal && r.calls[m].nonce == r.calls[n].nonce
    requires forall k :: m < k < n && r.verdicts[k] ==>
      r.calls[k].principal != r.calls[n].principal || r.calls[k].nonce != r.calls[n].nonce
    ensures r.calls[n].now >= r.calls[m].now + cfg.ttl ==> r.verdicts[n]
  {
    hide IsStep, Roomy, Refreshed, Unexpired, History;
    var c := r.calls[n];
    var h := History(cfg, r, n, c.principal);
    RefusesTheWindow(cfg, r, n);
    if !r.verdicts[n] {
      WindowUnexpired(h, c.now);
      var e :| e in Window(cfg, h, c.now) && e.nonce == c.nonce;
      assert e in Unexpired(h, c.now);
      var k := CallOf(cfg, r, n, c.principal, e);
      assert k <= m;
    }
  }

  // ----- The verifier: runs -----

  // One verify against the registry as it is then, with the two clock readings.
  datatype Event = Event(store: Store, env: Json, skewNow: int, cacheNow: int)

  // What does not change between verifies.
  datatype Setting = Setting(world: World, contract: string, skew: nat, maxPerPrincipal: nat, maxTotal: nat) {
    function Cfg(): Config {
      Config(2 * skew, maxPerPrincipal, maxTotal)
    }
  }

  function Checked(g: Setting, e: Event): Result<VerifiedRequest, VerifyError> {
    Precheck(g.world, g.contract, e.store, e.env)
  }

  // Whether a verify gets as far as the replay memory, and so reads the clock twice.
  predicate Reaches(g: Setting, e: Event) {
    Checked(g, e).Ok? && WithinSkew(e.skewNow, Checked(g, e).value.ts, g.skew)
  }

  function CallFor(g: Setting, e: Event): Call
    requires Reaches(g, e)
  {
    Call(Checked(g, e).value.principal, Checked(g, e).value.nonce, e.cacheNow)
  }

  // A run of verifies; `at[i]` counts the memory calls made before verify i.
  datatype VerifierRun = VerifierRun(
    events: seq<Event>, results: seq<Result<VerifiedRequest, VerifyError>>, memory: NonceHistory.Run, at: seq<nat>)

  ghost predicate IsVerifierRun(g: Setting, v: VerifierRun)
    requires g.Cfg().Usable()
  {
    NonceHistory.IsRun(g.Cfg(), v.memory) &&
    |v.results| == |v.events| && |v.at| == |v.events| + 1 &&
    v.at[0] == 0 && (forall i :: 0 <= i <= |v.events| ==> v.at[i] <= |v.memory.calls|) &&
    v.at[|v.events|] == |v.memory.calls| &&
    forall i :: 0 <= i < |v.events| ==> Follows(g, v, i)
  }

  ghost predicate Follows(g: Setting, v: VerifierRun, i: nat)
    requires g.Cfg().Usable() && NonceHistory.IsRun(g.Cfg(), v.memory)
    requires i < |v.events| == |v.results| < |v.at| && v.at[i] <= |v.memory.calls| && v.at[i + 1] <= |v.memory.calls|
  {
    var e := v.events[i];
    Verify(g.world, g.Cfg(), g.contract, g.skew, v.memory.tables[v.at[i]], e.store, e.env, e.skewNow, e.cacheNow)
      == (v.memory.tables[v.at[i + 1]], v.results[i]) &&
    if Reaches(g, e) then v.at[i + 1] == v.at[i] + 1 && v.memory.calls[v.at[i]] == CallFor(g, e)
    else v.at[i + 1] == v.at[i]
  }

  // Every list of verifies has a run.
  lemma {:induction false} VerifierRunExists(g: Setting, events: seq<Event>) returns (v: VerifierRun)
    requires g.Cfg().Usable()
    ensures IsVerifierRun(g, v) && v.events == events
    decreases |events|
  {
    if events == [] {
      return VerifierRun([], [], NonceHistory.Run([], [], [NonceTable.EMPTY]), [0]);
    }
    hide Follows, IsStep, Step, Ordered, Reaches, Verify;
    var n, e := |events| - 1, events[|events| - 1];
    var q := VerifierRunExists(g, events[..n]);
    var calls := |q.memory.calls|;
    var r := Verify(g.world, g.Cfg(), g.contract, g.skew, q.memory.tables[calls], e.store, e.env, e.skewNow, e.cacheNow).1;
    var memory := q.memory;
    if Reaches(g, e) {
      var c := CallFor(g, e);
      var s := Step(g.Cfg(), memory.tables[calls], c);
      memory := NonceHistory.Run(memory.calls + [c], memory.verdicts + [s.1], memory.tables + [s.0]);
      NonceHistory.RunGrows(g.Cfg(), q.memory, memory, calls);
    }
    v := VerifierRun(events, q.results + [r], memory, q.at + [|memory.calls|]);
    LastFollows(g, v, n);
    RunExtended(g, q, v, n);
  }

  lemma RunExtended(g: Setting, q: VerifierRun, v: VerifierRun, n: nat)
    requires g.Cfg().Usable() && IsVerifierRun(g, q) && NonceHistory.IsRun(g.Cfg(), v.memory)
    requires n == |q.events| && |v.events| == |v.results| == n + 1 && |v.at| == n + 2 && q.events == v.events[..n]
    requires q.results <= v.results && q.at <= v.at && v.at[n + 1] == |v.memory.calls|
    requires q.memory.calls <= v.memory.calls && q.memory.tables <= v.memory.tables
    requires Follows(g, v, n)
    ensures IsVerifierRun(g, v)
  {
    hide Follows, IsStep, Step, Ordered, Reaches, Verify;
    forall i | 0 <= i < n
      ensures Follows(g, v, i)
    {
      SameFollows(g, q, v, i);
    }
  }

  lemma SameFollows(g: Setting, q: VerifierRun, v: VerifierRun, i: nat)
    requires g.Cfg().Usable() && NonceHistory.IsRun(g.Cfg(), q.memory) && NonceHistory.IsRun(g.Cfg(), v.memory)
    requires q.events <= v.events && q.results <= v.results && q.at <= v.at
    requires q.memory.calls <= v.memory.calls && q.memory.tables <= v.memory.tables
    requires i < |q.events| == |q.results| < |q.at| && q.at[i] <= |q.memory.calls| && q.at[i + 1] <= |q.memory.calls|
    requires Follows(g, q, i)
    ensures v.at[i] <= |v.memory.calls| && v.at[i + 1] <= |v.memory.calls| && |v.events| > i && |v.results| > i && |v.at| > i + 1
    ensures |v.events| == |v.results| < |v.at| ==> Follows(g, v, i)
  {
    hide Verify, Reaches, Step, Ordered, IsStep;
  }

  lemma LastFollows(g: Setting, v: VerifierRun, n: nat)
    requires g.Cfg().Usable() && NonceHistory.IsRun(g.Cfg(), v.memory)
    requires n < |v.events| == |v.results| < |v.at| && v.at[n] <= |v.memory.calls| && v.at[n + 1] <= |v.memory.calls|
    requires var e := v.events[n];
      v.results[n] == Verify(g.world, g.Cfg(), g.contract, g.skew, v.memory.tables[v.at[n]], e.store, e.env, e.skewNow, e.cacheNow).1 &&
      if Reaches(g, e) then v.at[n + 1] == v.at[n] + 1 && v.memory.calls[v.at[n]] == CallFor(g, e)
      else v.at[n + 1] == v.at[n]
    ensures Follows(g, v, n)
  {
    hide Precheck, WithinSkew, Step, Ordered;
    assert Reaches(g, v.events[n]) ==> IsStep(g.Cfg(), v.memory, v.at[n]);
  }

  // A clock that never runs backwards: within a verify, and from one verify to the next.
  ghost predicate Clocked(g: Setting, v: VerifierRun) {
    (forall i :: 0 <= i < |v.events| && Reaches(g, v.events[i]) ==> v.events[i].skewNow <= v.events[i].cacheNow) &&
    forall i, j :: 0 <= i < j < |v.events| ==>
      (if Reaches(g, v.events[i]) then v.events[i].cacheNow else v.events[i].skewNow) <= v.events[j].skewNow
  }

  lemma ReachesExactly(g: Setting, v: VerifierRun, i: nat)
    requires g.Cfg().Usable() && IsVerifierRun(g, v) && i < |v.events|
    ensures v.at[i + 1] == if Reaches(g, v.events[i]) then v.at[i] + 1 else v.at[i]
    ensures Reaches(g, v.events[i]) ==> v.memory.calls[v.at[i]] == CallFor(g, v.events[i])
    ensures v.results[i].Ok? <==> Reaches(g, v.events[i]) && v.memory.verdicts[v.at[i]]
    ensures v.results[i].Ok? ==> v.results[i] == Checked(g, v.events[i])
  {
    hide Precheck, WithinSkew, Step, Ordered;
    assert Follows(g, v, i);
    if Reaches(g, v.events[i]) {
      assert IsStep(g.Cfg(), v.memory, v.at[i]);
    }
  }

  lemma {:induction false} AtGrows(g: Setting, v: VerifierRun, i: nat, j: nat)
    requires g.Cfg().Usable() && IsVerifierRun(g, v) && i <= j <= |v.events|
    ensures v.at[i] <= v.at[j]
    decreases j
  {
    hide Reaches, Follows;
    if i < j {
      AtGrows(g, v, i, j - 1);
      ReachesExactly(g, v, j - 1);
    }
  }

  // The verify that made memory call k.
  lemma {:induction false} EventOf(g: Setting, v: VerifierRun, n: nat, k: nat) returns (i: nat)
    requires g.Cfg().Usable() && IsVerifierRun(g, v) && n <= |v.events| && k < v.at[n]
    ensures i < n && v.at[i] == k && Reaches(g, v.events[i])
  {
    hide Reaches, Follows;
    ReachesExactly(g, v, n - 1);
    if k < v.at[n - 1] {
      i := EventOf(g, v, n - 1, k);
    } else {
      i := n - 1;
    }
  }

  lemma MemoryMonotone(g: Setting, v: VerifierRun)
    requires g.Cfg().Usable() && IsVerifierRun(g, v) && Clocked(g, v)
    ensures Monotone(v.memory)
  {
    hide Reaches, Follows;
    forall a, b | 0 <= a <= b < |v.memory.calls|
      ensures v.memory.calls[a].now <= v.memory.calls[b].now
    {
      var i := EventOf(g, v, |v.events|, a);
      var j := EventOf(g, v, |v.events|, b);
      ReachesExactly(g, v, i);
      ReachesExactly(g, v, j);
      CallTime(g, v.events[i]);
      CallTime(g, v.events[j]);
      if j < i {
        AtGrows(g, v, j + 1, i);
      }
    }
  }

  lemma CallTime(g: Setting, e: Event)
    requires Reaches(g, e)
    ensures CallFor(g, e).now == e.cacheNow
  {
  }

  // Two verifies of one envelope that both pass the checks agree on its principal, nonce and time.
  lemma SameEnvelope(g: Setting, a: Event, b: Event)
    requires a.env == b.env && Checked(g, a).Ok? && Checked(g, b).Ok?
    ensures var x, y := Checked(g, a).value, Checked(g, b).value;
      x.principal == y.principal && x.nonce == y.nonce && x.ts == y.ts
  {
  }

  // ----- The verifier: a second acceptance -----

  // Verify i took the nonce that verify j brings, and no cap has been reached in between.
  ghost predicate Remembered(g: Setting, v: VerifierRun, i: nat, j: nat)
    requires g.Cfg().Usable() && IsVerifierRun(g, v) && i < j < |v.events|
  {
    v.results[i].Ok? && Checked(g, v.events[j]).Ok? &&
    v.results[i].value.principal == Checked(g, v.events[j]).value.principal &&
    v.results[i].value.nonce == Checked(g, v.events[j]).value.nonce &&
    Roomy(g.Cfg(), v.memory, v.at[j]) &&
    v.at[i] <= v.at[j] && FewSince(g.Cfg(), v.memory, v.at[i], v.at[j], v.results[i].value.principal)
  }

  lemma RememberedCalls(g: Setting, v: VerifierRun, i: nat, j: nat)
    requires g.Cfg().Usable() && IsVerifierRun(g, v) && i < j < |v.events|
    requires Remembered(g, v, i, j) && Reaches(g, v.events[j])
    ensures var m, n, r := v.at[i], v.at[j], v.memory;
      m < n < |r.calls| && r.verdicts[m] &&
      r.calls[m].principal == r.calls[n].principal && r.calls[m].nonce == r.calls[n].nonce &&
      r.calls[m].now == v.events[i].cacheNow && r.calls[n].now == v.events[j].cacheNow &&
      Roomy(g.Cfg(), r, n) && FewSince(g.Cfg(), r, m, n, r.calls[n].principal)
  {
    hide Checked, WithinSkew, Follows, Roomy, FewSince, Clocked, NonceHistory.IsRun;
    ReachesExactly(g, v, i);
    ReachesExactly(g, v, j);
    AtGrows(g, v, i + 1, j);
  }

  /**
   A nonce that was accepted at memory reading c is not accepted again by any verify whose memory
   reading lies before c + 2 * skew, whatever envelope it comes in.
   */
  lemma NonceRefused(g: Setting, v: VerifierRun, i: nat, j: nat)
    requires g.Cfg().Usable() && IsVerifierRun(g, v) && Clocked(g, v) && i < j < |v.events|
    requires Remembered(g, v, i, j) && v.events[j].cacheNow < v.events[i].cacheNow + 2 * g.skew
    ensures !v.results[j].Ok?
  {
    hide Checked, Follows, Roomy, Clocked, Remembered, Reaches, NonceHistory.IsRun, Monotone;
    ReachesExactly(g, v, j);
    if Reaches(g, v.events[j]) {
      MemoryMonotone(g, v);
      RememberedCalls(g, v, i, j);
      StillRefused(g.Cfg(), v.memory, v.at[i], v.at[j]);
    }
  }

  /**
   The same envelope is stale for every verify whose skew reading lies after c + 2 * skew. With
   `NonceRefused`: a second acceptance needs readings that meet or straddle c + 2 * skew exactly.
   */
  lemma NeverTwice(g: Setting, v: VerifierRun, i: nat, j: nat)
    requires g.Cfg().Usable() && IsVerifierRun(g, v) && Clocked(g, v) && i < j < |v.events|
    requires Remembered(g, v, i, j) && v.events[i].env == v.events[j].env
    ensures v.events[j].skewNow > v.events[i].cacheNow + 2 * g.skew ==> !Reaches(g, v.events[j])
    ensures v.results[j].Ok? ==>
      v.events[j].skewNow <= v.events[i].cacheNow + 2 * g.skew <= v.events[j].cacheNow
  {
    hide Checked, Follows, Roomy, NonceHistory.IsRun, FewSince;
    ReachesExactly(g, v, i);
    ReachesExactly(g, v, j);
    SameEnvelope(g, v.events[i], v.events[j]);
    if v.events[j].cacheNow < v.events[i].cacheNow + 2 * g.skew {
      NonceRefused(g, v, i, j);
    }
  }

  /**
   Exactly when an accepted envelope that no verify has accepted since passes again: its time is
   still inside the skew window and the memory reading has reached c + 2 * skew.
   */
  lemma SecondAcceptanceExactly(g: Setting, v: VerifierRun, i: nat, j: nat)
    requires g.Cfg().Usable() && IsVerifierRun(g, v) && Clocked(g, v) && i < j < |v.events|
    requires Remembered(g, v, i, j) && v.events[i].env == v.events[j].env
    requires forall l :: i < l < j && v.results[l].Ok? ==>
      v.results[l].value.principal != v.results[i].value.principal || v.results[l].value.nonce != v.results[i].value.nonce
    ensures v.results[j].Ok? <==>
      v.events[j].skewNow <= v.results[i].value.ts + g.skew && v.events[i].cacheNow + 2 * g.skew <= v.events[j].cacheNow
  {
    hide Checked, Follows, Roomy, NonceHistory.IsRun, FewSince, Monotone, History;
    ReachesExactly(g, v, i);
    ReachesExactly(g, v, j);
    SameEnvelope(g, v.events[i], v.events[j]);
    if Reaches(g, v.events[j]) {
      MemoryMonotone(g, v);
      RememberedCalls(g, v, i, j);
      OthersBetween(g, v, i, j);
      AcceptedAgainExactly(g.Cfg(), v.memory, v.at[i], v.at[j]);
    }
  }

  lemma OthersBetween(g: Setting, v: VerifierRun, i: nat, j: nat)
    requires g.Cfg().Usable() && IsVerifierRun(g, v) && i < j < |v.events| && v.results[i].Ok? && Reaches(g, v.events[j])
    requires v.results[i].value.principal == Checked(g, v.events[j]).value.principal
    requires v.results[i].value.nonce == Checked(g, v.events[j]).value.nonce
    requires forall l :: i < l < j && v.results[l].Ok? ==>
      v.results[l].value.principal != v.results[i].value.principal || v.results[l].value.nonce != v.results[i].value.nonce
    ensures var c, r := CallFor(g, v.events[j]), v.memory;
      forall k :: v.at[i] < k < v.at[j] && r.verdicts[k] ==>
        r.calls[k].principal != c.principal || r.calls[k].nonce != c.nonce
  {
    hide Checked, Follows, WithinSkew, IsStep;
    forall k | v.at[i] < k < v.at[j] && v.memory.verdicts[k]
      ensures v.memory.calls[k].principal != CallFor(g, v.events[j]).principal
        || v.memory.calls[k].nonce != CallFor(g, v.events[j]).nonce
    {
      var l := EventOf(g, v, j, k);
      ReachesExactly(g, v, l);
      if l <= i {
        AtGrows(g, v, l, i);
      }
    }
  }

  /**
   The boundary is real: an envelope dated `skew` ahead of the clock is accepted at once, and again
   when the clock reads exactly 2 * skew later.
   */
  lemma AcceptedOnTheBoundary(g: Setting, s: Store, env: Json)
    requires g.Cfg().Usable() && Precheck(g.world, g.contract, s, env).Ok?
    ensures var ts := Precheck(g.world, g.contract, s, env).value.ts;
      var first := Verify(g.world, g.Cfg(), g.contract, g.skew, NonceTable.EMPTY, s, env, ts - g.skew, ts - g.skew);
      first.1.Ok? &&
      Verify(g.world, g.Cfg(), g.contract, g.skew, first.0, s, env, ts + g.skew, ts + g.skew).1.Ok?
  {
    hide Precheck, Step, Ordered;
    var q := Precheck(g.world, g.contract, s, env).value;
    var c := Call(q.principal, q.nonce, q.ts - g.skew);
    TwoCalls(g.Cfg(), c, c.(now := q.ts + g.skew));
  }

  lemma TwoCalls(cfg: Config, c: Call, d: Call)
    requires cfg.Usable() && d == c.(now := c.now + cfg.ttl)
    ensures Step(cfg, NonceTable.EMPTY, c).1 && Step(cfg, Step(cfg, NonceTable.EMPTY, c).0, d).1
  {
    hide Step, Roomy, Refreshed;
    var r := RunExists(cfg, [c, d]);
    assert IsStep(cfg, r, 0) && IsStep(cfg, r, 1);
    RefusesTheWindow(cfg, r, 0);
    assert Window(cfg, [], c.now) == [];
    ForgottenLater(cfg, r, 0, 1);
  }
}
