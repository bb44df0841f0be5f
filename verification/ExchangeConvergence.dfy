/**
 What passes of the two-way exchange achieve (cockpit/server/cell_exchange_sync.py): nothing is lost,
 both sides come to hold what either held, newest first, and the next pass finds nothing to do.
 */
module ExchangeConvergence {
  import opened Bytes
  import opened ExchangeSync

  // Names that begin with a dot or end like a file in transit.
  lemma SkipExactly(name: string)
    ensures Skip(name) <==>
      (exists x :: name == "." + x) || (exists x :: name == x + ".pnpart") || (exists x :: name == x + ".pnup")
      || exists x :: name == x + ".cellfs.tmp"
  {
    if StartsWith(name, ".") {
      assert name == "." + name[1..];
    }
    EndsWithExactly(name, ".pnpart");
    EndsWithExactly(name, ".pnup");
    EndsWithExactly(name, ".cellfs.tmp");
  }

  lemma EndsWithExactly(name: string, tail: string)
    ensures EndsWith(name, tail) <==> exists x :: name == x + tail
  {
    if EndsWith(name, tail) {
      assert name == name[..|name| - |tail|] + tail;
    }
  }

  // p needs no directory where fs has a file, nor the other way round.
  ghost predicate Fits(fs: Files, p: Path) {
    forall q :: q in fs && (q <= p || p <= q) ==> p == q
  }

  ghost predicate Visible(p: Path) {
    forall name :: name in p ==> !Skip(name)
  }

  // The remote file is small enough, lies at most five components deep and is newer by more than two seconds.
  ghost predicate Taken(remote: Files, local: Files, broken: set<Path>, p: Path) {
    p in remote && |remote[p].content| <= 2 * 1024 * 1024 * 1024 && 1 <= |p| <= 5 && Visible(p) && Fits(local, p) && p !in broken
    && (p in local ==> local[p].mtime < (remote[p].mtime.Floor - 2) as real)
  }

  // The local file is small enough and newer by more than two seconds, where the remote listing shows it.
  ghost predicate Given(remote: Files, local: Files, broken: set<Path>, p: Path) {
    p in local && |local[p].content| <= 2 * 1024 * 1024 * 1024 && Visible(p) && Fits(remote, p) && p !in broken
    && (p in remote && |p| <= 5 ==> remote[p].mtime.Floor < local[p].mtime.Floor - 2)
  }

  /**
   One pass, path by path: which files it moves, with their content and time, and that it leaves all
   others alone, on both sides.
   */
  lemma PassExactly(remote: Files, local: Files, bp: set<Path>, bq: set<Path>, p: Path)
    requires IsTree(remote) && IsTree(local)
    ensures var l, taken := LocalAfter(remote, local, bp), Taken(remote, local, bp, p);
      (p in l <==> p in local || taken) && (taken ==> CarriedFrom(l[p], remote[p])) && (p in local && !taken ==> l[p] == local[p])
    ensures var r, given := RemoteAfter(remote, local, bp, bq), Given(remote, local, bq, p);
      (p in r <==> p in remote || given) && (given ==> CarriedFrom(r[p], local[p])) && (p in remote && !given ==> r[p] == remote[p])
  {
    hide Skip;
    TakenExactly(remote, local, bp, p);
    GivenExactly(remote, local, bp, bq, p);
  }

  lemma TakenExactly(remote: Files, local: Files, bp: set<Path>, p: Path)
    requires IsTree(remote)
    ensures p in Pulled(remote, local, bp) <==> Taken(remote, local, bp, p)
  {
    hide Skip;
    assert Clashes(local, p) <==> !Fits(local, p);
    assert Unskipped(p, 0) <==> Visible(p);
  }

  lemma GivenExactly(remote: Files, local: Files, bp: set<Path>, bq: set<Path>, p: Path)
    requires IsTree(remote) && IsTree(local)
    ensures p in PushedAfter(remote, local, bp, bq) <==> Given(remote, local, bq, p)
    ensures p in PushedAfter(remote, local, bp, bq) ==> LocalAfter(remote, local, bp)[p] == local[p]
  {
    hide Skip;
    assert Clashes(remote, p) <==> !Fits(remote, p);
    assert Unskipped(p, 0) <==> Visible(p);
    if p in PushedAfter(remote, local, bp, bq) {
      PushedIsOwn(remote, local, bp, bq, p);
    }
    if Given(remote, local, bq, p) {
      assert p !in Pulled(remote, local, bp);
      assert LocalAfter(remote, local, bp)[p] == local[p];
    }
  }

  // The remote file is newer by more than EPS, or the local one is.
  predicate RemoteNewer(remote: Files, local: Files, p: Path)
    requires p in remote && p in local
  {
    local[p].mtime < (remote[p].mtime.Floor - EPS) as real
  }

  predicate LocalNewer(remote: Files, local: Files, p: Path)
    requires p in remote && p in local
  {
    remote[p].mtime.Floor < local[p].mtime.Floor - EPS
  }

  // What a push sends is what the local side held before the pass: pulled files are never sent back.
  lemma PushedIsOwn(remote: Files, local: Files, bp: set<Path>, bq: set<Path>, p: Path)
    requires IsTree(local) && p in PushedAfter(remote, local, bp, bq)
    ensures p in local && p !in Pulled(remote, local, bp) && LocalAfter(remote, local, bp)[p] == local[p]
    ensures p in remote && |p| <= 5 ==> LocalNewer(remote, local, p)
  {
    hide Clashes, Skip;
    assert p in Pulled(remote, local, bp) ==> p in Index(remote, []);
  }

  predicate ReplacedByRemote(remote: Files, local: Files, p: Path, f: File)
    requires p in local
  {
    p in remote && RemoteNewer(remote, local, p) && CarriedFrom(f, remote[p])
  }

  // Below the fifth component the index is blind, and the times are not compared.
  predicate ReplacedByLocal(remote: Files, local: Files, p: Path, f: File)
    requires p in remote
  {
    p in local && (|p| <= 5 ==> LocalNewer(remote, local, p)) && CarriedFrom(f, local[p])
  }

  /**
   Whatever transfers fail: every file stays on its side, as it was or replaced by the other side's
   newer one, and nothing appears that neither side held.
   */
  lemma NothingLost(remote: Files, local: Files, bp: set<Path>, bq: set<Path>, p: Path)
    requires IsTree(remote) && IsTree(local)
    ensures var l, r := LocalAfter(remote, local, bp), RemoteAfter(remote, local, bp, bq);
      (p in local ==> p in l && (l[p] == local[p] || ReplacedByRemote(remote, local, p, l[p]))) &&
      (p in remote ==> p in r && (r[p] == remote[p] || ReplacedByLocal(remote, local, p, r[p]))) &&
      (p in l && p !in local ==> p in remote && CarriedFrom(l[p], remote[p])) &&
      (p in r && p !in remote ==> p in local && CarriedFrom(r[p], local[p]))
  {
    hide Clashes, Skip;
    if p in PushedAfter(remote, local, bp, bq) {
      PushedIsOwn(remote, local, bp, bq, p);
    }
  }

  // A path that a pass may carry in either direction.
  ghost predicate Syncable(remote: Files, local: Files, p: Path) {
    0 < |p| <= 5 && Unskipped(p, 0) && !Clashes(remote, p) && !Clashes(local, p) &&
    (p in remote ==> |remote[p].content| <= MAXF) && (p in local ==> |local[p].content| <= MAXF)
  }

  /**
   Convergence. A pass without failures leaves every syncable path that either side held on both
   sides, with the newer content wherever the times differ by more than EPS, and otherwise untouched.
   */
  lemma BothSidesHold(remote: Files, local: Files, p: Path)
    requires IsTree(remote) && IsTree(local) && Syncable(remote, local, p) && (p in remote || p in local)
    ensures var l, r := LocalAfter(remote, local, {}), RemoteAfter(remote, local, {}, {});
      p in l && p in r &&
      if p !in local then CarriedFrom(l[p], remote[p]) && r[p] == remote[p]
      else if p !in remote then l[p] == local[p] && CarriedFrom(r[p], local[p])
      else if RemoteNewer(remote, local, p) then CarriedFrom(l[p], remote[p]) && r[p] == remote[p]
      else if LocalNewer(remote, local, p) then l[p] == local[p] && CarriedFrom(r[p], local[p])
      else l[p] == local[p] && r[p] == remote[p]
  {
    hide Clashes, Skip;
    if p in remote {
      assert p in Index(remote, []);
    }
    var pulled := p in Pulled(remote, local, {});
    var pushed := p in PushedAfter(remote, local, {}, {});
    assert pulled <==> p in remote && (p in local ==> RemoteNewer(remote, local, p));
    assert pushed <==> p in local && (p in remote ==> LocalNewer(remote, local, p));
  }

  // The local files that a pass sends although the remote listing, five components deep, never shows them.
  function Deep(remote: Files, local: Files): set<Path> {
    set p | p in local && Unskipped(p, 0) && |p| > 5 && |local[p].content| <= MAXF && !Clashes(remote, p)
  }

  lemma NoSecondPull(remote: Files, local: Files, p: Path)
    requires IsTree(remote) && IsTree(local)
    ensures p !in Pulled(RemoteAfter(remote, local, {}, {}), LocalAfter(remote, local, {}), {})
  {
    hide Skip;
    var l, r := LocalAfter(remote, local, {}), RemoteAfter(remote, local, {}, {});
    if p in Pulled(r, l, {}) {
      assert p !in PushedAfter(remote, local, {}, {}) && p in remote && p in Index(remote, []);
      SameClashes(local, remote, Pulled(remote, local, {}), p);
    }
  }

  lemma DeepPushedAgain(remote: Files, local: Files, p: Path)
    requires IsTree(remote) && IsTree(local) && p in Deep(remote, local)
    ensures var l, r := LocalAfter(remote, local, {}), RemoteAfter(remote, local, {}, {});
      p in Pushed(r, l, Index(r, []), {})
  {
    hide Skip, Clashes, Pulled, IsTree;
    var l, r := LocalAfter(remote, local, {}), RemoteAfter(remote, local, {}, {});
    LocalStaysTree(remote, local, {});
    DeepAlwaysSent(remote, local, p);
    SameClashes(remote, l, PushedAfter(remote, local, {}, {}), p);
  }

  lemma OnlyDeepPushedAgain(remote: Files, local: Files, p: Path)
    requires IsTree(remote) && IsTree(local)
    requires var l, r := LocalAfter(remote, local, {}), RemoteAfter(remote, local, {}, {});
      p in Pushed(r, l, Index(r, []), {})
    ensures p in Deep(remote, local)
  {
    hide Skip, Clashes, IsTree;
    var l, r := LocalAfter(remote, local, {}), RemoteAfter(remote, local, {}, {});
    LocalStaysTree(remote, local, {});
    SameClashes(remote, l, PushedAfter(remote, local, {}, {}), p);
    assert p in Pulled(remote, local, {}) ==> p in Index(remote, []);
  }

  lemma SecondPullsNothing(remote: Files, local: Files)
    requires IsTree(remote) && IsTree(local)
    ensures var l, r := LocalAfter(remote, local, {}), RemoteAfter(remote, local, {}, {});
      Pulled(r, l, {}) == {} && LocalAfter(r, l, {}) == l
  {
    hide Pulled;
    var l, r := LocalAfter(remote, local, {}), RemoteAfter(remote, local, {}, {});
    forall p
      ensures p !in Pulled(r, l, {})
    {
      NoSecondPull(remote, local, p);
    }
    NothingMoved(l, r);
  }

  // A deep file overwrites its remote counterpart in every pass, even a newer one.
  lemma DeepAlwaysSent(remote: Files, local: Files, p: Path)
    requires p in Deep(remote, local)
    ensures var l, r := LocalAfter(remote, local, {}), RemoteAfter(remote, local, {}, {});
      p in l && p in r && l[p] == local[p] && CarriedFrom(r[p], local[p])
  {
    hide Skip, Clashes;
    assert p in PushedAfter(remote, local, {}, {});
  }

  lemma SentAgain(r: Files, l: Files, moved: set<Path>)
    requires moved <= l.Keys && forall p :: p in moved ==> p in r && r[p] == Copy(l[p])
    ensures Received(r, l, moved) == r
  {
  }

  /**
   Quiescence, exactly. After a pass without failures the next one pulls nothing and changes no file;
   what it pushes again are the deep files, so it transfers nothing if and only if there are none.
   */
  lemma SecondPassExactly(remote: Files, local: Files)
    requires IsTree(remote) && IsTree(local)
    ensures var l, r := LocalAfter(remote, local, {}), RemoteAfter(remote, local, {}, {});
      Pulled(r, l, {}) == {} && PushedAfter(r, l, {}, {}) == Deep(remote, local) &&
      LocalAfter(r, l, {}) == l && RemoteAfter(r, l, {}, {}) == r
  {
    hide Pulled, Pushed, Deep, Received, LocalAfter, Copy;
    var l, r := LocalAfter(remote, local, {}), RemoteAfter(remote, local, {}, {});
    SecondPullsNothing(remote, local);
    forall p
      ensures p in PushedAfter(r, l, {}, {}) <==> p in Deep(remote, local)
    {
      if p in Deep(remote, local) {
        DeepPushedAgain(remote, local, p);
      }
      if p in PushedAfter(r, l, {}, {}) {
        OnlyDeepPushedAgain(remote, local, p);
      }
    }
    forall p | p in Deep(remote, local)
      ensures p in l && p in r && r[p] == Copy(l[p])
    {
      DeepAlwaysSent(remote, local, p);
      CopyExactly(r[p], l[p]);
    }
    SentAgain(r, l, Deep(remote, local));
  }
}
