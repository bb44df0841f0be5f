/**
 The install order of the package layer (cockpit/server/pn_pkg.py, `cmd_install`): a depth-first walk
 over first-alternative dependencies that gives up below a depth of twelve.
 */
module PackageWalk {
  import opened Bytes

  // A record of the package index; each dependency group lists its alternatives.
  datatype Record = Record(name: string, depends: seq<seq<string>>)

  const MAX_DEPTH := 12

  // What the walk reads: the index, what is installed, what the base image and the noise list cover.
  datatype Catalog = Catalog(lookup: string -> Option<Record>, installed: set<string>, base: set<string>, noise: set<string>)
  {
    // `_deps_of`
    function DepsOf(groups: seq<seq<string>>): (r: seq<string>)
      ensures forall d :: d in r ==> d !in base && d !in noise
    {
      if groups == [] then []
      else if groups[0] == [] || groups[0][0] in base || groups[0][0] in noise then DepsOf(groups[1..])
      else [groups[0][0]] + DepsOf(groups[1..])
    }

    // A name that the walk has a record to install for.
    predicate Listed(nm: string) {
      nm !in base && nm !in installed && lookup(nm).Some?
    }

    // The names that the walk goes on to from nm.
    function Children(nm: string): (r: seq<string>)
      ensures forall d :: d in r ==> d !in base
    {
      if Listed(nm) then DepsOf(lookup(nm).value.depends) else []
    }
  }

  // `seen` and `todo`, the latter by the names that were asked for.
  datatype Progress = Progress(seen: set<string>, todo: seq<string>)

  function WalkFrom(g: Catalog, p: Progress, nm: string, depth: nat): Progress
    decreases 13 - depth, 0
  {
    if nm in p.seen || nm in g.base || depth > MAX_DEPTH then p
    else if !g.Listed(nm) then p.(seen := p.seen + {nm})
    else
      var q := WalkAll(g, p.(seen := p.seen + {nm}), g.Children(nm), depth + 1);
      q.(todo := q.todo + [nm])
  }

  function WalkAll(g: Catalog, p: Progress, names: seq<string>, depth: nat): Progress
    decreases 13 - depth, 1, |names|
  {
    if names == [] then p
    else WalkAll(g, WalkFrom(g, p, names[0], depth), names[1..], depth)
  }

  // ----- The graph -----

  // No chain of packages to install that starts at nm has more than k edges; so there is no cycle
  // among them either. Installed and unknown names end a chain without counting.
  predicate ListedWithin(g: Catalog, nm: string, k: nat)
    decreases k
  {
    forall c :: c in g.Children(nm) && g.Listed(c) ==> k > 0 && ListedWithin(g, c, k - 1)
  }

  // n can be reached from nm over at most k edges.
  predicate Reaches(g: Catalog, nm: string, n: string, k: nat)
    decreases k
  {
    n == nm || (k > 0 && exists c :: c in g.Children(nm) && Reaches(g, c, n, k - 1))
  }

  lemma {:induction false} ListedGrow(g: Catalog, nm: string, k: nat, l: nat)
    requires ListedWithin(g, nm, k) && k <= l
    ensures ListedWithin(g, nm, l)
    decreases k
  {
    forall c | c in g.Children(nm) && g.Listed(c)
      ensures l > 0 && ListedWithin(g, c, l - 1)
    {
      ListedGrow(g, c, k - 1, l - 1);
    }
  }

  // The smallest bound on the chains from nm.
  lemma {:induction false} TightBound(g: Catalog, nm: string, k: nat) returns (l: nat)
    requires ListedWithin(g, nm, k)
    ensures l <= k && ListedWithin(g, nm, l) && (l > 0 ==> !ListedWithin(g, nm, l - 1))
    decreases k
  {
    l := k;
    if k > 0 && ListedWithin(g, nm, k - 1) {
      l := TightBound(g, nm, k - 1);
    }
  }

  // ----- What holds on any graph -----

  // Only seen, listed names are in the order, each once.
  ghost predicate Orderly(g: Catalog, p: Progress) {
    Distinct(p.todo) && forall n :: n in p.todo ==> n in p.seen && g.Listed(n)
  }

  // What a part of the walk that starts at nm may add.
  ghost predicate Extends(g: Catalog, p: Progress, q: Progress, starts: seq<string>, k: int) {
    p.seen <= q.seen && p.todo <= q.todo && (forall n :: n in q.todo[|p.todo|..] ==> n !in p.seen) &&
    forall n :: n in q.seen && n !in p.seen ==> k >= 0 && exists s :: s in starts && Reaches(g, s, n, k)
  }

  // On every graph the walk ends, and what it lists is reachable, installable and listed once.
  lemma {:induction false} WalkOrderly(g: Catalog, p: Progress, nm: string, depth: nat)
    requires Orderly(g, p) && depth <= 13
    ensures Orderly(g, WalkFrom(g, p, nm, depth))
    ensures Extends(g, p, WalkFrom(g, p, nm, depth), [nm], MAX_DEPTH - depth)
    decreases 13 - depth, 0
  {
    if nm in p.seen || nm in g.base || depth > MAX_DEPTH || !g.Listed(nm) {
      assert nm in [nm] && (depth <= MAX_DEPTH ==> Reaches(g, nm, nm, MAX_DEPTH - depth));
    } else {
      var p1 := p.(seen := p.seen + {nm});
      WalkAllOrderly(g, p1, g.Children(nm), depth + 1);
      var q := WalkAll(g, p1, g.Children(nm), depth + 1);
      forall n | n in q.seen && n !in p.seen
        ensures Reaches(g, nm, n, MAX_DEPTH - depth)
      {
        if n != nm {
          var s :| s in g.Children(nm) && Reaches(g, s, n, MAX_DEPTH - depth - 1);
        }
      }
      assert nm in [nm];
      assert q.todo[..|p.todo|] == p.todo;
      assert forall n :: n in q.todo ==> n in p.todo || n in q.todo[|p.todo|..];
    }
  }

  lemma {:induction false} WalkAllOrderly(g: Catalog, p: Progress, names: seq<string>, depth: nat)
    requires Orderly(g, p) && depth <= 13
    ensures Orderly(g, WalkAll(g, p, names, depth))
    ensures Extends(g, p, WalkAll(g, p, names, depth), names, MAX_DEPTH - depth)
    decreases 13 - depth, 1, |names|
  {
    if names != [] {
      var q := WalkFrom(g, p, names[0], depth);
      WalkOrderly(g, p, names[0], depth);
      WalkAllOrderly(g, q, names[1..], depth);
      ExtendsCompose(g, p, q, WalkAll(g, q, names[1..], depth), names, MAX_DEPTH - depth);
    }
  }

  lemma ExtendsCompose(g: Catalog, p: Progress, q: Progress, r: Progress, names: seq<string>, k: int)
    requires names != [] && Extends(g, p, q, [names[0]], k) && Extends(g, q, r, names[1..], k)
    ensures Extends(g, p, r, names, k)
  {
    assert forall s :: s in names[1..] || s in [names[0]] ==> s in names;
    assert forall n :: n in r.todo[|p.todo|..] ==> n in q.todo[|p.todo|..] || n in r.todo[|q.todo|..] by {
      assert r.todo[|p.todo|..] == q.todo[|p.todo|..] + r.todo[|q.todo|..];
    }
  }

  // ----- Dependencies first -----

  // The order so far; `stack` holds the names whose dependencies are being walked.
  ghost predicate DepsFirst(g: Catalog, p: Progress, stack: set<string>) {
    Orderly(g, p) && stack <= p.seen &&
    (forall n :: n in stack ==> g.Listed(n)) &&
    (forall n :: n in p.todo ==> n !in stack) &&
    (forall n :: n in p.seen && n !in stack && g.Listed(n) ==> n in p.todo) &&
    (forall n, c :: n in p.seen && n !in stack && c in g.Children(n) && g.Listed(c) ==> c in p.seen && c !in stack) &&
    PutsDependenciesFirst(g, p.todo)
  }

  ghost predicate PutsDependenciesFirst(g: Catalog, order: seq<string>) {
    forall i, c :: 0 <= i < |order| && c in g.Children(order[i]) && g.Listed(c) ==> c in order[..i]
  }

  // At most k edges from nm on, if nm is a package to install at all.
  predicate Bounded(g: Catalog, nm: string, k: int) {
    g.Listed(nm) ==> k >= 0 && ListedWithin(g, nm, k)
  }

  // Names on the stack have longer chains than k.
  ghost predicate Above(g: Catalog, stack: set<string>, k: int) {
    forall s :: s in stack ==> g.Listed(s) && !Bounded(g, s, k)
  }

  lemma {:induction false} WalkDepsFirst(g: Catalog, p: Progress, nm: string, depth: nat, stack: set<string>, k: int)
    requires Bounded(g, nm, k) && depth + k <= MAX_DEPTH && DepsFirst(g, p, stack) && Above(g, stack, k)
    ensures var q := WalkFrom(g, p, nm, depth);
      DepsFirst(g, q, stack) && p.seen <= q.seen && (g.Listed(nm) ==> nm in q.seen) && nm !in stack
    decreases 13 - depth, 0
  {
    hide DepsFirst, Bounded, ListedWithin, Above;
    NotOnStack(g, nm, stack, k);
    if nm !in p.seen && nm !in g.base && depth <= MAX_DEPTH {
      if g.Listed(nm) {
        var l := Tightened(g, nm, k);
        var p1 := p.(seen := p.seen + {nm});
        PushKeeps(g, p, nm, stack);
        AboveGrows(g, stack, nm, l, k);
        ChildrenFit(g, nm, l);
        WalkAllDepsFirst(g, p1, g.Children(nm), depth + 1, stack + {nm}, l - 1);
        PopKeeps(g, WalkAll(g, p1, g.Children(nm), depth + 1), nm, stack);
      } else {
        UnlistedKeeps(g, p, nm, stack);
      }
    } else {
      TooDeep(g, nm, k, depth);
    }
  }

  lemma TooDeep(g: Catalog, nm: string, k: int, depth: nat)
    requires Bounded(g, nm, k) && depth + k <= MAX_DEPTH
    ensures g.Listed(nm) ==> depth <= MAX_DEPTH && nm !in g.base
  {
  }

  lemma Tightened(g: Catalog, nm: string, k: int) returns (l: int)
    requires g.Listed(nm) && Bounded(g, nm, k)
    ensures 0 <= l <= k && Bounded(g, nm, l) && !Bounded(g, nm, l - 1)
  {
    l := TightBound(g, nm, k);
  }

  // A name without a record has nothing to depend on and is not listed.
  lemma UnlistedKeeps(g: Catalog, p: Progress, nm: string, stack: set<string>)
    requires DepsFirst(g, p, stack) && nm !in p.seen && !g.Listed(nm)
    ensures DepsFirst(g, p.(seen := p.seen + {nm}), stack)
  {
    hide Distinct, Catalog.Listed, PutsDependenciesFirst;
  }

  lemma NotOnStack(g: Catalog, nm: string, stack: set<string>, k: int)
    requires Bounded(g, nm, k) && Above(g, stack, k)
    ensures nm !in stack
  {
    hide Bounded;
  }

  lemma ChildrenFit(g: Catalog, nm: string, l: int)
    requires g.Listed(nm) && Bounded(g, nm, l)
    ensures forall c :: c in g.Children(nm) ==> Bounded(g, c, l - 1)
  {
  }

  lemma AboveGrows(g: Catalog, stack: set<string>, nm: string, l: int, k: int)
    requires Above(g, stack, k) && g.Listed(nm) && 0 <= l <= k && !Bounded(g, nm, l - 1)
    ensures Above(g, stack + {nm}, l - 1)
  {
    hide ListedWithin;
    forall s | s in stack
      ensures g.Listed(s) && !Bounded(g, s, l - 1)
    {
      if Bounded(g, s, l - 1) {
        ListedGrow(g, s, l - 1, k);
      }
    }
  }

  lemma {:induction false} WalkAllDepsFirst(g: Catalog, p: Progress, names: seq<string>, depth: nat,
                                            stack: set<string>, k: int)
    requires (forall n :: n in names ==> Bounded(g, n, k)) && depth + k <= MAX_DEPTH
    requires DepsFirst(g, p, stack) && Above(g, stack, k)
    ensures var q := WalkAll(g, p, names, depth);
      DepsFirst(g, q, stack) && p.seen <= q.seen &&
      forall n :: n in names ==> (g.Listed(n) ==> n in q.seen) && n !in stack
    decreases 13 - depth, 1, |names|
  {
    hide DepsFirst, Above, Bounded;
    if names != [] {
      assert names == [names[0]] + names[1..];
      WalkDepsFirst(g, p, names[0], depth, stack, k);
      WalkAllDepsFirst(g, WalkFrom(g, p, names[0], depth), names[1..], depth, stack, k);
    }
  }

  // Marking a name as seen and walking on below it.
  lemma PushKeeps(g: Catalog, p: Progress, nm: string, stack: set<string>)
    requires DepsFirst(g, p, stack) && nm !in p.seen && g.Listed(nm)
    ensures DepsFirst(g, p.(seen := p.seen + {nm}), stack + {nm})
  {
    hide PutsDependenciesFirst;
  }

  // Listing a name once everything it depends on has been walked.
  lemma PopKeeps(g: Catalog, q: Progress, nm: string, stack: set<string>)
    requires DepsFirst(g, q, stack + {nm}) && nm !in stack && g.Listed(nm)
    requires forall c :: c in g.Children(nm) && g.Listed(c) ==> c in q.seen && c !in stack + {nm}
    ensures DepsFirst(g, q.(todo := q.todo + [nm]), stack)
  {
    var t := q.todo + [nm];
    forall i, c | 0 <= i < |t| && c in g.Children(t[i]) && g.Listed(c)
      ensures c in t[..i]
    {
      if i < |q.todo| {
        assert c in q.todo[..i];
        assert t[..i] == q.todo[..i];
      } else {
        assert t[..i] == q.todo;
      }
    }
  }

  // ----- The install order -----

  const START := Progress({}, [])

  function InstallOrder(g: Catalog, want: seq<string>): seq<string> {
    WalkAll(g, START, want, 0).todo
  }

  ghost predicate Needed(g: Catalog, want: seq<string>, n: string) {
    exists w, k: nat :: w in want && Reaches(g, w, n, k)
  }

  lemma {:induction false} SeenIsClosed(g: Catalog, p: Progress, nm: string, n: string, k: nat)
    requires DepsFirst(g, p, {}) && nm in p.seen && Reaches(g, nm, n, k) && g.Listed(n)
    ensures n in p.seen
    decreases k
  {
    if n != nm {
      var c :| c in g.Children(nm) && Reaches(g, c, n, k - 1);
      OnTheWay(g, c, n, k - 1);
      SeenIsClosed(g, p, c, n, k - 1);
    }
  }

  lemma {:induction false} WalkInTurn(g: Catalog, p: Progress, a: seq<string>, b: seq<string>, depth: nat)
    ensures WalkAll(g, p, a + b, depth) == WalkAll(g, WalkAll(g, p, a, depth), b, depth)
    decreases |a|
  {
    hide WalkFrom;
    if a == [] {
      assert a + b == b;
    } else {
      assert (a + b)[1..] == a[1..] + b;
      WalkInTurn(g, WalkFrom(g, p, a[0], depth), a[1..], b, depth);
    }
  }

  // Packages are taken in the order in which they are asked for: asking for more only adds behind.
  lemma InTurn(g: Catalog, a: seq<string>, b: seq<string>)
    ensures InstallOrder(g, a) <= InstallOrder(g, a + b)
  {
    WalkInTurn(g, START, a, b, 0);
    WalkAllOrderly(g, START, a, 0);
    WalkAllOrderly(g, WalkAll(g, START, a, 0), b, 0);
  }

  // The first alternative of each group counts, in the order of the groups, unless it is covered already.
  lemma {:induction false} DepsInOrder(g: Catalog, groups: seq<seq<string>>, last: seq<string>)
    ensures g.DepsOf(groups + [last]) ==
      g.DepsOf(groups) + if last != [] && last[0] !in g.base && last[0] !in g.noise then [last[0]] else []
  {
    if groups == [] {
      assert groups + [last] == [last];
    } else {
      assert (groups + [last])[1..] == groups[1..] + [last];
      DepsInOrder(g, groups[1..], last);
    }
  }

  // Only packages to install lead to one.
  lemma OnTheWay(g: Catalog, nm: string, n: string, k: nat)
    requires Reaches(g, nm, n, k) && g.Listed(n)
    ensures g.Listed(nm)
  {
  }

  // Needed over a chain of at most k edges.
  predicate NeededWithin(g: Catalog, want: seq<string>, n: string, k: nat) {
    exists w :: w in want && Reaches(g, w, n, k)
  }

  // Whatever the graph looks like, only packages needed over at most twelve edges are listed, and
  // each of them once.
  lemma OrderIsNeeded(g: Catalog, want: seq<string>)
    ensures var order := InstallOrder(g, want);
      Distinct(order) && forall n :: n in order ==>
        n !in g.installed && n !in g.base && g.lookup(n).Some? && g.Listed(n) && NeededWithin(g, want, n, 12) && Needed(g, want, n)
  {
    WalkAllOrderly(g, START, want, 0);
    forall n | n in InstallOrder(g, want)
      ensures NeededWithin(g, want, n, 12) && Needed(g, want, n)
    {
      var w :| w in want && Reaches(g, w, n, MAX_DEPTH);
    }
  }

  // Exactly the packages needed, with every dependency before its dependents.
  ghost predicate CompleteAndFirst(g: Catalog, want: seq<string>) {
    (forall n :: n in InstallOrder(g, want) <==> g.Listed(n) && Needed(g, want, n))
    && PutsDependenciesFirst(g, InstallOrder(g, want))
  }

  /**
   If no chain of packages to install that starts at a wanted one has more than twelve edges, the
   order is complete with dependencies first; by `OrderIsNeeded` each package is listed once.
   */
  lemma OrderIsComplete(g: Catalog, want: seq<string>)
    requires forall w :: w in want ==> ListedWithin(g, w, MAX_DEPTH)
    ensures CompleteAndFirst(g, want)
  {
    OrderIsNeeded(g, want);
    WalkAllDepsFirst(g, START, want, 0, {}, MAX_DEPTH);
    var q := WalkAll(g, START, want, 0);
    forall n | g.Listed(n) && Needed(g, want, n)
      ensures n in q.todo
    {
      var w, k: nat :| w in want && Reaches(g, w, n, k);
      OnTheWay(g, w, n, k);
      SeenIsClosed(g, q, w, n, k);
    }
  }

  // When every name resolves to its own record, no record is listed twice.
  lemma RecordsOnce(g: Catalog, want: seq<string>, todo: seq<Record>)
    requires forall n, r :: g.lookup(n) == Some(r) ==> r.name == n
    requires |todo| == |InstallOrder(g, want)|
    requires forall i :: 0 <= i < |todo| ==> g.lookup(InstallOrder(g, want)[i]) == Some(todo[i])
    ensures forall i, j :: 0 <= i < j < |todo| ==> todo[i] != todo[j]
  {
    OrderIsNeeded(g, want);
  }

  /** The closure of `cmd_install`: `seen` and `todo` as the walk changes them. */
  class Installer {
    const g: Catalog
    var seen: set<string>
    var todo: seq<Record>
    ghost var names: seq<string>

    // `todo` holds the records of the listed names.
    ghost predicate Valid()
      reads this
    {
      |todo| == |names| && forall i :: 0 <= i < |todo| ==> g.lookup(names[i]) == Some(todo[i])
    }

    ghost function State(): Progress
      reads this
    {
      Progress(seen, names)
    }

    constructor (g: Catalog)
      ensures this.g == g && Valid() && State() == START
    {
      this.g, seen, todo, names := g, {}, [], [];
    }

    method Walk(nm: string, depth: nat)
      requires Valid() && depth <= 13
      modifies this
      ensures Valid() && State() == WalkFrom(g, old(State()), nm, depth)
      decreases 13 - depth
    {
      if nm in seen || nm in g.base || depth > MAX_DEPTH {
        return;
      }
      seen := seen + {nm};
      if nm in g.installed {
        return;
      }
      var rec := g.lookup(nm);
      if rec.None? {
        return;
      }
      ghost var p1, deps := State(), g.Children(nm);
      var ds := g.DepsOf(rec.value.depends);
      for i := 0 to |ds|
        invariant Valid()
        invariant WalkAll(g, State(), ds[i..], depth + 1) == WalkAll(g, p1, deps, depth + 1)
      {
        assert ds[i..][1..] == ds[i + 1..];
        Walk(ds[i], depth + 1);
      }
      todo, names := todo + [rec.value], names + [nm];
    }

    // The packages to install for the wanted names, in order.
    method Plan(want: seq<string>) returns (records: seq<Record>)
      requires Valid() && State() == START
      modifies this
      ensures |records| == |InstallOrder(g, want)|
      ensures forall i :: 0 <= i < |records| ==> g.lookup(InstallOrder(g, want)[i]) == Some(records[i])
    {
      for i := 0 to |want|
        invariant Valid()
        invariant WalkAll(g, State(), want[i..], 0) == WalkAll(g, START, want, 0)
      {
        assert want[i..][1..] == want[i + 1..];
        Walk(want[i], 0);
      }
      return todo;
    }
  }
}
