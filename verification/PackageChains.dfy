/**
 When the install order can be relied on (cockpit/server/pn_pkg.py, `cmd_install`): exactly when no
 chain of packages to install has more than twelve edges. The order in which a record lists its
 dependencies, and in which packages are asked for, is not to matter.
 */
module PackageChains {
  import opened Bytes
  import opened PackageWalk

  function MovedFront<T>(s: seq<T>, i: nat): (r: seq<T>)
    requires i < |s|
    ensures multiset(r) == multiset(s) && r != [] && r[0] == s[i]
  {
    assert s == s[..i] + [s[i]] + s[i + 1..];
    [s[i]] + s[..i] + s[i + 1..]
  }

  // The same records, with the dependencies of each in another order.
  ghost predicate Reordered(g: Catalog, h: Catalog) {
    g.installed == h.installed && g.base == h.base && g.noise == h.noise
    && forall nm :: SameDepends(g.lookup(nm), h.lookup(nm))
  }

  predicate SameDepends(a: Option<Record>, b: Option<Record>) {
    match (a, b)
    case (None, None) => true
    case (Some(r), Some(s)) => r.name == s.name && multiset(r.depends) == multiset(s.depends)
    case _ => false
  }

  lemma {:induction false} DepsOfExactly(g: Catalog, groups: seq<seq<string>>, d: string)
    ensures d in g.DepsOf(groups) <==>
      exists i :: 0 <= i < |groups| && groups[i] != [] && groups[i][0] == d && d !in g.base && d !in g.noise
  {
    if groups != [] {
      DepsOfExactly(g, groups[1..], d);
      assert forall i :: 0 < i < |groups| ==> groups[i] == groups[1..][i - 1];
      assert groups == [groups[0]] + groups[1..];
    }
  }

  lemma DepsMove(g: Catalog, a: seq<seq<string>>, b: seq<seq<string>>, c: string)
    requires multiset(a) == multiset(b) && c in g.DepsOf(a)
    ensures c in g.DepsOf(b)
  {
    DepsOfExactly(g, a, c);
    DepsOfExactly(g, b, c);
    var i :| 0 <= i < |a| && a[i] != [] && a[i][0] == c;
    assert a[i] in multiset(b);
  }

  lemma SameChildren(g: Catalog, h: Catalog, nm: string, c: string)
    requires Reordered(g, h)
    ensures g.Listed(nm) <==> h.Listed(nm)
    ensures c in g.Children(nm) <==> c in h.Children(nm)
  {
    assert SameDepends(g.lookup(nm), h.lookup(nm));
    if g.Listed(nm) {
      var a, b := g.lookup(nm).value.depends, h.lookup(nm).value.depends;
      if c in g.DepsOf(a) {
        DepsMove(g, a, b, c);
      }
      if c in g.DepsOf(b) {
        DepsMove(g, b, a, c);
      }
      SameDeps(g, h, b);
    }
  }

  lemma {:induction false} SameBound(g: Catalog, h: Catalog, nm: string, k: nat)
    requires Reordered(g, h) && ListedWithin(g, nm, k)
    ensures ListedWithin(h, nm, k)
    decreases k
  {
    forall c | c in h.Children(nm) && h.Listed(c)
      ensures k > 0 && ListedWithin(h, c, k - 1)
    {
      SameChildren(g, h, nm, c);
      SameChildren(g, h, c, c);
      SameBound(g, h, c, k - 1);
    }
  }

  /* Chains */

  // Packages to install, each needed by the one before it.
  ghost predicate IsChain(g: Catalog, chain: seq<string>) {
    (forall i :: 0 <= i < |chain| ==> g.Listed(chain[i]))
    && forall i :: 0 <= i < |chain| - 1 ==> chain[i + 1] in g.Children(chain[i])
  }

  lemma OneIsChain(g: Catalog, nm: string)
    requires g.Listed(nm)
    ensures IsChain(g, [nm])
  {
  }

  lemma LongerChain(g: Catalog, nm: string, rest: seq<string>)
    requires IsChain(g, rest) && rest != [] && rest[0] in g.Children(nm) && g.Listed(nm)
    ensures IsChain(g, [nm] + rest)
  {
  }

  lemma PastBound(g: Catalog, nm: string, k: nat) returns (c: string)
    requires !ListedWithin(g, nm, k)
    ensures c in g.Children(nm) && g.Listed(c) && g.Listed(nm)
    ensures k > 0 ==> !ListedWithin(g, c, k - 1)
  {
    c :| c in g.Children(nm) && g.Listed(c) && !(k > 0 && ListedWithin(g, c, k - 1));
  }

  // Where chains are longer than k edges, there is one of k + 1.
  lemma {:induction false} LongChain(g: Catalog, nm: string, k: nat) returns (chain: seq<string>)
    requires !ListedWithin(g, nm, k)
    ensures |chain| == k + 2 && chain[0] == nm && IsChain(g, chain)
    decreases k
  {
    hide ListedWithin, IsChain;
    var c := PastBound(g, nm, k);
    var rest := [c];
    if k == 0 {
      OneIsChain(g, c);
    } else {
      rest := LongChain(g, c, k - 1);
    }
    LongerChain(g, nm, rest);
    chain := [nm] + rest;
  }

  function Place(order: seq<string>, nm: string): (i: nat)
    requires nm in order
    ensures i < |order| && order[i] == nm
    ensures nm !in order[..i]
  {
    if order[0] == nm then 0 else 1 + Place(order[1..], nm)
  }

  // In an order with dependencies first, places fall along a chain.
  lemma {:induction false} PlacesFall(g: Catalog, order: seq<string>, chain: seq<string>, i: nat, j: nat)
    requires PutsDependenciesFirst(g, order) && IsChain(g, chain) && i < j < |chain| && chain[i] in order
    ensures chain[j] in order && Place(order, chain[j]) < Place(order, chain[i])
    decreases j
  {
    if i < j - 1 {
      PlacesFall(g, order, chain, i, j - 1);
    }
    var p := Place(order, chain[j - 1]);
    assert chain[j] in order[..p];
    EarlyPlace(order, chain[j], p);
  }

  lemma {:induction false} EarlyPlace(order: seq<string>, nm: string, p: nat)
    requires p <= |order| && nm in order[..p]
    ensures nm in order && Place(order, nm) < p
  {
    if order[0] != nm {
      assert order[..p][1..] == order[1..][..p - 1];
      EarlyPlace(order[1..], nm, p - 1);
    }
  }

  // A cycle of any length: no order that lists one of its packages puts dependencies first.
  lemma CycleBreaksOrder(g: Catalog, order: seq<string>, cycle: seq<string>)
    requires IsChain(g, cycle) && |cycle| >= 2 && cycle[0] == cycle[|cycle| - 1] && cycle[0] in order
    ensures !PutsDependenciesFirst(g, order)
  {
    if PutsDependenciesFirst(g, order) {
      PlacesFall(g, order, cycle, 0, |cycle| - 1);
    }
  }

  lemma ChainIsDistinct(g: Catalog, order: seq<string>, chain: seq<string>)
    requires PutsDependenciesFirst(g, order) && IsChain(g, chain) && chain != [] && chain[0] in order
    ensures Distinct(chain)
  {
    forall i, j | 0 <= i < j < |chain|
      ensures chain[i] != chain[j]
    {
      if i > 0 {
        PlacesFall(g, order, chain, 0, i);
      }
      PlacesFall(g, order, chain, i, j);
    }
  }

  /* Walking down a chain first */

  // The first group whose first alternative is c.
  function GroupOf(groups: seq<seq<string>>, c: string): (i: nat)
    ensures i <= |groups| && (i < |groups| ==> groups[i] != [] && groups[i][0] == c)
  {
    if groups == [] || (groups[0] != [] && groups[0][0] == c) then 0 else 1 + GroupOf(groups[1..], c)
  }

  function WithFirst(groups: seq<seq<string>>, c: string): (r: seq<seq<string>>)
    ensures multiset(r) == multiset(groups)
  {
    if GroupOf(groups, c) < |groups| then MovedFront(groups, GroupOf(groups, c)) else groups
  }

  // What stands behind a name in a chain.
  function NextIn(chain: seq<string>, nm: string): Option<string> {
    if |chain| < 2 then None else if chain[0] == nm then Some(chain[1]) else NextIn(chain[1..], nm)
  }

  function FirstRecord(r: Option<Record>, c: Option<string>): Option<Record> {
    if r.Some? && c.Some? then Some(Record(r.value.name, WithFirst(r.value.depends, c.value))) else r
  }

  // Every package of the chain names the next one first.
  function Along(g: Catalog, chain: seq<string>): Catalog {
    g.(lookup := nm => FirstRecord(g.lookup(nm), NextIn(chain, nm)))
  }

  lemma AlongReorders(g: Catalog, chain: seq<string>)
    ensures Reordered(g, Along(g, chain))
  {
  }

  lemma {:induction false} NextInChain(chain: seq<string>, i: nat)
    requires Distinct(chain) && i < |chain| - 1
    ensures NextIn(chain, chain[i]) == Some(chain[i + 1])
  {
    if i > 0 {
      assert Distinct(chain[1..]);
      NextInChain(chain[1..], i - 1);
    }
  }

  lemma {:induction false} GroupFound(g: Catalog, groups: seq<seq<string>>, c: string)
    requires c in g.DepsOf(groups)
    ensures GroupOf(groups, c) < |groups|
  {
    if !(groups[0] != [] && groups[0][0] == c) {
      GroupFound(g, groups[1..], c);
    }
  }

  lemma NextComesFirst(g: Catalog, chain: seq<string>, i: nat)
    requires IsChain(g, chain) && Distinct(chain) && i < |chain| - 1
    ensures var h := Along(g, chain); h.Listed(chain[i]) && h.Children(chain[i]) != [] && h.Children(chain[i])[0] == chain[i + 1]
  {
    hide Distinct, GroupOf;
    var r, c := g.lookup(chain[i]).value, chain[i + 1];
    NextInChain(chain, i);
    GroupFound(g, r.depends, c);
    DepsOfExactly(g, r.depends, c);
    var groups := WithFirst(r.depends, c);
    assert g.DepsOf(groups)[0] == c;
    SameDeps(g, Along(g, chain), groups);
  }

  lemma {:induction false} SameDeps(g: Catalog, h: Catalog, groups: seq<seq<string>>)
    requires g.base == h.base && g.noise == h.noise
    ensures g.DepsOf(groups) == h.DepsOf(groups)
  {
    if groups != [] {
      SameDeps(g, h, groups[1..]);
    }
  }

  // What is listed stays in its place as the walk goes on.
  lemma {:induction false} TodoGrows(g: Catalog, p: Progress, nm: string, depth: nat)
    ensures p.todo <= WalkFrom(g, p, nm, depth).todo
    decreases 13 - depth, 0
  {
    if !(nm in p.seen || nm in g.base || depth > MAX_DEPTH) && g.Listed(nm) {
      TodoGrowsAll(g, p.(seen := p.seen + {nm}), g.Children(nm), depth + 1);
    }
  }

  lemma {:induction false} TodoGrowsAll(g: Catalog, p: Progress, names: seq<string>, depth: nat)
    ensures p.todo <= WalkAll(g, p, names, depth).todo
    decreases 13 - depth, 1, |names|
  {
    if names != [] {
      TodoGrows(g, p, names[0], depth);
      TodoGrowsAll(g, WalkFrom(g, p, names[0], depth), names[1..], depth);
    }
  }

  lemma {:induction false} NothingBelow(g: Catalog, p: Progress, names: seq<string>)
    ensures WalkAll(g, p, names, MAX_DEPTH + 1) == p
  {
    if names != [] {
      NothingBelow(g, p, names[1..]);
    }
  }

  // Going down the chain, the walk lists the package at depth twelve before any other.
  lemma {:induction false} DeepestFirst(g: Catalog, chain: seq<string>, p: Progress, i: nat)
    requires IsChain(g, chain) && Distinct(chain) && |chain| == 14 && i <= MAX_DEPTH
    requires p.todo == [] && forall j :: i <= j < 14 ==> chain[j] !in p.seen
    ensures [chain[12]] <= WalkFrom(Along(g, chain), p, chain[i], i).todo
    decreases 14 - i
  {
    var h := Along(g, chain);
    NextComesFirst(g, chain, i);
    hide Distinct, Along, IsChain;
    var p1 := p.(seen := p.seen + {chain[i]});
    var deps := h.Children(chain[i]);
    if i == MAX_DEPTH {
      NothingBelow(h, p1, deps);
    } else {
      Apart(chain, i);
      DeepestFirst(g, chain, p1, i + 1);
      TodoGrowsAll(h, WalkFrom(h, p1, deps[0], i + 1), deps[1..], i + 1);
    }
  }

  lemma Apart(chain: seq<string>, i: nat)
    requires Distinct(chain) && i < |chain|
    ensures forall j :: i < j < |chain| ==> chain[j] != chain[i]
  {
  }

  /* The exact condition */

  // Asked for first, and walked down first, a chain of thirteen edges loses its last package.
  lemma LongChainBreaks(g: Catalog, want: seq<string>, chain: seq<string>) returns (h: Catalog, v: seq<string>)
    requires IsChain(g, chain) && Distinct(chain) && |chain| == 14 && chain[0] in want
    ensures Reordered(g, h) && multiset(v) == multiset(want) && !CompleteAndFirst(h, v)
  {
    hide IsChain, Distinct, Along;
    h := Along(g, chain);
    AlongReorders(g, chain);
    var i :| 0 <= i < |want| && want[i] == chain[0];
    v := MovedFront(want, i);
    DeepestFirst(g, chain, START, 0);
    TodoGrowsAll(h, WalkFrom(h, START, v[0], 0), v[1..], 0);
    var order := InstallOrder(h, v);
    assert [chain[12]] <= order;
    LastIsNeeded(g, chain);
    assert order[..0] == [];
  }

  lemma LastIsNeeded(g: Catalog, chain: seq<string>)
    requires IsChain(g, chain) && Distinct(chain) && |chain| == 14
    ensures var h := Along(g, chain); chain[13] in h.Children(chain[12]) && h.Listed(chain[13])
  {
    hide Distinct, Along;
    AlongReorders(g, chain);
    SameChildren(g, Along(g, chain), chain[12], chain[13]);
    SameChildren(g, Along(g, chain), chain[13], chain[13]);
  }

  /**
   The order is complete with dependencies first, whatever order dependencies and wanted packages come
   in, if and only if no chain of packages to install that starts at a wanted one has more than
   twelve edges.
   */
  lemma CompleteExactly(g: Catalog, want: seq<string>)
    ensures (forall w :: w in want ==> ListedWithin(g, w, MAX_DEPTH)) <==>
      forall h, v :: Reordered(g, h) && multiset(v) == multiset(want) ==> CompleteAndFirst(h, v)
  {
    hide Reordered, CompleteAndFirst, ListedWithin, IsChain, Distinct;
    if forall w :: w in want ==> ListedWithin(g, w, MAX_DEPTH) {
      forall h, v | Reordered(g, h) && multiset(v) == multiset(want)
        ensures CompleteAndFirst(h, v)
      {
        forall w | w in v
          ensures ListedWithin(h, w, MAX_DEPTH)
        {
          assert w in multiset(v);
          SameBound(g, h, w, MAX_DEPTH);
        }
        OrderIsComplete(h, v);
      }
    } else {
      var w :| w in want && !ListedWithin(g, w, MAX_DEPTH);
      var chain := LongChain(g, w, MAX_DEPTH);
      if CompleteAndFirst(g, want) {
        ListedIfComplete(g, want, chain);
        var h, v := LongChainBreaks(g, want, chain);
      } else {
        ReorderedItself(g);
      }
    }
  }

  lemma ReorderedItself(g: Catalog)
    ensures Reordered(g, g)
  {
  }

  lemma ListedIfComplete(g: Catalog, want: seq<string>, chain: seq<string>)
    requires CompleteAndFirst(g, want) && IsChain(g, chain) && chain != [] && chain[0] in want
    ensures Distinct(chain)
  {
    assert Reaches(g, chain[0], chain[0], 0);
    ChainIsDistinct(g, InstallOrder(g, want), chain);
  }

  /* Thirteen edges are too many */

  function Letters(n: nat): string {
    if n == 0 then "" else Letters(n - 1) + "a"
  }

  lemma {:induction false} LettersLength(n: nat)
    ensures |Letters(n)| == n
  {
    if n > 0 {
      LettersLength(n - 1);
    }
  }

  // Every package needs the one whose name is a letter longer.
  ghost predicate IsLadder(g: Catalog) {
    forall nm :: g.Listed(nm) && g.Children(nm) == [nm + "a"]
  }

  lemma {:induction false} LadderReaches(g: Catalog, i: nat, j: nat)
    requires IsLadder(g) && i <= j
    ensures Reaches(g, Letters(i), Letters(j), j - i)
    decreases j - i
  {
    if i < j {
      LadderReaches(g, i + 1, j);
      assert Letters(i) + "a" in g.Children(Letters(i));
    }
  }

  lemma {:induction false} LadderIsSlow(g: Catalog, nm: string, n: string, k: nat)
    requires IsLadder(g) && Reaches(g, nm, n, k)
    ensures |n| <= |nm| + k
    decreases k
  {
    if n != nm {
      var c :| c in g.Children(nm) && Reaches(g, c, n, k - 1);
      LadderIsSlow(g, c, n, k - 1);
    }
  }

  lemma LadderFacts(g: Catalog, nm: string)
    requires IsLadder(g)
    ensures g.Listed(nm)
  {
  }

  lemma NoLetters()
    ensures Letters(0) == ""
  {
  }

  // On a ladder the package thirteen edges away is needed and is not listed.
  lemma ThirteenEdgesDrop(g: Catalog)
    requires IsLadder(g)
    ensures Needed(g, [""], Letters(13)) && g.Listed(Letters(13)) && Letters(13) !in InstallOrder(g, [""])
  {
    hide InstallOrder, Letters, Reaches, IsLadder;
    LadderFacts(g, Letters(13));
    LadderReaches(g, 0, 13);
    NoLetters();
    assert Letters(0) == "" && "" in [""];
    OrderIsNeeded(g, [""]);
    LettersLength(13);
    if Letters(13) in InstallOrder(g, [""]) {
      var w :| w in [""] && Reaches(g, w, Letters(13), MAX_DEPTH);
      LadderIsSlow(g, w, Letters(13), MAX_DEPTH);
      assert false;
    }
  }

  lemma LadderExists()
    ensures IsLadder(Catalog(nm => Some(Record(nm, [[nm + "a"]])), {}, {}, {}))
  {
    var g := Catalog(nm => Some(Record(nm, [[nm + "a"]])), {}, {}, {});
    forall nm
      ensures g.Listed(nm) && g.Children(nm) == [nm + "a"]
    {
      assert g.DepsOf([[nm + "a"]]) == [nm + "a"];
    }
  }
}
