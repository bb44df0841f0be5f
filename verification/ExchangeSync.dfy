/**
 Two-way file exchange (cockpit/server/cell_exchange_sync.py): one pass pulls every remote file that
 is missing here or newer by more than EPS, then pushes every local file that the index taken before
 the pulls does not know or knows as older by more than EPS.
 */
module ExchangeSync {
  import opened Bytes

  type Path = seq<string>

  // Seconds since 1970; a time of zero is what the code takes for a missing one.
  type Time = t: real | t >= 1.0 witness 1.0

  datatype File = File(content: seq<Byte>, mtime: Time)

  // A directory tree by its files; directories are the proper prefixes of the paths.
  type Files = map<Path, File>

  // What the remote listing says about a file: its size and its time in whole seconds.
  datatype Meta = Meta(size: nat, mtime: nat)

  const CHUNK := 128 * 1024
  const MAXF := 2 * 1024 * 1024 * 1024
  const EPS := 2

  predicate StartsWith(s: string, t: string) {
    t <= s
  }

  predicate EndsWith(s: string, t: string) {
    |t| <= |s| && s[|s| - |t|..] == t
  }

  predicate Skip(name: string) {
    StartsWith(name, ".") || EndsWith(name, ".pnpart") || EndsWith(name, ".pnup") || EndsWith(name, ".cellfs.tmp")
  }

  // No component from position n on is skipped.
  predicate Unskipped(p: Path, n: nat) {
    forall i :: n <= i < |p| ==> !Skip(p[i])
  }

  // No file sits where another file needs a directory.
  ghost predicate IsTree(fs: Files) {
    [] !in fs && forall p, q :: p in fs && q in fs && p <= q ==> p == q
  }

  // Writing p would need a directory where fs has a file, or a file where it has a directory.
  predicate Clashes(fs: Files, p: Path) {
    exists q :: q in fs && q != p && (q <= p || p <= q)
  }

  function MetaOf(f: File): Meta {
    Meta(|f.content|, f.mtime.Floor)
  }

  // What `walk_remote` lists below a directory: five components at most.
  function Index(fs: Files, dir: Path): map<Path, Meta> {
    map p | p in fs && dir < p && |p| <= 5 && Unskipped(p, |dir|) :: MetaOf(fs[p])
  }

  // ----- Decisions -----

  predicate Pulls(local: Files, p: Path, m: Meta) {
    m.size <= MAXF && (p in local ==> local[p].mtime < (m.mtime - EPS) as real)
  }

  predicate Pushes(index: map<Path, Meta>, p: Path, f: File) {
    |f.content| <= MAXF && (p in index ==> index[p].mtime < f.mtime.Floor - EPS)
  }

  // The transfers that raise: those that clash, and whatever else fails (`broken`).
  function Pulled(remote: Files, local: Files, broken: set<Path>): set<Path> {
    set p | p in Index(remote, []) && Pulls(local, p, MetaOf(remote[p])) && !Clashes(local, p) && p !in broken
  }

  function Pushed(remote: Files, local: Files, index: map<Path, Meta>, broken: set<Path>): set<Path> {
    set p | p in local && Unskipped(p, 0) && Pushes(index, p, local[p]) && !Clashes(remote, p) && p !in broken
  }

  // The content of f, and its time in whole seconds.
  predicate CarriedFrom(copy: File, f: File) {
    copy.content == f.content && copy.mtime == f.mtime.Floor as real
  }

  // A copy carries the time of its source in whole seconds.
  function Copy(f: File): File {
    File(f.content, f.mtime.Floor as real)
  }

  // The files of `to`, those in `moved` replaced by copies from `from`.
  function Received(to: Files, from: Files, moved: set<Path>): Files
    requires moved <= from.Keys
  {
    map p | p in to.Keys + moved :: if p in moved then Copy(from[p]) else to[p]
  }

  function LocalAfter(remote: Files, local: Files, broken: set<Path>): Files {
    Received(local, remote, Pulled(remote, local, broken))
  }

  function PushedAfter(remote: Files, local: Files, brokenPulls: set<Path>, brokenPushes: set<Path>): set<Path> {
    Pushed(remote, LocalAfter(remote, local, brokenPulls), Index(remote, []), brokenPushes)
  }

  function RemoteAfter(remote: Files, local: Files, brokenPulls: set<Path>, brokenPushes: set<Path>): Files {
    Received(remote, LocalAfter(remote, local, brokenPulls), PushedAfter(remote, local, brokenPulls, brokenPushes))
  }

  // ----- One pass -----

  lemma ReceivedOneMore(to: Files, from: Files, moved: set<Path>, p: Path)
    requires moved <= from.Keys && p in from
    ensures Received(to, from, moved + {p}) == Received(to, from, moved)[p := Copy(from[p])]
  {
  }

  lemma NothingMoved(to: Files, from: Files)
    ensures Received(to, from, {}) == to
  {
  }

  lemma PulledListed(remote: Files, local: Files, broken: set<Path>)
    ensures Pulled(remote, local, broken) <= Index(remote, []).Keys <= remote.Keys
    ensures LocalAfter(remote, local, broken) == Received(local, remote, Pulled(remote, local, broken))
    ensures forall p :: p in Index(remote, []) ==> Index(remote, [])[p] == MetaOf(remote[p])
  {
  }

  lemma PushedWalked(remote: Files, local: Files, index: map<Path, Meta>, broken: set<Path>)
    ensures forall p :: p in Pushed(remote, local, index, broken) ==> p in local && Unskipped(p, 0)
  {
  }

  // Files of one tree do not get into each other's way.
  lemma SameClashes(to: Files, from: Files, moved: set<Path>, p: Path)
    requires moved <= from.Keys && IsTree(from) && p in from
    ensures Clashes(Received(to, from, moved), p) <==> Clashes(to, p)
  {
    var fs := Received(to, from, moved);
    if Clashes(to, p) {
      var q :| q in to && q != p && (q <= p || p <= q);
      assert q in fs;
    }
    if Clashes(fs, p) {
      var q :| q in fs && q != p && (q <= p || p <= q);
      assert q in to;
    }
  }

  class Exchange {
    var remote: Files
    var local: Files

    constructor (remote: Files, local: Files)
      ensures this.remote == remote && this.local == local
    {
      this.remote, this.local := remote, local;
    }

    // `walk_remote`: the listing of a directory names the next component of every path below it.
    method WalkRemote(dir: Path) returns (out: map<Path, Meta>)
      requires IsTree(remote)
      ensures out == Index(remote, dir)
      decreases 6 - |dir|
    {
      hide Index, Skip, MetaOf, IsTree;
      IndexWithin(remote, dir);
      out := map[];
      if |dir| > 4 {
        return;
      }
      var names := set p | p in remote && dir < p :: p[|dir|];
      ghost var all := names;
      while names != {}
        invariant names <= all
        invariant forall p :: p in out <==> p in Index(remote, dir) && p[|dir|] !in names
        invariant forall p :: p in out ==> out[p] == Index(remote, dir)[p]
        decreases |names|
      {
        var n :| n in names;
        EntriesOf(remote, dir, n);
        names := names - {n};
        if !Skip(n) {
          var entry := dir + [n];
          if entry in remote {
            out := out[entry := MetaOf(remote[entry])];
          } else {
            var below := WalkRemote(entry);
            out := out + below;
          }
        }
      }
    }

    // The copy loop of `pull`: windows of the size that the index names.
    method Fetch(content: seq<Byte>, size: nat) returns (part: seq<Byte>)
      ensures size == |content| ==> part == content
    {
      part := [];
      var off := 0;
      while off < size
        invariant off == |part| && part <= content
        invariant off <= size || off <= |content|
        decreases size - off
      {
        var want := if CHUNK < size - off then CHUNK else size - off;
        var b := content[off..if off + want < |content| then off + want else |content|];
        if b == [] {
          break;
        }
        part := part + b;
        off := off + |b|;
      }
    }

    // The copy loop of `push`: the first window replaces the upload, the others are appended.
    method Upload(content: seq<Byte>) returns (up: seq<Byte>)
      ensures up == content
    {
      up := [];
      var pos, first := 0, true;
      while true
        invariant pos <= |content| && up == content[..pos]
        invariant first ==> pos == 0
        decreases |content| - pos, first
      {
        var b := content[pos..if pos + CHUNK < |content| then pos + CHUNK else |content|];
        if b == [] && !first {
          break;
        }
        up := if first then b else up + b;
        pos := pos + |b|;
        first := false;
        if |b| < CHUNK {
          break;
        }
      }
    }

    // `pull`; false also stands for a transfer that raised.
    method Pull(p: Path, m: Meta, broken: set<Path>) returns (moved: bool)
      requires p in remote && m == MetaOf(remote[p])
      modifies this`local
      ensures moved <==>
        |remote[p].content| <= 2 * 1024 * 1024 * 1024 && !Clashes(old(local), p) && p !in broken
        && (p in old(local) ==> old(local)[p].mtime < (remote[p].mtime.Floor - 2) as real)
      ensures moved ==> p in local && local == old(local)[p := local[p]] && CarriedFrom(local[p], remote[p])
      ensures !moved ==> local == old(local)
    {
      if m.size > MAXF {
        return false;
      }
      if p in local && local[p].mtime >= (m.mtime - EPS) as real {
        return false;
      }
      if Clashes(local, p) || p in broken {
        return false;
      }
      var part := Fetch(remote[p].content, m.size);
      local := local[p := File(part, m.mtime as real)];
      return true;
    }

    // `push`
    method Push(p: Path, index: map<Path, Meta>, broken: set<Path>) returns (moved: bool)
      requires p in local
      modifies this`remote
      ensures moved <==>
        |local[p].content| <= 2 * 1024 * 1024 * 1024 && !Clashes(old(remote), p) && p !in broken
        && (p in index ==> index[p].mtime < local[p].mtime.Floor - 2)
      ensures moved ==> p in remote && remote == old(remote)[p := remote[p]] && CarriedFrom(remote[p], local[p])
      ensures !moved ==> remote == old(remote)
    {
      var f := local[p];
      if |f.content| > MAXF {
        return false;
      }
      if p in index && index[p].mtime >= f.mtime.Floor - EPS {
        return false;
      }
      if Clashes(remote, p) || p in broken {
        return false;
      }
      var up := Upload(f.content);
      remote := remote[p := File(up, f.mtime.Floor as real)];
      return true;
    }

    // `once`: the number of files transferred, and both sides afterwards.
    method Once(brokenPulls: set<Path>, brokenPushes: set<Path>) returns (n: nat)
      requires IsTree(remote) && IsTree(local)
      modifies this
      ensures IsTree(remote) && IsTree(local)
      ensures local == LocalAfter(old(remote), old(local), brokenPulls)
      ensures remote == RemoteAfter(old(remote), old(local), brokenPulls, brokenPushes)
      ensures n == |Pulled(old(remote), old(local), brokenPulls)|
        + |PushedAfter(old(remote), old(local), brokenPulls, brokenPushes)|
    {
      var index := WalkRemote([]);
      n := PullAll(index, brokenPulls);
      LocalStaysTree(old(remote), old(local), brokenPulls);
      RemoteStaysTree(remote, local, index, brokenPushes);
      var k := PushAll(index, brokenPushes);
      n := n + k;
    }

    method PullAll(index: map<Path, Meta>, broken: set<Path>) returns (n: nat)
      requires IsTree(remote) && index == Index(remote, [])
      modifies this`local
      ensures local == LocalAfter(remote, old(local), broken)
      ensures n == |Pulled(remote, old(local), broken)|
    {
      hide Pulls, Pulled, Clashes, Index, Received, Copy, CarriedFrom, IsTree, MetaOf;
      n := 0;
      var todo := index.Keys;
      NothingMoved(old(local), remote);
      PulledListed(remote, local, broken);
      ghost var moved: set<Path> := {};
      while todo != {}
        invariant todo <= index.Keys && n == |moved| && moved <= remote.Keys
        invariant forall p :: p in moved <==> p in Pulled(remote, old(local), broken) && p !in todo
        invariant local == Received(old(local), remote, moved)
        decreases |todo|
      {
        var p :| p in todo;
        todo := todo - {p};
        PulledExactly(remote, old(local), broken, moved, p);
        SameClashes(old(local), remote, moved, p);
        ReceivedOneMore(old(local), remote, moved, p);
        var m := Pull(p, index[p], broken);
        if m {
          CopyExactly(local[p], remote[p]);
          n := n + 1;
          moved := moved + {p};
        }
      }
      assert moved == Pulled(remote, old(local), broken);
    }

    // The paths are those that `walk_local` finds: any depth, but no skipped component.
    method PushAll(index: map<Path, Meta>, broken: set<Path>) returns (n: nat)
      requires IsTree(local)
      modifies this`remote
      ensures remote == Received(old(remote), local, Pushed(old(remote), local, index, broken))
      ensures n == |Pushed(old(remote), local, index, broken)|
    {
      hide Pushes, Pushed, Clashes, Received, Copy, CarriedFrom, IsTree, Unskipped;
      n := 0;
      var todo := set p | p in local && Unskipped(p, 0);
      NothingMoved(old(remote), local);
      PushedWalked(remote, local, index, broken);
      ghost var all, before := Pushed(remote, local, index, broken), remote;
      ghost var moved: set<Path> := {};
      while todo != {}
        invariant todo <= local.Keys && n == |moved|
        invariant forall p :: p in todo ==> Unskipped(p, 0)
        invariant forall p :: p in moved <==> p in all && p !in todo
        invariant moved <= local.Keys && remote == Received(before, local, moved)
        decreases |todo|
      {
        var p :| p in todo;
        todo := todo - {p};
        PushedExactly(before, local, index, broken, p);
        SameClashes(before, local, moved, p);
        ReceivedOneMore(before, local, moved, p);
        var m := Push(p, index, broken);
        if m {
          CopyExactly(remote[p], local[p]);
          n := n + 1;
          moved := moved + {p};
        }
      }
      assert moved == all;
    }
  }

  lemma IndexWithin(fs: Files, dir: Path)
    ensures |dir| > 4 ==> Index(fs, dir) == map[]
    ensures forall p :: p in Index(fs, dir) ==> p in fs && dir < p
  {
  }

  // What the listing holds below the entry n of a directory.
  lemma EntriesOf(fs: Files, dir: Path, n: string)
    requires IsTree(fs) && |dir| <= 4
    ensures forall p :: p in Index(fs, dir) ==> |dir| < |p|
    ensures Skip(n) ==> forall p :: p in Index(fs, dir) ==> p[|dir|] != n
    ensures !Skip(n) && dir + [n] in fs ==>
      forall p :: p in Index(fs, dir) && p[|dir|] == n <==> p == dir + [n]
    ensures !Skip(n) && dir + [n] in fs ==> Index(fs, dir)[dir + [n]] == MetaOf(fs[dir + [n]])
    ensures !Skip(n) && dir + [n] !in fs ==>
      forall p :: p in Index(fs, dir) && p[|dir|] == n <==> p in Index(fs, dir + [n])
    ensures !Skip(n) && dir + [n] !in fs ==>
      forall p :: p in Index(fs, dir + [n]) ==> Index(fs, dir + [n])[p] == Index(fs, dir)[p]
  {
    hide Skip;
    forall p | p in fs && dir < p && p[|dir|] == n
      ensures dir + [n] <= p && (p == dir + [n] || dir + [n] < p)
      ensures !Skip(n) ==> (Unskipped(p, |dir|) <==> Unskipped(p, |dir| + 1))
    {
      assert p[..|dir| + 1] == dir + [n];
    }
  }

  // A path the index lists is pulled exactly if the file here, as it was or as earlier pulls left it, allows it.
  lemma PulledExactly(remote: Files, local: Files, broken: set<Path>, moved: set<Path>, p: Path)
    requires p in Index(remote, []) && moved <= remote.Keys && p !in moved
    ensures Index(remote, [])[p] == MetaOf(remote[p])
    ensures var now := Received(local, remote, moved);
      p in Pulled(remote, local, broken) <==>
        |remote[p].content| <= 2 * 1024 * 1024 * 1024 && !Clashes(local, p) && p !in broken
        && (p in now ==> now[p].mtime < (remote[p].mtime.Floor - 2) as real)
  {
  }

  lemma PushedExactly(remote: Files, local: Files, index: map<Path, Meta>, broken: set<Path>, p: Path)
    requires p in local && Unskipped(p, 0)
    ensures p in Pushed(remote, local, index, broken) <==>
      |local[p].content| <= 2 * 1024 * 1024 * 1024 && !Clashes(remote, p) && p !in broken
      && (p in index ==> index[p].mtime < local[p].mtime.Floor - 2)
  {
  }

  lemma CopyExactly(f: File, g: File)
    ensures CarriedFrom(f, g) <==> f == Copy(g)
  {
  }

  // Pulling keeps the local side a tree.
  lemma LocalStaysTree(remote: Files, local: Files, broken: set<Path>)
    requires IsTree(remote) && IsTree(local)
    ensures IsTree(LocalAfter(remote, local, broken))
  {
  }

  lemma RemoteStaysTree(remote: Files, local: Files, index: map<Path, Meta>, broken: set<Path>)
    requires IsTree(remote) && IsTree(local)
    ensures IsTree(Received(remote, local, Pushed(remote, local, index, broken)))
  {
    hide Unskipped, Pushes, Copy;
  }
}
