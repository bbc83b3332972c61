/**
 * What the paths of a walked volume lead to: the entry stored under a path is the last of that name
 * in the directory the path names, so each file is found at its own path when names are unique.
 */
module Lookup {
  import opened Bytes
  import opened BigDir
  import opened Walk
  import opened Calibration

  /** No name in a reachable directory holds the separator of paths. */
  ghost predicate NamesPlain(dirs: seq<Dir>, root: Dir) {
    forall f, e :: OnTrail(dirs, root, f) && e in f.d.ents ==> DOT !in e.name
  }

  /** No reachable directory holds two directories of one name. */
  ghost predicate SubdirsUnique(dirs: seq<Dir>, root: Dir) {
    forall f, d, e ::
      OnTrail(dirs, root, f) && d in f.d.ents && e in f.d.ents && d.isdir && e.isdir && d.name == e.name ==> d == e
  }

  /** The root is called $, and holds no directory called that. */
  ghost predicate RootOutside(root: Dir) {
    root.name == ROOT && forall e :: e in root.ents && e.isdir ==> e.name != ROOT
  }

  /** Names are enough to tell directories apart, wherever in the tree they are. */
  ghost predicate Tidy(dirs: seq<Dir>, root: Dir) {
    && root in dirs && NamesUnique(dirs) && BlocksUnique(dirs)
    && NamesPlain(dirs, root) && SubdirsUnique(dirs, root) && RootOutside(root)
  }

  // ---- of blocks with one name and parent the first is taken ----

  /** The i-th block is one for that name in the directory at addr, and no earlier one is. */
  ghost predicate FirstFor(dirs: seq<Dir>, addr: Word, name: Name, i: nat) {
    && i < |dirs| && dirs[i].parent == addr && dirs[i].name == name
    && forall j :: 0 <= j < i ==> !(dirs[j].parent == addr && dirs[j].name == name)
  }

  lemma FirstNamedSnoc(cs: seq<Dir>, c: Dir, name: Name)
    ensures FirstNamed(cs + [c], name)
         == if FirstNamed(cs, name).Some? then FirstNamed(cs, name) else if c.name == name then Some(c) else None
  {
    assert (cs + [c])[..|cs|] == cs;
  }

  /** The block taken is the first of those with that parent and name. */
  lemma {:induction false} KidIsFirst(dirs: seq<Dir>, addr: Word, name: Name, i: nat)
    requires FirstFor(dirs, addr, name, i)
    ensures Kid(dirs, addr, name) == Some(dirs[i])
  {
    var n := |dirs| - 1;
    var before := Children(dirs[..n], addr);
    assert before + [] == before;
    if dirs[n].parent == addr {
      FirstNamedSnoc(before, dirs[n], name);
    }
    if i < n {
      KidIsFirst(dirs[..n], addr, name, i);
    } else {
      KidMeans(dirs[..n], addr, name);
    }
  }

  // ---- a path names one directory ----

  lemma LastDot(p: Name, n: Name)
    requires DOT !in n
    ensures var s := Join(p, n); s[|p|] == DOT && forall i :: |p| < i < |s| ==> s[i] != DOT
  {
    assert forall i :: |p| < i < |Join(p, n)| ==> Join(p, n)[i] == n[i - |p| - 1];
  }

  lemma JoinInjective(p: Name, n: Name, q: Name, o: Name)
    requires DOT !in n && DOT !in o && Join(p, n) == Join(q, o)
    ensures p == q && n == o
  {
    var s, t := Join(p, n), Join(q, o);
    LastDot(p, n);
    LastDot(q, o);
    assert |p| == |q|;
    assert s[..|p|] == p && t[..|q|] == q && s[|p| + 1..] == n && t[|q| + 1..] == o;
  }

  lemma StepBelow(dirs: seq<Dir>, root: Dir, t: Trail) returns (f: Frame)
    requires root in dirs && t != [] && IsTrail(dirs, root, t)
    ensures EndsAt(dirs, root, t[..|t| - 1], f) && OnTrail(dirs, root, f)
    ensures Leads(dirs, f.d, f.addr, t[|t| - 1]) && PathOf(t) == Join(f.path, t[|t| - 1].e.name)
  {
    var t0 := t[..|t| - 1];
    f := Frame(EndDir(root, t0), EndAddr(root, t0), PathOf(t0));
    assert EndsAt(dirs, root, t0, f);
  }

  lemma SameStep(dirs: seq<Dir>, root: Dir, f: Frame, x: Step, y: Step)
    requires Tidy(dirs, root) && OnTrail(dirs, root, f)
    requires Leads(dirs, f.d, f.addr, x) && Leads(dirs, f.d, f.addr, y) && x.e.name == y.e.name
    ensures x == y
  {
  }

  lemma RejoinTrails(t: Trail, u: Trail)
    requires t != [] && u != [] && t[..|t| - 1] == u[..|u| - 1] && t[|t| - 1] == u[|u| - 1]
    ensures t == u
  {
    assert t == t[..|t| - 1] + [t[|t| - 1]] && u == u[..|u| - 1] + [u[|u| - 1]];
  }

  lemma RootHasNoDot(t: Trail)
    requires t != []
    ensures PathOf(t) != ROOT
  {
    assert PathOf(t)[|PathOf(t[..|t| - 1])|] == DOT;
  }

  lemma {:induction false} SamePathSameTrail(dirs: seq<Dir>, root: Dir, t: Trail, u: Trail)
    requires Tidy(dirs, root) && IsTrail(dirs, root, t) && IsTrail(dirs, root, u) && PathOf(t) == PathOf(u)
    ensures t == u
    decreases |t|
  {
    if t == [] || u == [] {
      if t != [] {
        RootHasNoDot(t);
      }
      if u != [] {
        RootHasNoDot(u);
      }
    } else {
      var f := StepBelow(dirs, root, t);
      var g := StepBelow(dirs, root, u);
      JoinInjective(f.path, t[|t| - 1].e.name, g.path, u[|u| - 1].e.name);
      SamePathSameTrail(dirs, root, t[..|t| - 1], u[..|u| - 1]);
      SameStep(dirs, root, f, t[|t| - 1], u[|u| - 1]);
      RejoinTrails(t, u);
    }
  }

  lemma SamePathSameFrame(dirs: seq<Dir>, root: Dir, f: Frame, g: Frame)
    requires Tidy(dirs, root) && OnTrail(dirs, root, f) && OnTrail(dirs, root, g) && f.path == g.path
    ensures f == g
  {
    var t :| EndsAt(dirs, root, t, f);
    var u :| EndsAt(dirs, root, u, g);
    SamePathSameTrail(dirs, root, t, u);
  }

  // ---- an address names one directory ----

  /** Nothing leads back to the root. */
  lemma RootIsOnTop(dirs: seq<Dir>, root: Dir, base: nat -> int, t: Trail)
    requires Tidy(dirs, root) && Placed(dirs, root, base) && IsTrail(dirs, root, t) && t != []
    ensures EndAddr(root, t) != root.parent
  {
    if EndAddr(root, t) == root.parent {
      var x := t[|t| - 1];
      var f := StepBelow(dirs, root, t);
      var top := Frame(root, root.parent, ROOT);
      RootOnTrail(dirs, root);
      TrailEndFound(dirs, root, t);
      OneDirAtAnAddress(dirs, root, base, top, Frame(EndDir(root, t), EndAddr(root, t), PathOf(t)));
      OneDirAtAnAddress(dirs, root, base, top, f);
      assert false;
    }
  }

  lemma {:induction false} SameAddrSameTrail(dirs: seq<Dir>, root: Dir, base: nat -> int, t: Trail, u: Trail)
    requires Tidy(dirs, root) && Placed(dirs, root, base)
    requires IsTrail(dirs, root, t) && IsTrail(dirs, root, u) && EndAddr(root, t) == EndAddr(root, u)
    ensures t == u
    decreases |t|
  {
    if t == [] || u == [] {
      if t != [] {
        RootIsOnTop(dirs, root, base, t);
      }
      if u != [] {
        RootIsOnTop(dirs, root, base, u);
      }
    } else {
      var f := StepBelow(dirs, root, t);
      var g := StepBelow(dirs, root, u);
      TrailEndFound(dirs, root, t);
      TrailEndFound(dirs, root, u);
      OneDirAtAnAddress(dirs, root, base, Frame(EndDir(root, t), EndAddr(root, t), PathOf(t)),
                        Frame(EndDir(root, u), EndAddr(root, u), PathOf(u)));
      SameAddrSameTrail(dirs, root, base, t[..|t| - 1], u[..|u| - 1]);
      SameStep(dirs, root, f, t[|t| - 1], u[|u| - 1]);
      RejoinTrails(t, u);
    }
  }

  lemma SameAddrSameFrame(dirs: seq<Dir>, root: Dir, base: nat -> int, f: Frame, g: Frame)
    requires Tidy(dirs, root) && Placed(dirs, root, base)
    requires OnTrail(dirs, root, f) && OnTrail(dirs, root, g) && f.addr == g.addr
    ensures f == g
  {
    var t :| EndsAt(dirs, root, t, f);
    var u :| EndsAt(dirs, root, u, g);
    SameAddrSameTrail(dirs, root, base, t, u);
  }

  // ---- what is stored under a path ----

  /** An entry that a walk records: a file, or a directory whose block was found. */
  ghost predicate Recorded(dirs: seq<Dir>, f: Frame, e: Entry) {
    e.isdir ==> Kid(dirs, f.addr, e.name).Some?
  }

  /** The last of the first n entries that is recorded under that name. */
  ghost function LastNamed(dirs: seq<Dir>, f: Frame, n: nat, name: Name): Option<Entry>
    requires n <= |f.d.ents|
  {
    if n == 0 then None
    else
      var e := f.d.ents[n - 1];
      if e.name == name && Recorded(dirs, f, e) then Some(e) else LastNamed(dirs, f, n - 1, name)
  }

  ghost function Last(dirs: seq<Dir>, f: Frame, name: Name): Option<Entry> {
    LastNamed(dirs, f, |f.d.ents|, name)
  }

  lemma {:induction false} LastIsThere(dirs: seq<Dir>, f: Frame, n: nat, name: Name)
    requires n <= |f.d.ents|
    ensures var r := LastNamed(dirs, f, n, name);
            if r.Some? then r.value in f.d.ents && r.value.name == name
            else forall i :: 0 <= i < n && f.d.ents[i].name == name ==> !Recorded(dirs, f, f.d.ents[i])
  {
    if n > 0 {
      LastIsThere(dirs, f, n - 1, name);
    }
  }

  /** Under f's path and that name, paths has the last of the first n entries, if there is one. */
  ghost predicate StoredUnder(dirs: seq<Dir>, f: Frame, n: nat, name: Name, paths: map<Name, Entry>)
    requires n <= |f.d.ents|
  {
    var last := LastNamed(dirs, f, n, name);
    var p := Join(f.path, name);
    last.Some? ==> p in paths && paths[p] == last.value
  }

  lemma JoinSamePath(p: Name, n: Name, o: Name)
    requires Join(p, n) == Join(p, o)
    ensures n == o
  {
    assert Join(p, n)[|p| + 1..] == n && Join(p, o)[|p| + 1..] == o;
  }

  lemma EntryStores(dirs: seq<Dir>, f: Frame, n: nat, name: Name, s: State)
    requires 0 < n <= |f.d.ents| && StoredUnder(dirs, f, n - 1, name, s.paths)
    ensures var e := f.d.ents[n - 1];
            StoredUnder(dirs, f, n, name, TakeEntry(Kid(dirs, f.addr, e.name), f, e, s).paths)
  {
    var e := f.d.ents[n - 1];
    if Join(f.path, e.name) == Join(f.path, name) {
      JoinSamePath(f.path, e.name, name);
    }
  }

  lemma {:induction false} EntriesStore(dirs: seq<Dir>, f: Frame, n: nat, name: Name, s: State)
    requires n <= |f.d.ents|
    ensures StoredUnder(dirs, f, n, name, TakeEntries(dirs, f, n, s).paths)
  {
    if n > 0 {
      EntriesStore(dirs, f, n - 1, name, s);
      EntryStores(dirs, f, n, name, TakeEntries(dirs, f, n - 1, s));
    }
  }

  /** Other paths are left alone. */
  lemma {:induction false} EntriesElsewhere(dirs: seq<Dir>, f: Frame, n: nat, s: State, p: Name)
    requires n <= |f.d.ents| && p in s.paths
    requires forall i :: 0 <= i < n ==> Join(f.path, f.d.ents[i].name) != p
    ensures p in TakeEntries(dirs, f, n, s).paths && TakeEntries(dirs, f, n, s).paths[p] == s.paths[p]
  {
    if n > 0 {
      EntriesElsewhere(dirs, f, n - 1, s, p);
    }
  }

  /** Under every expanded directory's path, each name has the last entry of that name. */
  ghost predicate AllStored(dirs: seq<Dir>, s: State) {
    forall i, name: Name :: 0 <= i < |s.expanded| ==>
      StoredUnder(dirs, s.expanded[i], |s.expanded[i].d.ents|, name, s.paths)
  }

  /** Expanding f does not touch what is stored under g's path. */
  lemma ExpandKeepsOther(dirs: seq<Dir>, root: Dir, f: Frame, g: Frame, name: Name, s: State)
    requires Tidy(dirs, root) && OnTrail(dirs, root, f) && OnTrail(dirs, root, g) && f != g
    requires StoredUnder(dirs, g, |g.d.ents|, name, s.paths)
    ensures StoredUnder(dirs, g, |g.d.ents|, name, TakeEntries(dirs, f, |f.d.ents|, s).paths)
  {
    LastIsThere(dirs, g, |g.d.ents|, name);
    if Last(dirs, g, name).Some? {
      forall i | 0 <= i < |f.d.ents| ensures Join(f.path, f.d.ents[i].name) != Join(g.path, name) {
        if Join(f.path, f.d.ents[i].name) == Join(g.path, name) {
          assert f.d.ents[i] in f.d.ents && Last(dirs, g, name).value in g.d.ents;
          JoinInjective(f.path, f.d.ents[i].name, g.path, name);
          SamePathSameFrame(dirs, root, f, g);
        }
      }
      EntriesElsewhere(dirs, f, |f.d.ents|, s, Join(g.path, name));
    }
  }

  lemma TurnStores(dirs: seq<Dir>, root: Dir, s: State)
    requires Tidy(dirs, root) && Bounded(dirs, root, s) && Sound(dirs, root, s) && Once(s) && s.stack != []
    requires AllStored(dirs, s)
    ensures AllStored(dirs, Turn(dirs, s))
  {
    var f, s' := s.stack[|s.stack| - 1], Turn(dirs, s);
    if f.addr !in s.seen {
      var s1 := Mark(f, Pop(s));
      EntriesStayBounded(dirs, root, f, |f.d.ents|, s1);
      forall i, name: Name | 0 <= i < |s'.expanded|
        ensures StoredUnder(dirs, s'.expanded[i], |s'.expanded[i].d.ents|, name, s'.paths)
      {
        if i < |s.expanded| {
          assert StoredUnder(dirs, s.expanded[i], |s.expanded[i].d.ents|, name, s.paths);
          ExpandKeepsOther(dirs, root, f, s.expanded[i], name, s1);
        } else {
          EntriesStore(dirs, f, |f.d.ents|, name, s1);
        }
      }
    }
  }

  lemma {:induction false} WalkStores(dirs: seq<Dir>, root: Dir, s: State)
    requires Tidy(dirs, root) && Bounded(dirs, root, s) && Sound(dirs, root, s) && Once(s) && AllStored(dirs, s)
    ensures AllStored(dirs, WalkFrom(dirs, root, s))
    decreases Addresses(dirs, root) - s.seen, |s.stack|
  {
    if s.stack != [] {
      TurnStaysBounded(dirs, root, s);
      TurnSound(dirs, root, s);
      TurnOnce(dirs, root, s);
      TurnStores(dirs, root, s);
      WalkStores(dirs, root, Turn(dirs, s));
    }
  }

  lemma WalkedStores(dirs: seq<Dir>, root: Dir)
    requires Tidy(dirs, root)
    ensures AllStored(dirs, Walked(dirs, root))
  {
    StartIsBounded(dirs, root);
    StartSound(dirs, root);
    WalkStores(dirs, root, Start(root));
  }

  lemma ReachableExpanded(dirs: seq<Dir>, root: Dir, base: nat -> int, f: Frame) returns (i: nat)
    requires Tidy(dirs, root) && Placed(dirs, root, base) && OnTrail(dirs, root, f)
    ensures i < |Walked(dirs, root).expanded| && Walked(dirs, root).expanded[i] == f
  {
    var s := Walked(dirs, root);
    WalkedSound(dirs, root);
    WalkedComplete(dirs, root);
    var t :| EndsAt(dirs, root, t, f);
    i := TrailExpanded(dirs, root, base, s, t);
    SameAddrSameFrame(dirs, root, base, s.expanded[i], f);
  }

  lemma {:induction false} LastFound(dirs: seq<Dir>, f: Frame, n: nat, e: Entry)
    requires n <= |f.d.ents| && Recorded(dirs, f, e) && e in f.d.ents[..n]
    ensures LastNamed(dirs, f, n, e.name).Some?
  {
    LastIsThere(dirs, f, n, e.name);
    var i :| 0 <= i < n && f.d.ents[i] == e;
  }

  /**
   * The path of a file in a reachable directory is listed, and leads to that file exactly if no
   * later entry of the directory is recorded under the same name.
   */
  lemma PathLeadsToLast(dirs: seq<Dir>, root: Dir, base: nat -> int, f: Frame, e: Entry)
    requires Tidy(dirs, root) && Placed(dirs, root, base)
    requires OnTrail(dirs, root, f) && e in f.d.ents && !e.isdir
    ensures var paths := Walked(dirs, root).paths; var p := Join(f.path, e.name);
            p in paths && (paths[p] == e <==> Last(dirs, f, e.name) == Some(e))
  {
    var i := ReachableExpanded(dirs, root, base, f);
    var s := Walked(dirs, root);
    WalkedStores(dirs, root);
    assert StoredUnder(dirs, s.expanded[i], |s.expanded[i].d.ents|, e.name, s.paths);
    assert f.d.ents[..|f.d.ents|] == f.d.ents;
    LastFound(dirs, f, |f.d.ents|, e);
  }

  /** With one entry of each name, every file is found at its own path. */
  lemma EveryFileAtItsPath(dirs: seq<Dir>, root: Dir, base: nat -> int, f: Frame, e: Entry)
    requires Tidy(dirs, root) && Placed(dirs, root, base)
    requires OnTrail(dirs, root, f) && e in f.d.ents && !e.isdir
    requires forall d :: d in f.d.ents && d.name == e.name ==> d == e
    ensures var paths := Walked(dirs, root).paths; var p := Join(f.path, e.name);
            p in paths && paths[p] == e
  {
    PathLeadsToLast(dirs, root, base, f, e);
    LastIsThere(dirs, f, |f.d.ents|, e.name);
    assert f.d.ents[..|f.d.ents|] == f.d.ents;
    LastFound(dirs, f, |f.d.ents|, e);
  }

  lemma {:induction false} NoTrailsWithoutSubdirs(root: Dir, t: Trail)
    requires (forall e :: e in root.ents ==> !e.isdir) && IsTrail([root], root, t)
    ensures t == []
  {
    if t != [] {
      NoTrailsWithoutSubdirs(root, t[..|t| - 1]);
    }
  }

  /** Two files of one name in the root: the path of both leads to the second. */
  lemma SecondHidesFirst(root: Dir, a: Entry, b: Entry)
    requires root.name == ROOT && root.ents == [a, b] && !a.isdir && !b.isdir
    requires a.name == b.name && a != b && DOT !in a.name
    ensures var paths := Walked([root], root).paths; var p := Join(ROOT, a.name);
            p in paths && paths[p] == b
  {
    var top := Frame(root, root.parent, ROOT);
    forall f | OnTrail([root], root, f) ensures f == top {
      var t :| EndsAt([root], root, t, f);
      NoTrailsWithoutSubdirs(root, t);
    }
    RootOnTrail([root], root);
    var base := (k: nat) => root.block - Within(root.parent);
    assert Placed([root], root, base);
    assert top.d.ents[1] == b && Recorded([root], top, b);
    PathLeadsToLast([root], root, base, top, b);
  }
}
