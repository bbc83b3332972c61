/**
 * What the walk of a FileCore volume finds: the directories reachable from the root, one expansion
 * for each address, and the true position of every fragment that holds one of them.
 */
module Calibration {
  import opened Bytes
  import opened BigDir
  import opened Walk

  // ---- what is reachable ----

  /** An entry for a directory, and the block that is that directory. */
  datatype Step = Step(e: Entry, c: Dir)

  type Trail = seq<Step>

  function EndDir(root: Dir, t: Trail): Dir {
    if t == [] then root else t[|t| - 1].c
  }

  function EndAddr(root: Dir, t: Trail): Word {
    if t == [] then root.parent else t[|t| - 1].e.ind
  }

  function PathOf(t: Trail): Name {
    if t == [] then ROOT else Join(PathOf(t[..|t| - 1]), t[|t| - 1].e.name)
  }

  /** Directory d, at addr, has an entry for c: the names agree and c says that its parent is at addr. */
  ghost predicate Leads(dirs: seq<Dir>, d: Dir, addr: Word, x: Step) {
    x.e in d.ents && x.e.isdir && x.c in dirs && x.c.parent == addr && x.c.name == x.e.name
  }

  ghost predicate IsTrail(dirs: seq<Dir>, root: Dir, t: Trail) {
    t == [] || (IsTrail(dirs, root, t[..|t| - 1])
                && Leads(dirs, EndDir(root, t[..|t| - 1]), EndAddr(root, t[..|t| - 1]), t[|t| - 1]))
  }

  /** f is what trail t leads to. */
  ghost predicate EndsAt(dirs: seq<Dir>, root: Dir, t: Trail, f: Frame) {
    IsTrail(dirs, root, t) && f == Frame(EndDir(root, t), EndAddr(root, t), PathOf(t))
  }

  ghost predicate OnTrail(dirs: seq<Dir>, root: Dir, f: Frame) {
    exists t :: EndsAt(dirs, root, t, f)
  }

  lemma RootOnTrail(dirs: seq<Dir>, root: Dir)
    ensures OnTrail(dirs, root, Frame(root, root.parent, ROOT))
  {
    assert EndsAt(dirs, root, [], Frame(root, root.parent, ROOT));
  }

  lemma TrailGoesOn(dirs: seq<Dir>, root: Dir, f: Frame, e: Entry, c: Dir)
    requires OnTrail(dirs, root, f) && Leads(dirs, f.d, f.addr, Step(e, c))
    ensures OnTrail(dirs, root, Frame(c, e.ind, Join(f.path, e.name)))
  {
    var t :| EndsAt(dirs, root, t, f);
    var t' := t + [Step(e, c)];
    assert t'[..|t'| - 1] == t;
    assert EndsAt(dirs, root, t', Frame(c, e.ind, Join(f.path, e.name)));
  }

  // ---- what every walk keeps ----

  /** The fragment's position is what some reachable directory in it gives. */
  ghost predicate NotedBy(dirs: seq<Dir>, root: Dir, f: Frame, fragment: nat, base: int) {
    OnTrail(dirs, root, f) && Fragment(f.addr) == fragment && base == f.d.block - Within(f.addr)
  }

  ghost predicate Noted(dirs: seq<Dir>, root: Dir, fragment: nat, base: int) {
    exists f :: NotedBy(dirs, root, f, fragment, base)
  }

  /** A path to e: that of a reachable directory, and e's name; if e is a directory, its block was found. */
  ghost predicate ListedBy(dirs: seq<Dir>, root: Dir, f: Frame, p: Name, e: Entry) {
    && OnTrail(dirs, root, f) && e in f.d.ents && p == Join(f.path, e.name)
    && (e.isdir ==> Kid(dirs, f.addr, e.name).Some?)
  }

  ghost predicate Listed(dirs: seq<Dir>, root: Dir, p: Name, e: Entry) {
    exists f :: ListedBy(dirs, root, f, p, e)
  }

  ghost predicate FramesSound(dirs: seq<Dir>, root: Dir, fs: seq<Frame>) {
    forall i :: 0 <= i < |fs| ==> OnTrail(dirs, root, fs[i])
  }

  ghost predicate BasesSound(dirs: seq<Dir>, root: Dir, fragBase: map<nat, int>) {
    forall k :: k in fragBase ==> Noted(dirs, root, k, fragBase[k])
  }

  ghost predicate PathsSound(dirs: seq<Dir>, root: Dir, paths: map<Name, Entry>) {
    forall p :: p in paths ==> Listed(dirs, root, p, paths[p])
  }

  /** Everything the walk has recorded is there to be found. */
  ghost predicate Sound(dirs: seq<Dir>, root: Dir, s: State) {
    && FramesSound(dirs, root, s.stack) && FramesSound(dirs, root, s.expanded)
    && BasesSound(dirs, root, s.fragBase) && PathsSound(dirs, root, s.paths)
  }

  lemma KidLeads(dirs: seq<Dir>, d: Dir, addr: Word, e: Entry)
    requires e in d.ents && e.isdir && Kid(dirs, addr, e.name).Some?
    ensures Leads(dirs, d, addr, Step(e, Kid(dirs, addr, e.name).value))
  {
    KidMeans(dirs, addr, e.name);
  }

  lemma NoteSound(dirs: seq<Dir>, root: Dir, fragBase: map<nat, int>, f: Frame)
    requires BasesSound(dirs, root, fragBase) && OnTrail(dirs, root, f)
    ensures BasesSound(dirs, root, Note(fragBase, f.addr, f.d.block))
  {
    assert NotedBy(dirs, root, f, Fragment(f.addr), f.d.block - Within(f.addr));
  }

  lemma ListSound(dirs: seq<Dir>, root: Dir, paths: map<Name, Entry>, f: Frame, e: Entry)
    requires PathsSound(dirs, root, paths) && OnTrail(dirs, root, f) && e in f.d.ents
    requires e.isdir ==> Kid(dirs, f.addr, e.name).Some?
    ensures PathsSound(dirs, root, paths[Join(f.path, e.name) := e])
  {
    assert ListedBy(dirs, root, f, Join(f.path, e.name), e);
  }

  lemma FrameSound(dirs: seq<Dir>, root: Dir, fs: seq<Frame>, f: Frame)
    requires FramesSound(dirs, root, fs) && OnTrail(dirs, root, f)
    ensures FramesSound(dirs, root, fs + [f])
  {
  }

  lemma EntrySound(dirs: seq<Dir>, root: Dir, f: Frame, e: Entry, kid: Option<Dir>, s: State)
    requires Sound(dirs, root, s) && OnTrail(dirs, root, f) && e in f.d.ents && kid == Kid(dirs, f.addr, e.name)
    ensures Sound(dirs, root, TakeEntry(kid, f, e, s))
  {
    if !e.isdir {
      ListSound(dirs, root, s.paths, f, e);
    } else if kid.Some? {
      var g := Frame(kid.value, e.ind, Join(f.path, e.name));
      KidLeads(dirs, f.d, f.addr, e);
      TrailGoesOn(dirs, root, f, e, kid.value);
      ListSound(dirs, root, s.paths, f, e);
      NoteSound(dirs, root, s.fragBase, g);
      FrameSound(dirs, root, s.stack, g);
    }
  }

  lemma {:induction false} EntriesSound(dirs: seq<Dir>, root: Dir, f: Frame, n: nat, s: State)
    requires Sound(dirs, root, s) && OnTrail(dirs, root, f) && n <= |f.d.ents|
    ensures Sound(dirs, root, TakeEntries(dirs, f, n, s))
  {
    if n > 0 {
      var e := f.d.ents[n - 1];
      EntriesSound(dirs, root, f, n - 1, s);
      EntrySound(dirs, root, f, e, Kid(dirs, f.addr, e.name), TakeEntries(dirs, f, n - 1, s));
    }
  }

  lemma TurnSound(dirs: seq<Dir>, root: Dir, s: State)
    requires Sound(dirs, root, s) && s.stack != []
    ensures Sound(dirs, root, Turn(dirs, s))
  {
    var f := s.stack[|s.stack| - 1];
    assert OnTrail(dirs, root, f);
    if f.addr !in s.seen {
      FrameSound(dirs, root, s.expanded, f);
      EntriesSound(dirs, root, f, |f.d.ents|, Mark(f, Pop(s)));
    }
  }

  /** Addresses that have been expanded are the ones seen, and none was expanded twice. */
  ghost predicate Once(s: State) {
    && (forall i :: 0 <= i < |s.expanded| ==> s.expanded[i].addr in s.seen)
    && (forall a :: a in s.seen ==> ExpandedAt(s, a))
    && (forall i, j :: 0 <= i < j < |s.expanded| ==> s.expanded[i].addr != s.expanded[j].addr)
  }

  ghost predicate ExpandedAt(s: State, a: Word) {
    exists i :: 0 <= i < |s.expanded| && s.expanded[i].addr == a
  }

  lemma MarkOnce(f: Frame, s: State)
    requires Once(s) && f.addr !in s.seen
    ensures Once(Mark(f, s))
  {
    var s' := Mark(f, s);
    forall a | a in s'.seen ensures ExpandedAt(s', a) {
      if a == f.addr {
        assert s'.expanded[|s.expanded|].addr == a;
      } else {
        var i :| 0 <= i < |s.expanded| && s.expanded[i].addr == a;
        assert s'.expanded[i].addr == a;
      }
    }
  }

  lemma SameOnce(s: State, s': State)
    requires Once(s) && s'.seen == s.seen && s'.expanded == s.expanded
    ensures Once(s')
  {
    forall a | a in s'.seen ensures ExpandedAt(s', a) {
      assert ExpandedAt(s, a);
    }
  }

  lemma TurnOnce(dirs: seq<Dir>, root: Dir, s: State)
    requires Bounded(dirs, root, s) && Once(s) && s.stack != []
    ensures Once(Turn(dirs, s))
  {
    var f := s.stack[|s.stack| - 1];
    SameOnce(s, Pop(s));
    if f.addr !in s.seen {
      MarkOnce(f, Pop(s));
      EntriesStayBounded(dirs, root, f, |f.d.ents|, Mark(f, Pop(s)));
      SameOnce(Mark(f, Pop(s)), Turn(dirs, s));
    }
  }

  lemma {:induction false} WalkSound(dirs: seq<Dir>, root: Dir, s: State)
    requires Bounded(dirs, root, s) && Sound(dirs, root, s) && Once(s)
    ensures Sound(dirs, root, WalkFrom(dirs, root, s)) && Once(WalkFrom(dirs, root, s))
    decreases Addresses(dirs, root) - s.seen, |s.stack|
  {
    if s.stack != [] {
      TurnStaysBounded(dirs, root, s);
      TurnSound(dirs, root, s);
      TurnOnce(dirs, root, s);
      WalkSound(dirs, root, Turn(dirs, s));
    }
  }

  lemma StartSound(dirs: seq<Dir>, root: Dir)
    ensures Sound(dirs, root, Start(root)) && Once(Start(root))
  {
    RootOnTrail(dirs, root);
    NoteSound(dirs, root, map[], Frame(root, root.parent, ROOT));
  }

  /**
   * Whatever the blocks are, cyclic or not: each address is expanded at most once, every position
   * comes from a reachable directory, and every path is one of names leading down from the root.
   */
  lemma WalkedSound(dirs: seq<Dir>, root: Dir)
    requires root in dirs
    ensures Sound(dirs, root, Walked(dirs, root)) && Once(Walked(dirs, root))
  {
    StartIsBounded(dirs, root);
    StartSound(dirs, root);
    WalkSound(dirs, root, Start(root));
  }

  // ---- the first calibration of a fragment stays ----

  /** Positions already noted are noted in s' as they were. */
  ghost predicate BasesStay(s: State, s': State) {
    forall k :: k in s.fragBase ==> k in s'.fragBase && s'.fragBase[k] == s.fragBase[k]
  }

  lemma {:induction false} EntriesLeaveBases(dirs: seq<Dir>, f: Frame, n: nat, s: State)
    requires n <= |f.d.ents|
    ensures BasesStay(s, TakeEntries(dirs, f, n, s))
  {
    if n > 0 {
      EntriesLeaveBases(dirs, f, n - 1, s);
    }
  }

  lemma TurnLeavesBases(dirs: seq<Dir>, s: State)
    requires s.stack != []
    ensures BasesStay(s, Turn(dirs, s))
  {
    var f := s.stack[|s.stack| - 1];
    EntriesLeaveBases(dirs, f, |f.d.ents|, Mark(f, Pop(s)));
  }

  lemma {:induction false} WalkLeavesBases(dirs: seq<Dir>, root: Dir, s: State)
    requires Bounded(dirs, root, s)
    ensures BasesStay(s, WalkFrom(dirs, root, s))
    decreases Addresses(dirs, root) - s.seen, |s.stack|
  {
    if s.stack != [] {
      TurnStaysBounded(dirs, root, s);
      TurnLeavesBases(dirs, s);
      WalkLeavesBases(dirs, root, Turn(dirs, s));
    }
  }

  /** The root's fragment keeps the position that the root gives it, whatever is found later. */
  lemma RootBaseStays(dirs: seq<Dir>, root: Dir)
    requires root in dirs
    ensures var m, k := Walked(dirs, root).fragBase, root.parent / 0x100;
            k in m && m[k] == root.block - 512 * (root.parent % 0x100)
  {
    StartIsBounded(dirs, root);
    WalkLeavesBases(dirs, root, Start(root));
    assert Fragment(root.parent) in Start(root).fragBase;
  }

  // ---- nothing reachable is missed ----

  /** The walk has seen a, or has it on the stack. */
  ghost predicate Handled(s: State, a: Word) {
    a in s.seen || exists i :: 0 <= i < |s.stack| && s.stack[i].addr == a
  }

  ghost predicate EntryCovered(dirs: seq<Dir>, s: State, f: Frame, e: Entry) {
    && (e.isdir && Kid(dirs, f.addr, e.name).Some? ==>
          Fragment(e.ind) in s.fragBase && Handled(s, e.ind) && Join(f.path, e.name) in s.paths)
    && (!e.isdir ==> Join(f.path, e.name) in s.paths)
  }

  ghost predicate Covered(dirs: seq<Dir>, s: State, f: Frame, n: nat)
    requires n <= |f.d.ents|
  {
    forall i :: 0 <= i < n ==> EntryCovered(dirs, s, f, f.d.ents[i])
  }

  /** All the entries of the first k directories expanded are covered. */
  ghost predicate Complete(dirs: seq<Dir>, root: Dir, s: State, k: nat)
    requires k <= |s.expanded|
  {
    && Fragment(root.parent) in s.fragBase && Handled(s, root.parent)
    && forall i :: 0 <= i < k ==> Covered(dirs, s, s.expanded[i], |s.expanded[i].d.ents|)
  }

  /** s' has recorded at least what s has. */
  ghost predicate Grows(s: State, s': State) {
    && (forall a :: Handled(s, a) ==> Handled(s', a))
    && (forall k :: k in s.fragBase ==> k in s'.fragBase)
    && (forall p :: p in s.paths ==> p in s'.paths)
  }

  lemma CoveredGrows(dirs: seq<Dir>, s: State, s': State, f: Frame, n: nat)
    requires n <= |f.d.ents| && Covered(dirs, s, f, n) && Grows(s, s')
    ensures Covered(dirs, s', f, n)
  {
    forall i | 0 <= i < n ensures EntryCovered(dirs, s', f, f.d.ents[i]) {
      assert EntryCovered(dirs, s, f, f.d.ents[i]);
    }
  }

  lemma CompleteGrows(dirs: seq<Dir>, root: Dir, s: State, s': State, k: nat)
    requires k <= |s.expanded| <= |s'.expanded| && s.expanded[..k] == s'.expanded[..k]
    requires Complete(dirs, root, s, k) && Grows(s, s')
    ensures Complete(dirs, root, s', k)
  {
    forall i | 0 <= i < k ensures Covered(dirs, s', s'.expanded[i], |s'.expanded[i].d.ents|) {
      assert s'.expanded[i] == s'.expanded[..k][i] == s.expanded[i];
      CoveredGrows(dirs, s, s', s.expanded[i], |s.expanded[i].d.ents|);
    }
  }

  lemma Pushed(s: State, s': State, f: Frame)
    requires s'.stack == s.stack + [f] && s'.seen == s.seen
    ensures Handled(s', f.addr) && forall a :: Handled(s, a) ==> Handled(s', a)
  {
    assert s'.stack[|s.stack|] == f;
    forall a | Handled(s, a) ensures Handled(s', a) {
      if a !in s.seen {
        var i :| 0 <= i < |s.stack| && s.stack[i].addr == a;
        assert s'.stack[i].addr == a;
      }
    }
  }

  lemma EntryGrows(dirs: seq<Dir>, f: Frame, e: Entry, kid: Option<Dir>, s: State)
    requires kid == Kid(dirs, f.addr, e.name)
    ensures Grows(s, TakeEntry(kid, f, e, s)) && EntryCovered(dirs, TakeEntry(kid, f, e, s), f, e)
  {
    if e.isdir && kid.Some? {
      Pushed(s, TakeEntry(kid, f, e, s), Frame(kid.value, e.ind, Join(f.path, e.name)));
    }
  }

  lemma {:induction false} EntriesGrow(dirs: seq<Dir>, f: Frame, n: nat, s: State)
    requires n <= |f.d.ents|
    ensures Grows(s, TakeEntries(dirs, f, n, s)) && Covered(dirs, TakeEntries(dirs, f, n, s), f, n)
  {
    if n > 0 {
      var e, s1 := f.d.ents[n - 1], TakeEntries(dirs, f, n - 1, s);
      EntriesGrow(dirs, f, n - 1, s);
      EntryGrows(dirs, f, e, Kid(dirs, f.addr, e.name), s1);
      CoveredGrows(dirs, s1, TakeEntries(dirs, f, n, s), f, n - 1);
    }
  }

  lemma Popped(s: State, s': State, f: Frame)
    requires s.stack != [] && f == s.stack[|s.stack| - 1] && s'.stack == s.stack[..|s.stack| - 1]
    requires s.seen <= s'.seen && f.addr in s'.seen && s'.fragBase == s.fragBase && s'.paths == s.paths
    ensures Grows(s, s')
  {
    forall a | Handled(s, a) ensures Handled(s', a) {
      if a !in s'.seen {
        var i :| 0 <= i < |s.stack| && s.stack[i].addr == a;
        assert s'.stack[i].addr == a;
      }
    }
  }

  lemma GrowsOn(s: State, s1: State, s2: State)
    requires Grows(s, s1) && Grows(s1, s2)
    ensures Grows(s, s2)
  {
  }

  lemma TurnComplete(dirs: seq<Dir>, root: Dir, s: State)
    requires Bounded(dirs, root, s) && Complete(dirs, root, s, |s.expanded|) && s.stack != []
    ensures Complete(dirs, root, Turn(dirs, s), |Turn(dirs, s).expanded|)
  {
    var f, s' := s.stack[|s.stack| - 1], Turn(dirs, s);
    if f.addr in s.seen {
      Popped(s, s', f);
      CompleteGrows(dirs, root, s, s', |s.expanded|);
    } else {
      var s1 := Mark(f, Pop(s));
      Popped(s, s1, f);
      EntriesStayBounded(dirs, root, f, |f.d.ents|, s1);
      EntriesGrow(dirs, f, |f.d.ents|, s1);
      GrowsOn(s, s1, s');
      CompleteGrows(dirs, root, s, s', |s.expanded|);
    }
  }

  lemma {:induction false} WalkComplete(dirs: seq<Dir>, root: Dir, s: State)
    requires Bounded(dirs, root, s) && Complete(dirs, root, s, |s.expanded|)
    ensures var s' := WalkFrom(dirs, root, s); s'.stack == [] && Complete(dirs, root, s', |s'.expanded|)
    decreases Addresses(dirs, root) - s.seen, |s.stack|
  {
    if s.stack != [] {
      TurnStaysBounded(dirs, root, s);
      TurnComplete(dirs, root, s);
      WalkComplete(dirs, root, Turn(dirs, s));
    }
  }

  lemma WalkedComplete(dirs: seq<Dir>, root: Dir)
    requires root in dirs
    ensures var s := Walked(dirs, root); s.stack == [] && Complete(dirs, root, s, |s.expanded|)
  {
    StartIsBounded(dirs, root);
    assert Start(root).stack[0].addr == root.parent;
    WalkComplete(dirs, root, Start(root));
  }

  // ---- calibration ----

  /** base gives each fragment a position at which every reachable directory is where its address says. */
  ghost predicate Placed(dirs: seq<Dir>, root: Dir, base: nat -> int) {
    forall f :: OnTrail(dirs, root, f) ==> f.d.block == base(f.addr / 0x100) + 512 * (f.addr % 0x100)
  }

  ghost predicate NamesUnique(dirs: seq<Dir>) {
    forall c, d :: c in dirs && d in dirs && c.parent == d.parent && c.name == d.name ==> c == d
  }

  ghost predicate BlocksUnique(dirs: seq<Dir>) {
    forall c, d :: c in dirs && d in dirs && c.block == d.block ==> c == d
  }

  /** Some reachable directory lies in the fragment. */
  ghost predicate HoldsDirectory(dirs: seq<Dir>, root: Dir, fragment: nat) {
    exists f :: OnTrail(dirs, root, f) && f.addr / 0x100 == fragment
  }

  lemma TrailEndFound(dirs: seq<Dir>, root: Dir, t: Trail)
    requires root in dirs && IsTrail(dirs, root, t)
    ensures EndDir(root, t) in dirs
    ensures OnTrail(dirs, root, Frame(EndDir(root, t), EndAddr(root, t), PathOf(t)))
  {
    assert EndsAt(dirs, root, t, Frame(EndDir(root, t), EndAddr(root, t), PathOf(t)));
  }

  /** Two reachable directories at one address are one. */
  lemma OneDirAtAnAddress(dirs: seq<Dir>, root: Dir, base: nat -> int, f: Frame, g: Frame)
    requires root in dirs && Placed(dirs, root, base) && BlocksUnique(dirs)
    requires OnTrail(dirs, root, f) && OnTrail(dirs, root, g) && f.addr == g.addr
    ensures f.d == g.d
  {
    var t :| EndsAt(dirs, root, t, f);
    var u :| EndsAt(dirs, root, u, g);
    TrailEndFound(dirs, root, t);
    TrailEndFound(dirs, root, u);
  }

  lemma SomeFrameExpanded(s: State, a: Word) returns (i: nat)
    requires s.stack == [] && Once(s) && Handled(s, a)
    ensures i < |s.expanded| && s.expanded[i].addr == a
  {
    assert ExpandedAt(s, a);
    i :| 0 <= i < |s.expanded| && s.expanded[i].addr == a;
  }

  /** The end of every trail has been expanded, and its fragment calibrated. */
  lemma {:induction false} TrailExpanded(dirs: seq<Dir>, root: Dir, base: nat -> int, s: State, t: Trail)
    returns (i: nat)
    requires root in dirs && Placed(dirs, root, base) && NamesUnique(dirs) && BlocksUnique(dirs)
    requires Sound(dirs, root, s) && Once(s) && s.stack == [] && Complete(dirs, root, s, |s.expanded|)
    requires IsTrail(dirs, root, t)
    ensures i < |s.expanded| && s.expanded[i].addr == EndAddr(root, t) && s.expanded[i].d == EndDir(root, t)
    ensures Fragment(EndAddr(root, t)) in s.fragBase
  {
    if t != [] {
      var x, t0 := t[|t| - 1], t[..|t| - 1];
      var j := TrailExpanded(dirs, root, base, s, t0);
      StepHandled(dirs, s, s.expanded[j], x);
    }
    i := SomeFrameExpanded(s, EndAddr(root, t));
    TrailEndFound(dirs, root, t);
    OneDirAtAnAddress(dirs, root, base, s.expanded[i], Frame(EndDir(root, t), EndAddr(root, t), PathOf(t)));
  }

  lemma StepHandled(dirs: seq<Dir>, s: State, f: Frame, x: Step)
    requires NamesUnique(dirs) && Covered(dirs, s, f, |f.d.ents|) && Leads(dirs, f.d, f.addr, x)
    ensures Fragment(x.e.ind) in s.fragBase && Handled(s, x.e.ind)
  {
    var i :| 0 <= i < |f.d.ents| && f.d.ents[i] == x.e;
    assert EntryCovered(dirs, s, f, f.d.ents[i]);
    KidMeans(dirs, f.addr, x.e.name);
  }

  /**
   * If fragments have positions at all, the walk finds them: exactly the fragments that hold a
   * reachable directory are calibrated, each at its true position.
   */
  lemma WalkCalibrates(dirs: seq<Dir>, root: Dir, base: nat -> int, k: nat)
    requires root in dirs && Placed(dirs, root, base) && NamesUnique(dirs) && BlocksUnique(dirs)
    ensures var m := Walked(dirs, root).fragBase;
            (k in m <==> HoldsDirectory(dirs, root, k)) && (k in m ==> m[k] == base(k))
  {
    var s := Walked(dirs, root);
    WalkedSound(dirs, root);
    WalkedComplete(dirs, root);
    if k in s.fragBase {
      assert Noted(dirs, root, k, s.fragBase[k]);
    }
    if HoldsDirectory(dirs, root, k) {
      var f :| OnTrail(dirs, root, f) && Fragment(f.addr) == k;
      var t :| EndsAt(dirs, root, t, f);
      var i := TrailExpanded(dirs, root, base, s, t);
    }
  }

  /** offset_of gives an object's true position, and gives one exactly if a directory shares its fragment. */
  lemma OffsetsAreTrue(dirs: seq<Dir>, root: Dir, base: nat -> int, e: Entry)
    requires root in dirs && Placed(dirs, root, base) && NamesUnique(dirs) && BlocksUnique(dirs)
    ensures OffsetOf(Walked(dirs, root).fragBase, e)
         == if HoldsDirectory(dirs, root, e.ind / 0x100) then Some(base(e.ind / 0x100) + 512 * (e.ind % 0x100)) else None
  {
    WalkCalibrates(dirs, root, base, Fragment(e.ind));
  }

  ghost predicate SameBlocks(dirs: seq<Dir>, dirs': seq<Dir>) {
    forall d :: d in dirs <==> d in dirs'
  }

  lemma {:induction false} SameTrails(dirs: seq<Dir>, dirs': seq<Dir>, root: Dir, t: Trail)
    requires SameBlocks(dirs, dirs')
    ensures IsTrail(dirs, root, t) <==> IsTrail(dirs', root, t)
  {
    if t != [] {
      SameTrails(dirs, dirs', root, t[..|t| - 1]);
    }
  }

  lemma SameFrames(dirs: seq<Dir>, dirs': seq<Dir>, root: Dir, f: Frame)
    requires SameBlocks(dirs, dirs')
    ensures OnTrail(dirs, root, f) <==> OnTrail(dirs', root, f)
  {
    if OnTrail(dirs, root, f) {
      var t :| EndsAt(dirs, root, t, f);
      SameTrails(dirs, dirs', root, t);
      assert EndsAt(dirs', root, t, f);
    }
    if OnTrail(dirs', root, f) {
      var t :| EndsAt(dirs', root, t, f);
      SameTrails(dirs, dirs', root, t);
      assert EndsAt(dirs, root, t, f);
    }
  }

  /** The order in which the blocks come off the disc makes no difference. */
  lemma OrderDoesNotMatter(dirs: seq<Dir>, dirs': seq<Dir>, root: Dir, base: nat -> int)
    requires root in dirs && Placed(dirs, root, base) && NamesUnique(dirs) && BlocksUnique(dirs)
    requires SameBlocks(dirs, dirs')
    ensures Walked(dirs, root).fragBase == Walked(dirs', root).fragBase
  {
    forall f ensures OnTrail(dirs, root, f) <==> OnTrail(dirs', root, f) {
      SameFrames(dirs, dirs', root, f);
    }
    var m, m' := Walked(dirs, root).fragBase, Walked(dirs', root).fragBase;
    forall k: nat ensures (k in m <==> k in m') && (k in m ==> m[k] == m'[k]) {
      WalkCalibrates(dirs, root, base, k);
      WalkCalibrates(dirs', root, base, k);
    }
  }

  /** Every file in a reachable directory can be looked up, by a path to that directory. */
  lemma FilesAreListed(dirs: seq<Dir>, root: Dir, base: nat -> int, f: Frame, e: Entry) returns (g: Frame)
    requires root in dirs && Placed(dirs, root, base) && NamesUnique(dirs) && BlocksUnique(dirs)
    requires OnTrail(dirs, root, f) && e in f.d.ents && !e.isdir
    ensures OnTrail(dirs, root, g) && g.d == f.d && Join(g.path, e.name) in Walked(dirs, root).paths
  {
    var s := Walked(dirs, root);
    WalkedSound(dirs, root);
    WalkedComplete(dirs, root);
    var t :| EndsAt(dirs, root, t, f);
    var i := TrailExpanded(dirs, root, base, s, t);
    g := s.expanded[i];
    var j :| 0 <= j < |f.d.ents| && f.d.ents[j] == e;
    assert EntryCovered(dirs, s, g, g.d.ents[j]);
  }
}
