/**
 * The walk of a FileCore volume's directory tree (Volume._walk in files/rofilecore.py), which
 * calibrates fragment positions on the way: as functions of the blocks found, and their meaning.
 */
module Walk {
  import opened Bytes
  import opened BigDir

  type Name = seq<Byte>

  const DOT: Byte := 46
  const ROOT: Name := [36]                       // "$"
  const BOOT: Name := [33, 66, 111, 111, 116]    // "!Boot"
  const APPS: Name := [65, 112, 112, 115]        // "Apps"

  /** A directory to be expanded, its address, and the path it was reached by. */
  datatype Frame = Frame(d: Dir, addr: Word, path: Name)

  datatype State = State(
    stack: seq<Frame>, seen: set<Word>, fragBase: map<nat, int>, paths: map<Name, Entry>,
    expanded: seq<Frame>)

  function Fragment(ind: Word): nat {
    ind / 0x100
  }

  /** How far into its fragment an address is. */
  function Within(ind: Word): nat {
    SECTOR * (ind % 0x100)
  }

  /** The first calibration of a fragment stays. */
  function Note(fragBase: map<nat, int>, ind: Word, off: int): map<nat, int> {
    if Fragment(ind) in fragBase then fragBase else fragBase[Fragment(ind) := off - Within(ind)]
  }

  function OffsetOf(fragBase: map<nat, int>, e: Entry): Option<int> {
    if Fragment(e.ind) in fragBase then Some(fragBase[Fragment(e.ind)] + Within(e.ind)) else None
  }

  function Children(dirs: seq<Dir>, addr: Word): seq<Dir> {
    if dirs == [] then [] else
      Children(dirs[..|dirs| - 1], addr) + (if dirs[|dirs| - 1].parent == addr then [dirs[|dirs| - 1]] else [])
  }

  function FirstNamed(cs: seq<Dir>, name: Name): Option<Dir> {
    if cs == [] then None else
      var before := FirstNamed(cs[..|cs| - 1], name);
      if before.Some? then before
      else if cs[|cs| - 1].name == name then Some(cs[|cs| - 1]) else None
  }

  /** The block taken for the directory called name in the directory at addr. */
  function Kid(dirs: seq<Dir>, addr: Word, name: Name): Option<Dir> {
    FirstNamed(Children(dirs, addr), name)
  }

  function Join(path: Name, name: Name): Name {
    path + [DOT] + name
  }

  /** What a walk does with one entry of the directory it is expanding, whose block, if any, is kid. */
  function TakeEntry(kid: Option<Dir>, f: Frame, e: Entry, s: State): State {
    var p := Join(f.path, e.name);
    if !e.isdir then s.(paths := s.paths[p := e])
    else if kid.None? then s
    else s.(fragBase := Note(s.fragBase, e.ind, kid.value.block), paths := s.paths[p := e],
            stack := s.stack + [Frame(kid.value, e.ind, p)])
  }

  function TakeEntries(dirs: seq<Dir>, f: Frame, n: nat, s: State): State
    requires n <= |f.d.ents|
  {
    if n == 0 then s
    else
      var e := f.d.ents[n - 1];
      TakeEntry(Kid(dirs, f.addr, e.name), f, e, TakeEntries(dirs, f, n - 1, s))
  }

  function Pop(s: State): State
    requires s.stack != []
  {
    s.(stack := s.stack[..|s.stack| - 1])
  }

  function Mark(f: Frame, s: State): State {
    s.(seen := s.seen + {f.addr}, expanded := s.expanded + [f])
  }

  function Expand(dirs: seq<Dir>, f: Frame, s: State): State {
    TakeEntries(dirs, f, |f.d.ents|, Mark(f, s))
  }

  /** Every address an entry gives, and the root's. */
  ghost function Addresses(dirs: seq<Dir>, root: Dir): set<Word> {
    {root.parent} + set d, e | d in dirs && e in d.ents :: e.ind
  }

  /** The stack holds directories that were found, at addresses that were given. */
  ghost predicate Bounded(dirs: seq<Dir>, root: Dir, s: State) {
    forall i :: 0 <= i < |s.stack| ==> s.stack[i].d in dirs && s.stack[i].addr in Addresses(dirs, root)
  }

  lemma {:induction false} ChildrenMean(dirs: seq<Dir>, addr: Word, c: Dir)
    ensures c in Children(dirs, addr) <==> c in dirs && c.parent == addr
  {
    if dirs != [] {
      ChildrenMean(dirs[..|dirs| - 1], addr, c);
      assert dirs == dirs[..|dirs| - 1] + [dirs[|dirs| - 1]];
    }
  }

  lemma {:induction false} FirstNamedMeans(cs: seq<Dir>, name: Name)
    ensures var r := FirstNamed(cs, name);
            if r.Some? then r.value in cs && r.value.name == name else forall c :: c in cs ==> c.name != name
  {
    if cs != [] {
      FirstNamedMeans(cs[..|cs| - 1], name);
      assert cs == cs[..|cs| - 1] + [cs[|cs| - 1]];
    }
  }

  lemma KidMeans(dirs: seq<Dir>, addr: Word, name: Name)
    ensures var r := Kid(dirs, addr, name);
            if r.Some? then r.value in dirs && r.value.parent == addr && r.value.name == name
            else forall c :: c in dirs && c.parent == addr ==> c.name != name
  {
    FirstNamedMeans(Children(dirs, addr), name);
    forall c ensures c in Children(dirs, addr) <==> c in dirs && c.parent == addr {
      ChildrenMean(dirs, addr, c);
    }
  }

  lemma EntryStaysBounded(dirs: seq<Dir>, root: Dir, f: Frame, e: Entry, s: State)
    requires Bounded(dirs, root, s) && f.d in dirs && e in f.d.ents
    ensures Bounded(dirs, root, TakeEntry(Kid(dirs, f.addr, e.name), f, e, s))
  {
    KidMeans(dirs, f.addr, e.name);
  }

  lemma {:induction false} EntriesStayBounded(dirs: seq<Dir>, root: Dir, f: Frame, n: nat, s: State)
    requires Bounded(dirs, root, s) && f.d in dirs && n <= |f.d.ents|
    ensures Bounded(dirs, root, TakeEntries(dirs, f, n, s)) && TakeEntries(dirs, f, n, s).seen == s.seen
    ensures TakeEntries(dirs, f, n, s).expanded == s.expanded
  {
    if n > 0 {
      EntriesStayBounded(dirs, root, f, n - 1, s);
      EntryStaysBounded(dirs, root, f, f.d.ents[n - 1], TakeEntries(dirs, f, n - 1, s));
    }
  }

  lemma ExpandStaysBounded(dirs: seq<Dir>, root: Dir, s: State)
    requires Bounded(dirs, root, s) && s.stack != []
    ensures var f := s.stack[|s.stack| - 1];
            Bounded(dirs, root, Expand(dirs, f, Pop(s))) && Expand(dirs, f, Pop(s)).seen == s.seen + {f.addr}
  {
    var f := s.stack[|s.stack| - 1];
    EntriesStayBounded(dirs, root, f, |f.d.ents|, Mark(f, Pop(s)));
  }

  /** One turn of the loop: the last directory pushed is expanded, unless its address was seen before. */
  ghost function Turn(dirs: seq<Dir>, s: State): State
    requires s.stack != []
  {
    var f := s.stack[|s.stack| - 1];
    if f.addr in s.seen then Pop(s) else Expand(dirs, f, Pop(s))
  }

  lemma TurnStaysBounded(dirs: seq<Dir>, root: Dir, s: State)
    requires Bounded(dirs, root, s) && s.stack != []
    ensures Bounded(dirs, root, Turn(dirs, s))
    ensures var left, left' := Addresses(dirs, root) - s.seen, Addresses(dirs, root) - Turn(dirs, s).seen;
            left' < left || (left' == left && |Turn(dirs, s).stack| < |s.stack|)
  {
    var f := s.stack[|s.stack| - 1];
    if f.addr !in s.seen {
      ExpandStaysBounded(dirs, root, s);
      assert f.addr in Addresses(dirs, root) - s.seen;
    }
  }

  /** The rest of a walk: every turn leaves fewer addresses to see, or else a shorter stack. */
  ghost function WalkFrom(dirs: seq<Dir>, root: Dir, s: State): State
    requires Bounded(dirs, root, s)
    decreases Addresses(dirs, root) - s.seen, |s.stack|
  {
    if s.stack == [] then s
    else
      TurnStaysBounded(dirs, root, s);
      WalkFrom(dirs, root, Turn(dirs, s))
  }

  ghost function Start(root: Dir): State {
    State([Frame(root, root.parent, ROOT)], {}, Note(map[], root.parent, root.block), map[], [])
  }

  lemma StartIsBounded(dirs: seq<Dir>, root: Dir)
    requires root in dirs
    ensures Bounded(dirs, root, Start(root))
  {
  }

  /** What Volume._walk leaves when root is the root. */
  ghost function Walked(dirs: seq<Dir>, root: Dir): State
    requires root in dirs
  {
    StartIsBounded(dirs, root);
    WalkFrom(dirs, root, Start(root))
  }
}
