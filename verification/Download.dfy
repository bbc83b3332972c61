/**
 * The downloader (build.py): threads filling disjoint ranges of a file that already has its final
 * size, each with retries, and the single connection that resumes where it was dropped.
 */
module Download {
  import opened Bytes

  const DL_THREADS := 8
  const DL_ATTEMPTS := 3

  // ---- splitting the file ----

  /** A range of the file, both ends included, as a Range request names it. */
  datatype Piece = Piece(start: nat, end: int)
  {
    function Length(): int {
      end + 1 - start
    }
  }

  /** The pieces lie end to end, in order, from the first byte to the last of size. */
  ghost predicate Tiles(ps: seq<Piece>, size: nat) {
    && size == (if ps == [] then 0 else ps[|ps| - 1].end + 1)
    && forall i :: 0 <= i < |ps| ==> InPlace(ps, i)
  }

  ghost predicate InPlace(ps: seq<Piece>, i: nat)
    requires i < |ps|
  {
    ps[i].start == (if i == 0 then 0 else ps[i - 1].end + 1) <= ps[i].end
  }

  lemma OneMore(ps: seq<Piece>, size: nat, p: Piece)
    requires Tiles(ps, size) && p.start == size <= p.end
    ensures Tiles(ps + [p], p.end + 1)
  {
    forall i | 0 <= i < |ps + [p]| ensures InPlace(ps + [p], i) {
      if i < |ps| {
        assert InPlace(ps, i);
      }
    }
  }

  /** The range split: at most as many pieces as there are threads, none longer than it need be. */
  method Split(size: nat, threads: nat) returns (pieces: seq<Piece>)
    requires threads > 0
    ensures Tiles(pieces, size) && |pieces| <= threads
    ensures forall i :: 0 <= i < |pieces| ==> threads * (pieces[i].Length() - 1) < size
  {
    var chunk := (size + threads - 1) / threads;
    ChunkCovers(size, threads, chunk);
    pieces := SplitBy(size, chunk, threads);
    forall k | 0 <= k < |pieces| ensures threads * (pieces[k].Length() - 1) < size {
      LengthBound(threads, pieces[k].Length(), chunk, size);
    }
  }

  method SplitBy(size: nat, chunk: nat, threads: nat) returns (pieces: seq<Piece>)
    requires threads * chunk >= size
    ensures Tiles(pieces, size) && |pieces| <= threads
    ensures forall k :: 0 <= k < |pieces| ==> pieces[k].Length() <= chunk
  {
    pieces := [];
    ghost var done: nat := 0;
    for i := 0 to threads
      invariant |pieces| == i && Tiles(pieces, done) && done == if i * chunk < size then i * chunk else size
      invariant forall k :: 0 <= k < i ==> pieces[k].Length() <= chunk
    {
      var s := i * chunk;
      if s >= size {
        break;
      }
      var e := (if s + chunk < size then s + chunk else size) - 1;
      OneMore(pieces, done, Piece(s, e));
      pieces, done := pieces + [Piece(s, e)], e + 1;
      assert (i + 1) * chunk == s + chunk;
    }
  }

  /** download's split among its threads */
  method SplitAmongThreads(size: nat) returns (pieces: seq<Piece>)
    ensures Tiles(pieces, size) && |pieces| <= DL_THREADS
    ensures forall i :: 0 <= i < |pieces| ==> DL_THREADS * (pieces[i].Length() - 1) < size
  {
    pieces := Split(size, DL_THREADS);
  }

  lemma ChunkCovers(size: nat, threads: nat, chunk: nat)
    requires threads > 0 && chunk == (size + threads - 1) / threads
    ensures threads * chunk >= size && (size > 0 ==> threads * (chunk - 1) < size)
  {
    var n := size + threads - 1;
    assert n == threads * chunk + n % threads;
    assert threads * (chunk - 1) == threads * chunk - threads;
  }

  lemma LengthBound(threads: nat, length: int, chunk: int, size: nat)
    requires length <= chunk && threads * (chunk - 1) < size
    ensures threads * (length - 1) < size
  {
    assert threads * (length - 1) <= threads * (chunk - 1);
  }

  ghost predicate Inside(a: nat, p: Piece) {
    p.start <= a <= p.end
  }

  lemma {:induction false} Ordered(ps: seq<Piece>, size: nat, i: nat, j: nat)
    requires Tiles(ps, size) && i < j < |ps|
    ensures ps[i].end < ps[j].start
  {
    assert InPlace(ps, j) && InPlace(ps, j - 1);
    if i < j - 1 {
      Ordered(ps, size, i, j - 1);
    }
  }

  lemma {:induction false} SomePiece(ps: seq<Piece>, size: nat, a: nat, n: nat) returns (i: nat)
    requires Tiles(ps, size) && 0 < n <= |ps| && a <= ps[n - 1].end
    ensures i < |ps| && Inside(a, ps[i])
  {
    assert InPlace(ps, n - 1);
    if a >= ps[n - 1].start {
      i := n - 1;
    } else {
      i := SomePiece(ps, size, a, n - 1);
    }
  }

  /** Every byte of the file is in exactly one piece. */
  lemma Partition(ps: seq<Piece>, size: nat, a: nat) returns (i: nat)
    requires Tiles(ps, size) && a < size
    ensures i < |ps| && Inside(a, ps[i])
    ensures forall j :: 0 <= j < |ps| && Inside(a, ps[j]) ==> j == i
  {
    i := SomePiece(ps, size, a, |ps|);
    forall j | 0 <= j < |ps| && Inside(a, ps[j]) ensures j == i {
      if i < j {
        Ordered(ps, size, i, j);
      } else if j < i {
        Ordered(ps, size, j, i);
      }
    }
  }

  // ---- the threads ----

  /** s from pos on becomes buf. */
  function Overwrite(s: seq<Byte>, pos: nat, buf: seq<Byte>): (s': seq<Byte>)
    requires pos + |buf| <= |s|
    ensures |s'| == |s|
  {
    s[..pos] + buf + s[pos + |buf|..]
  }

  /** A thread in its attempt, with so many bytes written, or one whose _download_chunk is over. */
  datatype Worker = Working(attempt: nat, written: nat) | Returned | Raised

  datatype State = State(file: seq<Byte>, workers: seq<Worker>)

  datatype Event =
    | Received(i: nat, buf: seq<Byte>) // resp.read gave buf, and it is written
    | Ended(i: nat)                    // resp.read gave nothing
    | Failed(i: nat)                   // connecting or reading raised

  function Retry(attempt: nat): Worker {
    if attempt + 1 < DL_ATTEMPTS then Working(attempt + 1, 0) else Raised
  }

  /** The server sends what was asked for, in order, and may stop anywhere. */
  ghost predicate Allowed(content: seq<Byte>, ps: seq<Piece>, s: State, e: Event) {
    && e.i < |ps| == |s.workers| && s.workers[e.i].Working?
    && (e.Received? ==>
          var at := ps[e.i].start + s.workers[e.i].written;
          at + |e.buf| <= ps[e.i].end + 1 <= |content| && content[at..at + |e.buf|] == e.buf)
  }

  ghost function Step(content: seq<Byte>, ps: seq<Piece>, s: State, e: Event): State
    requires Allowed(content, ps, s, e) && |s.file| == |content|
  {
    var w := s.workers[e.i];
    match e
    case Received(i, buf) =>
      State(Overwrite(s.file, ps[i].start + w.written, buf),
            s.workers[i := Working(w.attempt, w.written + |buf|)])
    case Ended(i) =>
      s.(workers := s.workers[i := if w.written == ps[i].Length() then Returned else Retry(w.attempt)])
    case Failed(i) =>
      s.(workers := s.workers[i := Retry(w.attempt)])
  }

  /** How much of its piece a thread has certainly filled. */
  ghost function Filled(p: Piece, w: Worker): int {
    match w
    case Working(_, written) => written
    case Returned => p.Length()
    case Raised => 0
  }

  ghost predicate Fills(content: seq<Byte>, file: seq<Byte>, p: Piece, w: Worker) {
    var to := p.start + Filled(p, w);
    && p.start <= to <= p.end + 1 <= |content| == |file| && file[p.start..to] == content[p.start..to]
    && (w.Working? ==> w.attempt < DL_ATTEMPTS)
  }

  ghost predicate Good(content: seq<Byte>, ps: seq<Piece>, s: State) {
    && |s.file| == |content| && |s.workers| == |ps|
    && forall i :: 0 <= i < |ps| ==> Fills(content, s.file, ps[i], s.workers[i])
  }

  ghost predicate Settled(s: State) {
    forall i :: 0 <= i < |s.workers| ==> !s.workers[i].Working?
  }

  ghost predicate AllReturned(s: State) {
    forall i :: 0 <= i < |s.workers| ==> s.workers[i].Returned?
  }

  /** The file has its size before any thread starts. */
  ghost function Start(ps: seq<Piece>, size: nat): State {
    State(Zeros(size), seq(|ps|, _ => Working(0, 0)))
  }

  lemma EndsInside(ps: seq<Piece>, size: nat, i: nat)
    requires Tiles(ps, size) && i < |ps|
    ensures ps[i].end < size
  {
    assert InPlace(ps, |ps| - 1);
    if i < |ps| - 1 {
      Ordered(ps, size, i, |ps| - 1);
    }
  }

  lemma StartIsGood(content: seq<Byte>, ps: seq<Piece>)
    requires Tiles(ps, |content|)
    ensures Good(content, ps, Start(ps, |content|))
  {
    forall i | 0 <= i < |ps| ensures ps[i].start <= ps[i].end < |content| {
      assert InPlace(ps, i);
      EndsInside(ps, |content|, i);
    }
  }

  /** A write to one piece leaves the others as they were. */
  lemma OtherPieceKept(file: seq<Byte>, pos: nat, buf: seq<Byte>, from: nat, to: nat)
    requires pos + |buf| <= |file| && from <= to <= |file| && (to <= pos || pos + |buf| <= from)
    ensures Overwrite(file, pos, buf)[from..to] == file[from..to]
  {
  }

  lemma OwnPieceGrows(content: seq<Byte>, file: seq<Byte>, from: nat, pos: nat, buf: seq<Byte>)
    requires from <= pos && pos + |buf| <= |file| == |content|
    requires file[from..pos] == content[from..pos] && content[pos..pos + |buf|] == buf
    ensures Overwrite(file, pos, buf)[from..pos + |buf|] == content[from..pos + |buf|]
  {
    var file' := Overwrite(file, pos, buf);
    assert file'[from..pos + |buf|] == file[from..pos] + buf;
    assert content[from..pos + |buf|] == content[from..pos] + content[pos..pos + |buf|];
  }

  lemma ReceivedKeeps(content: seq<Byte>, ps: seq<Piece>, s: State, i: nat, buf: seq<Byte>, j: nat)
    requires Tiles(ps, |content|) && Good(content, ps, s) && Allowed(content, ps, s, Received(i, buf)) && j < |ps|
    ensures var s' := Step(content, ps, s, Received(i, buf)); Fills(content, s'.file, ps[j], s'.workers[j])
  {
    var pos := ps[i].start + s.workers[i].written;
    assert Fills(content, s.file, ps[i], s.workers[i]);
    assert Fills(content, s.file, ps[j], s.workers[j]);
    if i == j {
      OwnPieceGrows(content, s.file, ps[i].start, pos, buf);
    } else {
      if i < j {
        Ordered(ps, |content|, i, j);
      } else {
        Ordered(ps, |content|, j, i);
      }
      OtherPieceKept(s.file, pos, buf, ps[j].start, ps[j].start + Filled(ps[j], s.workers[j]));
    }
  }

  lemma StepKeeps(content: seq<Byte>, ps: seq<Piece>, s: State, e: Event)
    requires Tiles(ps, |content|) && Good(content, ps, s) && Allowed(content, ps, s, e)
    ensures Good(content, ps, Step(content, ps, s, e))
  {
    var s' := Step(content, ps, s, e);
    forall j | 0 <= j < |ps| ensures Fills(content, s'.file, ps[j], s'.workers[j]) {
      assert Fills(content, s.file, ps[j], s.workers[j]);
      match e
      case Received(i, buf) => ReceivedKeeps(content, ps, s, i, buf, j);
      case _ =>
    }
  }

  ghost predicate AllowedRun(content: seq<Byte>, ps: seq<Piece>, s: State, es: seq<Event>)
    requires |s.file| == |content|
    decreases es
  {
    es == [] || (Allowed(content, ps, s, es[0]) && AllowedRun(content, ps, Step(content, ps, s, es[0]), es[1..]))
  }

  ghost function After(content: seq<Byte>, ps: seq<Piece>, s: State, es: seq<Event>): State
    requires |s.file| == |content| && AllowedRun(content, ps, s, es)
    decreases es
  {
    if es == [] then s else After(content, ps, Step(content, ps, s, es[0]), es[1..])
  }

  lemma {:induction false} RunKeeps(content: seq<Byte>, ps: seq<Piece>, s: State, es: seq<Event>)
    requires Tiles(ps, |content|) && Good(content, ps, s) && AllowedRun(content, ps, s, es)
    ensures Good(content, ps, After(content, ps, s, es))
    decreases es
  {
    if es != [] {
      StepKeeps(content, ps, s, es[0]);
      RunKeeps(content, ps, Step(content, ps, s, es[0]), es[1..]);
    }
  }

  lemma AllFilled(content: seq<Byte>, ps: seq<Piece>, s: State)
    requires Tiles(ps, |content|) && Good(content, ps, s) && AllReturned(s)
    ensures s.file == content
  {
    forall a | 0 <= a < |content| ensures s.file[a] == content[a] {
      var i := Partition(ps, |content|, a);
      var p := ps[i];
      assert Fills(content, s.file, p, s.workers[i]);
      assert s.file[p.start..p.end + 1][a - p.start] == content[p.start..p.end + 1][a - p.start];
    }
  }

  /**
   * Whatever way the threads' reads, drops and retries interleave, if every one of them returns
   * then the file is the content.
   */
  lemma ParallelIsExact(content: seq<Byte>, ps: seq<Piece>, es: seq<Event>)
    requires Tiles(ps, |content|) && AllowedRun(content, ps, Start(ps, |content|), es)
    requires AllReturned(After(content, ps, Start(ps, |content|), es))
    ensures After(content, ps, Start(ps, |content|), es).file == content
  {
    StartIsGood(content, ps);
    RunKeeps(content, ps, Start(ps, |content|), es);
    AllFilled(content, ps, After(content, ps, Start(ps, |content|), es));
  }

  /** What is left to happen: the bytes a thread may still receive, and its attempts. */
  ghost function Budget(p: Piece, w: Worker): int {
    if w.Working? then (DL_ATTEMPTS - w.attempt) * (p.Length() + 1) - w.written else 0
  }

  lemma BudgetShrinks(content: seq<Byte>, ps: seq<Piece>, s: State, e: Event)
    requires Tiles(ps, |content|) && Good(content, ps, s) && Allowed(content, ps, s, e)
    requires e.Received? ==> e.buf != []
    ensures Budget(ps[e.i], Step(content, ps, s, e).workers[e.i]) < Budget(ps[e.i], s.workers[e.i])
  {
    var p, w := ps[e.i], s.workers[e.i];
    assert Fills(content, s.file, p, w);
    assert (DL_ATTEMPTS - w.attempt) * (p.Length() + 1)
        == (DL_ATTEMPTS - w.attempt - 1) * (p.Length() + 1) + p.Length() + 1;
  }

  /** The budgets of the first n threads together. */
  ghost function Total(ps: seq<Piece>, ws: seq<Worker>, n: nat): int
    requires n <= |ps| == |ws|
  {
    if n == 0 then 0 else Total(ps, ws, n - 1) + Budget(ps[n - 1], ws[n - 1])
  }

  lemma {:induction false} TotalOfUpdate(ps: seq<Piece>, ws: seq<Worker>, i: nat, w: Worker, n: nat)
    requires n <= |ps| == |ws| && i < |ws|
    ensures Total(ps, ws[i := w], n)
         == Total(ps, ws, n) + if i < n then Budget(ps[i], w) - Budget(ps[i], ws[i]) else 0
  {
    if n > 0 {
      TotalOfUpdate(ps, ws, i, w, n - 1);
    }
  }

  lemma {:induction false} TotalIsNat(content: seq<Byte>, ps: seq<Piece>, s: State, n: nat)
    requires Good(content, ps, s) && n <= |ps|
    ensures Total(ps, s.workers, n) >= 0
  {
    if n > 0 {
      var p, w := ps[n - 1], s.workers[n - 1];
      assert Fills(content, s.file, p, w);
      if w.Working? {
        assert (DL_ATTEMPTS - w.attempt) * (p.Length() + 1) >= p.Length() + 1;
      }
      TotalIsNat(content, ps, s, n - 1);
    }
  }

  /** No run goes on for ever: as long as no read is empty, its length is within the threads' budgets. */
  lemma {:induction false} RunsEnd(content: seq<Byte>, ps: seq<Piece>, s: State, es: seq<Event>)
    requires Tiles(ps, |content|) && Good(content, ps, s) && AllowedRun(content, ps, s, es)
    requires forall k :: 0 <= k < |es| ==> (es[k].Received? ==> es[k].buf != [])
    ensures |es| <= Total(ps, s.workers, |ps|)
    decreases es
  {
    if es == [] {
      TotalIsNat(content, ps, s, |ps|);
    } else {
      var s' := Step(content, ps, s, es[0]);
      StepKeeps(content, ps, s, es[0]);
      BudgetShrinks(content, ps, s, es[0]);
      TotalOfUpdate(ps, s.workers, es[0].i, s'.workers[es[0].i], |ps|);
      assert s'.workers == s.workers[es[0].i := s'.workers[es[0].i]];
      RunsEnd(content, ps, s', es[1..]);
    }
  }

  // ---- one thread ----

  type Buf = s: seq<Byte> | |s| > 0 witness [0]

  /** What a connection delivers, read by read, and whether it then raises. */
  datatype Response = Response(bufs: seq<Buf>, broken: bool)
  {
    ghost function Body(): seq<Byte> {
      Concat(bufs)
    }
  }

  ghost predicate IsPrefix(s: seq<Byte>, whole: seq<Byte>) {
    |s| <= |whole| && s == whole[..|s|]
  }

  /** An attempt that makes _download_chunk return. */
  ghost predicate Whole(r: Response, length: nat) {
    !r.broken && |r.Body()| == length
  }

  lemma PrefixGrows(bufs: seq<Buf>, k: nat, whole: seq<Byte>)
    requires k < |bufs| && IsPrefix(Concat(bufs), whole)
    ensures |Concat(bufs[..k + 1])| == |Concat(bufs[..k])| + |bufs[k]| <= |whole|
    ensures whole[|Concat(bufs[..k])|..|Concat(bufs[..k + 1])|] == bufs[k]
  {
    var a, b := bufs[..k], bufs[k + 1..];
    assert bufs[..k + 1] == a + [bufs[k]] && bufs == bufs[..k + 1] + b;
    ConcatSnoc(a, bufs[k]);
    ConcatAppend(bufs[..k + 1], b);
    assert whole[|Concat(a)|..|Concat(bufs[..k + 1])|] == Concat(bufs)[|Concat(a)|..|Concat(bufs[..k + 1])|];
  }

  method WriteAt(file: array<Byte>, pos: nat, buf: seq<Byte>)
    requires pos + |buf| <= file.Length
    modifies file
    ensures file[..] == Overwrite(old(file[..]), pos, buf)
  {
    for i := 0 to |buf|
      invariant file[..] == old(file[..pos]) + buf[..i] + old(file[pos + i..])
    {
      file[pos + i] := buf[i];
    }
    assert buf[..|buf|] == buf;
  }

  /** So much of piece p has been filled in, and nothing else has changed. */
  ghost predicate FilledUpTo(was: seq<Byte>, file: seq<Byte>, content: seq<Byte>, p: Piece, written: nat) {
    var pos := p.start + written;
    && pos <= p.end + 1 <= |content| == |was| == |file|
    && file[p.start..pos] == content[p.start..pos] && file[..p.start] == was[..p.start] && file[pos..] == was[pos..]
  }

  lemma FillsOn(was: seq<Byte>, file: seq<Byte>, content: seq<Byte>, p: Piece, written: nat, buf: seq<Byte>)
    requires FilledUpTo(was, file, content, p, written) && p.start + written + |buf| <= p.end + 1
    requires content[p.start..p.end + 1][written..written + |buf|] == buf
    ensures FilledUpTo(was, Overwrite(file, p.start + written, buf), content, p, written + |buf|)
  {
    var pos, to := p.start + written, p.start + written + |buf|;
    SliceOfSlice(content, p.start, p.end + 1, written, written + |buf|);
    OwnPieceGrows(content, file, p.start, pos, buf);
    assert Overwrite(file, pos, buf)[to..] == file[pos..][|buf|..];
    assert was[to..] == was[pos..][|buf|..];
    OtherPieceKept(file, pos, buf, 0, p.start);
  }

  /** One connection's worth of writing. */
  method Attempt(file: array<Byte>, ghost content: seq<Byte>, p: Piece, r: Response) returns (written: nat)
    requires p.start <= p.end < |content| == file.Length
    requires IsPrefix(r.Body(), content[p.start..p.end + 1])
    modifies file
    ensures written == |r.Body()| && FilledUpTo(old(file[..]), file[..], content, p, written)
  {
    written := 0;
    for k := 0 to |r.bufs|
      invariant written == |Concat(r.bufs[..k])|
      invariant FilledUpTo(old(file[..]), file[..], content, p, written)
    {
      PrefixGrows(r.bufs, k, content[p.start..p.end + 1]);
      FillsOn(old(file[..]), file[..], content, p, written, r.bufs[k]);
      WriteAt(file, p.start + written, r.bufs[k]);
      written := written + |r.bufs[k]|;
    }
    assert r.bufs[..|r.bufs|] == r.bufs;
  }

  lemma TailKept(was: seq<Byte>, file: seq<Byte>, pos: nat, to: nat)
    requires pos <= to <= |was| == |file| && file[pos..] == was[pos..]
    ensures file[to..] == was[to..]
  {
    assert file[to..] == file[pos..][to - pos..];
  }

  /**
   * _download_chunk: it returns, with its range filled in, exactly when some attempt is whole,
   * and no byte outside the range is touched.
   */
  method DownloadChunk(file: array<Byte>, ghost content: seq<Byte>, p: Piece, server: nat -> Response) returns (ok: bool)
    requires p.start <= p.end < |content| == file.Length
    requires forall a: nat :: IsPrefix(server(a).Body(), content[p.start..p.end + 1])
    modifies file
    ensures ok <==> exists a: nat :: a < DL_ATTEMPTS && Whole(server(a), p.Length())
    ensures ok ==> file[p.start..p.end + 1] == content[p.start..p.end + 1]
    ensures file[..p.start] == old(file[..p.start]) && file[p.end + 1..] == old(file[p.end + 1..])
  {
    ok := false;
    for attempt := 0 to DL_ATTEMPTS
      invariant forall a: nat :: a < attempt ==> !Whole(server(a), p.Length())
      invariant file[..p.start] == old(file[..p.start]) && file[p.end + 1..] == old(file[p.end + 1..])
    {
      var r := server(attempt);
      ghost var before := file[..];
      var written := Attempt(file, content, p, r);
      TailKept(before, file[..], p.start + written, p.end + 1);
      if !r.broken && written == p.Length() {
        assert Whole(server(attempt), p.Length());
        return true;
      }
    }
  }

  // ---- resuming ----

  datatype Outcome = Complete(file: seq<Byte>) | Stalled(file: seq<Byte>)

  /** What the server answers in each round to a request from byte got on. */
  type Server = (nat, nat) -> Response

  /** _download_resume, with file received so far and so many rounds without progress. */
  ghost function Resume(server: Server, round: nat, file: seq<Byte>, total: nat, stalls: nat): Outcome
    requires stalls < DL_ATTEMPTS
    decreases total - |file|, DL_ATTEMPTS - stalls
  {
    if |file| >= total then Complete(file)
    else
      var body := server(round, |file|).Body();
      if body != [] then Resume(server, round + 1, file + body, total, 0)
      else if stalls + 1 >= DL_ATTEMPTS then Stalled(file)
      else Resume(server, round + 1, file, total, stalls + 1)
  }

  ghost predicate HonoursRanges(server: Server, content: seq<Byte>) {
    forall round: nat, got: nat :: got <= |content| ==> IsPrefix(server(round, got).Body(), content[got..])
  }

  ghost predicate Quiet(server: Server, round: nat, got: nat) {
    server(round, got).Body() == []
  }

  /** Rounds from round on, so many of them, that bring nothing. */
  ghost predicate Silent(server: Server, round: nat, count: nat, got: nat) {
    forall k: nat :: round <= k < round + count ==> Quiet(server, k, got)
  }

  ghost predicate SilentSomewhere(server: Server, got: nat) {
    exists round: nat :: Silent(server, round, DL_ATTEMPTS, got)
  }

  lemma PrefixExtends(file: seq<Byte>, body: seq<Byte>, content: seq<Byte>)
    requires IsPrefix(file, content) && IsPrefix(body, content[|file|..])
    ensures IsPrefix(file + body, content)
  {
    assert content[..|file| + |body|] == content[..|file|] + content[|file|..][..|body|];
  }

  /**
   * Against a server that honours ranges and drops connections as it likes, the file is complete
   * and is the content, or DL_ATTEMPTS rounds running brought nothing.
   */
  lemma {:induction false} ResumeIsExact(server: Server, content: seq<Byte>, round: nat, file: seq<Byte>, stalls: nat)
    requires HonoursRanges(server, content) && IsPrefix(file, content) && stalls < DL_ATTEMPTS
    requires stalls <= round && Silent(server, round - stalls, stalls, |file|)
    ensures match Resume(server, round, file, |content|, stalls)
            case Complete(f) => f == content
            case Stalled(f) => IsPrefix(f, content) && |f| < |content| && SilentSomewhere(server, |f|)
    decreases |content| - |file|, DL_ATTEMPTS - stalls
  {
    if |file| >= |content| {
      assert file == content;
    } else {
      var body := server(round, |file|).Body();
      assert IsPrefix(body, content[|file|..]);
      if body != [] {
        PrefixExtends(file, body, content);
        ResumeIsExact(server, content, round + 1, file + body, 0);
      } else {
        assert Quiet(server, round, |file|);
        assert Silent(server, round - stalls, stalls + 1, |file|);
        if stalls + 1 < DL_ATTEMPTS {
          ResumeIsExact(server, content, round + 1, file, stalls + 1);
        }
      }
    }
  }

  lemma ResumeRound(server: Server, round: nat, file: seq<Byte>, total: nat, stalls: nat)
    requires stalls < DL_ATTEMPTS && |file| < total
    ensures var file' := file + server(round, |file|).Body();
            Resume(server, round, file, total, stalls)
            == if |file'| > |file| then Resume(server, round + 1, file', total, 0)
               else if stalls + 1 >= DL_ATTEMPTS then Stalled(file')
               else Resume(server, round + 1, file', total, stalls + 1)
  {
    assert file + [] == file;
  }

  class LocalFile {
    var bytes: seq<Byte>

    constructor ()
      ensures bytes == []
    {
      bytes := [];
    }

    /** Writing at pos, over what is there and past it. */
    method Write(pos: nat, buf: seq<Byte>)
      requires pos <= |bytes|
      modifies this
      ensures bytes == old(bytes[..pos]) + buf + (if pos + |buf| < old(|bytes|) then old(bytes)[pos + |buf|..] else [])
    {
      bytes := bytes[..pos] + buf + (if pos + |buf| < |bytes| then bytes[pos + |buf|..] else []);
    }

    /** One connection, from got on. */
    method TakeRound(got: nat, r: Response) returns (got': nat)
      requires got == |bytes|
      modifies this
      ensures bytes == old(bytes) + r.Body() && got' == |bytes|
    {
      got' := got;
      for k := 0 to |r.bufs|
        invariant bytes == old(bytes) + Concat(r.bufs[..k]) && got' == |bytes|
      {
        assert r.bufs[..k + 1] == r.bufs[..k] + [r.bufs[k]];
        ConcatSnoc(r.bufs[..k], r.bufs[k]);
        Write(got', r.bufs[k]);
        got' := got' + |r.bufs[k]|;
      }
      assert r.bufs[..|r.bufs|] == r.bufs;
    }

    /** _download_resume; it raises when ok is false */
    method DownloadResume(server: Server, total: nat) returns (ok: bool)
      modifies this
      ensures Resume(server, 0, [], total, 0) == if ok then Complete(bytes) else Stalled(bytes)
    {
      bytes := [];
      var got, stalls := 0, 0;
      var round := 0;
      while got < total
        invariant got == |bytes| && stalls < DL_ATTEMPTS
        invariant Resume(server, 0, [], total, 0) == Resume(server, round, bytes, total, stalls)
        decreases total - got, DL_ATTEMPTS - stalls
      {
        var start := got;
        ResumeRound(server, round, bytes, total, stalls);
        got := TakeRound(got, server(round, got));
        round := round + 1;
        if got > start {
          stalls := 0;
        } else {
          stalls := stalls + 1;
          if stalls >= DL_ATTEMPTS {
            return false;
          }
        }
      }
      ok := true;
    }
  }

  // ---- the whole download ----

  /** The threads first, and one resuming connection if any of them raised. */
  ghost function Fetch(content: seq<Byte>, ps: seq<Piece>, es: seq<Event>, server: Server): Outcome
    requires AllowedRun(content, ps, Start(ps, |content|), es)
  {
    var s := After(content, ps, Start(ps, |content|), es);
    if AllReturned(s) then Complete(s.file) else Resume(server, 0, [], |content|, 0)
  }

  /** download returns with the file equal to the content, or fails after DL_ATTEMPTS silent rounds. */
  lemma FetchIsExact(content: seq<Byte>, ps: seq<Piece>, es: seq<Event>, server: Server)
    requires Tiles(ps, |content|) && AllowedRun(content, ps, Start(ps, |content|), es)
    requires Settled(After(content, ps, Start(ps, |content|), es)) && HonoursRanges(server, content)
    ensures match Fetch(content, ps, es, server)
            case Complete(f) => f == content
            case Stalled(f) => |f| < |content| && SilentSomewhere(server, |f|)
  {
    if AllReturned(After(content, ps, Start(ps, |content|), es)) {
      ParallelIsExact(content, ps, es);
    } else {
      ResumeIsExact(server, content, 0, [], 0);
    }
  }
}
