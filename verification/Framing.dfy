/**
 * Incremental decoding of a byte stream, for any framing of the bytes into items.
 *
 * A framer says which item stands at the front of some bytes. Decode is the meaning of a stretch
 * of bytes: the payload it carries, the replies it provokes, and the tail that is not yet a whole
 * item. Conn is a receiving object with a decode buffer, together with what its peer has still to
 * deliver; the steps on it are those of class Telnet in files/anyvmd.py.
 */
module Framing {
  import opened Bytes

  type Octet = bv8

  datatype Item = Partial | Whole(size: nat, payload: seq<Octet>, reply: seq<Octet>)

  type Framer = seq<Octet> -> Item

  predicate WholeIn(item: Item, s: seq<Octet>) {
    item.Whole? && 0 < item.size <= |s|
  }

  datatype Decoded = Decoded(payload: seq<Octet>, reply: seq<Octet>, tail: seq<Octet>) {
    function After(earlierPayload: seq<Octet>, earlierReply: seq<Octet>): Decoded {
      Decoded(earlierPayload + payload, earlierReply + reply, tail)
    }
  }

  function Decode(front: Framer, s: seq<Octet>): Decoded {
    if !WholeIn(front(s), s) then Decoded([], [], s)
    else Decode(front, s[front(s).size..]).After(front(s).payload, front(s).reply)
  }

  /** Bytes that arrive later never change an item that is already whole. */
  ghost predicate Stable(front: Framer) {
    forall a: seq<Octet>, b: seq<Octet> :: WholeIn(front(a), a) ==> front(a + b) == front(a)
  }

  lemma {:induction false} TailIsHeld(front: Framer, s: seq<Octet>)
    ensures var tail := Decode(front, s).tail; !WholeIn(front(tail), tail)
    decreases |s|
  {
    if WholeIn(front(s), s) {
      TailIsHeld(front, s[front(s).size..]);
    }
  }

  lemma AfterTwice(d: Decoded, p: seq<Octet>, r: seq<Octet>, p': seq<Octet>, r': seq<Octet>)
    ensures d.After(p', r').After(p, r) == d.After(p + p', r + r')
  {
    assert p + (p' + d.payload) == (p + p') + d.payload;
    assert r + (r' + d.reply) == (r + r') + d.reply;
  }

  /** Decoding may stop anywhere and resume from the tail it held back. */
  lemma {:induction false} DecodeInTwo(front: Framer, a: seq<Octet>, b: seq<Octet>)
    requires Stable(front)
    ensures var d := Decode(front, a);
            Decode(front, a + b) == Decode(front, d.tail + b).After(d.payload, d.reply)
    decreases |a|
  {
    var item := front(a);
    if WholeIn(item, a) {
      var rest := a[item.size..];
      assert (a + b)[item.size..] == rest + b;
      DecodeInTwo(front, rest, b);
      var d := Decode(front, rest);
      AfterTwice(Decode(front, d.tail + b), item.payload, item.reply, d.payload, d.reply);
    }
  }

  /** out and reply are what data[..i] means; the rest of data is still to be decoded. */
  ghost predicate DecodedUpTo(front: Framer, data: seq<Octet>, i: nat, out: seq<Octet>, reply: seq<Octet>) {
    i <= |data| && Decode(front, data) == Decode(front, data[i..]).After(out, reply)
  }

  lemma StartDecoding(front: Framer, data: seq<Octet>)
    ensures DecodedUpTo(front, data, 0, [], [])
  {
    assert data[0..] == data;
  }

  lemma StepOver(front: Framer, data: seq<Octet>, i: nat, out: seq<Octet>, reply: seq<Octet>, item: Item)
    requires DecodedUpTo(front, data, i, out, reply)
    requires item == front(data[i..]) && WholeIn(item, data[i..])
    ensures DecodedUpTo(front, data, i + item.size, out + item.payload, reply + item.reply)
  {
    var s := data[i..];
    assert s[item.size..] == data[i + item.size..];
    AfterTwice(Decode(front, s[item.size..]), out, reply, item.payload, item.reply);
  }

  lemma StopShort(front: Framer, data: seq<Octet>, i: nat, out: seq<Octet>, reply: seq<Octet>)
    requires DecodedUpTo(front, data, i, out, reply) && !WholeIn(front(data[i..]), data[i..])
    ensures Decode(front, data) == Decoded(out, reply, data[i..])
  {
  }

  lemma DoneDecoding(front: Framer, data: seq<Octet>, out: seq<Octet>, reply: seq<Octet>)
    requires DecodedUpTo(front, data, |data|, out, reply) && !WholeIn(front([]), [])
    ensures Decode(front, data) == Decoded(out, reply, [])
  {
    assert data[|data|..] == [];
  }

  // ---- receiving ----

  const LF: Octet := 10
  const CR: Octet := 13
  const NUL: Octet := 0

  /** What one recv call produces; an empty chunk is an orderly close. */
  datatype Recv = Chunk(data: seq<Octet>) | Failed

  datatype Conn = Conn(
    buf: seq<Octet>, raw: seq<Octet>, eof: bool,
    inbox: seq<Recv>, sent: seq<Octet>, writable: bool)

  function Send(c: Conn, data: seq<Octet>): Conn {
    if c.writable then c.(sent := c.sent + data) else c
  }

  /** One recv and as much decoding as it allows. */
  function FillStep(front: Framer, c: Conn): Conn {
    if c.inbox == [] || c.inbox[0] == Chunk([]) then
      c.(buf := c.buf + c.raw, raw := [], eof := true,
         inbox := if c.inbox == [] then [] else c.inbox[1..])
    else if c.inbox[0].Failed? then
      c.(eof := true, inbox := c.inbox[1..])
    else
      var d := Decode(front, c.raw + c.inbox[0].data);
      Send(c.(buf := c.buf + d.payload, raw := d.tail, inbox := c.inbox[1..]), d.reply)
  }

  /** Payload that has not reached buf yet. */
  function Pending(front: Framer, raw: seq<Octet>, inbox: seq<Recv>): seq<Octet>
    decreases inbox
  {
    if inbox == [] || inbox[0] == Chunk([]) then raw
    else if inbox[0].Failed? then []
    else
      var d := Decode(front, raw + inbox[0].data);
      d.payload + Pending(front, d.tail, inbox[1..])
  }

  function Stream(front: Framer, c: Conn): seq<Octet> {
    c.buf + if c.eof then [] else Pending(front, c.raw, c.inbox)
  }

  lemma FillKeepsStream(front: Framer, c: Conn)
    requires !c.eof
    ensures Stream(front, FillStep(front, c)) == Stream(front, c)
  {
    if c.inbox != [] && c.inbox[0].Chunk? && c.inbox[0] != Chunk([]) {
      var d := Decode(front, c.raw + c.inbox[0].data);
      assert (c.buf + d.payload) + Pending(front, d.tail, c.inbox[1..])
          == c.buf + (d.payload + Pending(front, d.tail, c.inbox[1..]));
    }
  }

  function FillsLeft(c: Conn): nat {
    |c.inbox| + if c.eof then 0 else 1
  }

  // ---- recv boundaries do not matter ----

  function Fills(front: Framer, c: Conn, k: nat): Conn {
    if k == 0 then c else FillStep(front, Fills(front, c, k - 1))
  }

  function AsChunks(cs: seq<seq<Octet>>): (inbox: seq<Recv>)
    ensures |inbox| == |cs| && forall i :: 0 <= i < |cs| ==> inbox[i] == Chunk(cs[i])
  {
    seq(|cs|, i requires 0 <= i < |cs| => Chunk(cs[i]))
  }

  /** A fresh connection whose peer sends cs and then closes. */
  function Open(cs: seq<seq<Octet>>): Conn {
    Conn([], [], false, AsChunks(cs), [], true)
  }

  lemma OneFill(front: Framer, c: Conn, before: seq<Octet>, chunk: seq<Octet>)
    requires Stable(front)
    requires chunk != [] && c.inbox != [] && c.inbox[0] == Chunk(chunk) && !c.eof && c.writable
    requires var d := Decode(front, before);
             c.buf == d.payload && c.raw == d.tail && c.sent == d.reply
    ensures var d := Decode(front, before + chunk);
            FillStep(front, c) == Conn(d.payload, d.tail, false, c.inbox[1..], d.reply, true)
  {
    DecodeInTwo(front, before, chunk);
  }

  /** After any number of recvs the object is what a one-shot decode of the bytes so far makes it. */
  lemma {:induction false} FillsDecodePrefix(front: Framer, cs: seq<seq<Octet>>, k: nat)
    requires Stable(front) && k <= |cs| && [] !in cs
    ensures var d := Decode(front, Concat(cs[..k]));
            Fills(front, Open(cs), k) == Conn(d.payload, d.tail, false, AsChunks(cs)[k..], d.reply, true)
  {
    if k > 0 {
      FillsDecodePrefix(front, cs, k - 1);
      assert cs[..k] == cs[..k - 1] + [cs[k - 1]];
      ConcatSnoc(cs[..k - 1], cs[k - 1]);
      assert cs[k - 1] in cs;
      assert AsChunks(cs)[k - 1..][1..] == AsChunks(cs)[k..];
      OneFill(front, Fills(front, Open(cs), k - 1), Concat(cs[..k - 1]), cs[k - 1]);
    }
  }

  lemma {:induction false} PendingOfChunks(front: Framer, raw: seq<Octet>, cs: seq<seq<Octet>>)
    requires Stable(front) && [] !in cs && !WholeIn(front(raw), raw)
    ensures var d := Decode(front, raw + Concat(cs));
            Pending(front, raw, AsChunks(cs)) == d.payload + d.tail
    decreases |cs|
  {
    if cs == [] {
      assert raw + [] == raw;
    } else {
      var x, rest := cs[0], cs[1..];
      assert x in cs && AsChunks(cs)[1..] == AsChunks(rest);
      var d := Decode(front, raw + x);
      TailIsHeld(front, raw + x);
      PendingOfChunks(front, d.tail, rest);
      Assoc(raw, x, Concat(rest));
      DecodeInTwo(front, raw + x, Concat(rest));
      var e := Decode(front, d.tail + Concat(rest));
      Assoc(d.payload, e.payload, e.tail);
    }
  }

  /**
   * Payload, replies and held-back tail do not depend on how the wire bytes were cut into recvs,
   * and an orderly close hands over the tail as payload.
   */
  lemma SplitIndependence(front: Framer, cs: seq<seq<Octet>>)
    requires Stable(front) && !WholeIn(front([]), []) && [] !in cs
    ensures var d := Decode(front, Concat(cs));
            && Fills(front, Open(cs), |cs|) == Conn(d.payload, d.tail, false, [], d.reply, true)
            && Fills(front, Open(cs), |cs| + 1) == Conn(d.payload + d.tail, [], true, [], d.reply, true)
            && Stream(front, Open(cs)) == d.payload + d.tail
  {
    FillsDecodePrefix(front, cs, |cs|);
    assert cs[..|cs|] == cs && AsChunks(cs)[|cs|..] == [];
    PendingOfChunks(front, [], cs);
    assert [] + Concat(cs) == Concat(cs);
  }

  lemma {:induction false} PendingUntilError(front: Framer, raw: seq<Octet>, cs: seq<seq<Octet>>)
    requires Stable(front) && [] !in cs
    requires Decode(front, raw) == Decoded([], [], raw)
    ensures Pending(front, raw, AsChunks(cs) + [Failed]) == Decode(front, raw + Concat(cs)).payload
    decreases |cs|
  {
    var inbox := AsChunks(cs) + [Failed];
    if cs == [] {
      assert raw + Concat(cs) == raw;
    } else {
      assert inbox[0] == Chunk(cs[0]) && cs[0] in cs && inbox[1..] == AsChunks(cs[1..]) + [Failed];
      var d := Decode(front, raw + cs[0]);
      TailIsHeld(front, raw + cs[0]);
      PendingUntilError(front, d.tail, cs[1..]);
      Assoc(raw, cs[0], Concat(cs[1..]));
      DecodeInTwo(front, raw + cs[0], Concat(cs[1..]));
    }
  }

  /** A recv that fails ends the stream too, and what is held back then is not payload. */
  lemma ErrorDropsTail(front: Framer, cs: seq<seq<Octet>>)
    requires Stable(front) && !WholeIn(front([]), []) && [] !in cs
    ensures Stream(front, Conn([], [], false, AsChunks(cs) + [Failed], [], true)) == Decode(front, Concat(cs)).payload
  {
    PendingUntilError(front, [], cs);
    assert [] + Concat(cs) == Concat(cs);
  }

  // ---- lines ----

  function Find(s: seq<Octet>, b: Octet): (pos: nat)
    ensures pos <= |s| && b !in s[..pos]
    ensures pos < |s| ==> s[pos] == b
    ensures b !in s ==> pos == |s|
  {
    if s == [] then 0 else if s[0] == b then 0 else
      var p := Find(s[1..], b);
      assert s[..p + 1] == [s[0]] + s[1..][..p];
      p + 1
  }

  /** rstrip("\r") */
  function StripCr(s: seq<Octet>): (r: seq<Octet>)
    ensures r <= s && (r != [] ==> r[|r| - 1] != CR)
    ensures forall i :: |r| <= i < |s| ==> s[i] == CR
  {
    if s != [] && s[|s| - 1] == CR then StripCr(s[..|s| - 1]) else s
  }

  predicate HasLine(buf: seq<Octet>) {
    LF in buf || CR in buf
  }

  /** The first line feed ends the line if there is one anywhere, otherwise the first carriage return. */
  function LineEnd(buf: seq<Octet>): (pos: nat)
    requires HasLine(buf)
    ensures pos < |buf|
  {
    if LF in buf then Find(buf, LF) else Find(buf, CR)
  }

  function AfterLine(buf: seq<Octet>): seq<Octet>
    requires HasLine(buf)
  {
    var rest := buf[LineEnd(buf) + 1..];
    if rest != [] && (rest[0] == LF || rest[0] == NUL) then rest[1..] else rest
  }

  /** The snapshot in which read_line stops receiving. */
  function FillToLine(front: Framer, c: Conn): Conn
    decreases FillsLeft(c)
  {
    if HasLine(c.buf) || c.eof then c else FillToLine(front, FillStep(front, c))
  }

  datatype LineRead = LineRead(line: Option<seq<Octet>>, conn: Conn)

  function ReadLineStep(front: Framer, c: Conn): LineRead {
    var d := FillToLine(front, c);
    if HasLine(d.buf) then
      LineRead(Some(StripCr(d.buf[..LineEnd(d.buf)])), d.(buf := AfterLine(d.buf)))
    else
      LineRead(if d.buf == [] then None else Some(d.buf), d.(buf := []))
  }

  lemma {:induction false} FillToLineKeepsStream(front: Framer, c: Conn)
    ensures var d := FillToLine(front, c);
            Stream(front, d) == Stream(front, c) && (HasLine(d.buf) || d.eof)
    decreases FillsLeft(c)
  {
    if !HasLine(c.buf) && !c.eof {
      FillKeepsStream(front, c);
      FillToLineKeepsStream(front, FillStep(front, c));
    }
  }

  /** Where no line end is left in the stream, the last line is all of it, and after that there is none. */
  lemma LastLine(front: Framer, c: Conn)
    requires !HasLine(Stream(front, c))
    ensures var r := ReadLineStep(front, c);
            && r.line == (if Stream(front, c) == [] then None else Some(Stream(front, c)))
            && r.conn.eof && Stream(front, r.conn) == [] && ReadLineStep(front, r.conn).line == None
  {
    FillToLineKeepsStream(front, c);
    var d := FillToLine(front, c);
    assert forall b :: b in d.buf ==> b in Stream(front, d);
    assert d.eof && Stream(front, d) == d.buf;
  }

  /** read_line gives None exactly when the stream is at its end. */
  lemma NoneAtTheEnd(front: Framer, c: Conn)
    ensures ReadLineStep(front, c).line == None <==> Stream(front, c) == []
  {
    FillToLineKeepsStream(front, c);
    var d := FillToLine(front, c);
    if !HasLine(d.buf) {
      assert Stream(front, d) == d.buf;
    }
  }

  // ---- handing a command and then an archive over one connection ----

  lemma {:induction false} FindIn(before: seq<Octet>, b: Octet, after: seq<Octet>)
    requires b !in before
    ensures var s := before + [b] + after;
            b in s && Find(s, b) == |before| && s[..|before|] == before && s[|before| + 1..] == after
  {
    var s := before + [b] + after;
    assert s[|before|] == b;
    assert forall p :: |before| < p <= |s| ==> s[..p][|before|] == b;
    assert forall p :: 0 <= p < |before| ==> s[p] == before[p] && s[p] in before;
  }

  lemma LineUpToCr(command: seq<Octet>)
    requires CR !in command && LF !in command
    ensures var buf := command + [CR];
            HasLine(buf) && StripCr(buf[..LineEnd(buf)]) == command && AfterLine(buf) == []
  {
    FindIn(command, CR, []);
    assert command + [CR] + [] == command + [CR];
    assert LF !in command + [CR];
  }

  function Swallowed(rest: seq<Octet>): bool {
    rest != [] && (rest[0] == LF || rest[0] == NUL)
  }

  lemma LineUpToLf(command: seq<Octet>, rest: seq<Octet>)
    requires CR !in command && LF !in command
    ensures var buf := command + [CR, LF] + rest;
            && HasLine(buf) && StripCr(buf[..LineEnd(buf)]) == command
            && AfterLine(buf) == if Swallowed(rest) then rest[1..] else rest
  {
    FindIn(command + [CR], LF, rest);
    assert command + [CR] + [LF] + rest == command + [CR, LF] + rest;
    assert (command + [CR])[..|command|] == command;
  }

  /**
   * The stream is a command, CR LF and an archive. read_line always returns the command. What the
   * readers get afterwards is the archive exactly when the line feed was already buffered with the
   * carriage return, and no LF or NUL was buffered right behind it.
   */
  lemma HandOver(front: Framer, c: Conn, command: seq<Octet>, archive: seq<Octet>)
    requires CR !in command && LF !in command
    requires Stream(front, c) == command + [CR, LF] + archive
    ensures var got := FillToLine(front, c).buf;
            var r := ReadLineStep(front, c);
            && r.line == Some(command)
            && |got| > |command|
            && (Stream(front, r.conn) == archive <==>
                 |got| >= |command| + 2 && !Swallowed(got[|command| + 2..]))
  {
    FillToLineKeepsStream(front, c);
    var d := FillToLine(front, c);
    var later := if d.eof then [] else Pending(front, d.raw, d.inbox);
    var line := command + [CR, LF];
    SameWhole(d.buf, later, line, archive);
    if |d.buf| >= |line| {
      var rest := d.buf[|line|..];
      LineUpToLf(command, rest);
      assert rest + later == archive;
    } else if |d.buf| == |command| + 1 {
      assert d.buf == line[..|command| + 1] == command + [CR];
      LineUpToCr(command);
      assert later == line[|d.buf|..] + archive && |later| == |archive| + 1;
    }
  }

  /** Whatever of the archive is buffered behind the line is the beginning of the archive. */
  lemma BufferedRest(front: Framer, c: Conn, command: seq<Octet>, archive: seq<Octet>)
    requires Stream(front, c) == command + [CR, LF] + archive
    requires |FillToLine(front, c).buf| >= |command| + 2
    ensures FillToLine(front, c).buf[|command| + 2..] <= archive
  {
    FillToLineKeepsStream(front, c);
    var d := FillToLine(front, c);
    SameWhole(d.buf, if d.eof then [] else Pending(front, d.raw, d.inbox), command + [CR, LF], archive);
  }

  /** Octets other than esc stand for themselves. */
  ghost predicate TextPasses(front: Framer, esc: Octet) {
    forall s: seq<Octet> :: s != [] && s[0] != esc ==> front(s) == Whole(1, [s[0]], [])
  }

  lemma {:induction false} TextDecodes(front: Framer, esc: Octet, text: seq<Octet>)
    requires TextPasses(front, esc) && !WholeIn(front([]), []) && esc !in text
    ensures Decode(front, text) == Decoded(text, [], [])
  {
    if text != [] {
      TextDecodes(front, esc, text[1..]);
      assert text == [text[0]] + text[1..];
    }
  }

  /** Text at the start of some bytes is at the start of their payload. */
  lemma TextComesFirst(front: Framer, esc: Octet, text: seq<Octet>, more: seq<Octet>)
    requires Stable(front) && TextPasses(front, esc) && !WholeIn(front([]), []) && esc !in text
    ensures text <= Decode(front, text + more).payload
  {
    TextDecodes(front, esc, text);
    DecodeInTwo(front, text, more);
  }

  /** No recv ends exactly `at` bytes into what the chunks carry. */
  predicate NoBoundaryAt(cs: seq<seq<Octet>>, at: int) {
    at != 0 && (cs == [] || NoBoundaryAt(cs[1..], at - |cs[0]|))
  }

  lemma {:induction false} NoBoundaryMeans(cs: seq<seq<Octet>>, at: int)
    ensures NoBoundaryAt(cs, at) <==> forall k :: 0 <= k <= |cs| ==> |Concat(cs[..k])| != at
  {
    if cs != [] {
      NoBoundaryMeans(cs[1..], at - |cs[0]|);
      forall k | 0 < k <= |cs|
        ensures |Concat(cs[..k])| == |cs[0]| + |Concat(cs[1..][..k - 1])|
      {
        ConcatFirst(cs[..k]);
        assert cs[..k][1..] == cs[1..][..k - 1];
      }
      if k :| 0 <= k <= |cs[1..]| && |Concat(cs[1..][..k])| == at - |cs[0]| {
        assert |Concat(cs[..k + 1])| == |cs[0]| + |Concat(cs[1..][..k + 1 - 1])|;
      }
    }
    assert Concat(cs[..0]) == [];
  }

  /** c is still to receive the rest of a command, CR LF and more. */
  ghost predicate Awaiting(c: Conn, cs: seq<seq<Octet>>, esc: Octet, command: seq<Octet>, more: seq<Octet>) {
    && [] !in cs && c.inbox == AsChunks(cs) && !c.eof && c.raw == [] && !HasLine(c.buf)
    && !HasLine(command) && esc !in command && esc != CR && esc != LF
    && Concat(cs) == command + [CR, LF] + more
  }

  lemma FillOfChunk(front: Framer, c: Conn, x: seq<Octet>)
    requires c.inbox != [] && c.inbox[0] == Chunk(x) && x != [] && c.raw == []
    ensures var d := Decode(front, x);
            var e := FillStep(front, c);
            e.buf == c.buf + d.payload && e.raw == d.tail && e.eof == c.eof && e.inbox == c.inbox[1..]
  {
    assert [] + x == x;
  }

  lemma TextInside(x: seq<Octet>, rest: seq<Octet>, esc: Octet)
    requires esc !in x + rest && !HasLine(x + rest)
    ensures esc !in x && !HasLine(x) && !HasLine(rest) && esc !in rest
  {
    assert forall i :: 0 <= i < |x| ==> x[i] == (x + rest)[i];
    assert forall i :: 0 <= i < |rest| ==> rest[i] == (x + rest)[|x| + i];
  }

  lemma RecvInsideCommand(front: Framer, esc: Octet, c: Conn, cs: seq<seq<Octet>>, command: seq<Octet>, more: seq<Octet>)
    requires TextPasses(front, esc) && !WholeIn(front([]), [])
    requires Awaiting(c, cs, esc, command, more) && cs != [] && |cs[0]| <= |command|
    ensures var d := FillStep(front, c);
            Awaiting(d, cs[1..], esc, command[|cs[0]|..], more) && |d.buf| == |c.buf| + |cs[0]|
  {
    var x := cs[0];
    assert x in cs;
    ConcatFirst(cs);
    Assoc(command, [CR, LF], more);
    SameWhole(x, Concat(cs[1..]), command, [CR, LF] + more);
    Assoc(command[|x|..], [CR, LF], more);
    TextInside(x, command[|x|..], esc);
    TextDecodes(front, esc, x);
    FillOfChunk(front, c, x);
    assert AsChunks(cs)[1..] == AsChunks(cs[1..]);
  }

  /** A count that has gone below zero meets no boundary any more. */
  lemma {:induction false} NoBoundaryBehind(cs: seq<seq<Octet>>, at: int)
    requires at < 0
    ensures NoBoundaryAt(cs, at)
  {
    if cs != [] {
      NoBoundaryBehind(cs[1..], at - |cs[0]|);
    }
  }

  /** Where a first chunk of n bytes puts the boundaries around the line end. */
  lemma BoundariesOf(cs: seq<seq<Octet>>, n: nat, at: nat)
    requires cs != [] && n == |cs[0]| > 0 && at > 0
    ensures n == at ==> !NoBoundaryAt(cs, at)
    ensures n > at ==> NoBoundaryAt(cs, at)
    ensures n < at ==> (NoBoundaryAt(cs, at) <==> NoBoundaryAt(cs[1..], at - n))
  {
    if n > at {
      NoBoundaryBehind(cs[1..], at - n);
    }
  }

  /** How many bytes are taken of command, CR, LF and more, when a chunk of n bytes reaches past the command. */
  ghost predicate StopsAfter(esc: Octet, command: seq<Octet>, more: seq<Octet>, n: nat, taken: int) {
    if n == |command| + 1 then taken == n
    else if n == |command| + 2 then taken == n
    else taken >= |command| + 2 && (more != [] && more[0] != esc ==> taken >= |command| + 3)
  }

  lemma StopWithinLine(front: Framer, esc: Octet, x: seq<Octet>, command: seq<Octet>, line: seq<Octet>)
    requires TextPasses(front, esc) && !WholeIn(front([]), [])
    requires line == command + [CR, LF] && esc !in line && |command| < |x| <= |line| && x == line[..|x|]
    ensures Decode(front, x).payload == x && HasLine(x)
  {
    assert x[|command|] == CR;
    assert forall i :: 0 <= i < |x| ==> x[i] == line[i];
    TextDecodes(front, esc, x);
  }

  lemma StopBeyondLine(front: Framer, esc: Octet, x: seq<Octet>, command: seq<Octet>, line: seq<Octet>, y: seq<Octet>)
    requires Stable(front) && TextPasses(front, esc) && !WholeIn(front([]), [])
    requires line == command + [CR, LF] && esc !in line && y != [] && x == line + y
    ensures var p := Decode(front, x).payload;
            HasLine(p) && |p| >= |line| && (y[0] != esc ==> |p| > |line|)
  {
    TextComesFirst(front, esc, line, y);
    assert Decode(front, x).payload[|command|] == line[|command|] == CR;
    if y[0] != esc {
      Assoc(line, [y[0]], y[1..]);
      assert y == [y[0]] + y[1..];
      TextComesFirst(front, esc, line + [y[0]], y[1..]);
    }
  }

  lemma RecvBeyondCommand(front: Framer, esc: Octet, c: Conn, cs: seq<seq<Octet>>, command: seq<Octet>, more: seq<Octet>)
    requires Stable(front) && TextPasses(front, esc) && !WholeIn(front([]), [])
    requires Awaiting(c, cs, esc, command, more) && cs != [] && |cs[0]| > |command|
    ensures var d := FillStep(front, c);
            HasLine(d.buf) && StopsAfter(esc, command, more, |cs[0]|, |d.buf| - |c.buf|)
  {
    var x := cs[0];
    assert x in cs;
    ConcatFirst(cs);
    var line := command + [CR, LF];
    SameWhole(x, Concat(cs[1..]), line, more);
    FillOfChunk(front, c, x);
    var p := Decode(front, x).payload;
    if |x| <= |line| {
      assert x == line[..|x|];
      StopWithinLine(front, esc, x, command, line);
    } else {
      var y := x[|line|..];
      assert more[0] == y[0];
      StopBeyondLine(front, esc, x, command, line, y);
    }
    assert forall b :: b in p ==> b in c.buf + p;
  }

  /** How far past the command reading goes, by where the recvs end. */
  ghost predicate StopsBy(cs: seq<seq<Octet>>, esc: Octet, n: nat, more: seq<Octet>, taken: int) {
    if !NoBoundaryAt(cs, n + 1) then taken == n + 1
    else if !NoBoundaryAt(cs, n + 2) then taken == n + 2
    else taken >= n + 2 && (more != [] && more[0] != esc ==> taken >= n + 3)
  }

  /**
   * Reading for a line stops with the CR alone if a recv ended between CR and LF, right behind the
   * LF if one ended there, and otherwise with at least the first octet that follows.
   */
  lemma {:induction false} WhereReadingStops(
      front: Framer, esc: Octet, c: Conn, cs: seq<seq<Octet>>, command: seq<Octet>, more: seq<Octet>)
    requires Stable(front) && TextPasses(front, esc) && !WholeIn(front([]), [])
    requires Awaiting(c, cs, esc, command, more)
    ensures StopsBy(cs, esc, |command|, more, |FillToLine(front, c).buf| - |c.buf|)
    decreases |cs|
  {
    var n := |cs[0]|;
    assert cs[0] in cs;
    BoundariesOf(cs, n, |command| + 1);
    BoundariesOf(cs, n, |command| + 2);
    if n <= |command| {
      RecvInsideCommand(front, esc, c, cs, command, more);
      WhereReadingStops(front, esc, FillStep(front, c), cs[1..], command[n..], more);
    } else {
      RecvBeyondCommand(front, esc, c, cs, command, more);
    }
  }
}
