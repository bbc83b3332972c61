/** The agent's end of the connection: class Telnet of files/anyvmd.py. */
module TelnetAgent {
  import opened Bytes
  import opened Framing
  import opened TelnetWire

  /** The branches of the decoding loop: what stands at position i. */
  method ItemAt(data: seq<Octet>, i: nat) returns (item: Item)
    requires i < |data|
    ensures item == Front(data[i..])
  {
    var n := |data|;
    ghost var s := data[i..];
    var ch := data[i];
    if ch != IAC {
      return Whole(1, [ch], []);
    }
    if i + 1 >= n {
      return Partial;
    }
    var nxt := data[i + 1];
    if nxt == IAC {
      return Whole(2, [IAC], []);
    } else if IsOptionVerb(nxt) {
      if i + 2 >= n {
        return Partial;
      }
      return Whole(3, [], Negotiate(nxt, data[i + 2]));
    } else if nxt == SB {
      var j := i + 2;
      while j + 1 < n && !(data[j] == IAC && data[j + 1] == SE)
        invariant i + 2 <= j <= n
        invariant ScanForEnd(s, 2) == ScanForEnd(s, j - i)
      {
        j := j + 1;
      }
      if j + 1 >= n {
        return Partial;
      }
      return Whole(j + 2 - i, [], []);
    }
    return Whole(2, [], []);
  }

  /** One turn of the decoding loop; it stands still on an item that is not whole. */
  method TakeItem(data: seq<Octet>, i: nat, out: seq<Octet>, reply: seq<Octet>)
    returns (j: nat, out': seq<Octet>, reply': seq<Octet>)
    requires i < |data| && DecodedUpTo(Front, data, i, out, reply)
    ensures j == i ==> Decode(Front, data) == Decoded(out', reply', data[i..])
    ensures i <= j <= |data|
    ensures DecodedUpTo(Front, data, j, out', reply')
  {
    var item := ItemAt(data, i);
    if item.Partial? {
      StopShort(Front, data, i, out, reply);
      return i, out, reply;
    }
    StepOver(Front, data, i, out, reply, item);
    return i + item.size, out + item.payload, reply + item.reply;
  }

  /** The decoding loop of _fill. */
  method DecodeChunk(data: seq<Octet>) returns (out: seq<Octet>, reply: seq<Octet>, raw: seq<Octet>)
    ensures Decoded(out, reply, raw) == Decode(Front, data)
  {
    out, reply, raw := [], [], [];
    var i, n := 0, |data|;
    StartDecoding(Front, data);
    while i < n
      invariant 0 <= i <= n
      invariant DecodedUpTo(Front, data, i, out, reply)
    {
      var j;
      j, out, reply := TakeItem(data, i, out, reply);
      if j == i {
        raw := data[i..];
        return;
      }
      i := j;
    }
    DoneDecoding(Front, data, out, reply);
  }

  class Telnet {
    var buf: seq<Octet>
    var raw: seq<Octet>
    var eof: bool
    // the socket: what recv will still produce, what sendall has taken, whether it still takes any
    var inbox: seq<Recv>
    var sent: seq<Octet>
    var writable: bool

    ghost function View(): Conn
      reads this
    {
      Conn(buf, raw, eof, inbox, sent, writable)
    }

    constructor (inbox: seq<Recv>)
      ensures View() == Conn([], [], false, inbox, [], true)
    {
      buf, raw, eof := [], [], false;
      this.inbox, sent, writable := inbox, [], true;
    }

    method Fill()
      modifies this
      ensures View() == FillStep(Front, old(View()))
    {
      if inbox == [] || inbox[0] == Chunk([]) {
        eof := true;
        buf := buf + raw;
        raw := [];
        inbox := if inbox == [] then [] else inbox[1..];
        return;
      }
      var next := inbox[0];
      inbox := inbox[1..];
      if next.Failed? {
        eof := true;
        return;
      }
      var out, reply, rest := DecodeChunk(raw + next.data);
      raw := rest;
      if writable {
        sent := sent + reply;
      }
      buf := buf + out;
    }

    /** Exactly want bytes of payload, or all that is left when the stream ends first. */
    method Read(want: nat) returns (out: seq<Octet>)
      modifies this
      ensures var all := old(Stream(Front, View()));
              var n := if want < |all| then want else |all|;
              out == all[..n] && Stream(Front, View()) == all[n..]
    {
      while |buf| < want && !eof
        invariant Stream(Front, View()) == old(Stream(Front, View()))
        decreases FillsLeft(View())
      {
        FillKeepsStream(Front, View());
        Fill();
      }
      var n := if want < |buf| then want else |buf|;
      out, buf := buf[..n], buf[n..];
    }

    method ReadLine() returns (line: Option<seq<Octet>>)
      modifies this
      ensures LineRead(line, View()) == ReadLineStep(Front, old(View()))
    {
      while true
        invariant FillToLine(Front, View()) == FillToLine(Front, old(View()))
        decreases FillsLeft(View())
      {
        if LF in buf || CR in buf {
          var pos := LineEnd(buf);
          var text := buf[..pos];
          var rest := buf[pos + 1..];
          if rest != [] && (rest[0] == LF || rest[0] == NUL) {
            rest := rest[1..];
          }
          buf := rest;
          return Some(StripCr(text));
        }
        if eof {
          line := if buf == [] then None else Some(buf);
          buf := [];
          return;
        }
        Fill();
      }
    }

    method Write(data: seq<Octet>)
      modifies this
      ensures writable == old(writable) && buf == old(buf) && raw == old(raw) && inbox == old(inbox)
      ensures if writable then sent == old(sent) + Double(data) && eof == old(eof)
              else sent == old(sent) && eof
    {
      if writable {
        sent := sent + Double(data);
      } else {
        eof := true;
      }
    }
  }

  // ---- what the connection guarantees ----

  /** What the escaping writer sends, cut up in any way, comes back byte for byte and provokes no reply. */
  lemma BinarySurvives(data: seq<Octet>, cs: seq<seq<Octet>>)
    requires [] !in cs && Concat(cs) == Double(data)
    ensures Stream(Front, Open(cs)) == data
    ensures Fills(Front, Open(cs), |cs| + 1) == Conn(data, [], true, [], [], true)
  {
    FrontIsStable();
    SplitIndependence(Front, cs);
    DecodeDoubled(data);
  }

  lemma FrontPassesText()
    ensures TextPasses(Front, IAC)
  {
  }

  lemma StreamOfCommandAndArchive(cs: seq<seq<Octet>>, text: seq<Octet>, archive: seq<Octet>)
    requires [] !in cs && IAC !in text
    requires Concat(cs) == text + Double(archive)
    ensures Stream(Front, Open(cs)) == text + archive
  {
    FrontIsStable();
    FrontPassesText();
    DoubleOfText(text);
    DoubleOfConcat(text, archive);
    DecodeDoubled(text + archive);
    SplitIndependence(Front, cs);
  }

  lemma DoubleFirst(data: seq<Octet>)
    requires data != []
    ensures Double(data) != [] && Double(data)[0] == data[0]
  {
  }

  predicate LfOrNulFirst(s: seq<Octet>) {
    s != [] && (s[0] == 10 || s[0] == 0)
  }

  /** What the line's terminator swallows, by where reading stopped. */
  lemma HandOverBy(cs: seq<seq<Octet>>, n: nat, archive: seq<Octet>, got: seq<Octet>)
    requires StopsBy(cs, IAC, n, Double(archive), |got|)
    requires |got| >= n + 2 ==> got[n + 2..] <= archive
    ensures (|got| >= n + 2 && !Swallowed(got[n + 2..]))
        <==> (NoBoundaryAt(cs, n + 1) && (LfOrNulFirst(archive) ==> !NoBoundaryAt(cs, n + 2)))
  {
    if archive != [] {
      DoubleFirst(archive);
    }
  }

  /**
   * The hand-over as it appears on the wire: command, CR LF, doubled archive. read_line returns the
   * command, and every byte of the archive is still to be read, in order, exactly when no recv ends
   * between CR and LF and, should the archive start with LF or NUL, one ends right behind the LF.
   */
  lemma CommandThenArchive(cs: seq<seq<Octet>>, command: seq<Octet>, archive: seq<Octet>)
    requires [] !in cs
    requires CR !in command && LF !in command && IAC !in command
    requires Concat(cs) == command + [CR, LF] + Double(archive)
    ensures ReadLineStep(Front, Open(cs)).line == Some(command)
    ensures Stream(Front, ReadLineStep(Front, Open(cs)).conn) == archive
       <==> (NoBoundaryAt(cs, |command| + 1) && (LfOrNulFirst(archive) ==> !NoBoundaryAt(cs, |command| + 2)))
  {
    FrontIsStable();
    FrontPassesText();
    StreamOfCommandAndArchive(cs, command + [CR, LF], archive);
    HandOver(Front, Open(cs), command, archive);
    WhereReadingStops(Front, IAC, Open(cs), cs, command, Double(archive));
    var got := FillToLine(Front, Open(cs)).buf;
    if |got| >= |command| + 2 {
      BufferedRest(Front, Open(cs), command, archive);
    }
    HandOverBy(cs, |command|, archive, got);
  }

  // ---- reading in portions ----

  /** What successive reads of these sizes give of a stream. */
  function Portions(all: seq<Octet>, wants: seq<nat>): seq<seq<Octet>> {
    if wants == [] then [] else
      var n := if wants[0] < |all| then wants[0] else |all|;
      [all[..n]] + Portions(all[n..], wants[1..])
  }

  function Sum(wants: seq<nat>): nat {
    if wants == [] then 0 else wants[0] + Sum(wants[1..])
  }

  /** Together the portions are the stream, up to what was asked for. */
  lemma {:induction false} PortionsAreTheStream(all: seq<Octet>, wants: seq<nat>)
    ensures Concat(Portions(all, wants)) == all[..if Sum(wants) < |all| then Sum(wants) else |all|]
  {
    if wants != [] {
      var n := if wants[0] < |all| then wants[0] else |all|;
      PortionsAreTheStream(all[n..], wants[1..]);
      ConcatFirst(Portions(all, wants));
    }
  }

  /** Only at the end of the stream is a portion short: then nothing comes after it. */
  lemma {:induction false} ShortOnlyAtTheEnd(all: seq<Octet>, wants: seq<nat>, i: nat)
    requires i < |wants|
    ensures |Portions(all, wants)| == |wants| && |Portions(all, wants)[i]| <= wants[i]
    ensures |Portions(all, wants)[i]| < wants[i] ==> Concat(Portions(all, wants)) == all && Sum(wants) > |all|
  {
    PortionsAreTheStream(all, wants);
    PortionLength(all, wants, i);
  }

  lemma {:induction false} PortionLength(all: seq<Octet>, wants: seq<nat>, i: nat)
    requires i < |wants|
    ensures |Portions(all, wants)| == |wants| && |Portions(all, wants)[i]| <= wants[i]
    ensures |Portions(all, wants)[i]| < wants[i] ==> Sum(wants) > |all|
  {
    var n := if wants[0] < |all| then wants[0] else |all|;
    if i > 0 {
      PortionLength(all[n..], wants[1..], i - 1);
    } else {
      PortionsCount(all[n..], wants[1..]);
    }
  }

  lemma {:induction false} PortionsCount(all: seq<Octet>, wants: seq<nat>)
    ensures |Portions(all, wants)| == |wants|
  {
    if wants != [] {
      PortionsCount(all[if wants[0] < |all| then wants[0] else |all|..], wants[1..]);
    }
  }

  method ReadEach(t: Telnet, wants: seq<nat>) returns (outs: seq<seq<Octet>>)
    modifies t
    ensures outs == Portions(old(Stream(Front, t.View())), wants)
  {
    outs := [];
    ghost var all := Stream(Front, t.View());
    for i := 0 to |wants|
      invariant outs + Portions(Stream(Front, t.View()), wants[i..]) == Portions(all, wants)
    {
      assert wants[i..][1..] == wants[i + 1..];
      ghost var rest := Stream(Front, t.View());
      var out := t.Read(wants[i]);
      Assoc(outs, [out], Portions(Stream(Front, t.View()), wants[i + 1..]));
      assert Portions(rest, wants[i..]) == [out] + Portions(Stream(Front, t.View()), wants[i + 1..]);
      outs := outs + [out];
    }
  }

  /**
   * From the wire to the reader: the line is the command, and reads of any sizes then give exactly
   * the archive, short only at its end.
   */
  method TakeCommand(cs: seq<seq<Octet>>, ghost command: seq<Octet>, ghost archive: seq<Octet>, wants: seq<nat>)
    returns (line: Option<seq<Octet>>, outs: seq<seq<Octet>>)
    requires [] !in cs
    requires CR !in command && LF !in command && IAC !in command
    requires Concat(cs) == command + [CR, LF] + Double(archive)
    requires NoBoundaryAt(cs, |command| + 1) && (LfOrNulFirst(archive) ==> !NoBoundaryAt(cs, |command| + 2))
    ensures line == Some(command)
    ensures outs == Portions(archive, wants)
    ensures Concat(outs) == archive[..if Sum(wants) < |archive| then Sum(wants) else |archive|]
  {
    CommandThenArchive(cs, command, archive);
    PortionsAreTheStream(archive, wants);
    var t := new Telnet(AsChunks(cs));
    line := t.ReadLine();
    outs := ReadEach(t, wants);
  }
}
