/**
 * The build side of the connection: _telnet_eat_iac of build.py, which keeps no tail between
 * calls and refuses every option, and how it and the agent negotiate with one another.
 */
module TelnetBuild {
  import opened Bytes
  import opened Framing
  import opened TelnetWire

  /** Every DO is answered WONT, every WILL is answered DONT, refusals are not answered. */
  function Refuse(verb: Octet, option: Octet): seq<Octet> {
    if verb == DO then [IAC, WONT, option]
    else if verb == WILL then [IAC, DONT, option]
    else []
  }

  /** Same items as the agent's decoder, except that an unfinished one at the end is thrown away. */
  function EatFront(s: seq<Octet>): (item: Item)
    ensures item.Whole? ==> WholeIn(item, s)
  {
    if s == [] then Partial
    else
      match Front(s)
      case Partial => Whole(|s|, [], [])
      case Whole(size, payload, _) =>
        Whole(size, payload, if |s| > 2 && s[0] == IAC then Refuse(s[1], s[2]) else [])
  }

  method EatItemAt(data: seq<Octet>, i: nat) returns (item: Item)
    requires i < |data|
    ensures item == EatFront(data[i..])
  {
    ghost var s := data[i..];
    var n := |data|;
    var b := data[i];
    if b != IAC {
      return Whole(1, [b], []);
    }
    if i + 1 >= n {
      return Whole(1, [], []);
    }
    var cmd := data[i + 1];
    if IsOptionVerb(cmd) && i + 2 < n {
      return Whole(3, [], Refuse(cmd, data[i + 2]));
    } else if cmd == SB {
      var j := i + 2;
      while j + 1 < n && !(data[j] == IAC && data[j + 1] == SE)
        invariant i + 2 <= j <= n
        invariant ScanForEnd(s, 2) == ScanForEnd(s, j - i)
      {
        j := j + 1;
      }
      return Whole(if j + 2 <= n then j + 2 - i else n - i, [], []);
    } else if cmd == IAC {
      return Whole(2, [IAC], []);
    }
    return Whole(2, [], []);
  }

  method EatItem(data: seq<Octet>, i: nat, plain: seq<Octet>, replies: seq<Octet>)
    returns (j: nat, plain': seq<Octet>, replies': seq<Octet>)
    requires i < |data| && DecodedUpTo(EatFront, data, i, plain, replies)
    ensures i < j <= |data| && DecodedUpTo(EatFront, data, j, plain', replies')
  {
    var item := EatItemAt(data, i);
    StepOver(EatFront, data, i, plain, replies, item);
    return i + item.size, plain + item.payload, replies + item.reply;
  }

  /** Append the payload of data to out; replies is what goes back over the socket. */
  method EatIac(data: seq<Octet>, out: seq<Octet>) returns (out': seq<Octet>, replies: seq<Octet>)
    ensures out' == out + Decode(EatFront, data).payload
    ensures replies == Decode(EatFront, data).reply
  {
    var plain: seq<Octet> := [];
    replies := [];
    var i, n := 0, |data|;
    StartDecoding(EatFront, data);
    while i < n
      invariant 0 <= i <= n
      invariant DecodedUpTo(EatFront, data, i, plain, replies)
    {
      i, plain, replies := EatItem(data, i, plain, replies);
    }
    DoneDecoding(EatFront, data, plain, replies);
    out' := out + plain;
  }

  /** On one buffer the two decoders find the same payload, whatever the buffer holds. */
  lemma {:induction false} SamePayload(s: seq<Octet>)
    ensures Decode(EatFront, s).payload == Decode(Front, s).payload
    decreases |s|
  {
    if Front(s).Whole? {
      SamePayload(s[Front(s).size..]);
    } else if s != [] {
      assert s[|s|..] == [];
    }
  }

  /** The build side accepts no option. */
  function NoOption(option: Octet): bool {
    false
  }

  lemma EatFrontOfToken(t: Token, rest: seq<Octet>)
    requires t.Valid()
    ensures EatFront(t.Wire() + rest) == Whole(|t.Wire()|, t.Payload(), t.Reply(NoOption))
  {
    FrontOfToken(t, rest);
    var s := t.Wire() + rest;
    assert s[0] == t.Wire()[0];
    if t.Subnegotiation? {
      assert s[1] == 250;
    } else if !t.Data? {
      assert s[1] == t.Wire()[1];
    }
  }

  /** It finds what the tokens mean, refuses each offer among them in order, and drops the unfinished rest. */
  lemma {:induction false} EatMeaning(ts: seq<Token>, tail: seq<Octet>)
    requires forall t :: t in ts ==> t.Valid()
    requires Front(tail).Partial?
    ensures Decode(EatFront, Wire(ts) + tail) == Decoded(Payload(ts), Replies(ts, NoOption), [])
  {
    if ts == [] {
      assert Wire(ts) + tail == tail;
      assert tail[|tail|..] == [];
    } else {
      var rest := Wire(ts[1..]) + tail;
      assert Wire(ts) + tail == ts[0].Wire() + rest;
      EatFrontOfToken(ts[0], rest);
      assert (ts[0].Wire() + rest)[|ts[0].Wire()|..] == rest;
      EatMeaning(ts[1..], tail);
    }
  }

  /** An unfinished item is a lone IAC, an option verb without its option, or an unclosed subnegotiation. */
  lemma HeldBackThenMore(t: seq<Octet>) returns (b: seq<Octet>)
    requires t != [] && Front(t).Partial?
    ensures Decode(Front, t + b).payload != Decode(Front, b).payload
  {
    if |t| == 1 {
      b := [IAC];
      assert t + b == Token.EscapedIac.Wire() + [];
      assert (t + b)[2..] == [];
      assert Decode(Front, t + b).payload == [IAC] + [];
    } else {
      b := [65];
      assert Decode(Front, b).payload == [65] by { assert b[1..] == []; }
      if t[1] == SB {
        NoEndYet(t);
      } else {
        assert (t + b)[3..] == [];
      }
    }
  }

  lemma NoEndYet(t: seq<Octet>)
    requires |t| >= 2 && ScanForEnd(t, 2) + 1 >= |t|
    ensures ScanForEnd(t + [65], 2) + 1 >= |t| + 1
  {
    var s := t + [65];
    var e := ScanForEnd(s, 2);
    ScanStopsOnFirstPair(s, 2);
    ScanStopsOnFirstPair(t, 2);
    if e + 1 < |s| {
      assert PairAt(s, e) && e + 1 < |t|;
      assert PairAt(t, e);
    }
  }

  /**
   * The build side decodes each recv by itself. What it gets is what the agent's decoder would
   * get, however the peer goes on, exactly when the recv ended between two items.
   */
  lemma NoCarryOver(a: seq<Octet>)
    ensures (forall b: seq<Octet> ::
               Decode(EatFront, a).payload + Decode(EatFront, b).payload == Decode(Front, a + b).payload)
            <==> Decode(Front, a).tail == []
  {
    FrontIsStable();
    SamePayload(a);
    var d := Decode(Front, a);
    TailIsHeld(Front, a);
    if d.tail == [] {
      forall b: seq<Octet>
        ensures Decode(EatFront, a).payload + Decode(EatFront, b).payload == Decode(Front, a + b).payload
      {
        SamePayload(b);
        DecodeInTwo(Front, a, b);
        assert [] + b == b;
      }
    } else {
      var b := HeldBackThenMore(d.tail);
      SamePayload(b);
      DecodeInTwo(Front, a, b);
      SamePrefix(d.payload, Decode(Front, b).payload, Decode(Front, d.tail + b).payload);
    }
  }

  lemma SamePrefix(p: seq<Octet>, x: seq<Octet>, y: seq<Octet>)
    ensures p + x == p + y <==> x == y
  {
    assert (p + x)[|p|..] == x && (p + y)[|p|..] == y;
  }

  // ---- negotiation ----

  datatype Offer = Offer(verb: Verb, option: Octet) {
    function Wire(): seq<Octet> {
      [255, verb.Code(), option]
    }

    function Answered(yes: bool): seq<Offer> {
      var answer := verb.Answered(yes);
      if answer.Some? then [Offer(answer.value, option)] else []
    }
  }

  function AgentAnswer(m: Offer): seq<Offer> {
    m.Answered(BinaryOnly(m.option))
  }

  function BuildAnswer(m: Offer): seq<Offer> {
    m.Answered(NoOption(m.option))
  }

  /** These are the answers that the two decoders send. */
  lemma AnswersAreSent(m: Offer)
    ensures Decode(Front, m.Wire()).reply == if AgentAnswer(m) == [] then [] else AgentAnswer(m)[0].Wire()
    ensures Decode(EatFront, m.Wire()).reply == if BuildAnswer(m) == [] then [] else BuildAnswer(m)[0].Wire()
  {
    var t := Negotiation(m.verb, m.option);
    assert m.Wire() == t.Wire() + [];
    FrontOfToken(t, []);
    EatFrontOfToken(t, []);
    assert m.Wire()[3..] == [];
  }

  /** Commands in flight in the two directions. */
  datatype Exchange = Exchange(toAgent: seq<Offer>, toBuild: seq<Offer>)

  datatype Turn = AgentReads | BuildReads

  predicate Enabled(x: Exchange, t: Turn) {
    if t.AgentReads? then x.toAgent != [] else x.toBuild != []
  }

  function Take(x: Exchange, t: Turn): Exchange
    requires Enabled(x, t)
  {
    match t
    case AgentReads => Exchange(x.toAgent[1..], x.toBuild + AgentAnswer(x.toAgent[0]))
    case BuildReads => Exchange(x.toAgent + BuildAnswer(x.toBuild[0]), x.toBuild[1..])
  }

  /** How many commands will be read because of this one, itself included. */
  function AgentWork(m: Offer): nat {
    if m.verb.Wont? || m.verb.Dont? then 1 else if m.option == 0 then 3 else 2
  }

  function BuildWork(m: Offer): nat {
    if m.verb.Will? || m.verb.Do? then 2 else 1
  }

  function AgentTotal(q: seq<Offer>): nat {
    if q == [] then 0 else AgentWork(q[0]) + AgentTotal(q[1..])
  }

  function BuildTotal(q: seq<Offer>): nat {
    if q == [] then 0 else BuildWork(q[0]) + BuildTotal(q[1..])
  }

  function Work(x: Exchange): nat {
    AgentTotal(x.toAgent) + BuildTotal(x.toBuild)
  }

  lemma {:induction false} AgentTotalAppend(q: seq<Offer>, r: seq<Offer>)
    ensures AgentTotal(q + r) == AgentTotal(q) + AgentTotal(r)
  {
    if q == [] {
      assert q + r == r;
    } else {
      AgentTotalAppend(q[1..], r);
      assert (q + r)[1..] == q[1..] + r;
    }
  }

  lemma {:induction false} BuildTotalAppend(q: seq<Offer>, r: seq<Offer>)
    ensures BuildTotal(q + r) == BuildTotal(q) + BuildTotal(r)
  {
    if q == [] {
      assert q + r == r;
    } else {
      BuildTotalAppend(q[1..], r);
      assert (q + r)[1..] == q[1..] + r;
    }
  }

  lemma TurnDoesOneUnitOfWork(x: Exchange, t: Turn)
    requires Enabled(x, t)
    ensures Work(Take(x, t)) + 1 == Work(x)
  {
    if t.AgentReads? {
      BuildTotalAppend(x.toBuild, AgentAnswer(x.toAgent[0]));
    } else {
      AgentTotalAppend(x.toAgent, BuildAnswer(x.toBuild[0]));
    }
  }

  lemma {:induction false} WorkBounds(x: Exchange)
    ensures |x.toAgent| + |x.toBuild| <= Work(x) <= 3 * (|x.toAgent| + |x.toBuild|)
    decreases |x.toAgent| + |x.toBuild|
  {
    if x.toAgent != [] {
      WorkBounds(Exchange(x.toAgent[1..], x.toBuild));
    } else if x.toBuild != [] {
      WorkBounds(Exchange([], x.toBuild[1..]));
    }
  }

  predicate Runs(x: Exchange, schedule: seq<Turn>)
    decreases schedule
  {
    schedule == [] || (Enabled(x, schedule[0]) && Runs(Take(x, schedule[0]), schedule[1..]))
  }

  function After(x: Exchange, schedule: seq<Turn>): Exchange
    requires Runs(x, schedule)
    decreases schedule
  {
    if schedule == [] then x else After(Take(x, schedule[0]), schedule[1..])
  }

  /**
   * Agent and build side never negotiate for ever: in every order of deliveries at most three
   * commands are read for each one initially in flight, and the exchange falls silent exactly when
   * the work it started with has been done.
   */
  lemma {:induction false} NegotiationQuiesces(x: Exchange, schedule: seq<Turn>)
    requires Runs(x, schedule)
    ensures |schedule| <= Work(x) <= 3 * (|x.toAgent| + |x.toBuild|)
    ensures After(x, schedule) == Exchange([], []) <==> |schedule| == Work(x)
    decreases schedule
  {
    WorkBounds(x);
    if schedule != [] {
      TurnDoesOneUnitOfWork(x, schedule[0]);
      NegotiationQuiesces(Take(x, schedule[0]), schedule[1..]);
    }
  }
}
