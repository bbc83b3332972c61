/**
 * TELNET framing: what the bytes on the wire stand for (RFC 854, RFC 855) and how the agent's
 * decoder in files/anyvmd.py takes them apart.
 *
 * Token and Wire are the grammar, with octets of its own and independent of any decoder; Front is
 * the decoder's view of the item at the front of some bytes.
 */
module TelnetWire {
  import opened Bytes
  import opened Framing

  const IAC: Octet := 255
  const DONT: Octet := 254
  const DO: Octet := 253
  const WONT: Octet := 252
  const WILL: Octet := 251
  const SB: Octet := 250
  const SE: Octet := 240
  const BINARY: Octet := 0

  predicate IsOptionVerb(c: Octet) {
    c == WILL || c == WONT || c == DO || c == DONT
  }

  /** Accept BINARY both ways, refuse every other offer, never answer a refusal. */
  function Negotiate(verb: Octet, option: Octet): seq<Octet> {
    if option == BINARY then
      if verb == WILL then [IAC, DO, option]
      else if verb == DO then [IAC, WILL, option]
      else []
    else if verb == WILL then [IAC, DONT, option]
    else if verb == DO then [IAC, WONT, option]
    else []
  }

  // ---- the decoder ----

  predicate PairAt(s: seq<Octet>, j: nat) {
    j + 1 < |s| && s[j] == IAC && s[j + 1] == SE
  }

  ghost predicate HoldsPair(s: seq<Octet>) {
    exists k: nat :: PairAt(s, k)
  }

  /** Where a scan for IAC SE that starts at j stops: on the pair, or where no pair fits any more. */
  function ScanForEnd(s: seq<Octet>, j: nat): (e: nat)
    ensures j <= e
    decreases |s| - j
  {
    if j + 1 >= |s| || PairAt(s, j) then j else ScanForEnd(s, j + 1)
  }

  lemma {:induction false} ScanStopsOnFirstPair(s: seq<Octet>, j: nat)
    ensures var e := ScanForEnd(s, j);
            && (e + 1 < |s| ==> PairAt(s, e))
            && forall k :: j <= k < e ==> !PairAt(s, k)
    decreases |s| - j
  {
    if !(j + 1 >= |s| || PairAt(s, j)) {
      ScanStopsOnFirstPair(s, j + 1);
    }
  }

  /** The item at the front of s. */
  function Front(s: seq<Octet>): (item: Item)
    ensures item.Whole? ==> WholeIn(item, s)
  {
    if s == [] then Partial
    else if s[0] != IAC then Whole(1, [s[0]], [])
    else if |s| == 1 then Partial
    else if s[1] == IAC then Whole(2, [IAC], [])
    else if IsOptionVerb(s[1]) then
      if |s| == 2 then Partial else Whole(3, [], Negotiate(s[1], s[2]))
    else if s[1] == SB then
      var e := ScanForEnd(s, 2);
      if e + 1 >= |s| then Partial else Whole(e + 2, [], [])
    else Whole(2, [], [])
  }

  lemma {:induction false} ScanIgnoresWhatFollows(a: seq<Octet>, b: seq<Octet>, j: nat)
    requires ScanForEnd(a, j) + 1 < |a|
    ensures ScanForEnd(a + b, j) == ScanForEnd(a, j)
    decreases |a| - j
  {
    if !PairAt(a, j) {
      ScanIgnoresWhatFollows(a, b, j + 1);
    }
  }

  /** Bytes that arrive later never change an item that is already whole. */
  lemma FrontIsStable()
    ensures Stable(Front) && !WholeIn(Front([]), [])
  {
    forall a: seq<Octet>, b: seq<Octet> | WholeIn(Front(a), a) ensures Front(a + b) == Front(a) {
      if |a| >= 2 && a[0] == IAC && a[1] == SB {
        ScanIgnoresWhatFollows(a, b, 2);
      }
    }
  }

  // ---- the wire grammar ----

  /** The four option commands of RFC 854. */
  datatype Verb = Will | Wont | Do | Dont
  {
    function Code(): Octet {
      match this
      case Will => 251
      case Wont => 252
      case Do => 253
      case Dont => 254
    }

    /** An offer is answered, yes or no, by the other side's verb; a refusal is not answered. */
    function Answered(yes: bool): Option<Verb> {
      match this
      case Will => Some(if yes then Do else Dont)
      case Do => Some(if yes then Will else Wont)
      case _ => None
    }
  }

  datatype Token =
    | Data(b: Octet)
    | EscapedIac
    | Negotiation(verb: Verb, option: Octet)
    | Subnegotiation(body: seq<Octet>)
    | Command(c: Octet)
  {
    ghost predicate Valid() {
      match this
      case Data(b) => b != 255
      case EscapedIac => true
      case Negotiation(_, _) => true
      case Subnegotiation(body) => !HoldsPair(body)
      case Command(c) => c < 250
    }

    function Wire(): seq<Octet> {
      match this
      case Data(b) => [b]
      case EscapedIac => [255, 255]
      case Negotiation(verb, option) => [255, verb.Code(), option]
      case Subnegotiation(body) => [255, 250] + body + [255, 240]
      case Command(c) => [255, c]
    }

    function Payload(): seq<Octet> {
      match this
      case Data(b) => [b]
      case EscapedIac => [255]
      case _ => []
    }

    /** What a side that accepts those options says to it, with the same option. */
    function Reply(accepts: Octet -> bool): seq<Octet> {
      match this
      case Negotiation(verb, option) =>
        var answer := verb.Answered(accepts(option));
        if answer.Some? then [255, answer.value.Code(), option] else []
      case _ => []
    }
  }

  function Wire(ts: seq<Token>): seq<Octet> {
    if ts == [] then [] else ts[0].Wire() + Wire(ts[1..])
  }

  function Payload(ts: seq<Token>): seq<Octet> {
    if ts == [] then [] else ts[0].Payload() + Payload(ts[1..])
  }

  function Replies(ts: seq<Token>, accepts: Octet -> bool): seq<Octet> {
    if ts == [] then [] else ts[0].Reply(accepts) + Replies(ts[1..], accepts)
  }

  /** The agent accepts option 0, BINARY of RFC 856, and no other. */
  function BinaryOnly(option: Octet): bool {
    option == 0
  }

  lemma FrontOfToken(t: Token, rest: seq<Octet>)
    requires t.Valid()
    ensures Front(t.Wire() + rest) == Whole(|t.Wire()|, t.Payload(), t.Reply(BinaryOnly))
  {
    if t.Subnegotiation? {
      var s := t.Wire() + rest;
      var end := 2 + |t.body|;
      assert PairAt(s, end);
      var e := ScanForEnd(s, 2);
      ScanStopsOnFirstPair(s, 2);
      if e < end {
        assert PairAt(s, e);
        assert e + 1 < end ==> PairAt(t.body, e - 2);
        assert false;
      }
    }
  }

  /** Decoding a wire image gives back what its tokens mean and holds back exactly the unfinished rest. */
  lemma {:induction false} DecodeMeaning(ts: seq<Token>, tail: seq<Octet>)
    requires forall t :: t in ts ==> t.Valid()
    requires Front(tail).Partial?
    ensures Decode(Front, Wire(ts) + tail) == Decoded(Payload(ts), Replies(ts, BinaryOnly), tail)
  {
    if ts == [] {
      assert Wire(ts) + tail == tail;
    } else {
      var rest := Wire(ts[1..]) + tail;
      assert Wire(ts) + tail == ts[0].Wire() + rest;
      FrontOfToken(ts[0], rest);
      assert (ts[0].Wire() + rest)[|ts[0].Wire()|..] == rest;
      DecodeMeaning(ts[1..], tail);
    }
  }

  /** Every byte string is the wire image of some tokens followed by the beginning of another. */
  lemma {:induction false} EveryStringParses(s: seq<Octet>) returns (ts: seq<Token>, tail: seq<Octet>)
    ensures forall t :: t in ts ==> t.Valid()
    ensures Front(tail).Partial?
    ensures s == Wire(ts) + tail
    decreases |s|
  {
    if Front(s).Partial? {
      ts, tail := [], s;
    } else {
      var t := FirstToken(s);
      var more;
      more, tail := EveryStringParses(s[|t.Wire()|..]);
      ts := [t] + more;
      assert ts[1..] == more;
      Assoc(t.Wire(), Wire(more), tail);
    }
  }

  lemma FirstToken(s: seq<Octet>) returns (t: Token)
    requires Front(s).Whole?
    ensures t.Valid() && 0 < |t.Wire()| && t.Wire() <= s
  {
    if s[0] != IAC {
      t := Data(s[0]);
    } else if s[1] == IAC {
      t := EscapedIac;
    } else if IsOptionVerb(s[1]) {
      t := Negotiation(if s[1] == WILL then Will else if s[1] == WONT then Wont else if s[1] == DO then Do else Dont, s[2]);
    } else if s[1] == SB {
      t := Subnegotiation(s[2..ScanForEnd(s, 2)]);
      BodyHasNoPair(s);
    } else {
      t := Command(s[1]);
    }
  }

  lemma BodyHasNoPair(s: seq<Octet>)
    requires |s| > 2 && s[0] == IAC && s[1] == SB && ScanForEnd(s, 2) + 1 < |s|
    ensures var e := ScanForEnd(s, 2);
            !HoldsPair(s[2..e]) && [IAC, SB] + s[2..e] + [IAC, SE] == s[..e + 2]
  {
    ScanStopsOnFirstPair(s, 2);
    var e := ScanForEnd(s, 2);
    forall k: nat ensures !PairAt(s[2..e], k) {
      assert k + 2 < e ==> !PairAt(s, k + 2);
    }
    CutAround(s, e);
  }

  lemma CutAround(s: seq<Octet>, e: nat)
    requires 2 <= e && e + 1 < |s|
    ensures [s[0], s[1]] + s[2..e] + [s[e], s[e + 1]] == s[..e + 2]
  {
  }

  // ---- the escaping writer ----

  function Escape(b: Octet): seq<Octet> {
    if b == IAC then [IAC, IAC] else [b]
  }

  /** data.replace(IAC, IAC + IAC) */
  function Double(data: seq<Octet>): seq<Octet> {
    if data == [] then [] else Escape(data[0]) + Double(data[1..])
  }

  lemma FrontOfEscape(b: Octet, rest: seq<Octet>)
    ensures var s := Escape(b) + rest;
            Front(s) == Whole(|Escape(b)|, [b], []) && s[|Escape(b)|..] == rest
  {
  }

  lemma {:induction false} DecodeDoubled(data: seq<Octet>)
    ensures Decode(Front, Double(data)) == Decoded(data, [], [])
  {
    if data != [] {
      DecodeDoubled(data[1..]);
      FrontOfEscape(data[0], Double(data[1..]));
      assert data == [data[0]] + data[1..];
    }
  }

  /** Text without 0xFF needs no escaping. */
  lemma {:induction false} DoubleOfText(text: seq<Octet>)
    requires IAC !in text
    ensures Double(text) == text
  {
    if text != [] {
      DoubleOfText(text[1..]);
    }
  }

  lemma {:induction false} DoubleOfConcat(a: seq<Octet>, b: seq<Octet>)
    ensures Double(a + b) == Double(a) + Double(b)
  {
    if a == [] {
      assert a + b == b;
    } else {
      DoubleOfConcat(a[1..], b);
      assert (a + b)[1..] == a[1..] + b;
      Assoc(Escape(a[0]), Double(a[1..]), Double(b));
    }
  }

  // ---- subnegotiation against RFC 855 ----

  predicate HasPair(s: seq<Octet>) {
    |s| >= 2 && ((s[0] == IAC && s[1] == SE) || HasPair(s[1..]))
  }

  lemma {:induction false} HasPairMeans(s: seq<Octet>)
    ensures HasPair(s) <==> HoldsPair(s)
  {
    if |s| >= 2 {
      HasPairMeans(s[1..]);
      assert forall k: nat :: PairAt(s[1..], k) <==> PairAt(s, k + 1);
      assert PairAt(s, 0) <==> s[0] == IAC && s[1] == SE;
      if k: nat :| PairAt(s, k) && k > 0 {
        assert PairAt(s[1..], k - 1);
      }
    }
  }

  lemma PairInFront(b: Octet, s: seq<Octet>)
    ensures HasPair([b] + s) <==> (b == IAC && s != [] && s[0] == SE) || HasPair(s)
  {
    assert ([b] + s)[1..] == s;
  }

  /** Doubling 0xFF neither hides nor creates an IAC SE pair. */
  lemma {:induction false} DoublingKeepsPairs(p: seq<Octet>)
    ensures HasPair(Double(p)) <==> HasPair(p)
    ensures p != [] ==> Double(p) != [] && Double(p)[0] == p[0]
  {
    if p != [] {
      DoublingKeepsPairs(p[1..]);
      var d := Double(p[1..]);
      PairInFront(p[0], d);
      if p[0] == IAC {
        PairInFront(IAC, [IAC] + d);
        Assoc([IAC], [IAC], d);
      }
    }
  }

  /**
   * RFC 855 doubles a 0xFF inside subnegotiation parameters. The decoder's scan for the first
   * IAC SE is right about where such a message ends exactly when the parameters do not hold the
   * two bytes IAC SE next to each other.
   */
  lemma SubnegotiationEndsWhereRfc855Says(params: seq<Octet>, rest: seq<Octet>)
    ensures Front([IAC, SB] + Double(params) + [IAC, SE] + rest) == Whole(4 + |Double(params)|, [], [])
            <==> !HoldsPair(params)
  {
    DoublingKeepsPairs(params);
    HasPairMeans(params);
    HasPairMeans(Double(params));
    var body := Double(params);
    var s := [IAC, SB] + body + [IAC, SE] + rest;
    assert PairAt(s, 2 + |body|);
    if HoldsPair(params) {
      var k: nat :| PairAt(body, k);
      assert PairAt(s, k + 2);
      ScanStopsOnFirstPair(s, 2);
    } else {
      FrontOfToken(Subnegotiation(body), rest);
      assert Subnegotiation(body).Wire() + rest == s;
    }
  }
}
