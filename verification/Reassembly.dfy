/** Reading the first client message: the reassembly loop over an arbitrary environment. */
module Reassembly {
  import opened Bytes
  import opened Types
  import opened TlsParser
  import opened TlsRecords

  const INITIAL_FIRST_BUF: nat := 4096
  const MAX_FIRST_BUF: nat := 65536

  /** How one read turns out: at most `n` bytes are there, or the peer closed, or it fails, or time is up. */
  datatype Event = Ready(n: nat) | Closed | Failed | TimedOut

  datatype ReadResult = Got(n: nat) | Error | Timeout

  // ---------- Specification ----------

  /** The bytes a read into `cap` bytes of space delivers. */
  function Chunk(incoming: seq<Byte>, e: Event, cap: nat): (c: seq<Byte>)
    ensures c <= incoming && |c| <= cap
  {
    if e.Ready? then incoming[..Min(e.n, Min(cap, |incoming|))] else []
  }

  /** The loop goes on with this much read. */
  predicate GoOn(buf: seq<Byte>) {
    Parse(buf).NeedMore? && Parse(buf).needed <= MAX_FIRST_BUF
  }

  /** What the loop returns; when the events end, the deadline has passed. */
  function Collect(buf: seq<Byte>, incoming: seq<Byte>, events: seq<Event>): seq<Byte>
    decreases |events|
  {
    if |buf| >= MAX_FIRST_BUF || events == [] then buf
    else
      var c := Chunk(incoming, events[0], MAX_FIRST_BUF - |buf|);
      if c == [] then buf
      else if GoOn(buf + c) then Collect(buf + c, incoming[|c|..], events[1..])
      else buf + c
  }

  /** The first message. The first read has no deadline, so its event is not a timeout. */
  function FirstMessage(incoming: seq<Byte>, events: seq<Event>): Result<seq<Byte>, ()>
    requires events != []
  {
    var c := Chunk(incoming, events[0], INITIAL_FIRST_BUF);
    if events[0].Failed? then Err(())
    else if c != [] && Parse(c).NeedMore? then Ok(Collect(c, incoming[|c|..], events[1..]))
    else Ok(c)
  }

  // ---------- The loop ----------

  class Client {
    var incoming: seq<Byte>  // sent by the client, not yet read
    var events: seq<Event>   // how the coming reads turn out

    constructor (incoming: seq<Byte>, events: seq<Event>)
      ensures this.incoming == incoming && this.events == events
    {
      this.incoming := incoming;
      this.events := events;
    }

    /** `read(&mut buf[from..])` */
    method Read(buf: array<Byte>, from: nat) returns (r: ReadResult)
      requires from < buf.Length
      modifies this, buf
      ensures var e := if old(events) == [] then TimedOut else old(events)[0];
              var c := Chunk(old(incoming), e, buf.Length - from);
              && (r.Error? <==> e.Failed?) && (r.Timeout? <==> e.TimedOut?) && (r.Got? ==> r.n == |c|)
              && incoming == old(incoming)[|c|..]
              && from + |c| <= buf.Length && buf[..from + |c|] == old(buf[..from]) + c
      ensures events == if old(events) == [] then [] else old(events)[1..]
    {
      if events == [] {
        assert buf[..from + 0] == buf[..from] + [] && incoming[0..] == incoming;
        return Timeout;
      }
      var e := events[0];
      events := events[1..];
      var c := Chunk(incoming, e, buf.Length - from);
      Store(buf, from, c);
      incoming := incoming[|c|..];
      return if e.Failed? then Error else if e.TimedOut? then Timeout else Got(|c|);
    }

    /** The first read, into the small buffer. */
    method FirstRead() returns (r: ReadResult, got: seq<Byte>)
      requires events != []
      modifies this
      ensures var c := Chunk(old(incoming), old(events)[0], INITIAL_FIRST_BUF);
              && (r.Error? <==> old(events)[0].Failed?) && (r.Timeout? <==> old(events)[0].TimedOut?)
              && got == c && incoming == old(incoming)[|c|..]
      ensures events == old(events)[1..]
    {
      var buf := new Byte[INITIAL_FIRST_BUF];
      assert buf[..0] == [];
      r := Read(buf, 0);
      var filled := if r.Got? then r.n else 0;
      got := buf[..filled];
    }

    method ReassembleFirstMessage() returns (r: Result<seq<Byte>, ()>)
      requires events != [] && !events[0].TimedOut?
      modifies this
      ensures r == FirstMessage(old(incoming), old(events))
      ensures r.Ok? ==> r.value + incoming == old(incoming)
    {
      var first, got := FirstRead();
      if first.Error? {
        return Err(());
      }
      if |got| == 0 {
        return Ok([]);
      }
      var status := TryParseClientHello(got);
      if !status.NeedMore? {
        return Ok(got);
      }
      var message := Loop(got);
      return Ok(message);
    }

    /** The reassembly loop, in a buffer grown to its maximum. */
    method Loop(start: seq<Byte>) returns (message: seq<Byte>)
      requires |start| <= MAX_FIRST_BUF
      modifies this
      ensures message == Collect(start, old(incoming), old(events))
      ensures message + incoming == start + old(incoming)
    {
      var buf := new Byte[MAX_FIRST_BUF];
      Store(buf, 0, start);
      var filled := |start|;
      assert buf[..filled] == start;
      ghost var goal, whole := Collect(start, incoming, events), start + incoming;
      while filled < MAX_FIRST_BUF
        invariant |start| <= filled <= MAX_FIRST_BUF == buf.Length
        invariant goal == Collect(buf[..filled], incoming, events) && whole == buf[..filled] + incoming
        decreases MAX_FIRST_BUF - filled
      {
        ghost var had, coming, all := buf[..filled], incoming, events;
        var r := Read(buf, filled);
        if !r.Got? || r.n == 0 {
          Nothing(had, coming);
          return buf[..filled];
        }
        filled := filled + r.n;
        CollectStep(had, coming, all);
        var status := TryParseClientHello(buf[..filled]);
        if !(status.NeedMore? && status.needed <= MAX_FIRST_BUF) {
          return buf[..filled];
        }
      }
      return buf[..filled];
    }
  }

  lemma Nothing(buf: seq<Byte>, incoming: seq<Byte>)
    ensures buf + [] == buf && incoming[0..] == incoming
  {
  }

  /** One read that delivers something moves it from what is coming to what is there. */
  lemma CollectStep(buf: seq<Byte>, incoming: seq<Byte>, events: seq<Event>)
    requires |buf| < MAX_FIRST_BUF && events != []
    requires Chunk(incoming, events[0], MAX_FIRST_BUF - |buf|) != []
    ensures var c := Chunk(incoming, events[0], MAX_FIRST_BUF - |buf|);
            && buf + incoming == buf + c + incoming[|c|..]
            && Collect(buf, incoming, events) ==
                 if GoOn(buf + c) then Collect(buf + c, incoming[|c|..], events[1..]) else buf + c
  {
    var c := Chunk(incoming, events[0], MAX_FIRST_BUF - |buf|);
    assert c + incoming[|c|..] == incoming;
    Assoc(buf, c, incoming[|c|..]);
  }

  method Store(buf: array<Byte>, from: nat, c: seq<Byte>)
    requires from + |c| <= buf.Length
    modifies buf
    ensures buf[..from + |c|] == old(buf[..from]) + c
  {
    forall i | 0 <= i < |c| {
      buf[from + i] := c[i];
    }
  }

  // ---------- Properties ----------

  lemma {:induction false} CollectLossless(buf: seq<Byte>, incoming: seq<Byte>, events: seq<Event>)
    requires |buf| <= MAX_FIRST_BUF
    ensures buf <= Collect(buf, incoming, events) <= buf + incoming
    ensures |Collect(buf, incoming, events)| <= MAX_FIRST_BUF
    decreases |events|
  {
    if |buf| < MAX_FIRST_BUF && events != [] {
      var c := Chunk(incoming, events[0], MAX_FIRST_BUF - |buf|);
      if c != [] {
        CollectStep(buf, incoming, events);
        CollectLossless(buf + c, incoming[|c|..], events[1..]);
      }
    }
  }

  /** In every run the first message is a prefix of what the client sent, of bounded size. */
  lemma FirstMessageLossless(incoming: seq<Byte>, events: seq<Event>)
    requires events != []
    ensures var r := FirstMessage(incoming, events);
            r.Ok? ==> r.value <= incoming && |r.value| <= MAX_FIRST_BUF
  {
    var c := Chunk(incoming, events[0], INITIAL_FIRST_BUF);
    CollectLossless(c, incoming[|c|..], events[1..]);
    assert c + incoming[|c|..] == incoming;
  }

  /**
   * The message is what was there when the parser last asked for more, and what one more read delivered: nothing,
   * or enough for the parser not to ask for more, or to ask for more than the buffer takes.
   */
  predicate EndsAfter(u: seq<Byte>, rest: seq<Byte>, more: seq<Event>, message: seq<Byte>) {
    && |u| <= 65536 && Parse(u).NeedMore?
    && var c := if more == [] then [] else Chunk(rest, more[0], 65536 - |u|);
       message == u + c && (c != [] ==> !Parse(message).NeedMore? || Parse(message).needed > 65536)
  }

  /** In every run the loop goes on exactly as long as it must. */
  lemma {:induction false} EndsOnlyThen(buf: seq<Byte>, incoming: seq<Byte>, events: seq<Event>)
    returns (u: seq<Byte>, rest: seq<Byte>, more: seq<Event>)
    requires |buf| <= MAX_FIRST_BUF && Parse(buf).NeedMore?
    ensures u + rest == buf + incoming && |more| <= |events| && more == events[|events| - |more|..]
    ensures EndsAfter(u, rest, more, Collect(buf, incoming, events))
    decreases |events|
  {
    if |buf| < MAX_FIRST_BUF && events != [] && GoesOn(buf, incoming, events[0]) {
      var c := Chunk(incoming, events[0], MAX_FIRST_BUF - |buf|);
      CollectStep(buf, incoming, events);
      u, rest, more := EndsOnlyThen(buf + c, incoming[|c|..], events[1..]);
    } else {
      u, rest, more := buf, incoming, events;
      EndsHere(buf, incoming, events);
    }
  }

  predicate GoesOn(buf: seq<Byte>, incoming: seq<Byte>, e: Event)
    requires |buf| < MAX_FIRST_BUF
  {
    var c := Chunk(incoming, e, MAX_FIRST_BUF - |buf|);
    c != [] && GoOn(buf + c)
  }

  lemma EndsHere(buf: seq<Byte>, incoming: seq<Byte>, events: seq<Event>)
    requires |buf| <= MAX_FIRST_BUF && Parse(buf).NeedMore?
    requires |buf| < MAX_FIRST_BUF && events != [] ==> !GoesOn(buf, incoming, events[0])
    ensures EndsAfter(buf, incoming, events, Collect(buf, incoming, events))
  {
    assert buf + [] == buf;
  }

  /**
   * The loop is entered only with the start of a TLS record: a first chunk whose first byte is another one, or
   * that is a whole hello, is the message; an empty one, from a closed connection, is an empty message.
   */
  lemma FirstChunkDecides(incoming: seq<Byte>, events: seq<Event>)
    requires events != []
    ensures events[0].Failed? <==> FirstMessage(incoming, events).Err?
    ensures events[0].Ready? ==>
              var n := Min(events[0].n, Min(4096, |incoming|));
              && (n == 0 || incoming[0] != 22 || Parse(incoming[..n]).Complete? ==>
                    FirstMessage(incoming, events) == Ok(incoming[..n]))
    ensures events[0].Closed? || events[0].TimedOut? ==> FirstMessage(incoming, events) == Ok([])
  {
  }

  /** Every read delivers at least one byte when there is one. */
  predicate Prompt(events: seq<Event>) {
    events == [] || (events[0].Ready? && events[0].n > 0 && Prompt(events[1..]))
  }

  lemma {:induction false} CollectReaches(
      hello: seq<Byte>, rs: seq<Record>, buf: seq<Byte>, incoming: seq<Byte>, events: seq<Event>)
    requires ExactHello(rs) && hello == Encode(rs) && |hello| <= MAX_FIRST_BUF
    requires 0 < |buf| <= MAX_FIRST_BUF && hello <= buf + incoming
    requires Prompt(events) && |events| >= |hello| - |buf|
    ensures hello <= Collect(buf, incoming, events)
    decreases |events|
  {
    if |buf| >= |hello| {
      CollectLossless(buf, incoming, events);
    } else {
      var c := Chunk(incoming, events[0], MAX_FIRST_BUF - |buf|);
      var rest := incoming[|c|..];
      assert c + rest == incoming;
      Assoc(buf, c, rest);
      if |buf + c| < |hello| {
        assert buf + c < hello;
        ProperPrefixNeedsMore(rs, buf + c);
        CollectReaches(hello, rs, buf + c, rest, events[1..]);
      } else if GoOn(buf + c) {
        CollectLossless(buf + c, rest, events[1..]);
      }
    }
  }

  /**
   * Chunking independence: as long as reads deliver, the first message contains the client's whole
   * hello however it is chunked, and is exactly the hello when nothing was sent behind it.
   */
  lemma {:induction false} ChunkingIndependence(rs: seq<Record>, more: seq<Byte>, events: seq<Event>)
    requires ExactHello(rs) && |Encode(rs)| <= MAX_FIRST_BUF
    requires Prompt(events) && |events| >= |Encode(rs)|
    ensures events != []
    ensures var r := FirstMessage(Encode(rs) + more, events);
            && r.Ok? && Encode(rs) <= r.value <= Encode(rs) + more
            && (more == [] ==> r.value == Encode(rs))
  {
    EncodeLength(rs);
    var hello, incoming := Encode(rs), Encode(rs) + more;
    var c := Chunk(incoming, events[0], INITIAL_FIRST_BUF);
    assert c + incoming[|c|..] == incoming;
    FirstMessageLossless(incoming, events);
    if |c| < |hello| {
      assert c < hello;
      ProperPrefixNeedsMore(rs, c);
    }
    if Parse(c).NeedMore? {
      CollectReaches(hello, rs, c, incoming[|c|..], events[1..]);
    }
  }
}
