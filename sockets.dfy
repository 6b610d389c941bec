/**
 * The socket the buffered reader and writer sit on. The operating-system
 * socket is not part of this model: it is replaced by a scripted peer,
 * the arrivals it will deliver and the outcomes of the coming sends, and
 * a record of what was sent.
 */
module Sockets {

  /** size_t's largest value: what `return -1` gives in a function returning size_t. */
  const SizeMax: nat := 0xFFFF_FFFF_FFFF_FFFF

  /** What one socket read can see: bytes from the peer, or an error. */
  datatype Arrival = Bytes(data: seq<char>) | Failure

  /**
   * Socket::read with room for `capacity` bytes: the next arrival, cut to
   * the room there is (the rest stays for the next read), or zero bytes
   * once the peer has nothing more (it has closed its side).
   * The result: the bytes, whether the read succeeded, the arrivals left.
   */
  function Receive(incoming: seq<Arrival>, capacity: nat): (r: (seq<char>, bool, seq<Arrival>))
    ensures r.1 ==> |r.0| <= capacity
    ensures !r.1 ==> r.0 == []
    ensures |r.2| <= |incoming|
  {
    if |incoming| == 0 then ([], true, [])
    else match incoming[0]
      case Failure => ([], false, incoming[1..])
      case Bytes(data) =>
        if |data| <= capacity then (data, true, incoming[1..])
        else (data[..capacity], true, [Bytes(data[capacity..])] + incoming[1..])
  }

  /** Every coming send succeeds. */
  predicate AllSucceed(outcomes: seq<bool>) {
    forall i :: 0 <= i < |outcomes| ==> outcomes[i]
  }

  /** The outcomes of the sends after the next `n`: each send uses up one. */
  function AfterSends(outcomes: seq<bool>, n: nat): seq<bool>
  {
    if n >= |outcomes| then [] else outcomes[n..]
  }

  /** Send number `i` from now goes through on an open socket: sends past the end of the list do. */
  predicate SendGoes(outcomes: seq<bool>, i: nat)
  {
    i >= |outcomes| || outcomes[i]
  }

  /** The next `n` sends all go through: none is tried, or the socket is open and each is scripted to succeed. */
  predicate SendsGo(closed: bool, outcomes: seq<bool>, n: nat)
  {
    n == 0 || (!closed && forall i :: 0 <= i < n ==> SendGoes(outcomes, i))
  }

  /**
   * After n sends that went through, the outcomes left are `now`; one more
   * send, judged on `now`, makes n + 1.
   */
  lemma {:induction false} OneMoreSend(closed: bool, outcomes: seq<bool>, n: nat, now: seq<bool>, ok: bool)
    requires now == AfterSends(outcomes, n) && SendsGo(closed, outcomes, n)
    requires ok <==> !closed && SendGoes(now, 0)
    ensures ok <==> SendsGo(closed, outcomes, n + 1)
    ensures AfterSends(now, 1) == AfterSends(outcomes, n + 1)
  {
    SendsGoNext(closed, outcomes, n);
  }

  /** n + 1 sends go through exactly when n do and then one more does. */
  lemma {:induction false} SendsGoNext(closed: bool, outcomes: seq<bool>, n: nat)
    ensures SendsGo(closed, outcomes, n + 1) <==> SendsGo(closed, outcomes, n) && SendsGo(closed, AfterSends(outcomes, n), 1)
    ensures AfterSends(AfterSends(outcomes, n), 1) == AfterSends(outcomes, n + 1)
  {
    assert SendGoes(AfterSends(outcomes, n), 0) <==> SendGoes(outcomes, n);
    if SendsGo(closed, outcomes, n) && SendsGo(closed, AfterSends(outcomes, n), 1) {
      forall i | 0 <= i < n + 1 ensures SendGoes(outcomes, i) {
        if i == n {
          assert SendGoes(AfterSends(outcomes, n), 0);
        }
      }
    }
  }

  class Socket {
    /** What the peer has yet to deliver, in order. */
    var incoming: seq<Arrival>
    /** Whether each coming send goes through; sends past the end of the list do. */
    var sendOutcomes: seq<bool>
    /** Every byte sent so far. */
    var sent: seq<char>
    var closed: bool

    constructor(incoming: seq<Arrival>, sendOutcomes: seq<bool>)
      ensures this.incoming == incoming && this.sendOutcomes == sendOutcomes
      ensures sent == [] && !closed
    {
      this.incoming := incoming;
      this.sendOutcomes := sendOutcomes;
      sent := [];
      closed := false;
    }

    /** Socket::read into a buffer with room for `capacity` bytes. */
    method Read(capacity: nat) returns (data: seq<char>, ok: bool)
      modifies this`incoming
      ensures (data, ok, incoming) == Receive(old(incoming), capacity)
    {
      var rest;
      data, ok, rest := Receive(incoming, capacity).0, Receive(incoming, capacity).1, Receive(incoming, capacity).2;
      incoming := rest;
    }

    /** Socket::send: all of `data` goes out, or nothing does; a closed socket sends nothing. */
    method Send(data: seq<char>) returns (ok: bool)
      modifies this`sent, this`sendOutcomes
      ensures ok == (!closed && (|old(sendOutcomes)| == 0 || old(sendOutcomes)[0]))
      ensures sent == if ok then old(sent) + data else old(sent)
      ensures sendOutcomes == if |old(sendOutcomes)| == 0 then [] else old(sendOutcomes)[1..]
    {
      ok := !closed && (|sendOutcomes| == 0 || sendOutcomes[0]);
      if |sendOutcomes| > 0 {
        sendOutcomes := sendOutcomes[1..];
      }
      if ok {
        sent := sent + data;
      }
    }

    /** Socket::close */
    method Close()
      modifies this`closed
      ensures closed
    {
      closed := true;
    }
  }

  /** std::copy of `src` into `dst` from position `at`. */
  method Copy(src: seq<char>, dst: array<char>, at: nat)
    requires at + |src| <= dst.Length
    modifies dst
    ensures dst[..] == old(dst[..at]) + src + old(dst[at + |src|..])
  {
    for k := 0 to |src|
      invariant forall j :: 0 <= j < dst.Length ==>
                  dst[j] == if at <= j < at + k then src[j - at] else old(dst[j])
    {
      dst[at + k] := src[k];
    }
    assert dst[..] == old(dst[..at]) + src + old(dst[at + |src|..]);
  }
}
