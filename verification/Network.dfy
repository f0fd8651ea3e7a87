/** The two objects every framing routine works on: the socket it reads from and
    the `boost::asio::streambuf` that holds bytes read but not yet consumed. */
module Network {
  import opened Search

  /** What the network does at one read: hand over a segment (of at most `n`
      bytes, at least one), or fail. */
  datatype Event = Deliver(n: nat) | Fault

  const SEGMENT: nat := 1024 * 10

  predicate NoFault(plan: seq<Event>) {
    forall e | e in plan :: e.Deliver?
  }

  predicate Within(a: seq<Event>, b: seq<Event>) {
    forall e | e in a :: e in b
  }

  function Later(plan: seq<Event>): (later: seq<Event>)
    ensures forall e | e in later :: e in plan
  {
    if plan == [] then [] else plan[1..]
  }

  /** True when a read reports an error instead of bytes: at end of stream, or on a fault. */
  predicate ReadFails(unread: string, plan: seq<Event>) {
    unread == "" || (plan != [] && plan[0].Fault?)
  }

  /** Number of bytes a successful read of at most `max` delivers. */
  function ReadLength(unread: string, plan: seq<Event>, max: nat): (n: nat)
    requires !ReadFails(unread, plan) && max > 0
    ensures 0 < n <= max && n <= |unread|
  {
    var limit := if |unread| < max then |unread| else max;
    if plan == [] || plan[0].n >= limit then limit
    else if plan[0].n == 0 then 1
    else plan[0].n
  }

  /** A connected stream. `plan` fixes beforehand how the network will cut the
      bytes up; a statement for every `plan` is a statement for every segmentation. */
  class Peer {
    var unread: string
    var plan: seq<Event>

    constructor (unread: string, plan: seq<Event>)
      ensures this.unread == unread && this.plan == plan
    {
      this.unread, this.plan := unread, plan;
    }

    /** `async_read_some` */
    method ReadSome(max: nat) returns (ec: bool, data: string)
      requires max > 0
      modifies this
      ensures plan == Later(old(plan))
      ensures ec == ReadFails(old(unread), old(plan))
      ensures ec ==> data == "" && unread == old(unread)
      ensures !ec ==> var n := ReadLength(old(unread), old(plan), max);
                      data == old(unread)[..n] && unread == old(unread)[n..]
    {
      ec, data := ReadFails(unread, plan), "";
      if !ec {
        var n := ReadLength(unread, plan, max);
        data, unread := unread[..n], unread[n..];
      }
      plan := Later(plan);
    }

    /** `async_read`: repeats `async_read_some` until `want` bytes arrived or a read failed. */
    method ReadFull(want: nat) returns (ec: bool, data: string)
      modifies this
      ensures old(unread) == data + unread && |data| <= want
      ensures !ec ==> |data| == want
      ensures ec ==> |data| < want && ReadFailure(old(plan), unread)
      ensures Within(plan, old(plan))
    {
      hide ReadLength;
      ec, data := false, "";
      while |data| < want && !ec
        invariant old(unread) == data + unread && |data| <= want
        invariant Within(plan, old(plan))
        invariant ec ==> |data| < want && ReadFailure(old(plan), unread)
        decreases !ec, want - |data|
      {
        assert plan != [] ==> plan[0] in plan;
        ghost var before := data;
        var more;
        ec, more := ReadSome(want - |data|);
        data := data + more;
        assert before + (more + unread) == data + unread;
      }
    }
  }

  /** The only ways a read can fail: the stream is exhausted or the network misbehaved. */
  predicate ReadFailure(plan: seq<Event>, unread: string) {
    unread == "" || !NoFault(plan)
  }

  class StreamBuf {
    var data: string

    constructor ()
      ensures data == ""
    {
      data := "";
    }

    method Commit(more: string)
      modifies this
      ensures data == old(data) + more
    {
      data := data + more;
    }

    /** `consume`: drops at most what the buffer holds. */
    method Consume(n: nat)
      modifies this
      ensures data == if n <= old(|data|) then old(data)[n..] else ""
    {
      data := if n <= |data| then data[n..] else "";
    }
  }

  // ---- The read-until-delimiter loop, as a function of the segmentation ----

  /** Buffer contents when the do-while loop shared by `receive_header_` and
      `receive_until_(delimiter)` stops. */
  function Filled(buffer: string, unread: string, plan: seq<Event>, delimiter: string): (b: string)
    ensures buffer <= b <= buffer + unread
    decreases |unread|
  {
    if ReadFails(unread, plan) then buffer
    else
      var n := ReadLength(unread, plan, SEGMENT);
      var next := buffer + unread[..n];
      assert buffer + unread == next + unread[n..];
      if |next| >= SEGMENT || Contains(next, delimiter) then next
      else Filled(next, unread[n..], Later(plan), delimiter)
  }

  lemma {:induction false} FilledBound(buffer: string, unread: string, plan: seq<Event>, delimiter: string)
    ensures var b := Filled(buffer, unread, plan, delimiter);
            |b| <= (if |buffer| < SEGMENT then SEGMENT else |buffer|) + SEGMENT
    decreases |unread|
  {
    if !ReadFails(unread, plan) {
      var n := ReadLength(unread, plan, SEGMENT);
      var next := buffer + unread[..n];
      if |next| < SEGMENT && !Contains(next, delimiter) {
        FilledBound(next, unread[n..], Later(plan), delimiter);
      }
    }
  }

  /** The longest stream prefix that the loop is certain to look at. */
  function Horizon(buffer: string): nat {
    if |buffer| + 1 < SEGMENT then SEGMENT else |buffer| + 1
  }

  /** A delimiter that ends within the horizon is found, however the bytes arrive. */
  lemma {:induction false} FilledFinds(buffer: string, unread: string, plan: seq<Event>, delimiter: string)
    requires NoFault(plan)
    requires var i := Find(buffer + unread, delimiter); 0 <= i && i + |delimiter| <= Horizon(buffer)
    ensures Contains(Filled(buffer, unread, plan, delimiter), delimiter)
    decreases |unread|
  {
    var s := buffer + unread;
    if ReadFails(unread, plan) {
      assert plan != [] ==> plan[0] in plan;
      assert s == buffer;
    } else {
      var n := ReadLength(unread, plan, SEGMENT);
      var next := buffer + unread[..n];
      assert s == next + unread[n..];
      FindInPrefix(next, s, delimiter);
      if |next| < SEGMENT && !Contains(next, delimiter) {
        FilledFinds(next, unread[n..], Later(plan), delimiter);
      }
    }
  }

  function OneByOne(k: nat): (plan: seq<Event>)
    ensures |plan| == k && NoFault(plan)
    ensures forall i | 0 <= i < k :: plan[i] == Deliver(1)
  {
    if k == 0 then [] else [Deliver(1)] + OneByOne(k - 1)
  }

  /** Delivered byte by byte, a delimiter that ends beyond the horizon is missed. */
  lemma {:induction false} FilledMisses(buffer: string, unread: string, plan: seq<Event>, delimiter: string)
    requires |plan| >= |unread| && forall e | e in plan :: e == Deliver(1)
    requires delimiter != ""
    requires var i := Find(buffer + unread, delimiter); i < 0 || i + |delimiter| > Horizon(buffer)
    ensures !Contains(Filled(buffer, unread, plan, delimiter), delimiter)
    decreases |unread|
  {
    var s := buffer + unread;
    if ReadFails(unread, plan) {
      assert unread == "" by { assert plan != [] ==> plan[0] in plan; }
      assert s == buffer;
      FindInPrefix(buffer, s, delimiter);
    } else {
      assert plan[0] in plan;
      var n := ReadLength(unread, plan, SEGMENT);
      var next := buffer + unread[..n];
      assert s == next + unread[n..];
      FindInPrefix(next, s, delimiter);
      if |next| < SEGMENT {
        FilledMisses(next, unread[n..], Later(plan), delimiter);
      }
    }
  }

  /** Exactly when the loop finds the delimiter under every segmentation. */
  lemma {:induction false} FilledExactly(buffer: string, unread: string, delimiter: string)
    requires delimiter != ""
    ensures (forall plan | NoFault(plan) :: Contains(Filled(buffer, unread, plan, delimiter), delimiter))
       <==> (var i := Find(buffer + unread, delimiter); 0 <= i && i + |delimiter| <= Horizon(buffer))
  {
    var i := Find(buffer + unread, delimiter);
    if 0 <= i && i + |delimiter| <= Horizon(buffer) {
      forall plan | NoFault(plan) ensures Contains(Filled(buffer, unread, plan, delimiter), delimiter) {
        FilledFinds(buffer, unread, plan, delimiter);
      }
    } else {
      var plan := OneByOne(|unread|);
      FilledMisses(buffer, unread, plan, delimiter);
    }
  }

  // ---- Byte by byte ----

  /** The slowest peer: one byte at each read, to the end. */
  predicate ByteByByte(unread: string, plan: seq<Event>) {
    |plan| >= |unread| && forall e | e in plan :: e == Deliver(1)
  }

  lemma {:induction false} ByteStep(unread: string, plan: seq<Event>, max: nat)
    requires ByteByByte(unread, plan) && max > 0
    ensures ReadFails(unread, plan) <==> unread == ""
    ensures unread == "" ==> ByteByByte(unread, Later(plan))
    ensures unread != "" ==> ReadLength(unread, plan, max) == 1 && ByteByByte(unread[1..], Later(plan))
  {
    assert plan != [] ==> plan[0] in plan;
  }

  /** The loop stops with the last byte of the delimiter. */
  lemma {:induction false} FilledToTheByte(buffer: string, unread: string, plan: seq<Event>, delimiter: string)
    requires ByteByByte(unread, plan) && !Contains(buffer, delimiter) && delimiter != ""
    ensures var b := Filled(buffer, unread, plan, delimiter);
            Contains(b, delimiter) ==> |b| == Find(buffer + unread, delimiter) + |delimiter|
    decreases |unread|
  {
    ByteStep(unread, plan, SEGMENT);
    if unread != "" {
      var s, next := buffer + unread, buffer + unread[..1];
      assert s == next + unread[1..];
      FindInPrefix(next, s, delimiter);
      FindInPrefix(buffer, s, delimiter);
      if |next| < SEGMENT && !Contains(next, delimiter) {
        FilledToTheByte(next, unread[1..], Later(plan), delimiter);
      }
    }
  }
}
