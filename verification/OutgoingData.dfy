/** The sending side: sub-streams with a lazy end-of-file flag, their concatenation,
    and `write_data_`, which pushes them through partial socket writes. */
module OutgoingData {
  import opened Network

  /** `http_data_istream_wrapper` around a stream holding `content`. The end-of-file
      flag is raised only by a read that asks for more than is left. */
  class StreamWrapper {
    const content: string
    const length: nat
    var position: nat
    var atEof: bool

    constructor (content: string)
      ensures this.content == content && length == |content|
      ensures Valid() && position == 0 && !atEof
    {
      this.content, this.length := content, |content|;
      position, atEof := 0, false;
    }

    ghost predicate Valid()
      reads this
    {
      position <= |content| == length && (atEof ==> position == |content|)
    }

    ghost function Left(): string
      reads this
      requires Valid()
    {
      content[position..]
    }

    /** A read on a stream that already failed delivers nothing. */
    method Read(n: nat) returns (data: string)
      requires Valid()
      modifies this
      ensures Valid()
      ensures old(Left()) == data + Left()
      ensures |data| == if old(|Left()|) < n then old(|Left()|) else n
      ensures atEof == (old(atEof) || old(|Left()|) < n)
    {
      data := "";
      if atEof { return; }
      var left := |content| - position;
      var count := if left < n then left else n;
      data := content[position..position + count];
      position := position + count;
      atEof := left < n;
    }
  }

  /** `multi_stream_iodata` */
  class MultiStream {
    var offset: nat
    var datas: seq<StreamWrapper>

    constructor ()
      ensures Valid() && datas == [] && offset == 0 && Left() == ""
    {
      offset, datas := 0, [];
    }

    ghost predicate Valid()
      reads this, datas
    {
      && offset <= |datas|
      && (forall i | 0 <= i < |datas| :: datas[i].Valid())
      && (forall i, j | 0 <= i < j < |datas| :: datas[i] != datas[j])
    }

    /** Everything not read yet. */
    ghost function Left(): string
      reads this, datas
      requires Valid()
    {
      LeftOf(datas[offset..])
    }

    method Append(stream: StreamWrapper)
      requires Valid() && stream.Valid() && stream !in datas
      modifies this
      ensures Valid() && datas == old(datas) + [stream] && offset == old(offset)
      ensures Left() == old(Left()) + stream.Left()
    {
      LeftOfAppend(datas[offset..], [stream]);
      assert (datas + [stream])[offset..] == datas[offset..] + [stream];
      datas := datas + [stream];
    }

    method Eof() returns (eof: bool)
      requires Valid()
      ensures eof == (offset >= |datas|)
      ensures eof ==> Left() == ""
    {
      eof := offset >= |datas|;
    }

    method Size() returns (total: nat)
      requires Valid()
      ensures total == |AllOf(datas)|
    {
      total := 0;
      for i := 0 to |datas|
        invariant total == |AllOf(datas[..i])|
      {
        assert datas[..i + 1] == datas[..i] + [datas[i]];
        AllOfAppend(datas[..i], [datas[i]]);
        total := total + datas[i].length;
      }
      assert datas[..|datas|] == datas;
    }

    /** The result is the next stretch of the concatenated sub-streams; it is shorter
        than asked for only when all of them are exhausted. */
    method Read(n: nat) returns (data: string)
      requires Valid()
      modifies this, datas
      ensures Valid() && datas == old(datas) && offset >= old(offset)
      ensures old(Left()) == data + Left()
      ensures |data| == if old(|Left()|) < n then old(|Left()|) else n
      ensures |data| < n ==> offset == |datas|
      ensures n > 0 && old(offset) < |datas| ==> data != "" || offset == |datas|
    {
      data := "";
      if offset >= |datas| { return; }
      while true
        invariant Valid() && datas == old(datas)
        invariant old(offset) <= offset < |datas|
        invariant old(Left()) == data + Left()
        invariant |data| <= n && (|data| == n ==> n == 0)
        decreases |datas| - offset
      {
        ghost var whole := Left();
        var piece := ReadCurrent(n - |data|);
        Regroup(data, piece, Left());
        data := data + piece;
        if offset >= |datas| || |data| >= n { break; }
      }
      assert old(|Left()|) == |data| + |Left()|;
    }

    /** One round of the loop of `read`: the current sub-stream, left behind once it
        reports end of file. */
    method ReadCurrent(n: nat) returns (piece: string)
      requires Valid() && offset < |datas|
      modifies this, datas
      ensures Valid() && datas == old(datas)
      ensures old(Left()) == piece + Left() && |piece| <= n
      ensures offset == old(offset) || offset == old(offset) + 1
      ensures offset == old(offset) ==> |piece| == n
    {
      ghost var whole := Left();
      assert datas[offset..][1..] == datas[offset + 1..];
      label before:
      piece := datas[offset].Read(n);
      LeftOfUnchanged@before(datas[offset + 1..]);
      Regroup(piece, datas[offset].Left(), LeftOf(datas[offset + 1..]));
      if datas[offset].atEof {
        offset := offset + 1;
      }
    }
  }

  lemma {:induction false} Regroup(a: string, b: string, c: string)
    ensures a + (b + c) == a + b + c
  {
  }

  ghost function LeftOf(streams: seq<StreamWrapper>): string
    reads streams
    requires forall i | 0 <= i < |streams| :: streams[i].Valid()
  {
    if streams == [] then "" else streams[0].Left() + LeftOf(streams[1..])
  }

  /** The full contents, read or not. */
  function AllOf(streams: seq<StreamWrapper>): string {
    if streams == [] then "" else streams[0].content + AllOf(streams[1..])
  }

  lemma {:induction false} LeftOfAppend(a: seq<StreamWrapper>, b: seq<StreamWrapper>)
    requires forall i | 0 <= i < |a| :: a[i].Valid()
    requires forall i | 0 <= i < |b| :: b[i].Valid()
    ensures LeftOf(a + b) == LeftOf(a) + LeftOf(b)
  {
    if a == [] {
      assert a + b == b;
    } else {
      assert (a + b)[1..] == a[1..] + b;
      LeftOfAppend(a[1..], b);
    }
  }

  lemma {:induction false} AllOfAppend(a: seq<StreamWrapper>, b: seq<StreamWrapper>)
    ensures AllOf(a + b) == AllOf(a) + AllOf(b)
  {
    if a == [] {
      assert a + b == b;
    } else {
      assert (a + b)[1..] == a[1..] + b;
      AllOfAppend(a[1..], b);
    }
  }

  twostate lemma {:induction false} LeftOfUnchanged(streams: seq<StreamWrapper>)
    requires forall i | 0 <= i < |streams| :: old(streams[i].Valid()) && unchanged(streams[i])
    ensures LeftOf(streams) == old(LeftOf(streams))
  {
    if streams != [] {
      LeftOfUnchanged(streams[1..]);
    }
  }

  /** The receiving end of the socket. Each write is accepted in part: at least one
      byte, at most what `plan` says, unless `plan` has it fail. */
  class Sink {
    var wire: string
    var plan: seq<Event>

    constructor (plan: seq<Event>)
      ensures wire == "" && this.plan == plan
    {
      wire, this.plan := "", plan;
    }

    method WriteSome(data: string) returns (ec: bool, sent: nat)
      requires data != ""
      modifies this
      ensures sent <= |data| && wire == old(wire) + data[..sent]
      ensures ec <==> old(plan) != [] && old(plan)[0].Fault?
      ensures ec ==> sent == 0
      ensures !ec ==> sent > 0
      ensures Within(plan, old(plan))
    {
      ec, sent := ReadFails(data, plan), 0;
      if !ec {
        sent := ReadLength(data, plan, |data|);
        wire := wire + data[..sent];
      }
      plan := Later(plan);
    }
  }

  const CHUNK: nat := 1024 * 256

  /** The inner loop of `write_data_`: one block, however many partial writes it takes. */
  method WriteBlock(socket: Sink, data: string) returns (ok: bool)
    modifies socket
    ensures Within(socket.plan, old(socket.plan))
    ensures ok ==> socket.wire == old(socket.wire) + data
    ensures !ok ==> old(socket.wire) <= socket.wire <= old(socket.wire) + data
    ensures NoFault(old(socket.plan)) ==> ok
  {
    ghost var wire := socket.wire;
    var transferred := 0;
    while transferred < |data|
      invariant transferred <= |data|
      invariant socket.wire == wire + data[..transferred]
      invariant Within(socket.plan, old(socket.plan))
    {
      ghost var plan := socket.plan;
      assert plan != [] ==> plan[0] in plan;
      var ec, sent := socket.WriteSome(data[transferred..]);
      if ec { return false; }
      SentMore(wire, data, transferred, sent);
      transferred := transferred + sent;
    }
    assert data[..transferred] == data;
    ok := true;
  }

  /** `write_data_`: every byte is sent once and in order. `false` stands for the
      exception a failed write throws. */
  method WriteData(socket: Sink, response: MultiStream) returns (ok: bool)
    requires response.Valid()
    modifies socket, response, response.datas
    ensures response.Valid()
    ensures ok ==> socket.wire == old(socket.wire) + old(response.Left()) && response.offset == |response.datas|
    ensures !ok ==> socket.wire <= old(socket.wire) + old(response.Left())
    ensures NoFault(old(socket.plan)) ==> ok
    ensures Within(socket.plan, old(socket.plan))
  {
    hide LeftOf;
    ghost var whole := socket.wire + response.Left();
    var eof := response.Eof();
    while !eof
      invariant response.Valid() && response.datas == old(response.datas)
      invariant eof == (response.offset >= |response.datas|)
      invariant eof ==> response.Left() == ""
      invariant Within(socket.plan, old(socket.plan))
      invariant socket.wire + response.Left() == whole
      decreases |response.datas| - response.offset, |response.Left()|
    {
      ghost var wire := socket.wire;
      var data := response.Read(CHUNK);
      ghost var rest := response.Left();
      Regroup(wire, data, rest);
      assert wire + data + rest == whole;
      ok := WriteBlock(socket, data);
      assert response.Left() == rest;
      if !ok { return; }
      assert socket.wire + rest == whole;
      eof := response.Eof();
    }
    ok := true;
  }

  lemma {:induction false} SentMore(wire: string, data: string, k: nat, sent: nat)
    requires k + sent <= |data|
    ensures wire + data[..k] + data[k..][..sent] == wire + data[..k + sent]
  {
  }
}
