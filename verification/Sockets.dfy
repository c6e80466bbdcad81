/** The socket as the server sees it: a script of what the peer and the kernel will do, decided by an adversary. */
module Sockets {
  import opened Bytes

  type Chunk = s: seq<byte> | |s| > 0 witness [0]

  /** A read returns some of the bytes that arrived, EAGAIN, another error, or end of file. */
  datatype ReadEvent = Arrives(data: Chunk) | Blocks | Breaks | Ends

  datatype ReadResult = Got(data: Chunk) | Again | Error | Zero

  /** Every byte the peer will have sent, in order. */
  function Incoming(script: seq<ReadEvent>): seq<byte>
  {
    if script == [] then []
    else (if script[0].Arrives? then script[0].data else []) + Incoming(script[1..])
  }

  /** Bytes and events still to come: what bounds every loop that reads. */
  function Remaining(script: seq<ReadEvent>): nat
  {
    if script == [] then 0
    else (if script[0].Arrives? then |script[0].data| else 0) + 1 + Remaining(script[1..])
  }

  /** No error and no end of file lies ahead that did not before. */
  predicate NothingNew(was: seq<ReadEvent>, now: seq<ReadEvent>)
  {
    (Breaks in now ==> Breaks in was) && (Ends in now ==> Ends in was)
  }

  /** What is left once the first event has happened. */
  lemma AfterFirst(script: seq<ReadEvent>)
    requires script != []
    ensures Incoming(script) == (if script[0].Arrives? then script[0].data else []) + Incoming(script[1..])
    ensures Remaining(script[1..]) + (if script[0].Arrives? then |script[0].data| else 0) < Remaining(script)
    ensures NothingNew(script, script[1..])
  {
  }

  /** Taking `n` bytes of an arrival leaves the rest of it to come. */
  lemma SplitArrival(data: Chunk, n: nat, rest: seq<ReadEvent>)
    requires 0 < n < |data|
    ensures Incoming([Arrives(data)] + rest) == data[..n] + Incoming([Arrives(data[n..])] + rest)
    ensures Remaining([Arrives(data[n..])] + rest) + n == Remaining([Arrives(data)] + rest)
    ensures NothingNew([Arrives(data)] + rest, [Arrives(data[n..])] + rest)
  {
    var later := [Arrives(data[n..])] + rest;
    assert ([Arrives(data)] + rest)[1..] == rest == later[1..];
    assert data == data[..n] + data[n..];
  }

  /** The script after a read of at most `max` bytes; an end of file is there to stay. */
  function AfterRead(script: seq<ReadEvent>, max: nat): seq<ReadEvent>
  {
    if max == 0 || script == [] || script[0].Ends? then script
    else if script[0].Arrives? && |script[0].data| > max then [Arrives(script[0].data[max..])] + script[1..]
    else script[1..]
  }

  class Socket {
    var script: seq<ReadEvent>
    ghost var taken: seq<byte>

    /** All that will have happened, what the latest read that asked for something was told, and how many did. */
    ghost const input: seq<ReadEvent>
    ghost var last: ReadResult
    ghost var asked: nat

    /** What was taken and what is to come is what the peer sends; it is gone only if that was to happen. */
    ghost predicate Valid()
      reads this
    {
      && taken + Incoming(script) == Incoming(input) && NothingNew(input, script)
      && (last.Error? ==> Breaks in input) && (last.Zero? ==> Ends in input)
    }

    constructor (script: seq<ReadEvent>)
      ensures Valid() && input == script && this.script == script && taken == []
    {
      this.script, input := script, script;
      taken, last, asked := [], Again, 0;
    }

    /** `read(fd, buf, max)` on a non-blocking socket; a socket with nothing to say would block. */
    method Read(max: nat) returns (rc: ReadResult)
      requires Valid()
      modifies this
      ensures Valid() && asked == old(asked) + if max > 0 then 1 else 0
      ensures taken == old(taken) + if rc.Got? then rc.data else []
      ensures taken + Incoming(script) == old(taken + Incoming(script))
      ensures last == if max > 0 then rc else old(last)
      ensures rc.Again? <==> max > 0 && (old(script) == [] || old(script)[0].Blocks?)
      ensures script == AfterRead(old(script), max)
      ensures rc.Got? <==> max > 0 && old(script) != [] && old(script)[0].Arrives?
      ensures rc.Got? ==>
                rc.data == if |old(script)[0].data| <= max then old(script)[0].data else old(script)[0].data[..max]
      ensures rc.Zero? <==> max == 0 || (old(script) != [] && old(script)[0].Ends?)
      ensures rc.Error? <==> max > 0 && old(script) != [] && old(script)[0].Breaks?
      ensures Remaining(script) + |taken| <= old(Remaining(script) + |taken|)
      ensures rc.Got? ==> Remaining(script) < old(Remaining(script))
    {
      hide Incoming, Remaining;
      if max == 0 {
        return Zero;
      }
      asked := asked + 1;
      if script == [] {
        last := Again;
        return Again;
      }
      AfterFirst(script);
      var event, rest := script[0], script[1..];
      match event {
        case Blocks =>
          script, last := rest, Again;
          return Again;
        case Breaks =>
          script, last := rest, Error;
          return Error;
        case Ends =>
          last := Zero;
          return Zero;
        case Arrives(data) =>
          if |data| <= max {
            script, last := rest, Got(data);
            taken := taken + data;
            return Got(data);
          } else {
            var now: Chunk, later: Chunk := data[..max], data[max..];
            SplitArrival(data, max, rest);
            assert script == [event] + rest;
            script, last := [Arrives(later)] + rest, Got(now);
            taken := taken + now;
            return Got(now);
          }
      }
    }
  }
}
