/** `BufferedSocket.cpp`: the queue of bytes that the peer has not taken yet, and the input buffer.
    What the operating system, the message queue and the reactor answer comes from outside. */
module BufferedSockets {
  import opened LittleEndian
  import opened Sequences

  // ----- output -----

  /** The peer takes some bytes, cannot take any now, or is gone. */
  datatype Taken = Took(n: nat) | Blocked | Gone

  /** The queued blocks, oldest first, and whether the reactor will report that the peer can take
      more.  `wire` and `accepted` are history: all bytes the peer took, and all buffers for
      which `send` returned true. */
  datatype Link = Link(queue: seq<seq<Byte>>, wakeup: bool, wire: seq<Byte>, accepted: seq<Byte>)

  const Opened := Link([], false, [], [])

  /** `noblk_send`: the number of bytes taken, 0 if the peer cannot take any now, or -1. */
  function Noblk(len: nat, t: Taken): (n: int)
    ensures -1 <= n <= len && (len == 0 ==> n == -1)
  {
    if len == 0 then -1
    else match t case Took(n) => (if n == 0 then -1 else if n > len then len else n) case Blocked => 0 case Gone => -1
  }

  /** `send`, with the answers of peer, queue and reactor as far as they are asked. */
  function SendStep(l: Link, buf: seq<Byte>, t: Taken, queued: bool, scheduled: bool): (Link, bool)
  {
    if buf == [] then (l, true)
    else if l.queue == [] then
      var n := Noblk(|buf|, t);
      if n < 0 then (l, false)
      else if n == |buf| then (l.(wire := l.wire + buf, accepted := l.accepted + buf), true)
      else Enqueue(l.(wire := l.wire + buf[..n]), buf, buf[n..], queued, scheduled)
    else Enqueue(l, buf, buf, queued, scheduled)
  }

  function Enqueue(l: Link, buf: seq<Byte>, rest: seq<Byte>, queued: bool, scheduled: bool): (Link, bool)
  {
    if !queued then (l, false)
    else if !scheduled then (l.(queue := l.queue + [rest]), false)
    else (l.(queue := l.queue + [rest], wakeup := true, accepted := l.accepted + buf), true)
  }

  /** `handle_output`. */
  function OutputStep(l: Link, t: Taken, queued: bool): (Link, int)
  {
    if l.queue == [] then (l.(wakeup := false), 0)
    else
      var mb, rest := l.queue[0], l.queue[1..];
      var n := Noblk(|mb|, t);
      if n < 0 then (l.(queue := rest), -1)
      else if n == |mb| then (l.(queue := rest, wire := l.wire + mb), 1)
      else if !queued then (l.(queue := rest, wire := l.wire + mb[..n]), -1)
      else (l.(queue := [mb[n..]] + rest, wire := l.wire + mb[..n]), 0)
  }

  datatype Event =
    | Send(buf: seq<Byte>, t: Taken, queued: bool, scheduled: bool)
    | Output(t: Taken, queued: bool)

  function Step(l: Link, e: Event): Link
  {
    match e
    case Send(buf, t, queued, scheduled) => SendStep(l, buf, t, queued, scheduled).0
    case Output(t, queued) => OutputStep(l, t, queued).0
  }

  function Steps(l: Link, es: seq<Event>): Link
    decreases es
  {
    if es == [] then l else Steps(Step(l, es[0]), es[1..])
  }

  /** What the peer took and what waits make up what was accepted, in order. */
  predicate Conserved(l: Link) { l.wire + Flatten(l.queue) == l.accepted }

  predicate NoEmptyBlock(l: Link) { forall i :: 0 <= i < |l.queue| ==> l.queue[i] != [] }

  /** Waiting bytes will be asked for. */
  predicate Awake(l: Link) { l.queue != [] ==> l.wakeup }

  /** The peer is gone, or takes nothing although it could take something. */
  predicate Refuses(t: Taken) { t.Gone? || t == Took(0) }

  /** The peer takes fewer than `len` bytes. */
  predicate TakesLess(t: Taken, len: nat) { t.Blocked? || (t.Took? && 0 < t.n < len) }

  /** When the stream comes apart.  For `send`: with nothing waiting, the peer takes a part and the rest
      cannot be queued, or anything less and no wakeup can be had; with something waiting, the
      buffer is queued and no wakeup can be had.  For `handle_output`: with something waiting, the
      peer refuses, or takes a part of the oldest block and the rest cannot be put back. */
  predicate Torn(l: Link, e: Event)
  {
    match e
    case Send(buf, t, queued, scheduled) =>
      if l.queue == [] then
        TakesLess(t, |buf|) && if queued then !scheduled && buf != [] else t.Took?
      else
        buf != [] && queued && !scheduled
    case Output(t, queued) =>
      l.queue != [] && (Refuses(t) || (!queued && TakesLess(t, |l.queue[0]|)))
  }

  /** A step keeps the stream together just when it is not torn. */
  lemma StepConservesIff(l: Link, e: Event)
    requires Conserved(l) && NoEmptyBlock(l)
    ensures Conserved(Step(l, e)) <==> !Torn(l, e)
    ensures NoEmptyBlock(Step(l, e))
    ensures !Torn(l, e) && Awake(l) ==> Awake(Step(l, e))
  {
    match e
    case Send(buf, t, queued, scheduled) => SendConservesIff(l, buf, t, queued, scheduled);
    case Output(t, queued) => OutputConservesIff(l, t, queued);
  }

  /** Queueing what is left of a buffer whose first `n` bytes went out. */
  lemma EnqueueConservesIff(l: Link, buf: seq<Byte>, n: nat, queued: bool, scheduled: bool)
    requires n < |buf| && l.wire + Flatten(l.queue) == l.accepted + buf[..n] && NoEmptyBlock(l)
    ensures var (l', ok) := Enqueue(l, buf, buf[n..], queued, scheduled);
            && (Conserved(l') <==> (queued && scheduled) || (!queued && n == 0))
            && NoEmptyBlock(l') && (ok <==> queued && scheduled) && (ok ==> l'.wakeup) && (!ok && !queued ==> l' == l)
  {
    var rest := buf[n..];
    FlattenConcat(l.queue, [rest]);
    FlattenFirst(rest, []);
    hide Flatten;
    assert buf == buf[..n] + rest;
    Regroup(l.wire, Flatten(l.queue), rest);
    Regroup(l.accepted, buf[..n], rest);
    assert |l.wire| + |Flatten(l.queue)| == |l.accepted| + n;
  }

  lemma Regroup<T>(a: seq<T>, b: seq<T>, c: seq<T>)
    ensures a + (b + c) == (a + b) + c
  {
  }

  lemma SendConservesIff(l: Link, buf: seq<Byte>, t: Taken, queued: bool, scheduled: bool)
    requires Conserved(l) && NoEmptyBlock(l)
    ensures var l' := SendStep(l, buf, t, queued, scheduled).0;
            && (Conserved(l') <==> !Torn(l, Send(buf, t, queued, scheduled)))
            && NoEmptyBlock(l') && (!Torn(l, Send(buf, t, queued, scheduled)) && Awake(l) ==> Awake(l'))
  {
    hide Enqueue;
    if buf != [] {
      if l.queue != [] {
        assert buf[0..] == buf && l.accepted + buf[..0] == l.accepted;
        EnqueueConservesIff(l, buf, 0, queued, scheduled);
      } else if 0 <= Noblk(|buf|, t) < |buf| {
        var n := Noblk(|buf|, t);
        assert l.wire + buf[..n] + [] == l.wire + buf[..n] && l.wire + [] == l.wire;
        EnqueueConservesIff(l.(wire := l.wire + buf[..n]), buf, n, queued, scheduled);
        assert n == 0 ==> l.(wire := l.wire + buf[..n]) == l;
      } else {
        assert l.wire + buf + [] == l.wire + buf && l.wire + [] == l.wire;
      }
    }
  }

  lemma OutputConservesIff(l: Link, t: Taken, queued: bool)
    requires Conserved(l) && NoEmptyBlock(l)
    ensures var l' := OutputStep(l, t, queued).0;
            && (Conserved(l') <==> !Torn(l, Output(t, queued)))
            && NoEmptyBlock(l') && (!Torn(l, Output(t, queued)) && Awake(l) ==> Awake(l'))
  {
    if l.queue != [] {
      OutputMoves(l, t, queued);
      var l', r := OutputStep(l, t, queued).0, OutputStep(l, t, queued).1;
      hide OutputStep; hide Flatten; hide NoEmptyBlock;
      assert r == -1 ==> |l'.wire + Flatten(l'.queue)| < |l.accepted|;
    }
  }

  /** With something waiting, bytes go from the queue to the wire or, on failure, are lost. */
  lemma OutputMoves(l: Link, t: Taken, queued: bool)
    requires l.queue != [] && NoEmptyBlock(l)
    ensures var (l', r) := OutputStep(l, t, queued);
            && l'.accepted == l.accepted && l'.wakeup == l.wakeup && NoEmptyBlock(l')
            && (r != -1 ==> l'.wire + Flatten(l'.queue) == l.wire + Flatten(l.queue))
            && (r == -1 ==> |l'.wire| + |Flatten(l'.queue)| < |l.wire| + |Flatten(l.queue)|)
            && (t.Took? && t.n > 0 && queued ==> r != -1 && |Flatten(l'.queue)| < |Flatten(l.queue)|)
  {
    var mb, rest := l.queue[0], l.queue[1..];
    var n := Noblk(|mb|, t);
    FlattenFirst(mb, rest);
    assert l.queue == [mb] + rest;
    if n >= 0 {
      FlattenFirst(mb[n..], rest);
      assert [mb[n..]] + rest != [] && mb == mb[..n] + mb[n..];
      assert n == |mb| ==> mb[..n] == mb;
      Regroup(mb[..n], mb[n..], Flatten(rest));
      Regroup(l.wire, mb[..n], mb[n..] + Flatten(rest));
    }
  }

  // ----- what the callers are told -----

  /** `send` says true just when the whole buffer went out at once, or what did not was queued and a wakeup was
      scheduled; a peer that refuses is never covered up. */
  predicate Delivered(l: Link, buf: seq<Byte>, t: Taken, queued: bool, scheduled: bool)
  {
    || buf == []
    || (l.queue == [] && t.Took? && t.n >= |buf|)
    || ((l.queue != [] || TakesLess(t, |buf|)) && queued && scheduled)
  }

  lemma SendTellsIff(l: Link, buf: seq<Byte>, t: Taken, queued: bool, scheduled: bool)
    ensures var (l', ok) := SendStep(l, buf, t, queued, scheduled);
            && (ok <==> Delivered(l, buf, t, queued, scheduled))
            && l'.accepted == l.accepted + (if ok then buf else [])
  {
  }

  /** `handle_output` fails just when the peer refuses or the rest of a block cannot be put back; it asks to be
      called again just when a whole block went out; and it cancels the wakeup just when nothing waits. */
  lemma OutputTellsIff(l: Link, t: Taken, queued: bool)
    requires NoEmptyBlock(l)
    ensures var (l', r) := OutputStep(l, t, queued);
            && (r == -1 <==> l.queue != [] && (Refuses(t) || (!queued && TakesLess(t, |l.queue[0]|))))
            && (r == 1 <==> l.queue != [] && t.Took? && t.n >= |l.queue[0]|)
            && (r == 0 || r == 1 || r == -1)
            && l'.wakeup == (l.queue != [] && l.wakeup)
  {
  }

  /** The buffers for which the caller of `send` was told true in a run. */
  function Told(l: Link, es: seq<Event>): seq<Byte>
    decreases es
  {
    if es == [] then []
    else
      var e := es[0];
      (if e.Send? && SendStep(l, e.buf, e.t, e.queued, e.scheduled).1 then e.buf else []) + Told(Step(l, e), es[1..])
  }

  predicate Untorn(l: Link, es: seq<Event>)
    decreases es
  {
    es == [] || (!Torn(l, es[0]) && Untorn(Step(l, es[0]), es[1..]))
  }

  /** So in any run `accepted` grows by just these. */
  lemma {:induction false} AcceptedIsTold(l: Link, es: seq<Event>)
    ensures Steps(l, es).accepted == l.accepted + Told(l, es)
    decreases es
  {
    if es != [] {
      var e := es[0];
      if e.Send? { SendTellsIff(l, e.buf, e.t, e.queued, e.scheduled); } else { OutputAccepts(l, e.t, e.queued); }
      hide SendStep; hide OutputStep;
      AcceptedIsTold(Step(l, e), es[1..]);
    }
  }

  lemma OutputAccepts(l: Link, t: Taken, queued: bool)
    ensures OutputStep(l, t, queued).0.accepted == l.accepted
  {
  }

  /** In every run without a torn step the peer has a prefix of what the callers were told was accepted, the
      rest waits in order, and while something waits a wakeup is scheduled. */
  lemma {:induction false} RunConserves(l: Link, es: seq<Event>)
    requires Conserved(l) && NoEmptyBlock(l) && Awake(l) && Untorn(l, es)
    ensures var l' := Steps(l, es);
            l'.wire + Flatten(l'.queue) == l.accepted + Told(l, es) && NoEmptyBlock(l') && Awake(l')
    decreases es
  {
    AcceptedIsTold(l, es);
    if es != [] {
      StepConservesIff(l, es[0]);
      AcceptedIsTold(Step(l, es[0]), es[1..]);
      RunConserves(Step(l, es[0]), es[1..]);
    }
  }

  /** A peer that takes something at every wakeup. */
  predicate Willing(es: seq<Event>)
  {
    forall i :: 0 <= i < |es| ==> es[i].Output? && es[i].t.Took? && es[i].t.n > 0 && es[i].queued
  }

  /** It gets everything that waits, in order, after at most one wakeup a byte; the next one is the
      last. */
  lemma {:induction false} WillingPeerGetsAll(l: Link, es: seq<Event>)
    requires NoEmptyBlock(l) && Willing(es) && |es| > |Flatten(l.queue)|
    ensures Steps(l, es) == l.(queue := [], wakeup := false, wire := l.wire + Flatten(l.queue))
    decreases es
  {
    var l1 := Step(l, es[0]);
    if l.queue == [] {
      NothingWaits(l1, es[1..]);
      assert l.wire + [] == l.wire;
    } else {
      hide OutputStep; hide Noblk;
      OutputMoves(l, es[0].t, es[0].queued);
      WillingPeerGetsAll(l1, es[1..]);
    }
  }

  lemma {:induction false} NothingWaits(l: Link, es: seq<Event>)
    requires l.queue == [] && !l.wakeup && Willing(es)
    ensures Steps(l, es) == l
    decreases es
  {
    if es != [] {
      assert Step(l, es[0]) == l;
      NothingWaits(l, es[1..]);
    }
  }

  // ----- input -----

  const SPACE: nat := 4096

  /** `recv` gives some bytes (none at the end of the stream), has none now, or fails. */
  datatype Arrival = Data(bytes: seq<Byte>) | NoneYet | Failure

  /** What the socket's user asks for when told that there is something to read: the sizes of its `recv`
      calls, one after the other, which may depend on what is buffered. */
  type Reader = seq<Byte> -> seq<nat>

  /** How much the calls take from `len` bytes; one that asks for too much takes nothing. */
  function Granted(len: nat, requests: seq<nat>): (r: nat)
    ensures r <= len
    decreases requests
  {
    if requests == [] then 0
    else if requests[0] <= len then requests[0] + Granted(len - requests[0], requests[1..])
    else Granted(len, requests[1..])
  }

  /** A request for more than there is changes nothing for the others. */
  lemma {:induction false} TooMuchIsSkipped(len: nat, a: seq<nat>, big: nat, b: seq<nat>)
    requires big > len
    ensures Granted(len, a + [big] + b) == Granted(len, a + b)
    decreases a
  {
    if a == [] {
      assert ([] + [big] + b)[1..] == b && [] + b == b;
    } else {
      assert (a + [big] + b)[1..] == a[1..] + [big] + b && (a + b)[1..] == a[1..] + b;
      TooMuchIsSkipped(if a[0] <= len then len - a[0] else len, a[1..], big, b);
    }
  }

  /** One that can be met takes as much as it asks for, in front of the others. */
  lemma FirstIsGranted(len: nat, k: nat, rest: seq<nat>)
    requires k <= len
    ensures Granted(len, [k] + rest) == k + Granted(len - k, rest)
  {
    assert ([k] + rest)[1..] == rest;
  }

  class BufferedSocket {
    var queue: seq<seq<Byte>>
    var wakeup: bool
    ghost var wire: seq<Byte>
    ghost var accepted: seq<Byte>
    const input: array<Byte>
    var rd: nat
    var wr: nat
    ghost var received: seq<Byte>
    ghost var consumed: seq<Byte>

    ghost function State(): Link reads this { Link(queue, wakeup, wire, accepted) }

    ghost predicate Valid()
      reads this, input
    {
      && input.Length == SPACE && rd <= wr <= SPACE && received == consumed + Buffered()
    }

    function Buffered(): seq<Byte>
      requires rd <= wr <= input.Length
      reads this, input
    {
      input[rd..wr]
    }

    constructor ()
      ensures Valid() && State() == Opened && Buffered() == [] && consumed == [] && fresh(input)
    {
      queue, wakeup, wire, accepted := [], false, [], [];
      input := new Byte[SPACE];
      rd, wr, received, consumed := 0, 0, [], [];
    }

    method SendBytes(buf: seq<Byte>, t: Taken, queued: bool, scheduled: bool) returns (ok: bool)
      modifies this`queue, this`wakeup, this`wire, this`accepted
      ensures (State(), ok) == SendStep(old(State()), buf, t, queued, scheduled)
    {
      if |buf| == 0 {
        return true;
      }
      var block := buf;
      if queue == [] {
        var n := Noblk(|block|, t);
        if n < 0 {
          return false;
        }
        wire := wire + block[..n];
        if n == |buf| {
          assert block[..n] == buf;
          accepted := accepted + buf;
          return true;
        }
        block := block[n..];
      }
      if !queued {
        return false;
      }
      queue := queue + [block];
      if !scheduled {
        return false;
      }
      wakeup := true;
      accepted := accepted + buf;
      return true;
    }

    method HandleOutput(t: Taken, queued: bool) returns (r: int)
      modifies this`queue, this`wakeup, this`wire
      ensures (State(), r) == OutputStep(old(State()), t, queued)
    {
      if queue == [] {
        wakeup := false;
        return 0;
      }
      var mb := queue[0];
      queue := queue[1..];
      var n := Noblk(|mb|, t);
      if n < 0 {
        return -1;
      }
      wire := wire + mb[..n];
      if n == |mb| {
        assert mb[..n] == mb;
        return 1;
      }
      if !queued {
        return -1;
      }
      queue := [mb[n..]] + queue;
      return 0;
    }

    method RecvSoft(len: nat) returns (ok: bool, buf: seq<Byte>)
      requires Valid()
      ensures ok == (len <= |Buffered()|) && buf == if ok then Buffered()[..len] else []
    {
      if wr - rd < len {
        return false, [];
      }
      assert input[rd..wr][..len] == input[rd..rd + len];
      return true, input[rd..rd + len];
    }

    /** Taken bytes are gone; a read that asks for too much takes nothing. */
    method Recv(len: nat) returns (ok: bool, buf: seq<Byte>)
      requires Valid()
      modifies this`rd, this`consumed
      ensures Valid() && ok == (len <= |old(Buffered())|)
      ensures buf == if ok then old(Buffered())[..len] else []
      ensures consumed == old(consumed) + buf && Buffered() == old(Buffered())[|buf|..]
    {
      ok, buf := RecvSoft(len);
      if ok {
        rd := rd + len;
        consumed := consumed + buf;
      }
    }

    /** The unread bytes move to the beginning. */
    method Crunch()
      requires Valid()
      modifies this`rd, this`wr, input
      ensures Valid() && rd == 0 && Buffered() == old(Buffered())
    {
      if rd != 0 {
        var len := wr - rd;
        ghost var unread := Buffered();
        for i := 0 to len
          invariant rd == old(rd) && wr == old(wr)
          invariant forall j :: 0 <= j < i ==> input[j] == unread[j]
          invariant forall j :: i <= j < len ==> input[rd + j] == unread[j]
        {
          input[i] := input[rd + i];
        }
        rd, wr := 0, len;
        assert input[0..len] == unread;
      }
    }

    /** What arrives goes behind what is buffered. */
    method Arrive(bytes: seq<Byte>)
      requires Valid() && |bytes| <= SPACE - wr
      modifies this`wr, this`received, input
      ensures Valid() && Buffered() == old(Buffered()) + bytes && received == old(received) + bytes
    {
      ghost var before := Buffered();
      forall i | 0 <= i < |bytes| { input[wr + i] := bytes[i]; }
      wr := wr + |bytes|;
      received := received + bytes;
      assert Buffered() == before + bytes;
    }

    /** The calls of the socket's user. */
    method RecvAll(requests: seq<nat>)
      requires Valid()
      modifies this`rd, this`consumed
      ensures Valid()
      ensures var before := old(Buffered()); var n := Granted(|before|, requests);
              consumed == old(consumed) + before[..n] && Buffered() == before[n..]
    {
      hide Granted; hide Parted;
      ghost var before, first := Buffered(), consumed;
      ghost var n: nat := 0;
      NothingTaken(first, before, requests);
      for i := 0 to |requests|
        invariant Valid() && n <= |before| && Parted(first, before, n, consumed, Buffered())
        invariant Granted(|before|, requests) == n + Granted(|before| - n, requests[i..])
      {
        OneRequest(|before| - n, requests, i);
        ghost var gone, left := consumed, Buffered();
        var ok, taken := Recv(requests[i]);
        TakeMore(first, before, n, gone, left, |taken|);
        n := n + |taken|;
      }
      AllTaken(first, before, n, consumed, Buffered(), requests);
    }

    /** One readiness report.  What arrives goes behind what is buffered, the user takes bytes from the
        front, and the rest is kept; a full buffer or the end of the stream closes the
        connection, and 1 asks to be called again. */
    method HandleInput(arrival: Arrival, reader: Reader) returns (r: int)
      requires Valid() && (arrival.Data? ==> |arrival.bytes| <= SPACE - wr)
      modifies this`rd, this`wr, this`received, this`consumed, input
      ensures Valid()
      ensures var space, before := SPACE - old(wr), old(Buffered());
              if arrival.Data? && arrival.bytes != [] then
                && r == (if |arrival.bytes| == space then 1 else 0)
                && received == old(received) + arrival.bytes && rd == 0
                && (var all := before + arrival.bytes; var taken := Granted(|all|, reader(all));
                    consumed == old(consumed) + all[..taken] && Buffered() == all[taken..])
              else
                && r == (if arrival.NoneYet? then 0 else -1)
                && received == old(received) && consumed == old(consumed) && Buffered() == before
      ensures old(wr) == SPACE && arrival.Data? ==> r == -1
    {
      var space := SPACE - wr;
      match arrival {
        case NoneYet => return 0;
        case Failure => return -1;
        case Data(bytes) =>
          if |bytes| == 0 {
            return -1;
          }
          Arrive(bytes);
          RecvAll(reader(input[rd..wr]));
          Crunch();
          return if |bytes| == space then 1 else 0;
      }
    }
  }

  /** `n` of the bytes buffered before are consumed, the others left. */
  ghost predicate Parted(first: seq<Byte>, before: seq<Byte>, n: nat, gone: seq<Byte>, left: seq<Byte>)
  {
    n <= |before| && gone == first + before[..n] && left == before[n..]
  }

  lemma NothingTaken(first: seq<Byte>, before: seq<Byte>, requests: seq<nat>)
    ensures Parted(first, before, 0, first, before) && requests[0..] == requests
  {
  }

  lemma OneRequest(len: nat, requests: seq<nat>, i: nat)
    requires i < |requests|
    ensures Granted(len, requests[i..]) ==
            if requests[i] <= len then requests[i] + Granted(len - requests[i], requests[i + 1..])
            else Granted(len, requests[i + 1..])
  {
    assert requests[i..][0] == requests[i] && requests[i..][1..] == requests[i + 1..];
  }

  lemma TakeMore(first: seq<Byte>, before: seq<Byte>, n: nat, gone: seq<Byte>, left: seq<Byte>, k: nat)
    requires Parted(first, before, n, gone, left)
    ensures |left| == |before| - n
    ensures k <= |left| ==> Parted(first, before, n + k, gone + left[..k], left[k..])
  {
    if k <= |left| { assert before[..n] + before[n..][..k] == before[..n + k]; }
  }

  lemma AllTaken(first: seq<Byte>, before: seq<Byte>, n: nat, gone: seq<Byte>, left: seq<Byte>, requests: seq<nat>)
    requires Parted(first, before, n, gone, left)
    ensures n <= |before| && gone == first + before[..n] && left == before[n..]
    ensures Granted(|before| - n, requests[|requests|..]) == 0
  {
  }
}
