/** `ACE::send_n` on chains of message blocks: the blocks' bytes are collected into vectors of bounded
    size and each full vector is sent. */
module MessageBlocks {
  import opened LittleEndian
  import opened Sequences
  import opened VectorIO

  /** A message block: the unread bytes at `base`, the next block of the same message and the next
      message.  Only the first block of a message is asked for `next`. */
  datatype Block = Null | Block(base: nat, length: nat, cont: Block, next: Block)

  function Message(b: Block): seq<nat>
  {
    if b.Null? then [] else Run(b.base, b.length) + Message(b.cont)
  }

  function AllMessages(b: Block): seq<nat>
  {
    if b.Null? then [] else Message(b) + AllMessages(b.next)
  }

  /** A message whose parts are linked by `cont`, the first one also to the next message by `next`. */
  function MessageOf(parts: seq<IoVec>, next: Block): Block
  {
    if parts == [] then Null else Block(parts[0].base, parts[0].len, MessageOf(parts[1..], Null), next)
  }

  function ChainOf(messages: seq<seq<IoVec>>): Block
  {
    if messages == [] then Null else MessageOf(messages[0], ChainOf(messages[1..]))
  }

  /** The bytes of a chain are those of its messages' parts, one message after the other. */
  lemma {:induction false} ChainIsInOrder(messages: seq<seq<IoVec>>)
    requires forall i :: 0 <= i < |messages| ==> messages[i] != []
    ensures AllMessages(ChainOf(messages)) == Cells(Flatten(messages))
  {
    if messages != [] {
      var rest := messages[1..];
      ChainIsInOrder(rest);
      MessageIsInOrder(messages[0], ChainOf(rest));
      CellsOfConcat(messages[0], Flatten(rest));
    }
  }

  lemma {:induction false} MessageIsInOrder(parts: seq<IoVec>, next: Block)
    ensures Message(MessageOf(parts, next)) == Cells(parts)
    decreases parts
  {
    if parts != [] {
      MessageIsInOrder(parts[1..], Null);
      assert Run(parts[0].base, parts[0].len) == seq(parts[0].len, i => parts[0].base + i);
    }
  }

  // ----- the chunks in which a block enters the vectors -----

  function Pieces(length: nat, limit: nat): (r: seq<nat>)
    requires limit > 0
    ensures Sum(r) == length && forall i :: 0 <= i < |r| ==> 0 < r[i] <= limit
  {
    if length == 0 then [] else [Least(length, limit)] + Pieces(length - Least(length, limit), limit)
  }

  function MessagePieces(b: Block, limit: nat): seq<nat>
    requires limit > 0
  {
    if b.Null? then [] else Pieces(b.length, limit) + MessagePieces(b.cont, limit)
  }

  function AllPieces(b: Block, limit: nat): seq<nat>
    requires limit > 0
  {
    if b.Null? then [] else MessagePieces(b, limit) + AllPieces(b.next, limit)
  }

  function Sum(s: seq<nat>): nat { if s == [] then 0 else s[0] + Sum(s[1..]) }

  lemma {:induction false} SumConcat(a: seq<nat>, b: seq<nat>)
    ensures Sum(a + b) == Sum(a) + Sum(b)
  {
    if a == [] {
      assert a + b == b;
    } else {
      assert (a + b)[1..] == a[1..] + b;
      SumConcat(a[1..], b);
    }
  }

  predicate Positive(s: seq<nat>) { forall i :: 0 <= i < |s| ==> s[i] > 0 }

  lemma {:induction false} SumOfPositive(s: seq<nat>)
    requires Positive(s)
    ensures Sum(s) >= |s|
  {
    if s != [] { SumOfPositive(s[1..]); }
  }

  lemma {:induction false} MessagePiecesFit(b: Block, limit: nat)
    requires limit > 0
    ensures Sum(MessagePieces(b, limit)) == |Message(b)| && Positive(MessagePieces(b, limit))
    ensures forall i :: 0 <= i < |MessagePieces(b, limit)| ==> MessagePieces(b, limit)[i] <= limit
  {
    if b.Block? {
      MessagePiecesFit(b.cont, limit);
      SumConcat(Pieces(b.length, limit), MessagePieces(b.cont, limit));
    }
  }

  lemma {:induction false} AllPiecesFit(b: Block, limit: nat)
    requires limit > 0
    ensures Sum(AllPieces(b, limit)) == |AllMessages(b)| && Positive(AllPieces(b, limit))
    ensures forall i :: 0 <= i < |AllPieces(b, limit)| ==> AllPieces(b, limit)[i] <= limit
  {
    if b.Block? {
      AllPiecesFit(b.next, limit);
      MessagePiecesFit(b, limit);
      SumConcat(MessagePieces(b, limit), AllPieces(b.next, limit));
    }
  }

  // ----- sending in batches -----

  /** Batches of `max` chunks, each sent like one buffer, until one of them fails. */
  function Batches(pieces: seq<nat>, max: nat, moved: nat, script: seq<Reply>): Outcome
    requires max > 0
    decreases |pieces|
  {
    if pieces == [] then Outcome(moved, moved, script)
    else
      var k := Least(|pieces|, max);
      var r := TransferAll(Sum(pieces[..k]), 0, script);
      if r.result in {0, -1} then Outcome(moved + r.moved, r.result, r.script)
      else Batches(pieces[k..], max, moved + r.moved, r.script)
  }

  /** A system that takes all it is given is called once for every `max` chunks, the last time for what is left. */
  lemma {:induction false} CallsAreFewest(pieces: seq<nat>, max: nat, moved: nat, big: nat, calls: nat)
    requires max > 0 && Positive(pieces) && big >= Sum(pieces)
    requires calls * max < |pieces| + max && |pieces| <= calls * max
    ensures Batches(pieces, max, moved, seq(calls, i => Count(big)))
            == Outcome(moved + Sum(pieces), moved + Sum(pieces), [])
    decreases |pieces|
  {
    var script := seq(calls, i => Count(big));
    if pieces == [] {
      if calls > 0 { AtLeastOnce(calls, max); }
    } else {
      var k, len := FirstBatch(pieces, max);
      OneCallLess(calls, max);
      assert script[0] == Count(big) && script[1..] == seq(calls - 1, i => Count(big));
      hide Sum;
      assert TransferAll(len, 0, script) == Outcome(len, len, script[1..]) by { EagerCall(len, script, big); }
      if k == |pieces| {
        assert pieces[k..] == [];
        NoneAreLeft(pieces, calls, max);
      }
      CallsAreFewest(pieces[k..], max, moved + len, big, calls - 1);
    }
  }

  lemma EagerCall(len: nat, script: seq<Reply>, big: nat)
    requires len > 0 && script != [] && script[0] == Count(big) && big >= len
    ensures TransferAll(len, 0, script) == Outcome(len, len, script[1..])
  {
    assert TransferAll(len, len, script[1..]) == Outcome(len, len, script[1..]);
  }

  lemma AtLeastOnce(calls: nat, max: nat)
    requires calls > 0
    ensures calls * max >= max
  {
  }

  lemma OneCallLess(calls: nat, max: nat)
    requires calls > 0
    ensures (calls - 1) * max == calls * max - max
  {
  }

  lemma NoneAreLeft(pieces: seq<nat>, calls: nat, max: nat)
    requires 0 < |pieces| <= max && calls * max < |pieces| + max && |pieces| <= calls * max
    ensures calls == 1
  {
    if calls >= 2 {
      OneCallLess(calls, max);
      AtLeastOnce(calls - 1, max);
    }
  }

  /** A reply that transfers no more, but something if the other does. */
  predicate Shorter(r: Reply, c: Reply)
  {
    r == c || (r.Count? && c.Count? && 0 < c.n <= r.n)
  }

  predicate AllShorter(s: seq<Reply>, t: seq<Reply>)
  {
    |s| == |t| && forall i :: 0 <= i < |s| ==> Shorter(s[i], t[i])
  }

  /** The replies that a call uses up, each cut off at what the call can still take. */
  function Used(len: nat, moved: nat, script: seq<Reply>): (r: seq<Reply>)
    requires moved <= len
    decreases script
  {
    if moved == len || script == [] then []
    else
      match script[0]
      case Count(n) =>
        var k := Least(n, len - moved);
        if n == 0 then [script[0]] else [Count(k)] + Used(len, moved + k, script[1..])
      case WouldBlock(ready) => if ready then [script[0]] + Used(len, moved, script[1..]) else [script[0]]
      case Failed => [script[0]]
  }

  lemma {:induction false} UsedReplies(len: nat, moved: nat, script: seq<Reply>)
    requires moved <= len
    ensures var u := Used(len, moved, script);
            && |u| <= |script| && AllShorter(script[..|u|], u)
            && TransferAll(len, moved, script).script == script[|u|..]
    decreases script
  {
    hide AllShorter;
    ShorterThanItself([]);
    if moved < len && script != [] {
      var head := [script[0]];
      var u := Used(len, moved, script);
      var m := Moved(len, moved, script[0]);
      FirstShorter(len, moved, script);
      if Goes(script[0]) {
        UsedReplies(len, m, script[1..]);
        var w := Used(len, m, script[1..]);
        ShorterJoin(head, u[..1], script[1..][..|w|], w);
        assert head + script[1..][..|w|] == script[..|u|] && u[..1] + w == u;
      } else {
        assert script[..|u|] == head && u[..1] == u;
      }
    }
  }

  lemma FirstShorter(len: nat, moved: nat, script: seq<Reply>)
    requires moved < len && script != []
    ensures AllShorter([script[0]], Used(len, moved, script)[..1])
  {
  }

  /** A longer buffer under the used replies gets just as far; then it goes on with what follows. */
  lemma {:induction false} UsedTakesAsMuch(len: nat, moved: nat, script: seq<Reply>, longer: nat, tail: seq<Reply>)
    requires moved <= len <= longer
    ensures var r := TransferAll(len, moved, script);
            var q := Used(len, moved, script) + tail;
            && (r.moved == len ==> TransferAll(longer, moved, q) == TransferAll(longer, len, tail))
            && (r.moved < len && tail == r.script ==> TransferAll(longer, moved, q) == r)
    decreases script
  {
    if moved == len || script == [] {
      assert [] + tail == tail;
    } else {
      hide TransferAll; hide Used; hide Goes; hide Moved;
      var r := script[0];
      var m := Moved(len, moved, r);
      UsedStep(len, moved, script);
      var u := Used(len, moved, script);
      var q := u + tail;
      assert q[0] == u[0] && q[1..] == u[1..] + tail;
      TransferStep(len, moved, script);
      TransferStep(longer, moved, q);
      if Goes(r) {
        UsedTakesAsMuch(len, m, script[1..], longer, tail);
      } else {
        assert u[1..] + tail == tail;
      }
    }
  }

  function Moved(len: nat, moved: nat, r: Reply): (m: nat)
    requires moved <= len
    ensures moved <= m <= len
  {
    if r.Count? then moved + Least(r.n, len - moved) else moved
  }

  /** One reply in a transfer, and in the list of used replies. */
  lemma TransferStep(len: nat, moved: nat, script: seq<Reply>)
    requires moved < len && script != []
    ensures TransferAll(len, moved, script) ==
            if Goes(script[0]) then TransferAll(len, Moved(len, moved, script[0]), script[1..])
            else Outcome(moved, if script[0].Count? then 0 else -1, script[1..])
  {
  }

  lemma UsedStep(len: nat, moved: nat, script: seq<Reply>)
    requires moved < len && script != []
    ensures var u, r := Used(len, moved, script), script[0];
            && u != []
            && u[0] == (if r.Count? && r.n > 0 then Count(Least(r.n, len - moved)) else r)
            && u[1..] == if Goes(r) then Used(len, Moved(len, moved, r), script[1..]) else []
  {
    var u, r := Used(len, moved, script), script[0];
    var head := if r.Count? && r.n > 0 then Count(Least(r.n, len - moved)) else r;
    assert u == [head] + if Goes(r) then Used(len, Moved(len, moved, r), script[1..]) else [];
  }

  lemma {:induction false} Shift(len: nat, moved: nat, script: seq<Reply>, d: nat)
    requires moved <= len
    ensures var r := TransferAll(len, moved, script);
            TransferAll(d + len, d + moved, script) ==
              Outcome(d + r.moved, if r.moved == len then d + len else r.result, r.script)
    decreases script
  {
    if moved < len && script != [] {
      match script[0] {
        case Count(n) => if n > 0 { Shift(len, moved + Least(n, len - moved), script[1..], d); }
        case WouldBlock(ready) => if ready { Shift(len, moved, script[1..], d); }
        case Failed =>
      }
    }
  }

  /** Sending in batches refines sending the joined bytes as one buffer: there is a system that
      answers every call alike, only with counts cut off at the end of a batch, under which
      the simple form makes the same progress, returns the same and uses as many replies. */
  lemma {:induction false} BatchesRefineSimple(pieces: seq<nat>, max: nat, moved: nat, script: seq<Reply>)
    returns (cut: seq<Reply>)
    requires max > 0 && Positive(pieces)
    ensures AllShorter(script, cut)
    ensures var r, q := Batches(pieces, max, moved, script), TransferAll(moved + Sum(pieces), moved, cut);
            r.moved == q.moved && r.result == q.result && |r.script| == |q.script|
    decreases |pieces|
  {
    hide TransferAll; hide Used; hide AllShorter; hide Positive;
    if pieces == [] {
      cut := script;
      NothingLeft(moved, script);
      ShorterThanItself(script);
    } else {
      var k, len := FirstBatch(pieces, max);
      hide Sum;
      var r := TransferAll(len, 0, script);
      var tail := r.script;
      ShorterThanItself(tail);
      if r.moved == len { tail := BatchesRefineSimple(pieces[k..], max, moved + len, r.script); }
      cut := OneBatch(len, moved, script, moved + Sum(pieces), tail);
    }
  }

  lemma FirstBatch(pieces: seq<nat>, max: nat) returns (k: nat, len: nat)
    requires max > 0 && Positive(pieces) && pieces != []
    ensures k == Least(|pieces|, max) && 0 < len == Sum(pieces[..k])
    ensures Sum(pieces) == len + Sum(pieces[k..]) && Positive(pieces[k..])
  {
    k := Least(|pieces|, max);
    len := Sum(pieces[..k]);
    assert pieces == pieces[..k] + pieces[k..];
    SumConcat(pieces[..k], pieces[k..]);
    SumOfPositive(pieces[..k]);
  }

  lemma NothingLeft(moved: nat, script: seq<Reply>)
    ensures TransferAll(moved, moved, script) == Outcome(moved, moved, script)
  {
  }

  lemma ShorterThanItself(s: seq<Reply>) ensures AllShorter(s, s) {}

  lemma ShorterJoin(s: seq<Reply>, t: seq<Reply>, u: seq<Reply>, v: seq<Reply>)
    requires AllShorter(s, t) && AllShorter(u, v)
    ensures AllShorter(s + u, t + v)
  {
  }

  /** One batch of a longer send, with the replies to what follows it. */
  lemma OneBatch(len: nat, moved: nat, script: seq<Reply>, total: nat, tail: seq<Reply>) returns (cut: seq<Reply>)
    requires moved + len <= total && AllShorter(TransferAll(len, 0, script).script, tail)
    ensures AllShorter(script, cut)
    ensures var r := TransferAll(len, 0, script);
            && (r.moved == len ==> TransferAll(total, moved, cut) == TransferAll(total, moved + len, tail))
            && (r.moved < len && tail == r.script ==>
               TransferAll(total, moved, cut) == Outcome(moved + r.moved, r.result, r.script))
  {
    hide TransferAll; hide Used; hide AllShorter;
    var r, u := TransferAll(len, 0, script), Used(moved + len, moved, script);
    cut := u + tail;
    Shift(len, 0, script, moved);
    UsedReplies(moved + len, moved, script);
    UsedTakesAsMuch(moved + len, moved, script, total, tail);
    ShorterJoin(script[..|u|], u, r.script, tail);
    assert script == script[..|u|] + r.script;
  }

  /** So a chain is sent completely, with its length returned, or not completely, with 0 or -1. */
  lemma BatchesEnd(b: Block, limit: nat, max: nat, script: seq<Reply>)
    requires limit > 0 && max > 0
    ensures var r := Batches(AllPieces(b, limit), max, 0, script);
            r.moved == r.result == |AllMessages(b)| || (r.moved < |AllMessages(b)| && r.result in {0, -1})
  {
    hide AllMessages; hide AllPieces; hide Batches; hide TransferAll; hide Sum; hide AllShorter;
    AllPiecesFit(b, limit);
    var _ := BatchesRefineSimple(AllPieces(b, limit), max, 0, script);
  }

  // ----- the loops -----

  /** The vectors' bytes follow each other: `bt` are gone, `iov` holds the next ones, and the `rest`
      has not been collected. */
  ghost predicate Collecting(all: seq<nat>, bt: nat, iov: seq<IoVec>, rest: seq<nat>)
  {
    bt <= |all| && all[bt..] == Cells(iov) + rest
  }

  function Lengths(iov: seq<IoVec>): seq<nat> { seq(|iov|, i requires 0 <= i < |iov| => iov[i].len) }

  lemma {:induction false} CellsOfConcat(a: seq<IoVec>, b: seq<IoVec>)
    ensures Cells(a + b) == Cells(a) + Cells(b)
  {
    if a == [] {
      assert a + b == b;
    } else {
      assert (a + b)[1..] == a[1..] + b;
      CellsOfConcat(a[1..], b);
    }
  }

  lemma {:induction false} SumOfLengths(iov: seq<IoVec>)
    ensures Sum(Lengths(iov)) == |Cells(iov)|
  {
    if iov != [] {
      assert Lengths(iov)[1..] == Lengths(iov[1..]);
      SumOfLengths(iov[1..]);
    }
  }

  /** One more chunk goes into the vector. */
  lemma Collect(all: seq<nat>, bt: nat, iov: seq<IoVec>, base: nat, length: nat, chunk: nat, rest: seq<nat>)
    requires 0 < chunk <= length && Collecting(all, bt, iov, Run(base, length) + rest)
    ensures Collecting(all, bt, iov + [IoVec(base, chunk)], Run(base + chunk, length - chunk) + rest)
    ensures Lengths(iov + [IoVec(base, chunk)]) == Lengths(iov) + [chunk]
  {
    CellsOfConcat(iov, [IoVec(base, chunk)]);
    assert Cells([IoVec(base, chunk)]) == Run(base, chunk);
    assert Run(base, length) == Run(base, chunk) + Run(base + chunk, length - chunk);
  }

  /** What the loops keep between two chunks: the whole call is the part that is done, then the
      batches made of `iov` and the `pieces` still to come. */
  ghost predicate Midway(all: seq<nat>, goal: Outcome, max: nat, bt: nat, iov: seq<IoVec>, rest: seq<nat>,
                         pieces: seq<nat>, script: seq<Reply>)
    requires max > 0
  {
    && |iov| <= max && Collecting(all, bt, iov, rest) && Positive(Lengths(iov))
    && Batches(Lengths(iov) + pieces, max, bt, script) == goal
  }

  /** A vector that is full, or that is the last one, goes out as the next batch. */
  lemma BatchOut(iov: seq<IoVec>, pieces: seq<nat>, max: nat, bt: nat, script: seq<Reply>)
    requires 0 < |iov| <= max && (|iov| < max ==> pieces == []) && Positive(Lengths(iov))
    ensures var r := TransferVector(|iov|, |Cells(iov)|, script);
            && r == TransferAll(|Cells(iov)|, 0, script)
            && Batches(Lengths(iov) + pieces, max, bt, script) ==
                 if r.result in {0, -1} then Outcome(bt + r.moved, r.result, r.script)
                 else Batches(pieces, max, bt + r.moved, r.script)
  {
    hide Cells; hide TransferAll;
    var all := Lengths(iov) + pieces;
    assert all[..|iov|] == Lengths(iov) && all[|iov|..] == pieces;
    SumOfLengths(iov);
    SumOfPositive(Lengths(iov));
    LoopIsSimple(|Cells(iov)|, 0, script);
  }

  /** After a batch that went out completely the next one is empty. */
  lemma BatchDone(all: seq<nat>, goal: Outcome, max: nat, bt: nat, iov: seq<IoVec>, rest: seq<nat>, pieces: seq<nat>,
                  script: seq<Reply>)
    requires 0 < |iov| <= max && (|iov| < max ==> pieces == []) && Midway(all, goal, max, bt, iov, rest, pieces, script)
    ensures var r := TransferVector(|iov|, |Cells(iov)|, script);
            if r.result in {0, -1} then goal == Outcome(bt + r.moved, r.result, r.script)
            else Midway(all, goal, max, bt + r.moved, [], rest, pieces, r.script)
  {
    hide Batches; hide TransferVector;
    BatchOut(iov, pieces, max, bt, script);
    assert Lengths([]) == [] && Cells([]) == [];
    assert Lengths([]) + pieces == pieces && Cells([]) + rest == rest;
    assert all[bt..][|Cells(iov)|..] == rest;
  }

  /** The bytes of a batch are the next ones. */
  lemma BatchBytes(mem: seq<Byte>, all: seq<nat>, bt: nat, iov: seq<IoVec>, rest: seq<nat>)
    requires Within(all, |mem|) && Collecting(all, bt, iov, rest)
    ensures Within(Cells(iov), |mem|) && bt + |Cells(iov)| <= |all|
    ensures forall k :: 0 <= k <= |Cells(iov)| ==>
              Contents(mem, all[..bt]) + Contents(mem, Cells(iov)[..k]) == Contents(mem, all[..bt + k])
  {
    hide Cells;
    var c := Cells(iov);
    forall i | 0 <= i < |c| ensures c[i] == all[bt + i] {
      assert all[bt..][i] == (c + rest)[i];
    }
  }

  lemma Start(all: seq<nat>, pieces: seq<nat>, max: nat, script: seq<Reply>)
    requires max > 0
    ensures Midway(all, Batches(pieces, max, 0, script), max, 0, [], all, pieces, script)
  {
    assert Lengths([]) + pieces == pieces && Cells([]) + all == all;
  }

  lemma NextMessage(b: Block, limit: nat)
    requires b.Block? && limit > 0
    ensures AllMessages(b) == Message(b) + AllMessages(b.next)
    ensures AllPieces(b, limit) == MessagePieces(b, limit) + AllPieces(b.next, limit)
  {
  }

  lemma NextBlock(b: Block, limit: nat, rest: seq<nat>, pieces: seq<nat>)
    requires b.Block? && limit > 0
    ensures Message(b) + rest == Run(b.base, b.length) + (Message(b.cont) + rest)
    ensures MessagePieces(b, limit) + pieces == Pieces(b.length, limit) + (MessagePieces(b.cont, limit) + pieces)
  {
  }

  lemma NothingMore(ptr: nat, limit: nat, rest: seq<nat>, pieces: seq<nat>)
    requires limit > 0
    ensures Run(ptr, 0) + rest == rest && Pieces(0, limit) + pieces == pieces
    ensures Message(Null) + rest == rest && MessagePieces(Null, limit) + pieces == pieces
    ensures AllMessages(Null) == [] && AllPieces(Null, limit) == []
  {
  }

  lemma OneChunk(all: seq<nat>, goal: Outcome, max: nat, bt: nat, iov: seq<IoVec>, ptr: nat, length: nat, limit: nat,
                 rest: seq<nat>, pieces: seq<nat>, script: seq<Reply>)
    requires length > 0 && limit > 0 && |iov| < max
    requires Midway(all, goal, max, bt, iov, Run(ptr, length) + rest, Pieces(length, limit) + pieces, script)
    ensures var chunk := Least(length, limit);
            Midway(all, goal, max, bt, iov + [IoVec(ptr, chunk)], Run(ptr + chunk, length - chunk) + rest,
                   Pieces(length - chunk, limit) + pieces, script)
  {
    hide Batches; hide Cells; hide Collecting; hide Lengths; hide Run;
    var chunk := Least(length, limit);
    Collect(all, bt, iov, ptr, length, chunk, rest);
    hide Pieces; hide Sum;
    PiecesStep(Lengths(iov), length, limit, pieces);
  }

  lemma PiecesStep(a: seq<nat>, length: nat, limit: nat, rest: seq<nat>)
    requires length > 0 && limit > 0
    ensures a + (Pieces(length, limit) + rest) ==
            (a + [Least(length, limit)]) + (Pieces(length - Least(length, limit), limit) + rest)
  {
    var chunk := [Least(length, limit)];
    Regroup4(a, chunk, Pieces(length - Least(length, limit), limit), rest);
  }

  lemma Regroup4(a: seq<nat>, b: seq<nat>, c: seq<nat>, d: seq<nat>)
    ensures a + ((b + c) + d) == (a + b) + (c + d)
  {
  }

  lemma Done(all: seq<nat>, goal: Outcome, max: nat, bt: nat, script: seq<Reply>)
    requires max > 0 && Midway(all, goal, max, bt, [], [], [], script)
    ensures goal == Outcome(bt, bt, script)
  {
  }

  /** Send the first `count` entries.  The changes made to the vector are not looked at again. */
  method Flush(h: Handle, mem: array<Byte>, iov: array<IoVec>, count: nat, timed: bool) returns (result: int, bt: nat)
    requires count <= iov.Length && Within(Cells(iov[..count]), mem.Length)
    modifies h`wire, h`script, h`ready, h`nonblocking
    ensures h.nonblocking == old(h.nonblocking)
    ensures var all := Cells(iov[..count]);
            && bt <= |all| && h.wire == old(h.wire) + Contents(mem[..], all[..bt])
            && Outcome(bt, result, h.script) == TransferVector(count, |all|, old(h.script))
  {
    var v := new IoVec[count](i requires 0 <= i < count reads iov => iov[i]);
    assert v[..] == iov[..count];
    ghost var s;
    result, bt, s := SendvEither(h, mem, v, timed);
  }

  /** What is needed to send a batch and what is known afterwards. */
  lemma BatchReady(mem: seq<Byte>, all: seq<nat>, goal: Outcome, max: nat, bt: nat, iov: seq<IoVec>, rest: seq<nat>,
                   pieces: seq<nat>, script: seq<Reply>)
    requires 0 < |iov| <= max && (|iov| < max ==> pieces == []) && Midway(all, goal, max, bt, iov, rest, pieces, script)
    requires Within(all, |mem|) && bt <= |all|
    ensures Within(Cells(iov), |mem|) && bt + |Cells(iov)| <= |all|
    ensures forall k :: 0 <= k <= |Cells(iov)| ==>
              Contents(mem, all[..bt]) + Contents(mem, Cells(iov)[..k]) == Contents(mem, all[..bt + k])
    ensures var r := TransferVector(|iov|, |Cells(iov)|, script);
            if r.result in {0, -1} then goal == Outcome(bt + r.moved, r.result, r.script)
            else Midway(all, goal, max, bt + r.moved, [], rest, pieces, r.script)
  {
    hide TransferVector; hide Batches; hide Cells;
    BatchBytes(mem, all, bt, iov, rest);
    BatchDone(all, goal, max, bt, iov, rest, pieces, script);
  }

  /** A full vector, or the last one, goes out.  `failed` is set when that failed; then `result` is
      the result of the whole call, and `goal` its outcome. */
  method SendBatch(h: Handle, mem: array<Byte>, iov: array<IoVec>, count: nat, bt0: nat, timed: bool,
                   ghost all: seq<nat>, ghost goal: Outcome, ghost rest: seq<nat>, ghost pieces: seq<nat>,
                   ghost wire0: seq<Byte>)
    returns (failed: bool, result: int, bt: nat)
    requires 0 < count <= iov.Length && (count < iov.Length ==> pieces == []) && Within(all, mem.Length) && bt0 <= |all|
    requires Midway(all, goal, iov.Length, bt0, iov[..count], rest, pieces, h.script)
    requires h.wire == wire0 + Contents(mem[..], all[..bt0])
    modifies h`wire, h`script, h`ready, h`nonblocking
    ensures h.nonblocking == old(h.nonblocking)
    ensures bt <= |all| && h.wire == wire0 + Contents(mem[..], all[..bt])
    ensures failed ==> goal == Outcome(bt, result, h.script)
    ensures !failed ==> Midway(all, goal, iov.Length, bt, [], rest, pieces, h.script)
  {
    hide TransferVector; hide Batches; hide Cells; hide Midway; hide Contents;
    BatchReady(mem[..], all, goal, iov.Length, bt0, iov[..count], rest, pieces, h.script);
    var current;
    result, current := Flush(h, mem, iov, count, timed);
    bt := bt0 + current;
    failed := result == -1 || result == 0;
  }

  /** Collect one block, sending every vector that gets full. */
  method CollectBlock(h: Handle, mem: array<Byte>, iov: array<IoVec>, count0: nat, bt0: nat, b: Block, timed: bool,
                      limit: nat, ghost all: seq<nat>, ghost goal: Outcome, ghost rest: seq<nat>,
                      ghost pieces: seq<nat>, ghost wire0: seq<Byte>)
    returns (failed: bool, result: int, count: nat, bt: nat)
    requires b.Block? && limit > 0 && count0 < iov.Length && Within(all, mem.Length) && bt0 <= |all|
    requires Midway(all, goal, iov.Length, bt0, iov[..count0], Message(b) + rest, MessagePieces(b, limit) + pieces,
                    h.script)
    requires h.wire == wire0 + Contents(mem[..], all[..bt0])
    modifies h`wire, h`script, h`ready, h`nonblocking, iov
    ensures h.nonblocking == old(h.nonblocking)
    ensures bt <= |all| && h.wire == wire0 + Contents(mem[..], all[..bt])
    ensures failed ==> goal == Outcome(bt, result, h.script)
    ensures !failed ==> count < iov.Length
    ensures !failed ==>
            Midway(all, goal, iov.Length, bt, iov[..count], Message(b.cont) + rest,
                   MessagePieces(b.cont, limit) + pieces, h.script)
  {
    hide Message; hide MessagePieces; hide Pieces; hide Batches; hide Cells; hide TransferAll;
    hide TransferVector; hide Midway; hide Run; hide Contents;
    failed, result, count, bt := false, 0, count0, bt0;
    var ptr, length := b.base, b.length;
    var max := iov.Length;
    ghost var rest', pieces' := Message(b.cont) + rest, MessagePieces(b.cont, limit) + pieces;
    NextBlock(b, limit, rest, pieces);
    while length > 0
      invariant !failed && count < max && bt <= |all| && h.nonblocking == old(h.nonblocking)
      invariant Midway(all, goal, max, bt, iov[..count], Run(ptr, length) + rest', Pieces(length, limit) + pieces',
                       h.script)
      invariant h.wire == wire0 + Contents(mem[..], all[..bt])
    {
      var chunk := Least(length, limit);
      OneChunk(all, goal, max, bt, iov[..count], ptr, length, limit, rest', pieces', h.script);
      iov[count] := IoVec(ptr, chunk);
      length, ptr, count := length - chunk, ptr + chunk, count + 1;
      assert iov[..count] == iov[..count - 1] + [IoVec(ptr - chunk, chunk)];
      if count == max {
        failed, result, bt := SendBatch(h, mem, iov, count, bt, timed, all, goal, Run(ptr, length) + rest',
                                        Pieces(length, limit) + pieces', wire0);
        if failed {
          return;
        }
        count := 0;
        assert iov[..0] == [];
      }
    }
    NothingMore(ptr, limit, rest', pieces');
  }

  /** The bytes that reach the wire are the first `bt` bytes of the blocks in order, under calls and
      with a result that are those of `Batches`; so all of them when the length is returned. */
  method SendN(h: Handle, mem: array<Byte>, block: Block, timed: bool, limit: nat, max: nat)
    returns (result: int, bt: nat)
    requires Within(AllMessages(block), mem.Length) && limit > 0 && max > 0
    modifies h`wire, h`script, h`ready, h`nonblocking
    ensures h.nonblocking == old(h.nonblocking)
    ensures Outcome(bt, result, h.script) == Batches(AllPieces(block, limit), max, 0, old(h.script))
    ensures bt <= |AllMessages(block)| && h.wire == old(h.wire) + Contents(mem[..], AllMessages(block)[..bt])
    ensures result == bt == |AllMessages(block)| || (bt < |AllMessages(block)| && result in {0, -1})
  {
    hide AllMessages; hide AllPieces; hide Message; hide MessagePieces; hide Batches; hide Cells;
    hide TransferAll; hide TransferVector; hide Midway; hide Run; hide Contents;
    ghost var all := AllMessages(block);
    ghost var goal := Batches(AllPieces(block, limit), max, 0, h.script);
    BatchesEnd(block, limit, max, h.script);
    var iov := new IoVec[max];
    var iovcnt: nat := 0;
    bt := 0;
    var b := block;
    Start(all, AllPieces(block, limit), max, h.script);
    NothingWritten(mem[..]);
    while b.Block?
      invariant iovcnt < max && bt <= |all| && h.nonblocking == old(h.nonblocking)
      invariant Midway(all, goal, max, bt, iov[..iovcnt], AllMessages(b), AllPieces(b, limit), h.script)
      invariant h.wire == old(h.wire) + Contents(mem[..], all[..bt])
      decreases b
    {
      var cur := b;
      ghost var rest, pieces := AllMessages(b.next), AllPieces(b.next, limit);
      NextMessage(b, limit);
      while cur.Block?
        invariant iovcnt < max && bt <= |all| && h.nonblocking == old(h.nonblocking)
        invariant Midway(all, goal, max, bt, iov[..iovcnt], Message(cur) + rest, MessagePieces(cur, limit) + pieces,
                         h.script)
        invariant h.wire == old(h.wire) + Contents(mem[..], all[..bt])
        decreases cur
      {
        var failed;
        failed, result, iovcnt, bt := CollectBlock(h, mem, iov, iovcnt, bt, cur, timed, limit, all, goal, rest,
                                                   pieces, old(h.wire));
        if failed {
          return;
        }
        cur := cur.cont;
      }
      NothingMore(0, limit, rest, pieces);
      b := b.next;
    }
    NothingMore(0, limit, [], []);
    if iovcnt != 0 {
      var failed;
      failed, result, bt := SendBatch(h, mem, iov, iovcnt, bt, timed, all, goal, [], [], old(h.wire));
      if failed {
        return;
      }
    } else {
      assert iov[..0] == [];
    }
    Done(all, goal, max, bt, h.script);
    result := bt;
  }

  lemma NothingWritten(mem: seq<Byte>) ensures Contents(mem, []) == [] {}
}
