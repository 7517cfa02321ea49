/** `ACE::sendv_n_i` and `ACE::recvv_n_i`: move everything that a vector of buffers refers to,
    whatever the operating system transfers at each call.  The simple form that they refine is
    `ACE::send_n_i` on one buffer. */
module VectorIO {
  import opened LittleEndian

  datatype IoVec = IoVec(base: nat, len: nat)

  /** The addresses that a vector refers to, in order. */
  function Cells(iov: seq<IoVec>): seq<nat>
  {
    if iov == [] then [] else seq(iov[0].len, i => iov[0].base + i) + Cells(iov[1..])
  }

  predicate Within(cells: seq<nat>, size: nat) { forall i :: 0 <= i < |cells| ==> cells[i] < size }

  /** Their contents. */
  function Contents(mem: seq<Byte>, cells: seq<nat>): (r: seq<Byte>)
    requires Within(cells, |mem|)
    ensures |r| == |cells|
  {
    seq(|cells|, i requires 0 <= i < |cells| => mem[cells[i]])
  }

  /** Memory after `data` was stored there byte by byte; a cell that is listed twice keeps what
      came last. */
  function Fill(mem: seq<Byte>, cells: seq<nat>, data: seq<Byte>): (r: seq<Byte>)
    requires Within(cells, |mem|) && |data| == |cells|
    ensures |r| == |mem|
    ensures forall c :: 0 <= c < |mem| && c !in cells ==> r[c] == mem[c]
    decreases cells
  {
    if cells == [] then mem else Fill(mem[cells[0] := data[0]], cells[1..], data[1..])
  }

  /** Storing in two parts is storing at once. */
  lemma {:induction false} FillConcat(mem: seq<Byte>, a: seq<nat>, b: seq<nat>, x: seq<Byte>, y: seq<Byte>)
    requires Within(a, |mem|) && Within(b, |mem|) && |x| == |a| && |y| == |b|
    ensures Within(a + b, |mem|) && Fill(mem, a + b, x + y) == Fill(Fill(mem, a, x), b, y)
    decreases a
  {
    if a == [] {
      assert a + b == b && x + y == y;
    } else {
      assert (a + b)[1..] == a[1..] + b && (x + y)[1..] == x[1..] + y;
      FillConcat(mem[a[0] := x[0]], a[1..], b, x[1..], y);
    }
  }

  /** With every cell listed once, memory then holds the data there. */
  lemma {:induction false} ContentsOfFill(mem: seq<Byte>, cells: seq<nat>, data: seq<Byte>)
    requires Within(cells, |mem|) && |data| == |cells|
    requires forall i, j :: 0 <= i < j < |cells| ==> cells[i] != cells[j]
    ensures Contents(Fill(mem, cells, data), cells) == data
    decreases cells
  {
    if cells != [] {
      var m := mem[cells[0] := data[0]];
      ContentsOfFill(m, cells[1..], data[1..]);
      var r := Fill(m, cells[1..], data[1..]);
      assert r[cells[0]] == data[0];
      forall i | 0 <= i < |cells| ensures Contents(r, cells)[i] == data[i] {
        if i > 0 { assert Contents(r, cells[1..])[i - 1] == data[1..][i - 1]; }
      }
    }
  }

  // ----- the simple form -----

  /** What the system does with one call: transfer some of the bytes (none at end of file), ask to
      wait (and then report the handle as ready or not), or fail.  After the last listed
      reply every call fails. */
  datatype Reply = Count(n: nat) | WouldBlock(ready: bool) | Failed

  function Next(script: seq<Reply>): Reply { if script == [] then Failed else script[0] }

  function Rest(script: seq<Reply>): seq<Reply> { if script == [] then [] else script[1..] }

  function Least(m: nat, n: nat): nat { if m <= n then m else n }

  datatype Outcome = Outcome(moved: nat, result: int, script: seq<Reply>)

  /** `send_n_i` for a buffer of `len` bytes of which `moved` are gone: 0 is end of file, -1 an error,
      anything else the length. */
  function TransferAll(len: nat, moved: nat, script: seq<Reply>): (r: Outcome)
    requires moved <= len
    ensures moved <= r.moved <= len
    ensures r.moved == r.result == len || (r.moved < len && r.result in {0, -1})
    decreases script
  {
    if moved == len then Outcome(moved, moved, script)
    else
      match Next(script)
      case Count(n) =>
        if n == 0 then Outcome(moved, 0, Rest(script))
        else TransferAll(len, moved + Least(n, len - moved), Rest(script))
      case WouldBlock(ready) =>
        if ready then TransferAll(len, moved, Rest(script)) else Outcome(moved, -1, Rest(script))
      case Failed => Outcome(moved, -1, Rest(script))
  }

  // ----- the vector form -----

  /** What the loops over a vector do with `moved` of `len` bytes gone: as long as entries are left they
      ask the system, and after a transfer entries are left as long as bytes are. */
  function VectorLoop(entriesLeft: bool, len: nat, moved: nat, script: seq<Reply>): (r: Outcome)
    requires moved <= len
    ensures moved <= r.moved <= len
    decreases script
  {
    if !entriesLeft then Outcome(moved, moved, script)
    else if script == [] then Outcome(moved, -1, [])
    else
      match script[0]
      case Count(n) =>
        var k := Least(n, len - moved);
        if k == 0 then Outcome(moved, 0, script[1..])
        else VectorLoop(moved + k < len, len, moved + k, script[1..])
      case WouldBlock(ready) =>
        if ready then VectorLoop(entriesLeft, len, moved, script[1..]) else Outcome(moved, -1, script[1..])
      case Failed => Outcome(moved, -1, script[1..])
  }

  function TransferVector(entries: nat, len: nat, script: seq<Reply>): (r: Outcome)
    ensures r.moved <= len
  {
    VectorLoop(entries > 0, len, 0, script)
  }

  /** With bytes left, the loop over a vector and the simple one go on alike. */
  lemma {:induction false} LoopIsSimple(len: nat, moved: nat, script: seq<Reply>)
    requires moved <= len
    ensures VectorLoop(moved < len, len, moved, script) == TransferAll(len, moved, script)
    decreases script
  {
    if moved < len && script != [] {
      match script[0] {
        case Count(n) => if n > 0 { LoopIsSimple(len, moved + Least(n, len - moved), script[1..]); }
        case WouldBlock(ready) => if ready { LoopIsSimple(len, moved, script[1..]); }
        case Failed =>
      }
    }
  }

  /** The vector form is the simple form on the joined bytes, in result, progress and calls, under every
      behaviour of the system just when there are bytes to move or no entries at all. */
  lemma VectorIsSimpleIff(entries: nat, len: nat)
    requires entries == 0 ==> len == 0
    ensures (forall script :: TransferVector(entries, len, script) == TransferAll(len, 0, script))
       <==> entries == 0 || len > 0
  {
    if entries > 0 && len == 0 {
      assert TransferVector(entries, len, [Failed]) != TransferAll(len, 0, [Failed]);
    } else {
      forall script ensures TransferVector(entries, len, script) == TransferAll(len, 0, script) {
        LoopIsSimple(len, 0, script);
      }
    }
  }

  /** A system that keeps transferring something: positive counts and waits that succeed. */
  predicate Willing(script: seq<Reply>)
  {
    forall i :: 0 <= i < |script| ==>
      match script[i] case Count(n) => n > 0 case WouldBlock(ready) => ready case Failed => false
  }

  function Counts(script: seq<Reply>): nat
  {
    if script == [] then 0 else (if script[0].Count? then 1 else 0) + Counts(script[1..])
  }

  /** Such a system moves every byte as soon as it has answered once for each. */
  lemma {:induction false} WillingSystemMovesAll(len: nat, moved: nat, script: seq<Reply>)
    requires moved <= len && Willing(script) && Counts(script) >= len - moved
    ensures var r := TransferAll(len, moved, script);
            r.moved == r.result == len && Willing(r.script) && Counts(r.script) >= Counts(script) - (len - moved)
    decreases script
  {
    if moved < len {
      assert script != [];
      assert script[0] == Next(script) && script[1..] == Rest(script);
      WillingSystemMovesAll(len, moved + (if script[0].Count? then Least(script[0].n, len - moved) else 0),
        script[1..]);
    }
  }

  function TotalCount(script: seq<Reply>): nat
  {
    if script == [] then 0 else (if script[0].Count? then script[0].n else 0) + TotalCount(script[1..])
  }

  /** How the simple loop ends.  It uses up replies that transfer something or wait with success until their counts
      reach the length, which is the result; or until one is a count of zero, and the result is 0; or until one
      is a failure or an unsuccessful wait or there are no more, and the result is -1. */
  lemma {:induction false} HowItEnds(len: nat, moved: nat, script: seq<Reply>) returns (used: nat)
    requires moved <= len
    ensures Ended(len, moved, script, used, TransferAll(len, moved, script)) && (moved == len ==> used == 0)
    decreases script
  {
    hide Ended;
    if moved == len || script == [] || !Goes(script[0]) {
      used := if moved == len || script == [] then 0 else 1;
      EndedNow(len, moved, script, used);
    } else {
      var m := moved + (if script[0].Count? then Least(script[0].n, len - moved) else 0);
      var k := HowItEnds(len, m, script[1..]);
      used := k + 1;
      assert TransferAll(len, moved, script) == TransferAll(len, m, script[1..]);
      EndedLater(len, moved, script, k, TransferAll(len, m, script[1..]));
    }
  }

  predicate Goes(r: Reply) { match r case Count(n) => n > 0 case WouldBlock(ready) => ready case Failed => false }

  predicate Ended(len: nat, moved: nat, script: seq<Reply>, used: nat, r: Outcome)
  {
    && used <= |script| && r.script == script[used..]
    && r.moved == Least(len, moved + TotalCount(script[..used]))
    && if r.moved == len then
         r.result == len && Willing(script[..used]) && (used > 0 ==> moved + TotalCount(script[..used - 1]) < len)
       else if used > 0 && !Willing(script[..used]) then
         Willing(script[..used - 1]) && r.result == if script[used - 1] == Count(0) then 0 else -1
       else
         used == |script| && r.result == -1
  }

  lemma EndedNow(len: nat, moved: nat, script: seq<Reply>, used: nat)
    requires moved <= len
    requires moved == len || script == [] || !Goes(script[0])
    requires used == if moved == len || script == [] then 0 else 1
    ensures Ended(len, moved, script, used, TransferAll(len, moved, script))
  {
    if used == 1 { assert script[..1][0] == script[0] && script[..1][1..] == []; }
  }

  lemma EndedLater(len: nat, moved: nat, script: seq<Reply>, k: nat, r: Outcome)
    requires moved < len && script != [] && Goes(script[0])
    requires var m := moved + (if script[0].Count? then Least(script[0].n, len - moved) else 0);
             m <= len && Ended(len, m, script[1..], k, r) && (m == len ==> k == 0)
    ensures Ended(len, moved, script, k + 1, r)
  {
    FirstReply(script, k);
    if k > 0 { FirstReply(script, k - 1); }
    assert script[k + 1..] == script[1..][k..];
  }

  lemma FirstReply(script: seq<Reply>, k: nat)
    requires k < |script|
    ensures Willing(script[..k + 1]) <==> Goes(script[0]) && Willing(script[1..][..k])
    ensures TotalCount(script[..k + 1]) == (if script[0].Count? then script[0].n else 0) + TotalCount(script[1..][..k])
  {
    var a, b := script[..k + 1], script[1..][..k];
    assert a[1..] == b && a[0] == script[0];
    forall i | 0 <= i < k ensures b[i] == a[i + 1] {}
  }

  // ----- the handle -----

  /** A connected handle: what was written to it, what the peer sends and how much of that was read,
      and what the system will do. */
  class Handle {
    ghost var wire: seq<Byte>
    const stream: nat -> Byte
    var pos: nat
    var script: seq<Reply>
    var ready: bool
    var nonblocking: bool

    constructor (script: seq<Reply>, stream: nat -> Byte, nonblocking: bool)
      ensures wire == [] && pos == 0 && this.script == script && this.stream == stream &&
              this.nonblocking == nonblocking
    {
      wire, pos, ready := [], 0, false;
      this.script, this.stream, this.nonblocking := script, stream, nonblocking;
    }

    /** `k` bytes from the peer, from number `from` on. */
    ghost function Bytes(from: nat, k: nat): (r: seq<Byte>)
      ensures |r| == k
    {
      seq(k, i requires 0 <= i => stream(from + i))
    }

    /** The system's part of a call that has `len` bytes to move. */
    method Ask(len: nat) returns (n: int, blocked: bool)
      modifies this`script, this`ready
      ensures script == Rest(old(script))
      ensures match Next(old(script))
              case Count(k) => n == Least(k, len)
              case WouldBlock(r) => n == -1 && blocked && ready == r
              case Failed => n == -1 && !blocked
    {
      blocked := false;
      match Next(script) {
        case Count(k) => n := Least(k, len);
        case WouldBlock(r) => n, blocked, ready := -1, true, r;
        case Failed => n := -1;
      }
      script := Rest(script);
    }

    method Sendv(mem: array<Byte>, iov: array<IoVec>, s: nat) returns (n: int, blocked: bool)
      requires s <= iov.Length && Within(Left(iov[..], s), mem.Length)
      modifies this`wire, this`script, this`ready
      ensures script == Rest(old(script))
      ensures Result(old(script), |Left(iov[..], s)|, n, blocked)
      ensures wire == old(wire) + if n <= 0 then [] else Contents(mem[..], Left(iov[..], s)[..n])
    {
      n, blocked := Ask(Total(iov[..][s..]));
      TotalIsLength(iov[..][s..]);
      if n > 0 { wire := wire + Contents(mem[..], Left(iov[..], s)[..n]); }
    }

    method Recvv(mem: array<Byte>, iov: array<IoVec>, s: nat) returns (n: int, blocked: bool)
      requires s <= iov.Length && Within(Left(iov[..], s), mem.Length)
      modifies this`pos, this`script, this`ready, mem
      ensures script == Rest(old(script))
      ensures Result(old(script), |Left(iov[..], s)|, n, blocked)
      ensures n <= 0 ==> pos == old(pos) && mem[..] == old(mem[..])
      ensures n > 0 ==> pos == old(pos) + n && mem[..] == Fill(old(mem[..]), Left(iov[..], s)[..n], Bytes(old(pos), n))
    {
      n, blocked := Ask(Total(iov[..][s..]));
      TotalIsLength(iov[..][s..]);
      if n > 0 { Store(mem, Left(iov[..], s)[..n]); }
    }

    /** Bytes from the peer go to the cells in order. */
    method Store(mem: array<Byte>, cells: seq<nat>)
      requires Within(cells, mem.Length)
      modifies this`pos, mem
      ensures pos == old(pos) + |cells| && mem[..] == Fill(old(mem[..]), cells, Bytes(old(pos), |cells|))
    {
      ghost var data := Bytes(pos, |cells|);
      for k := 0 to |cells|
        invariant pos == old(pos) + k
        invariant mem[..] == Fill(old(mem[..]), cells[..k], data[..k])
      {
        assert cells[..k + 1] == cells[..k] + [cells[k]] && data[..k + 1] == data[..k] + [data[k]];
        assert Fill(mem[..], [cells[k]], [data[k]]) == mem[..][cells[k] := data[k]];
        FillConcat(old(mem[..]), cells[..k], [cells[k]], data[..k], [data[k]]);
        mem[cells[k]] := stream(pos);
        pos := pos + 1;
      }
      assert cells[..|cells|] == cells && data[..|cells|] == data;
    }

    ghost predicate Result(script: seq<Reply>, len: nat, n: int, blocked: bool)
      reads this
    {
      match Next(script)
      case Count(k) => n == Least(k, len)
      case WouldBlock(r) => n == -1 && blocked && ready == r
      case Failed => n == -1 && !blocked
    }

    method RecordAndSetNonBlocking() returns (was: bool)
      modifies this`nonblocking
      ensures was == old(nonblocking) && nonblocking
    {
      was := nonblocking;
      if !was { nonblocking := true; }
    }

    method RestoreNonBlocking(was: bool)
      modifies this`nonblocking
      ensures nonblocking == (old(nonblocking) && was)
    {
      if !was { nonblocking := false; }
    }
  }

  function Total(iov: seq<IoVec>): nat { if iov == [] then 0 else iov[0].len + Total(iov[1..]) }

  lemma {:induction false} TotalIsLength(iov: seq<IoVec>)
    ensures |Cells(iov)| == Total(iov)
  {
    if iov != [] { TotalIsLength(iov[1..]); }
  }

  // ----- moving on in the vector -----

  /** The addresses that the entries from `s` on refer to. */
  function Left(iov: seq<IoVec>, s: nat): seq<nat>
    requires s <= |iov|
  {
    Cells(iov[s..])
  }

  function Run(base: nat, len: nat): seq<nat> { seq(len, i => base + i) }

  lemma LeftStep(iov: seq<IoVec>, s: nat)
    requires s < |iov|
    ensures Left(iov, s) == Run(iov[s].base, iov[s].len) + Left(iov, s + 1)
  {
    assert iov[s..][1..] == iov[s + 1..];
  }

  lemma DropInto<T>(a: seq<T>, b: seq<T>, n: nat)
    requires |a| <= n <= |a| + |b|
    ensures (a + b)[n..] == b[n - |a|..]
  {
  }

  /** Skipping a whole entry of `n` moved bytes leaves n - len of them to skip. */
  lemma SkipEntry(iov: seq<IoVec>, s: nat, n: nat)
    requires s < |iov| && iov[s].len <= n <= |Left(iov, s)|
    ensures n - iov[s].len <= |Left(iov, s + 1)| && Left(iov, s)[n..] == Left(iov, s + 1)[n - iov[s].len..]
  {
    hide Left;
    LeftStep(iov, s);
    DropInto(Run(iov[s].base, iov[s].len), Left(iov, s + 1), n);
  }

  /** Shortening the next entry skips its first `n` bytes. */
  lemma ShortenEntry(iov: seq<IoVec>, s: nat, n: nat)
    requires s < |iov| && n < iov[s].len
    ensures n < |Left(iov, s)| && Left(iov[s := IoVec(iov[s].base + n, iov[s].len - n)], s) == Left(iov, s)[n..]
  {
    hide Cells;
    var iov' := iov[s := IoVec(iov[s].base + n, iov[s].len - n)];
    LeftStep(iov, s);
    LeftStep(iov', s);
    assert iov'[s + 1..] == iov[s + 1..];
    assert Run(iov'[s].base, iov'[s].len) == Run(iov[s].base, iov[s].len)[n..];
  }

  lemma LeftEnds(iov: seq<IoVec>)
    ensures Left(iov, |iov|) == [] && Left(iov, 0) == Cells(iov)
  {
    assert iov[0..] == iov;
  }

  /** Move past `n` transferred bytes: whole entries are skipped, the next one is shortened. */
  method Advance(iov: array<IoVec>, s0: nat, n0: nat) returns (s: nat)
    requires s0 <= iov.Length && n0 <= |Left(iov[..], s0)|
    modifies iov
    ensures s0 <= s <= iov.Length && Left(iov[..], s) == old(Left(iov[..], s0)[n0..])
    ensures s == iov.Length <==> n0 == old(|Left(iov[..], s0)|)
  {
    hide Left;
    ghost var v := iov[..];
    var n: nat := n0;
    s := s0;
    while s < iov.Length && n >= iov[s].len
      invariant s0 <= s <= iov.Length && iov[..] == v
      invariant n <= |Left(v, s)| && Left(v, s)[n..] == Left(v, s0)[n0..]
    {
      SkipEntry(v, s, n);
      n := n - iov[s].len;
      s := s + 1;
    }
    LeftEnds(v);
    if s < iov.Length { ShortenEntry(v, s, n); }
    if n != 0 {
      iov[s] := IoVec(iov[s].base + n, iov[s].len - n);
      assert iov[..] == v[s := iov[s]];
    }
  }

  // ----- the loops -----

  /** `bt` of the bytes of `all` were moved and the entries from `s` on refer to the others. */
  ghost predicate Progress(iov: seq<IoVec>, s: nat, bt: nat, all: seq<nat>)
  {
    && s <= |iov| && bt <= |all| && Left(iov, s) == all[bt..]
    && (s == |iov| ==> bt == |all|) && (bt == 0 ==> s == 0) && (bt > 0 && bt == |all| ==> s == |iov|)
  }

  lemma Begins(iov: seq<IoVec>)
    ensures Progress(iov, 0, 0, Cells(iov))
  {
    LeftEnds(iov);
  }

  lemma MovesOn(iov: seq<IoVec>, s: nat, iov': seq<IoVec>, s': nat, bt: nat, n: nat, all: seq<nat>)
    requires Progress(iov, s, bt, all) && 0 < n <= |Left(iov, s)| && s <= s' <= |iov| == |iov'|
    requires Left(iov', s') == Left(iov, s)[n..] && (s' == |iov| <==> n == |Left(iov, s)|)
    ensures Progress(iov', s', bt + n, all) && Left(iov, s)[..n] == all[bt..bt + n]
  {
  }

  lemma StillToMove(iov: seq<IoVec>, s: nat, bt: nat, all: seq<nat>, size: nat)
    requires Progress(iov, s, bt, all) && Within(all, size)
    ensures s <= |iov| && bt <= |all| && Left(iov, s) == all[bt..] && Within(Left(iov, s), size) &&
            |Left(iov, s)| == |all| - bt
    ensures if s < |iov| then bt > 0 ==> bt < |all| else bt == |all| && (bt == 0 ==> |iov| == 0)
  {
  }

  /** The first `bt` bytes went out. */
  ghost predicate Sent(wire: seq<Byte>, wire0: seq<Byte>, mem: seq<Byte>, all: seq<nat>, bt: nat)
  {
    bt <= |all| && Within(all, |mem|) && wire == wire0 + Contents(mem, all[..bt])
  }

  lemma SentNothing(wire: seq<Byte>, mem: seq<Byte>, all: seq<nat>)
    requires Within(all, |mem|)
    ensures Sent(wire, wire, mem, all, 0)
  {
  }

  lemma SentMore(wire: seq<Byte>, wire0: seq<Byte>, mem: seq<Byte>, all: seq<nat>, bt: nat, n: nat)
    requires Sent(wire, wire0, mem, all, bt) && bt + n <= |all|
    ensures Sent(wire + Contents(mem, all[bt..bt + n]), wire0, mem, all, bt + n)
  {
    ContentsConcat(mem, all, bt, n);
  }

  /** The first `bt` bytes came in. */
  ghost predicate Stored(now: seq<Byte>, was: seq<Byte>, all: seq<nat>, bt: nat, data: seq<Byte>)
  {
    bt == |data| <= |all| && Within(all, |was|) && now == Fill(was, all[..bt], data)
  }

  lemma StoredNothing(mem: seq<Byte>, all: seq<nat>)
    requires Within(all, |mem|)
    ensures Stored(mem, mem, all, 0, [])
  {
  }

  lemma StoredMore(now: seq<Byte>, was: seq<Byte>, all: seq<nat>, bt: nat, n: nat, data: seq<Byte>, more: seq<Byte>)
    requires Stored(now, was, all, bt, data) && bt + n <= |all| && |more| == n
    ensures |now| == |was| && Within(all[bt..bt + n], |now|)
    ensures Stored(Fill(now, all[bt..bt + n], more), was, all, bt + n, data + more)
  {
    hide Fill;
    var a, b := all[..bt], all[bt..bt + n];
    assert a + b == all[..bt + n];
    FillConcat(was, a, b, data, more);
  }

  /** What one reply does to a call that has not come to the end of its entries. */
  lemma OneReply(len: nat, moved: nat, script: seq<Reply>)
    requires moved <= len
    ensures VectorLoop(true, len, moved, script) ==
            match Next(script)
            case Count(n) =>
              (var k := Least(n, len - moved);
               if k == 0 then Outcome(moved, 0, Rest(script))
               else VectorLoop(moved + k < len, len, moved + k, Rest(script)))
            case WouldBlock(ready) =>
              if ready then VectorLoop(true, len, moved, Rest(script)) else Outcome(moved, -1, Rest(script))
            case Failed => Outcome(moved, -1, Rest(script))
    ensures !Next(script).Failed? ==> |Rest(script)| < |script|
  {
  }

  lemma LoopEnds(len: nat, moved: nat, script: seq<Reply>)
    requires moved <= len
    ensures VectorLoop(false, len, moved, script) == Outcome(moved, moved, script)
  {
  }

  lemma ContentsConcat(mem: seq<Byte>, all: seq<nat>, bt: nat, n: nat)
    requires Within(all, |mem|) && bt + n <= |all|
    ensures Contents(mem, all[..bt]) + Contents(mem, all[bt..bt + n]) == Contents(mem, all[..bt + n])
  {
  }

  /** Write until everything is gone.  At every exit the bytes on the wire and the bytes that the
      changed vector still refers to make up the original ones, `bt` counts the
      former, and calls, progress and result are those of `TransferVector`. */
  method SendvN(h: Handle, mem: array<Byte>, iov: array<IoVec>) returns (result: int, bt: nat, ghost s: nat)
    requires Within(Cells(iov[..]), mem.Length)
    modifies h`wire, h`script, h`ready, iov
    ensures var all := old(Cells(iov[..]));
            && s <= iov.Length && bt <= |all| && Left(iov[..], s) == all[bt..]
            && h.wire == old(h.wire) + Contents(mem[..], all[..bt])
            && Outcome(bt, result, h.script) == TransferVector(iov.Length, |all|, old(h.script))
            && (result == bt == |all| || result in {0, -1})
  {
    hide Left; hide Cells; hide VectorLoop; hide Rest; hide Next; hide Progress; hide Within; hide Contents;
    ghost var all := Cells(iov[..]);
    var i := 0;
    bt, s := 0, 0;
    Begins(iov[..]);
    SentNothing(h.wire, mem[..], all);
    while i < iov.Length
      invariant i == s && Progress(iov[..], i, bt, all) && Sent(h.wire, old(h.wire), mem[..], all, bt)
      invariant TransferVector(iov.Length, |all|, old(h.script)) == VectorLoop(i < iov.Length, |all|, bt, h.script)
      decreases iov.Length - i, |h.script|
    {
      StillToMove(iov[..], i, bt, all, mem.Length);
      OneReply(|all|, bt, h.script);
      ghost var v, wire := iov[..], h.wire;
      var n, blocked := h.Sendv(mem, iov, i);
      if n == 0 {
        return 0, bt, s;
      }
      if n == -1 {
        if blocked && h.ready {
          continue;
        }
        return -1, bt, s;
      }
      i := Advance(iov, i, n);
      MovesOn(v, s, iov[..], i, bt, n, all);
      SentMore(wire, old(h.wire), mem[..], all, bt, n);
      bt := bt + n;
      s := i;
    }
    StillToMove(iov[..], i, bt, all, mem.Length);
    LoopEnds(|all|, bt, h.script);
    result := bt;
  }

  /** The form with a timeout sets the handle to non-blocking first and, on every path, restores the
      mode it had. */
  method SendvNTimed(h: Handle, mem: array<Byte>, iov: array<IoVec>) returns (result: int, bt: nat, ghost s: nat)
    requires Within(Cells(iov[..]), mem.Length)
    modifies h`wire, h`script, h`ready, h`nonblocking, iov
    ensures h.nonblocking == old(h.nonblocking)
    ensures var all := old(Cells(iov[..]));
            && s <= iov.Length && bt <= |all| && Left(iov[..], s) == all[bt..]
            && h.wire == old(h.wire) + Contents(mem[..], all[..bt])
            && Outcome(bt, result, h.script) == TransferVector(iov.Length, |all|, old(h.script))
            && (result == bt == |all| || result in {0, -1})
  {
    hide Left; hide Cells; hide VectorLoop; hide Rest; hide Next; hide Progress; hide Within; hide Contents;
    ghost var all := Cells(iov[..]);
    result, bt, s := 0, 0, 0;
    var error := false;
    var val := h.RecordAndSetNonBlocking();
    var i := 0;
    Begins(iov[..]);
    SentNothing(h.wire, mem[..], all);
    while i < iov.Length
      invariant i == s && Progress(iov[..], i, bt, all) && Sent(h.wire, old(h.wire), mem[..], all, bt) && !error &&
                h.nonblocking
      invariant TransferVector(iov.Length, |all|, old(h.script)) == VectorLoop(i < iov.Length, |all|, bt, h.script)
      decreases iov.Length - i, |h.script|
    {
      StillToMove(iov[..], i, bt, all, mem.Length);
      OneReply(|all|, bt, h.script);
      ghost var v, wire := iov[..], h.wire;
      var n, blocked := h.Sendv(mem, iov, i);
      if n == 0 || n == -1 {
        if n == -1 && blocked && h.ready {
          continue;
        }
        error, result := true, n;
        break;
      }
      i := Advance(iov, i, n);
      MovesOn(v, s, iov[..], i, bt, n, all);
      SentMore(wire, old(h.wire), mem[..], all, bt, n);
      bt := bt + n;
      s := i;
    }
    h.RestoreNonBlocking(val);
    StillToMove(iov[..], s, bt, all, mem.Length);
    if !error {
      LoopEnds(|all|, bt, h.script);
      result := bt;
    }
  }

  /** `sendv_n`, which takes the plain form when no timeout is given. */
  method SendvEither(h: Handle, mem: array<Byte>, iov: array<IoVec>, timed: bool)
    returns (result: int, bt: nat, ghost s: nat)
    requires Within(Cells(iov[..]), mem.Length)
    modifies h`wire, h`script, h`ready, h`nonblocking, iov
    ensures h.nonblocking == old(h.nonblocking)
    ensures var all := old(Cells(iov[..]));
            && s <= iov.Length && bt <= |all| && Left(iov[..], s) == all[bt..]
            && h.wire == old(h.wire) + Contents(mem[..], all[..bt])
            && Outcome(bt, result, h.script) == TransferVector(iov.Length, |all|, old(h.script))
            && (result == bt == |all| || result in {0, -1})
  {
    if timed {
      result, bt, s := SendvNTimed(h, mem, iov);
    } else {
      result, bt, s := SendvN(h, mem, iov);
    }
  }

  /** Read until the vector is full.  However the system cuts the peer's bytes up, memory ends as if
      the first `bt` of them had been stored at once, and nothing past them is read. */
  method RecvvN(h: Handle, mem: array<Byte>, iov: array<IoVec>) returns (result: int, bt: nat, ghost s: nat)
    requires Within(Cells(iov[..]), mem.Length)
    modifies h`pos, h`script, h`ready, iov, mem
    ensures var all := old(Cells(iov[..]));
            && s <= iov.Length && bt <= |all| && Left(iov[..], s) == all[bt..]
            && h.pos == old(h.pos) + bt && mem[..] == Fill(old(mem[..]), all[..bt], h.Bytes(old(h.pos), bt))
            && Outcome(bt, result, h.script) == TransferVector(iov.Length, |all|, old(h.script))
            && (result == bt == |all| || result in {0, -1})
  {
    hide Left; hide Cells; hide VectorLoop; hide Rest; hide Next; hide Progress; hide Within; hide Contents; hide Fill;
    ghost var all, data := Cells(iov[..]), [];
    var i := 0;
    bt, s := 0, 0;
    Begins(iov[..]);
    StoredNothing(mem[..], all);
    while i < iov.Length
      invariant i == s && Progress(iov[..], i, bt, all) && h.pos == old(h.pos) + bt
      invariant data == h.Bytes(old(h.pos), bt) && Stored(mem[..], old(mem[..]), all, bt, data)
      invariant TransferVector(iov.Length, |all|, old(h.script)) == VectorLoop(i < iov.Length, |all|, bt, h.script)
      decreases iov.Length - i, |h.script|
    {
      StillToMove(iov[..], i, bt, all, mem.Length);
      OneReply(|all|, bt, h.script);
      ghost var v, m := iov[..], mem[..];
      var n, blocked := h.Recvv(mem, iov, i);
      if n == 0 {
        return 0, bt, s;
      }
      if n == -1 {
        if blocked && h.ready {
          continue;
        }
        return -1, bt, s;
      }
      i := Advance(iov, i, n);
      MovesOn(v, s, iov[..], i, bt, n, all);
      StoredMore(m, old(mem[..]), all, bt, n, data, h.Bytes(old(h.pos) + bt, n));
      data := data + h.Bytes(old(h.pos) + bt, n);
      bt := bt + n;
      s := i;
    }
    StillToMove(iov[..], i, bt, all, mem.Length);
    LoopEnds(|all|, bt, h.script);
    result := bt;
  }
}
