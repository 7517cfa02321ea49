/** `ACE_Arg_Shifter`: arguments are taken from a copy of the vector and put back, ignored ones at the
    front and consumed ones at the back. */
module ArgShifting {

  import opened Wrappers

  /** The copy, the vector being refilled, the caller's count, and the positions. */
  datatype Shifter = Shifter(temp: seq<string>, argv: seq<Option<string>>, argc: int, current: int, front: int,
                             back: int)
  {
    function Left(): int { |temp| - current }
  }

  function Somes(s: seq<string>): (r: seq<Option<string>>)
    ensures |r| == |s|
  {
    seq(|s|, i requires 0 <= i < |s| => Some(s[i]))
  }

  function Nones(n: nat): (r: seq<Option<string>>)
    ensures |r| == n
  {
    seq(n, _ => None)
  }

  /** The vector with a block of arguments written at `at`. */
  function Written(argv: seq<Option<string>>, at: nat, block: seq<string>): (r: seq<Option<string>>)
    requires at + |block| <= |argv|
    ensures |r| == |argv|
  {
    argv[..at] + Somes(block) + argv[at + |block|..]
  }

  // ----- what the caller sees -----

  /** How far the caller has got, the ignored arguments, and the consumed ones as they lie at the back:
      each consumed block in front of the earlier ones. */
  datatype Seen = Seen(current: nat, ignored: seq<string>, consumed: seq<string>)

  datatype Op = Consume(number: int) | Ignore(number: int)

  function See(v: Seen, temp: seq<string>, op: Op): (r: Seen)
    requires v.current <= |temp|
    ensures r.current <= |temp|
  {
    if !(0 <= op.number <= |temp| - v.current) then v
    else
      var next := v.current + op.number;
      var block := temp[v.current..next];
      if op.Consume? then v.(current := next, consumed := block + v.consumed)
      else v.(current := next, ignored := v.ignored + block)
  }

  function SeeAll(v: Seen, temp: seq<string>, ops: seq<Op>): (r: Seen)
    requires v.current <= |temp|
    ensures r.current <= |temp|
    decreases ops
  {
    if ops == [] then v else SeeAll(See(v, temp, ops[0]), temp, ops[1..])
  }

  /** `all` is made up of `kept`, in order, and of `gone`. */
  ghost predicate Shuffled(all: seq<string>, kept: seq<string>, gone: multiset<string>)
  {
    if all == [] then kept == [] && gone == multiset{}
    else
      var last, rest := all[|all| - 1], all[..|all| - 1];
      || (kept != [] && kept[|kept| - 1] == last && Shuffled(rest, kept[..|kept| - 1], gone))
      || (last in gone && Shuffled(rest, kept, gone - multiset{last}))
  }

  lemma {:induction false} ShuffledKeeps(all: seq<string>, kept: seq<string>, gone: multiset<string>,
                                         block: seq<string>)
    requires Shuffled(all, kept, gone)
    ensures Shuffled(all + block, kept + block, gone)
    decreases |block|
  {
    if block == [] {
      assert all + block == all && kept + block == kept;
    } else {
      var front, last := block[..|block| - 1], block[|block| - 1];
      ShuffledKeeps(all, kept, gone, front);
      assert (all + block)[..|all + block| - 1] == all + front;
      assert (kept + block)[..|kept + block| - 1] == kept + front;
    }
  }

  lemma {:induction false} ShuffledDrops(all: seq<string>, kept: seq<string>, gone: multiset<string>,
                                         block: seq<string>)
    requires Shuffled(all, kept, gone)
    ensures Shuffled(all + block, kept, gone + multiset(block))
    decreases |block|
  {
    if block == [] {
      assert all + block == all && gone + multiset(block) == gone;
    } else {
      var front, last := block[..|block| - 1], block[|block| - 1];
      ShuffledDrops(all, kept, gone, front);
      assert (all + block)[..|all + block| - 1] == all + front;
      assert block == front + [last];
      assert gone + multiset(block) - multiset{last} == gone + multiset(front);
    }
  }

  lemma {:induction false} ShuffledCounts(all: seq<string>, kept: seq<string>, gone: multiset<string>)
    requires Shuffled(all, kept, gone)
    ensures multiset(all) == multiset(kept) + gone
    decreases |all|
  {
    if all != [] {
      var last, rest := all[|all| - 1], all[..|all| - 1];
      assert all == rest + [last];
      if kept != [] && kept[|kept| - 1] == last && Shuffled(rest, kept[..|kept| - 1], gone) {
        ShuffledCounts(rest, kept[..|kept| - 1], gone);
        assert kept == kept[..|kept| - 1] + [last];
      } else {
        ShuffledCounts(rest, kept, gone - multiset{last});
      }
    }
  }

  ghost predicate SeenOk(v: Seen, temp: seq<string>)
  {
    && v.current <= |temp| && |v.ignored| + |v.consumed| == v.current
    && Shuffled(temp[..v.current], v.ignored, multiset(v.consumed))
  }

  lemma SeeKeeps(v: Seen, temp: seq<string>, op: Op)
    requires SeenOk(v, temp)
    ensures SeenOk(See(v, temp, op), temp)
  {
    hide Shuffled;
    if 0 <= op.number <= |temp| - v.current {
      var next := v.current + op.number;
      var block := temp[v.current..next];
      assert temp[..next] == temp[..v.current] + block;
      if op.Consume? {
        ShuffledDrops(temp[..v.current], v.ignored, multiset(v.consumed), block);
        assert multiset(block + v.consumed) == multiset(v.consumed) + multiset(block);
      } else {
        ShuffledKeeps(temp[..v.current], v.ignored, multiset(v.consumed), block);
      }
    }
  }

  // ----- the vector -----

  /** The vector holds the ignored arguments, then nothing, then the consumed ones; the caller's count
      is that of the ignored ones, and the regions have room for what is left. */
  ghost predicate Layout(s: Shifter, v: Seen)
  {
    && SeenOk(v, s.temp)
    && s.current == v.current && s.front == s.argc == |v.ignored|
    && s.front + (|s.temp| - 1 - s.back) == s.current
    && Regions(s.argv, v.ignored, |s.temp| - v.current, v.consumed)
  }

  ghost predicate Regions(argv: seq<Option<string>>, ignored: seq<string>, gap: nat, consumed: seq<string>)
  {
    argv == Somes(ignored) + Nones(gap) + Somes(consumed)
  }

  /** With a negative number nothing is written, but the positions and the count move backwards. */
  function Consumed(s: Shifter, number: int): Shifter
    requires ConsumeInBounds(s, number)
  {
    if s.Left() < number then s
    else if number <= 0 then s.(back := s.back - number)
    else s.(argv := Written(s.argv, s.back + 1 - number, s.temp[s.current..s.current + number]),
            current := s.current + number, back := s.back - number)
  }

  function Ignored(s: Shifter, number: int): Shifter
    requires IgnoreInBounds(s, number)
  {
    if s.Left() < number then s
    else if number <= 0 then s.(argc := s.argc + number)
    else s.(argv := Written(s.argv, s.front, s.temp[s.current..s.current + number]),
            current := s.current + number, front := s.front + number, argc := s.argc + number)
  }

  /** What is copied lies inside both arrays. */
  predicate ConsumeInBounds(s: Shifter, number: int)
  {
    0 < number <= s.Left() ==> 0 <= s.current && 0 <= s.back + 1 - number && s.back < |s.argv|
  }

  predicate IgnoreInBounds(s: Shifter, number: int)
  {
    0 < number <= s.Left() ==> 0 <= s.current && 0 <= s.front && s.front + number <= |s.argv|
  }

  lemma LayoutBounds(s: Shifter, v: Seen)
    requires Layout(s, v)
    ensures |s.argv| == |s.temp| && s.front + s.Left() == s.back + 1 && s.back < |s.argv| && 0 <= s.front &&
            0 <= s.current && 0 <= s.Left()
  {
  }

  function Stepped(s: Shifter, op: Op): Shifter
    requires ConsumeInBounds(s, op.number) && IgnoreInBounds(s, op.number)
  {
    if op.Consume? then Consumed(s, op.number) else Ignored(s, op.number)
  }

  /** A call keeps the layout just when its number is not negative; then it does what `See` says, and
      one that asks for more than is left does nothing. */
  lemma StepKeepsLayoutIff(s: Shifter, v: Seen, op: Op)
    requires Layout(s, v)
    ensures ConsumeInBounds(s, op.number) && IgnoreInBounds(s, op.number)
    ensures (exists w :: Layout(Stepped(s, op), w)) <==> op.number >= 0
    ensures op.number >= 0 ==> Layout(Stepped(s, op), See(v, s.temp, op))
  {
    LayoutBounds(s, v);
    if op.number >= 0 { StepKeepsLayout(s, v, op); }
    assert op.number >= 0 ==> Layout(Stepped(s, op), See(v, s.temp, op));
  }

  lemma StepKeepsLayout(s: Shifter, v: Seen, op: Op)
    requires Layout(s, v) && op.number >= 0 && ConsumeInBounds(s, op.number) && IgnoreInBounds(s, op.number)
    ensures Layout(Stepped(s, op), See(v, s.temp, op))
  {
    if op.number == 0 {
      SeeNothing(v, s.temp, op);
    } else if op.number <= s.Left() {
      SeeKeeps(v, s.temp, op);
      if op.Consume? { ConsumeKeepsLayout(s, v, op.number); } else { IgnoreKeepsLayout(s, v, op.number); }
    }
  }

  lemma SeeNothing(v: Seen, temp: seq<string>, op: Op)
    requires v.current <= |temp| && op.number == 0
    ensures See(v, temp, op) == v
  {
    var block := temp[v.current..v.current];
    assert block + v.consumed == v.consumed && v.ignored + block == v.ignored;
  }

  lemma ConsumeKeepsLayout(s: Shifter, v: Seen, number: nat)
    requires Layout(s, v) && 0 < number <= s.Left() && SeenOk(See(v, s.temp, Consume(number)), s.temp)
    requires ConsumeInBounds(s, number)
    ensures Layout(Consumed(s, number), See(v, s.temp, Consume(number)))
  {
    hide SeenOk; hide Written; hide Regions;
    ConsumeRegions(s.argv, v.ignored, s.Left(), v.consumed, s.temp[s.current..s.current + number]);
  }

  lemma ConsumeRegions(argv: seq<Option<string>>, ignored: seq<string>, gap: nat, consumed: seq<string>,
                       block: seq<string>)
    requires Regions(argv, ignored, gap, consumed) && |block| <= gap
    ensures |argv| == |ignored| + gap + |consumed|
    ensures Regions(Written(argv, |ignored| + gap - |block|, block), ignored, gap - |block|, block + consumed)
  {
    var at := |ignored| + gap - |block|;
    assert argv[..at] == Somes(ignored) + Nones(gap - |block|);
    assert argv[at + |block|..] == Somes(consumed);
    assert Somes(block + consumed) == Somes(block) + Somes(consumed);
  }

  lemma IgnoreKeepsLayout(s: Shifter, v: Seen, number: nat)
    requires Layout(s, v) && 0 < number <= s.Left() && SeenOk(See(v, s.temp, Ignore(number)), s.temp)
    requires IgnoreInBounds(s, number)
    ensures Layout(Ignored(s, number), See(v, s.temp, Ignore(number)))
  {
    hide SeenOk; hide Written; hide Regions;
    IgnoreRegions(s.argv, v.ignored, s.Left(), v.consumed, s.temp[s.current..s.current + number]);
  }

  lemma IgnoreRegions(argv: seq<Option<string>>, ignored: seq<string>, gap: nat, consumed: seq<string>,
                      block: seq<string>)
    requires Regions(argv, ignored, gap, consumed) && |block| <= gap
    ensures |argv| == |ignored| + gap + |consumed|
    ensures Regions(Written(argv, |ignored|, block), ignored + block, gap - |block|, consumed)
  {
    assert argv[..|ignored|] == Somes(ignored);
    assert argv[|ignored| + |block|..] == Nones(gap - |block|) + Somes(consumed);
    assert Somes(ignored + block) == Somes(ignored) + Somes(block);
  }

  /** Writing one argument after the other writes the block. */
  lemma WrittenByOne(was: seq<Option<string>>, now: seq<Option<string>>, at: nat, block: seq<string>)
    requires |now| == |was| && at + |block| <= |was|
    requires forall k :: 0 <= k < |was| ==> now[k] == if at <= k < at + |block| then Some(block[k - at]) else was[k]
    ensures now == Written(was, at, block)
  {
  }

  /** Before the first call, and when nothing may be visited. */
  lemma Nothing(n: nat)
    ensures Somes([]) + Nones(n) + Somes([]) == Nones(n) && Shuffled([], [], multiset{})
  {
  }

  lemma AllIgnored(all: seq<string>)
    ensures Shuffled(all[..|all|], all, multiset([]))
    ensures Somes(all) + Nones(0) + Somes([]) == Somes(all)
  {
    ShuffledKeeps([], [], multiset([]), all);
    assert [] + all == all && all[..|all|] == all;
  }

  // ----- whole runs -----

  predicate NotNegative(ops: seq<Op>) { forall i :: 0 <= i < |ops| ==> ops[i].number >= 0 }

  function Run(s: Shifter, v: Seen, ops: seq<Op>): (r: Shifter)
    requires Layout(s, v) && NotNegative(ops)
    ensures Layout(r, SeeAll(v, s.temp, ops)) && r.temp == s.temp
    decreases ops
  {
    if ops == [] then s
    else
      StepKeepsLayoutIff(s, v, ops[0]);
      Run(Stepped(s, ops[0]), See(v, s.temp, ops[0]), ops[1..])
  }

  /** After any calls that leave nothing to visit, the vector is a rearrangement of the arguments: the
      first `argc` are the ignored ones in their original order, the others the consumed ones. */
  lemma AllVisited(s: Shifter, v: Seen, ops: seq<Op>)
    requires Layout(s, v) && NotNegative(ops) && Run(s, v, ops).Left() == 0
    ensures var r, w := Run(s, v, ops), SeeAll(v, s.temp, ops);
            && 0 <= r.argc <= |r.argv| && r.argv == Somes(w.ignored + w.consumed)
            && r.argv[..r.argc] == Somes(w.ignored)
            && Shuffled(s.temp, w.ignored, multiset(w.consumed))
            && multiset(w.ignored + w.consumed) == multiset(s.temp)
  {
    assert v.current <= |s.temp|;
    hide Layout; hide Shuffled; hide SeeAll; hide Somes;
    NothingLeft(Run(s, v, ops), SeeAll(v, s.temp, ops));
  }

  lemma NothingLeft(s: Shifter, v: Seen)
    requires Layout(s, v) && s.Left() == 0
    ensures 0 <= s.argc <= |s.argv| && s.argv == Somes(v.ignored + v.consumed) && s.argv[..s.argc] == Somes(v.ignored)
    ensures Shuffled(s.temp, v.ignored, multiset(v.consumed)) && multiset(v.ignored + v.consumed) == multiset(s.temp)
  {
    hide Shuffled;
    assert s.temp[..|s.temp|] == s.temp;
    ShuffledCounts(s.temp, v.ignored, multiset(v.consumed));
    SomesOfConcat(v.ignored, v.consumed);
    hide Somes;
    assert Nones(0) == [] && Somes(v.ignored) + [] == Somes(v.ignored);
  }

  lemma SomesOfConcat(a: seq<string>, b: seq<string>)
    ensures Somes(a + b) == Somes(a) + Somes(b)
  {
  }

  // ----- the object -----

  class ArgShifter {
    var argc: int
    const totalSize: nat
    const temp: array<string>
    const argv: array<Option<string>>
    var currentIndex: int
    var back: int
    var front: int

    ghost function State(): Shifter
      reads this, temp, argv
    {
      Shifter(temp[..], argv[..], argc, currentIndex, front, back)
    }

    /** `gotMemory` is false if there is no memory for the copy; then nothing is moved and there is
        nothing to visit. */
    constructor (argv: array<Option<string>>, gotMemory: bool)
      requires forall i :: 0 <= i < argv.Length ==> argv[i].Some?
      modifies argv
      ensures this.argv == argv && fresh(temp) && temp.Length == totalSize == argv.Length
      ensures Somes(temp[..]) == old(argv[..])
      ensures Layout(State(), if gotMemory then Seen(0, [], []) else Seen(argv.Length, temp[..], []))
    {
      ghost var was := argv[..];
      var n := argv.Length;
      var copy := new string[n](_ => "");
      for i := 0 to n
        invariant argv[..] == was
        invariant forall j :: 0 <= j < i ==> was[j] == Some(copy[j])
      {
        copy[i] := argv[i].value;
      }
      ghost var all := copy[..];
      assert Somes(all) == was;
      totalSize, temp, this.argv, back := n, copy, argv, n - 1;
      if gotMemory {
        argc, currentIndex, front := 0, 0, 0;
        for i := 0 to n
          invariant copy[..] == all && forall j :: 0 <= j < i ==> argv[j] == None
        {
          argv[i] := None;
        }
        assert argv[..] == Nones(n);
      } else {
        argc, currentIndex, front := n, n, n;
        AllIgnored(copy[..]);
      }
      Nothing(n);
    }

    /** The loop of both calls: the next `number` arguments go to `at` and the places behind it. */
    method MoveArgs(at: int, number: int) returns (moved: nat)
      requires number > 0 ==>
        0 <= currentIndex && 0 <= at && at + number <= argv.Length && currentIndex + number <= temp.Length
      modifies this`currentIndex, argv
      ensures moved == (if number > 0 then number else 0) && currentIndex == old(currentIndex) + moved
      ensures argv[..] ==
              if moved > 0 then Written(old(argv[..]), at, temp[..][old(currentIndex)..currentIndex]) else old(argv[..])
    {
      ghost var was, start := argv[..], currentIndex;
      var i, j := 0, at;
      while i < number
        invariant 0 <= i && (i > 0 ==> i <= number) && j == at + i && currentIndex == start + i
        invariant i == 0 ==> argv[..] == was
        invariant forall k :: 0 <= k < argv.Length ==>
                  argv[k] == if at <= k < j then Some(temp[start + k - at]) else was[k]
      {
        argv[j] := Some(temp[currentIndex]);
        i, j, currentIndex := i + 1, j + 1, currentIndex + 1;
      }
      if i > 0 { WrittenByOne(was, argv[..], at, temp[..][start..currentIndex]); }
      return i;
    }

    method ConsumeArg(number: int, ghost v: Seen) returns (done: bool)
      requires temp.Length == totalSize && ConsumeInBounds(State(), number)
      modifies this`currentIndex, this`back, argv
      ensures done == (number <= old(State().Left()))
      ensures State() == old(Consumed(State(), number))
      ensures number >= 0 && old(Layout(State(), v)) ==> Layout(State(), See(v, temp[..], Consume(number)))
    {
      hide Layout; hide See; hide Written; hide Somes; hide Nones;
      ghost var was := State();
      done := false;
      if totalSize - currentIndex >= number {
        var _ := MoveArgs(back - (number - 1), number);
        back := back - number;
        done := true;
      }
      if number >= 0 && Layout(was, v) { StepKeepsLayoutIff(was, v, Consume(number)); }
    }

    method IgnoreArg(number: int, ghost v: Seen) returns (done: bool)
      requires temp.Length == totalSize && IgnoreInBounds(State(), number)
      modifies this`currentIndex, this`front, this`argc, argv
      ensures done == (number <= old(State().Left()))
      ensures State() == old(Ignored(State(), number))
      ensures number >= 0 && old(Layout(State(), v)) ==> Layout(State(), See(v, temp[..], Ignore(number)))
    {
      hide Layout; hide See; hide Written; hide Somes; hide Nones;
      ghost var was := State();
      done := false;
      if totalSize - currentIndex >= number {
        var moved := MoveArgs(front, number);
        front := front + moved;
        done := true;
        argc := argc + number;
      }
      if number >= 0 && Layout(was, v) { StepKeepsLayoutIff(was, v, Ignore(number)); }
    }

    /** The next argument, if one is left. */
    method GetCurrent() returns (r: Option<string>)
      requires 0 <= currentIndex && temp.Length == totalSize
      ensures r == if currentIndex < totalSize then Some(temp[currentIndex]) else None
    {
      r := None;
      if currentIndex < totalSize {
        r := Some(temp[currentIndex]);
      }
    }
  }
}
