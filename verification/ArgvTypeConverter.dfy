/** `ACE_Argv_Type_Converter`: one argument list in two encodings.  A consumer may reorder the list it
    was given and lower the count; before the other list is given out it is brought into the
    same order, and the duplicates of dropped arguments are freed. */
module ArgvConversion {

  /** A string on the heap and its text in the narrow encoding. */
  datatype Arg = Arg(id: nat, text: string)

  function Texts(s: seq<Arg>): (r: seq<string>)
    ensures |r| == |s|
  {
    seq(|s|, i requires 0 <= i < |s| => s[i].text)
  }

  // ----- bringing one list into the order of the other -----

  function FirstFrom(m: seq<Arg>, text: string, i: nat): (r: nat)
    requires i <= |m|
    ensures i <= r <= |m| && (r < |m| ==> m[r].text == text) && forall j :: i <= j < r ==> m[j].text != text
    decreases |m| - i
  {
    if i == |m| || m[i].text == text then i else FirstFrom(m, text, i + 1)
  }

  function Swapped(m: seq<Arg>, i: nat, j: nat): (r: seq<Arg>)
    requires i < |m| && j < |m|
    ensures |r| == |m|
  {
    m[i := m[j]][j := m[i]]
  }

  /** Look for the text at `k` or behind it and swap it there. */
  function Place(m: seq<Arg>, text: string, k: nat): (r: seq<Arg>)
    requires k < |m|
    ensures |r| == |m|
  {
    if m[k].text == text then m
    else
      var i := FirstFrom(m, text, k + 1);
      if i == |m| then m else Swapped(m, k, i)
  }

  function Align(m: seq<Arg>, t: seq<string>, k: nat): (r: seq<Arg>)
    requires k <= |t| <= |m|
    ensures |r| == |m|
    decreases |t| - k
  {
    if k == |t| then m else Align(Place(m, t[k], k), t, k + 1)
  }

  lemma SwappedPermutes(m: seq<Arg>, i: nat, j: nat)
    requires i < |m| && j < |m|
    ensures multiset(Swapped(m, i, j)) == multiset(m)
  {
  }

  lemma {:induction false} AlignPermutes(m: seq<Arg>, t: seq<string>, k: nat)
    requires k <= |t| <= |m|
    ensures multiset(Align(m, t, k)) == multiset(m)
    ensures Align(m, t, k)[..k] == m[..k]
    decreases |t| - k
  {
    if k < |t| {
      var p := Place(m, t[k], k);
      PlacePermutes(m, t[k], k);
      hide Place;
      AlignPermutes(p, t, k + 1);
      var r := Align(p, t, k + 1);
      assert r[..k] == r[..k + 1][..k] == p[..k + 1][..k] == p[..k];
    }
  }

  lemma PlacePermutes(m: seq<Arg>, text: string, k: nat)
    requires k < |m|
    ensures multiset(Place(m, text, k)) == multiset(m) && Place(m, text, k)[..k] == m[..k]
  {
    var i := FirstFrom(m, text, k + 1);
    if i < |m| { SwappedPermutes(m, k, i); }
  }

  ghost predicate Agree(m: seq<Arg>, t: seq<string>)
  {
    |t| <= |m| && Texts(m[..|t|]) == t
  }

  lemma {:induction false} TextsPermute(m: seq<Arg>, p: seq<Arg>)
    requires multiset(m) == multiset(p)
    ensures multiset(Texts(m)) == multiset(Texts(p))
    decreases |m|
  {
    hide Texts;
    if m == [] {
      assert |multiset(m)| == |multiset(p)|;
      assert p == m;
    } else {
      assert m[0] in multiset(p);
      var i := Find(p, m[0]);
      WithoutFirst(m);
      WithoutOne(p, i);
      var rest := p[..i] + p[i + 1..];
      CancelOne(multiset(m[1..]), multiset(rest), m[0]);
      TextsPermute(m[1..], rest);
    }
  }

  lemma Find<T>(p: seq<T>, x: T) returns (i: nat)
    requires x in p
    ensures i < |p| && p[i] == x
  {
    i :| 0 <= i < |p| && p[i] == x;
  }

  lemma WithoutFirst(m: seq<Arg>)
    requires m != []
    ensures multiset(m) == multiset(m[1..]) + multiset{m[0]}
    ensures multiset(Texts(m)) == multiset(Texts(m[1..])) + multiset{m[0].text}
  {
    hide Texts;
    WithoutOne(m, 0);
    var rest := m[..0] + m[0 + 1..];
    assert rest == m[1..];
  }

  lemma CancelOne<T>(a: multiset<T>, b: multiset<T>, x: T)
    requires a + multiset{x} == b + multiset{x}
    ensures a == b
  {
    assert a == (a + multiset{x}) - multiset{x};
    assert b == (b + multiset{x}) - multiset{x};
  }

  /** Taking one element out, in the list and in its texts. */
  lemma WithoutOne(p: seq<Arg>, i: nat)
    requires i < |p|
    ensures var rest := p[..i] + p[i + 1..];
            && multiset(p) == multiset(rest) + multiset{p[i]}
            && multiset(Texts(p)) == multiset(Texts(rest)) + multiset{p[i].text}
  {
    var a, b := p[..i], p[i + 1..];
    assert p == a + [p[i]] + b;
    assert Texts(p) == Texts(a) + [p[i].text] + Texts(b);
    assert Texts(a + b) == Texts(a) + Texts(b);
  }

  /** The lists agree on the first |t| places afterwards just when each text of the other list
      was in this one often enough. */
  lemma AlignAgreesIff(m: seq<Arg>, t: seq<string>)
    requires |t| <= |m|
    ensures Agree(Align(m, t, 0), t) <==> multiset(t) <= multiset(Texts(m))
  {
    assert Texts([]) == [];
    hide Texts; hide Align;
    assert m[..0] == [] && t[..0] == [];
    if multiset(t) <= multiset(Texts(m)) {
      AlignFinds(m, t, 0);
    } else if Agree(Align(m, t, 0), t) {
      var r := Align(m, t, 0);
      AlignPermutes(m, t, 0);
      TextsPermute(m, r);
      PrefixTexts(r, |t|);
    }
  }

  lemma {:induction false} AlignFinds(m: seq<Arg>, t: seq<string>, k: nat)
    requires k <= |t| <= |m| && Texts(m[..k]) == t[..k] && multiset(t) <= multiset(Texts(m))
    ensures Agree(Align(m, t, k), t)
    decreases |t| - k
  {
    if k < |t| {
      var p := Placed(m, t, k);
      AlignFinds(p, t, k + 1);
    } else {
      assert t[..k] == t;
    }
  }

  /** One step puts the next text where it belongs. */
  lemma Placed(m: seq<Arg>, t: seq<string>, k: nat) returns (p: seq<Arg>)
    requires k < |t| <= |m| && Texts(m[..k]) == t[..k] && multiset(t) <= multiset(Texts(m))
    ensures p == Place(m, t[k], k) && Texts(p[..k + 1]) == t[..k + 1] && multiset(t) <= multiset(Texts(p))
  {
    p := Place(m, t[k], k);
    TextIsBehind(m, t, k);
    PlacePermutes(m, t[k], k);
    TextsPermute(m, p);
    assert p[k].text == t[k] && p[..k] == m[..k];
    hide Place; hide FirstFrom;
    TextsGrow(p, k);
    assert t[..k + 1] == t[..k] + [t[k]];
  }

  lemma TextsGrow(p: seq<Arg>, k: nat)
    requires k < |p|
    ensures Texts(p[..k + 1]) == Texts(p[..k]) + [p[k].text]
  {
  }

  /** A text needed at `k` has not been used up by the places before. */
  lemma TextIsBehind(m: seq<Arg>, t: seq<string>, k: nat)
    requires k < |t| <= |m| && Texts(m[..k]) == t[..k] && multiset(t) <= multiset(Texts(m))
    ensures m[k].text == t[k] || FirstFrom(m, t[k], k + 1) < |m|
  {
    Remains(m, t, k);
    var i := Find(Texts(m[k..]), t[k]);
    assert m[k + i].text == t[k];
  }

  lemma Remains(m: seq<Arg>, t: seq<string>, k: nat)
    requires k < |t| <= |m| && Texts(m[..k]) == t[..k] && multiset(t) <= multiset(Texts(m))
    ensures t[k] in Texts(m[k..])
  {
    var x, y := t[..k], t[k..];
    assert t == x + y && y[0] == t[k];
    assert Texts(m) == x + Texts(m[k..]) by { assert m == m[..k] + m[k..]; }
    hide Texts;
    UsedUp(x, y, Texts(m[k..]), t[k]);
  }

  lemma UsedUp(x: seq<string>, y: seq<string>, z: seq<string>, e: string)
    requires multiset(x + y) <= multiset(x + z) && e in y
    ensures e in z
  {
    assert multiset(x + y)[e] == multiset(x)[e] + multiset(y)[e];
    assert multiset(x + z)[e] == multiset(x)[e] + multiset(z)[e];
    assert multiset(y)[e] >= 1;
    assert multiset(z)[e] >= 1;
  }

  // ----- the converter as a value -----

  /** The arguments of both lists that have not been dropped, the caller's count, and which list was
      given out.  `freed` is history. */
  datatype Converter = Converter(c: seq<Arg>, w: seq<Arg>, saved: nat, wide: bool, wcharPassed: bool,
                                 charPassed: bool, freed: multiset<Arg>)
  {
    /** The list that the converter made. */
    function Duplicates(): seq<Arg> { if wide then c else w }

    predicate Shaped() { |c| == |w| && saved <= |c| }
  }

  function Cleanup(s: Converter): (r: Converter)
    requires s.Shaped()
    ensures r.Shaped()
  {
    s.(c := s.c[..s.saved], w := s.w[..s.saved], wcharPassed := false, charPassed := false,
       freed := s.freed + multiset(s.Duplicates()[s.saved..]))
  }

  function AlignChar(s: Converter): (r: Converter)
    requires s.Shaped()
    ensures r.Shaped()
  {
    Cleanup(s.(c := Align(s.c, Texts(s.w[..s.saved]), 0)))
  }

  function AlignWchar(s: Converter): (r: Converter)
    requires s.Shaped()
    ensures r.Shaped()
  {
    Cleanup(s.(w := Align(s.w, Texts(s.c[..s.saved]), 0)))
  }

  function GetTchar(s: Converter): (r: Converter)
    requires s.Shaped()
    ensures r.Shaped()
  {
    (if s.charPassed then AlignWchar(s) else s).(wcharPassed := true)
  }

  function GetAscii(s: Converter): (r: Converter)
    requires s.Shaped()
    ensures r.Shaped()
  {
    (if s.wcharPassed then AlignChar(s) else s).(charPassed := true)
  }

  /** What has been freed after the destructor. */
  function Destroy(s: Converter): multiset<Arg>
    requires s.Shaped()
  {
    var r := if s.wide && s.charPassed then AlignWchar(s) else if !s.wide && s.wcharPassed then AlignChar(s) else s;
    r.freed + multiset(r.Duplicates())
  }

  /** What happens to a converter: a list is asked for, or the consumer of the list that was asked for last
      reorders it and lowers the count; the caller may lower it at any time. */
  datatype Use = AskTchar | AskAscii | Consume(list: seq<Arg>, count: nat) | Lower(count: nat)

  /** The list that was asked for last. */
  datatype Last = Nobody | Wide | Narrow

  function Asked(last: Last, u: Use): Last
  {
    match u case AskTchar => Wide case AskAscii => Narrow case _ => last
  }

  function AskedIn(last: Last, us: seq<Use>): Last
    decreases us
  {
    if us == [] then last else AskedIn(Asked(last, us[0]), us[1..])
  }

  ghost predicate Allowed(s: Converter, last: Last, u: Use)
  {
    match u
    case Consume(list, count) =>
      count <= s.saved && !last.Nobody? && multiset(list) == multiset(if last.Wide? then s.w else s.c)
    case Lower(count) => count <= s.saved
    case _ => true
  }

  function Apply(s: Converter, last: Last, u: Use): Converter
    requires s.Shaped()
  {
    match u
    case AskTchar => GetTchar(s)
    case AskAscii => GetAscii(s)
    case Consume(list, count) => if last.Wide? then s.(w := list, saved := count) else s.(c := list, saved := count)
    case Lower(count) => s.(saved := count)
  }

  ghost predicate AllAllowed(s: Converter, last: Last, us: seq<Use>)
    requires s.Shaped()
    decreases us
  {
    us == []
    || (&& Allowed(s, last, us[0]) && Apply(s, last, us[0]).Shaped()
        && AllAllowed(Apply(s, last, us[0]), Asked(last, us[0]), us[1..]))
  }

  function ApplyAll(s: Converter, last: Last, us: seq<Use>): (r: Converter)
    requires s.Shaped() && AllAllowed(s, last, us)
    ensures r.Shaped()
    decreases us
  {
    if us == [] then s else ApplyAll(Apply(s, last, us[0]), Asked(last, us[0]), us[1..])
  }

  /** The flags say which list was asked for last; the lists hold the same texts, in the same order when none was; the
      duplicates `dup` are freed or still there, and the originals have only been reordered. */
  ghost predicate Inv(s: Converter, last: Last, dup: multiset<Arg>)
  {
    && s.Shaped()
    && s.wcharPassed == last.Wide? && s.charPassed == last.Narrow?
    && multiset(Texts(s.c)) == multiset(Texts(s.w))
    && (last.Nobody? ==> Texts(s.c) == Texts(s.w))
    && s.freed + multiset(s.Duplicates()) == dup
  }

  /** Texts that are a rearrangement are found in their new order. */
  lemma Rearranged(m: seq<Arg>, other: seq<Arg>, saved: nat)
    requires |m| == |other| && saved <= |m| && multiset(Texts(m)) == multiset(Texts(other))
    ensures var r := Align(m, Texts(other[..saved]), 0);
            multiset(r) == multiset(m) && Texts(r[..saved]) == Texts(other[..saved])
  {
    var t := Texts(other[..saved]);
    PrefixTexts(other, saved);
    AlignAgreesIff(m, t);
    AlignPermutes(m, t, 0);
  }

  lemma PrefixTexts(s: seq<Arg>, k: nat)
    requires k <= |s|
    ensures multiset(Texts(s[..k])) <= multiset(Texts(s))
  {
    assert s == s[..k] + s[k..];
    assert Texts(s) == Texts(s[..k]) + Texts(s[k..]);
  }

  lemma SplitAt(s: seq<Arg>, k: nat)
    requires k <= |s|
    ensures multiset(s) == multiset(s[..k]) + multiset(s[k..])
  {
    assert s == s[..k] + s[k..];
  }

  /** After alignment the lists agree in every argument that is left, and what was dropped is freed. */
  lemma AlignWcharInv(s: Converter, last: Last, dup: multiset<Arg>)
    requires Inv(s, last, dup)
    ensures var r := AlignWchar(s); Inv(r, Nobody, dup) && Texts(r.c) == Texts(r.w) && r.c == s.c[..s.saved]
  {
    hide Align;
    Rearranged(s.w, s.c, s.saved);
    SplitAt(if s.wide then s.c else Align(s.w, Texts(s.c[..s.saved]), 0), s.saved);
  }

  lemma AlignCharInv(s: Converter, last: Last, dup: multiset<Arg>)
    requires Inv(s, last, dup)
    ensures var r := AlignChar(s); Inv(r, Nobody, dup) && Texts(r.c) == Texts(r.w) && r.w == s.w[..s.saved]
  {
    hide Align;
    Rearranged(s.c, s.w, s.saved);
    SplitAt(if s.wide then Align(s.c, Texts(s.w[..s.saved]), 0) else s.w, s.saved);
  }

  lemma UseInv(s: Converter, last: Last, u: Use, dup: multiset<Arg>)
    requires Inv(s, last, dup) && Allowed(s, last, u)
    ensures Inv(Apply(s, last, u), Asked(last, u), dup)
  {
    hide AlignWchar; hide AlignChar; hide Texts;
    match u {
      case AskTchar => if s.charPassed { AlignWcharInv(s, last, dup); }
      case AskAscii => if s.wcharPassed { AlignCharInv(s, last, dup); }
      case Consume(list, count) =>
        var m := if last.Wide? then s.w else s.c;
        TextsPermute(m, list);
        assert |multiset(m)| == |multiset(list)|;
      case Lower(count) =>
    }
  }

  lemma {:induction false} RunInv(s: Converter, last: Last, us: seq<Use>, dup: multiset<Arg>)
    requires Inv(s, last, dup) && AllAllowed(s, last, us)
    ensures Inv(ApplyAll(s, last, us), AskedIn(last, us), dup)
    decreases us
  {
    if us != [] {
      UseInv(s, last, us[0], dup);
      hide Inv; hide Apply; hide Allowed;
      RunInv(Apply(s, last, us[0]), Asked(last, us[0]), us[1..], dup);
    }
  }

  /** Whatever was asked for, consumed and dropped before, and in either direction: the list that is asked for next
      holds, in every place that is left, the text that the list asked for last holds there; and the one
      asked for last is given out again as it is. */
  lemma SwitchingListsAgrees(s: Converter, us: seq<Use>, dup: multiset<Arg>)
    requires Inv(s, Nobody, dup) && AllAllowed(s, Nobody, us)
    ensures var r, last := ApplyAll(s, Nobody, us), AskedIn(Nobody, us);
            && (last.Narrow? ==> Texts(GetTchar(r).w) == Texts(r.c[..r.saved]) && GetTchar(r).c == r.c[..r.saved])
            && (last.Wide? ==> Texts(GetAscii(r).c) == Texts(r.w[..r.saved]) && GetAscii(r).w == r.w[..r.saved])
            && (last.Narrow? ==> GetAscii(r) == r) && (last.Wide? ==> GetTchar(r) == r)
            && (last.Nobody? ==> Texts(r.c) == Texts(r.w) && GetTchar(r).w == r.w && GetAscii(r).c == r.c)
  {
    RunInv(s, Nobody, us, dup);
    var r, last := ApplyAll(s, Nobody, us), AskedIn(Nobody, us);
    AlignWcharInv(r, last, dup);
    AlignCharInv(r, last, dup);
    hide ApplyAll; hide AllAllowed; hide AlignWchar; hide AlignChar;
  }

  /** Whatever is asked for and dropped in between, at the end every duplicate has been freed
      exactly once and nothing else has. */
  lemma EachDuplicateIsFreedOnce(s: Converter, us: seq<Use>, dup: multiset<Arg>)
    requires Inv(s, Nobody, dup) && AllAllowed(s, Nobody, us)
    ensures Destroy(ApplyAll(s, Nobody, us)) == dup
  {
    RunInv(s, Nobody, us, dup);
    var r, last := ApplyAll(s, Nobody, us), AskedIn(Nobody, us);
    AlignWcharInv(r, last, dup);
    AlignCharInv(r, last, dup);
    hide ApplyAll; hide AllAllowed; hide AlignWchar; hide AlignChar;
  }

  // ----- the object -----

  datatype Entry = Null | At(arg: Arg)

  class ArgvTypeConverter {
    var savedArgc: nat
    var beforePassArgc: nat
    const charArgv: array<Entry>
    const wcharArgv: array<Entry>
    const originalType: bool
    var wcharPassed: bool
    var charPassed: bool
    ghost var freed: multiset<Arg>

    /** Up to `beforePassArgc` both lists hold strings. */
    ghost predicate Valid()
      reads this, charArgv, wcharArgv
    {
      && charArgv != wcharArgv && savedArgc <= beforePassArgc <= charArgv.Length && beforePassArgc <= wcharArgv.Length
      && NoNull(charArgv[..beforePassArgc]) && NoNull(wcharArgv[..beforePassArgc])
    }

    ghost function State(): Converter
      requires Valid()
      reads this, charArgv, wcharArgv
    {
      Converter(Args(charArgv[..beforePassArgc]), Args(wcharArgv[..beforePassArgc]), savedArgc, originalType,
                wcharPassed, charPassed, freed)
    }

    /** `originals` is the caller's list and `copies` the strings that duplicating it gives. */
    constructor (argc: nat, originals: array<Entry>, copies: seq<Arg>, wide: bool)
      requires argc <= originals.Length && NoNull(originals[..argc]) && |copies| == argc
      requires Texts(copies) == Texts(Args(originals[..argc]))
      ensures Valid()
      ensures State() == Converter(
              if wide then copies else Args(originals[..argc]), if wide then Args(originals[..argc]) else copies,
                                   argc, wide, false, false, multiset{})
      ensures Inv(State(), Nobody, multiset(copies))
    {
      var dup := new Entry[argc + 1](_ => Null);
      for i := 0 to argc
        invariant forall j :: 0 <= j < i ==> dup[j] == At(copies[j])
      {
        dup[i] := At(copies[i]);
      }
      savedArgc, beforePassArgc, originalType := argc, argc, wide;
      charArgv := if wide then dup else originals;
      wcharArgv := if wide then originals else dup;
      wcharPassed, charPassed, freed := false, false, multiset{};
      assert Args(dup[..argc]) == copies;
    }

    method PlaceMatch(mine: array<Entry>, text: string, k: nat)
      requires Valid() && (mine == charArgv || mine == wcharArgv) && k < savedArgc
      modifies mine
      ensures Valid() && Args(mine[..beforePassArgc]) == old(Place(Args(mine[..beforePassArgc]), text, k))
    {
      ghost var m := Args(mine[..beforePassArgc]);
      if mine[k].arg.text != text {
        var i := k + 1;
        while i < beforePassArgc && mine[i].arg.text != text
          invariant k < i <= beforePassArgc && FirstFrom(m, text, i) == FirstFrom(m, text, k + 1)
        {
          assert m[i] == mine[i].arg;
          i := i + 1;
        }
        if i < beforePassArgc {
          assert m[i] == mine[i].arg;
          mine[k], mine[i] := mine[i], mine[k];
          assert Args(mine[..beforePassArgc]) == Swapped(m, k, i);
        }
      }
    }

    method AlignList(mine: array<Entry>, theirs: array<Entry>)
      requires Valid() && ((mine == charArgv && theirs == wcharArgv) || (mine == wcharArgv && theirs == charArgv))
      modifies mine
      ensures Valid()
      ensures Args(mine[..beforePassArgc]) ==
              old(Align(Args(mine[..beforePassArgc]), Texts(Args(theirs[..beforePassArgc])[..savedArgc]), 0))
    {
      hide Place;
      ghost var m, t := Args(mine[..beforePassArgc]), Texts(Args(theirs[..beforePassArgc])[..savedArgc]);
      for k := 0 to savedArgc
        invariant Valid() && theirs[..] == old(theirs[..])
        invariant Align(Args(mine[..beforePassArgc]), t, k) == Align(m, t, 0)
      {
        assert theirs[k] == theirs[..][k];
        PlaceMatch(mine, theirs[k].arg.text, k);
      }
    }

    /** Free the duplicates of dropped arguments. */
    method FreeDropped(dup: array<Entry>)
      requires Valid() && dup == if originalType then charArgv else wcharArgv
      modifies this`freed, dup
      ensures forall j :: 0 <= j < savedArgc ==> dup[j] == old(dup[j])
      ensures freed == old(freed) + multiset(old(Args(dup[..beforePassArgc])[savedArgc..]))
    {
      ghost var all := Args(dup[..beforePassArgc]);
      ghost var given := FreeEntries(dup, savedArgc, beforePassArgc, all);
      freed := freed + multiset(given);
    }

    /** The loop: every entry from `first` on is given back and forgotten. */
    static method FreeEntries(dup: array<Entry>, first: nat, end: nat, ghost all: seq<Arg>)
      returns (ghost given: seq<Arg>)
      requires first <= end == |all| && end <= dup.Length && forall j :: 0 <= j < end ==> dup[j] == At(all[j])
      modifies dup
      ensures forall j :: 0 <= j < first ==> dup[j] == old(dup[j])
      ensures given == all[first..]
    {
      given := [];
      for i := first to end
        invariant forall j :: 0 <= j < first ==> dup[j] == old(dup[j])
        invariant forall j :: i <= j < end ==> dup[j] == At(all[j])
        invariant given == all[first..i]
      {
        given := given + [dup[i].arg];
        dup[i] := Null;
      }
    }

    method CleanUp()
      requires Valid()
      modifies this`beforePassArgc, this`wcharPassed, this`charPassed, this`freed, charArgv, wcharArgv
      ensures Valid() && State() == Cleanup(old(State()))
    {
      hide Args; hide NoNull;
      ghost var c, w := charArgv[..], wcharArgv[..];
      FrontArgs(c, beforePassArgc, savedArgc);
      FrontArgs(w, beforePassArgc, savedArgc);
      FreeDropped(if originalType then charArgv else wcharArgv);
      SameFront(charArgv[..], c, savedArgc);
      SameFront(wcharArgv[..], w, savedArgc);
      beforePassArgc := savedArgc;
      wcharPassed, charPassed := false, false;
    }

    method AlignCharWithWchar()
      requires Valid()
      modifies this`beforePassArgc, this`wcharPassed, this`charPassed, this`freed, charArgv, wcharArgv
      ensures Valid() && State() == AlignChar(old(State()))
    {
      hide Align; hide Cleanup;
      AlignList(charArgv, wcharArgv);
      CleanUp();
    }

    method AlignWcharWithChar()
      requires Valid()
      modifies this`beforePassArgc, this`wcharPassed, this`charPassed, this`freed, charArgv, wcharArgv
      ensures Valid() && State() == AlignWchar(old(State()))
    {
      hide Align; hide Cleanup;
      AlignList(wcharArgv, charArgv);
      CleanUp();
    }

    method GetTcharArgv() returns (r: array<Entry>)
      requires Valid()
      modifies this`beforePassArgc, this`wcharPassed, this`charPassed, this`freed, charArgv, wcharArgv
      ensures Valid() && r == wcharArgv && State() == GetTchar(old(State()))
    {
      hide AlignWchar;
      if charPassed {
        AlignWcharWithChar();
      }
      wcharPassed := true;
      return wcharArgv;
    }

    method GetAsciiArgv() returns (r: array<Entry>)
      requires Valid()
      modifies this`beforePassArgc, this`wcharPassed, this`charPassed, this`freed, charArgv, wcharArgv
      ensures Valid() && r == charArgv && State() == GetAscii(old(State()))
    {
      hide AlignChar;
      if wcharPassed {
        AlignCharWithWchar();
      }
      charPassed := true;
      return charArgv;
    }

    /** The destructor. */
    method Dispose()
      requires Valid()
      modifies this`beforePassArgc, this`wcharPassed, this`charPassed, this`freed, charArgv, wcharArgv
      ensures freed == Destroy(old(State()))
    {
      hide AlignChar; hide AlignWchar;
      if originalType {
        if charPassed {
          AlignWcharWithChar();
        }
        FreeAll(charArgv);
      } else {
        if wcharPassed {
          AlignCharWithWchar();
        }
        FreeAll(wcharArgv);
      }
    }

    method FreeAll(dup: array<Entry>)
      requires Valid() && dup == if originalType then charArgv else wcharArgv
      modifies this`freed
      ensures freed == old(freed) + multiset(Args(dup[..beforePassArgc]))
    {
      ghost var all := Args(dup[..beforePassArgc]);
      NoneFreed(freed, all, 0);
      assert all[0..] == all;
      for i := 0 to beforePassArgc
        invariant freed == Freed(old(freed), all, 0, i)
      {
        OneFreed(old(freed), all, 0, i);
        freed := freed + multiset{dup[i].arg};
      }
    }
  }

  /** What is freed once the entries from `first` to `i` are. */
  ghost function Freed(before: multiset<Arg>, all: seq<Arg>, first: nat, i: nat): multiset<Arg>
    requires first <= i <= |all|
  {
    before + multiset(all[first..i])
  }

  lemma NoneFreed(before: multiset<Arg>, all: seq<Arg>, first: nat)
    requires first <= |all|
    ensures Freed(before, all, first, first) == before
    ensures Freed(before, all, first, |all|) == before + multiset(all[first..])
  {
    assert all[first..|all|] == all[first..];
  }

  lemma OneFreed(before: multiset<Arg>, all: seq<Arg>, first: nat, i: nat)
    requires first <= i < |all|
    ensures Freed(before, all, first, i + 1) == Freed(before, all, first, i) + multiset{all[i]}
  {
    assert all[first..i + 1] == all[first..i] + [all[i]];
  }

  predicate NoNull(s: seq<Entry>) { forall i :: 0 <= i < |s| ==> s[i].At? }

  function Args(s: seq<Entry>): (r: seq<Arg>)
    requires NoNull(s)
    ensures |r| == |s|
  {
    seq(|s|, i requires 0 <= i < |s| => s[i].arg)
  }

  lemma SameFront(s: seq<Entry>, t: seq<Entry>, k: nat)
    requires k <= |s| == |t| && forall j :: 0 <= j < k ==> s[j] == t[j]
    ensures s[..k] == t[..k]
  {
  }

  lemma FrontArgs(s: seq<Entry>, n: nat, k: nat)
    requires k <= n <= |s| && NoNull(s[..n])
    ensures NoNull(s[..k]) && Args(s[..k]) == Args(s[..n])[..k]
  {
  }
}
