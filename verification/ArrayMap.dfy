/** `ACE_Array_Map`: a map kept as an unsorted array of pairs.  An erased element is replaced by the
    last one. */
module ArrayMaps {

  type Items<K, V> = seq<(K, V)>

  predicate Unique<K(==), V>(s: Items<K, V>)
  {
    forall i, j :: 0 <= i < j < |s| ==> s[i].0 != s[j].0
  }

  /** The position of the first element with key `k`, or the length. */
  function Position<K(==), V>(s: Items<K, V>, k: K): (r: nat)
    ensures r <= |s| && (r < |s| ==> s[r].0 == k) && forall i :: 0 <= i < r ==> s[i].0 != k
  {
    if s == [] || s[0].0 == k then 0 else 1 + Position(s[1..], k)
  }

  ghost function Keys<K, V>(s: Items<K, V>): set<K> { set p | p in s :: p.0 }

  /** The finite map that the elements stand for: what `find` finds. */
  ghost function AsMap<K, V>(s: Items<K, V>): map<K, V>
  {
    map k | k in Keys(s) :: Lookup(s, k)
  }

  ghost function Lookup<K, V>(s: Items<K, V>, k: K): V
    requires k in Keys(s)
  {
    s[Position(s, k)].1
  }

  ghost predicate Represents<K, V>(s: Items<K, V>, m: map<K, V>)
  {
    (forall p <- s :: p.0 in m && m[p.0] == p.1) && (forall k <- m :: (k, m[k]) in s)
  }

  lemma AsMapRepresents<K, V>(s: Items<K, V>)
    requires Unique(s)
    ensures Represents(s, AsMap(s))
  {
    var m := AsMap(s);
    forall p | p in s ensures p.0 in m && m[p.0] == p.1 {
      var i :| 0 <= i < |s| && s[i] == p;
      assert p.0 in Keys(s) && s[Position(s, p.0)].0 == s[i].0;
    }
    forall k | k in m ensures (k, m[k]) in s {
      assert s[Position(s, k)] == (k, m[k]);
    }
  }

  lemma OneMap<K, V>(s: Items<K, V>, m: map<K, V>)
    requires Unique(s) && Represents(s, m)
    ensures AsMap(s) == m
  {
    AsMapRepresents(s);
    var n := AsMap(s);
    forall k | k in n ensures k in m && m[k] == n[k] { assert (k, n[k]) in s; }
    forall k | k in m ensures k in n { assert (k, m[k]) in s; }
  }

  lemma InsertNew<K, V>(s: Items<K, V>, x: (K, V))
    requires Unique(s) && Position(s, x.0) == |s|
    ensures Unique(s + [x]) && AsMap(s + [x]) == AsMap(s)[x.0 := x.1] && x.0 !in AsMap(s)
  {
    hide AsMap;
    AsMapRepresents(s);
    var t, m := s + [x], AsMap(s)[x.0 := x.1];
    assert x.0 !in AsMap(s);
    forall p | p in t ensures p.0 in m && m[p.0] == p.1 {
      assert p in s || p == x;
    }
    forall k | k in m ensures (k, m[k]) in t {
      assert k == x.0 || (k, m[k]) in s;
      assert t[|s|] == x;
    }
    OneMap(t, m);
  }

  // ----- erasing one element -----

  function EraseAt<K, V>(s: Items<K, V>, i: nat): Items<K, V>
  {
    if i >= |s| then s else if i == |s| - 1 then s[..i] else s[i := s[|s| - 1]][..|s| - 1]
  }

  /** Exactly that element goes. */
  lemma EraseAtRemoves<K, V>(s: Items<K, V>, i: nat)
    requires i < |s|
    ensures multiset(EraseAt(s, i)) == multiset(s) - multiset{s[i]}
  {
    var last := |s| - 1;
    assert s == s[..last] + [s[last]];
    if i != last {
      var t := s[i := s[last]];
      assert multiset(t) == multiset(s) - multiset{s[i]} + multiset{s[last]};
      assert t == t[..last] + [s[last]];
    }
  }

  lemma EraseAtPairs<K, V>(s: Items<K, V>, i: nat, p: (K, V))
    requires Unique(s) && i < |s|
    ensures p in EraseAt(s, i) <==> p in s && p != s[i]
  {
    var t := EraseAt(s, i);
    if p in s && p != s[i] {
      var j :| 0 <= j < |s| && s[j] == p;
      assert t[if j == |s| - 1 then i else j] == p;
    }
    if p in t {
      var j :| 0 <= j < |t| && t[j] == p;
      assert s[if j == i then |s| - 1 else j] == p;
    }
  }

  lemma EraseAtKeepsMap<K, V>(s: Items<K, V>, i: nat)
    requires Unique(s) && i < |s|
    ensures Unique(EraseAt(s, i)) && AsMap(EraseAt(s, i)) == AsMap(s) - {s[i].0}
  {
    hide AsMap;
    var t, m := EraseAt(s, i), AsMap(s) - {s[i].0};
    AsMapRepresents(s);
    forall p | p in t ensures p.0 in m && m[p.0] == p.1 {
      EraseAtPairs(s, i, p);
      assert s[i] in s;
    }
    forall k | k in m ensures (k, m[k]) in t {
      EraseAtPairs(s, i, (k, m[k]));
      assert s[i] in s;
    }
    OneMap(t, m);
  }

  // ----- erasing a range -----

  /** One element after the other, the positions counted in what is left. */
  function EraseSteps<K, V>(s: Items<K, V>, i: nat, last: nat): Items<K, V>
    requires i <= last
    decreases last - i
  {
    if i == last then s else EraseSteps(EraseAt(s, i), i + 1, last)
  }

  function EraseRange<K, V>(s: Items<K, V>, first: nat, last: nat): Items<K, V>
  {
    if first < last < |s| then EraseSteps(s, first, last) else s
  }

  /** With enough elements behind the range, exactly the range goes: after each step the rest of the
      range is where it was. */
  lemma {:induction false} EnoughBehind<K, V>(s: Items<K, V>, i: nat, last: nat)
    requires i <= last <= |s| && last - i <= |s| - last + 1
    ensures multiset(EraseSteps(s, i, last)) == multiset(s) - multiset(s[i..last])
    decreases last - i
  {
    if i < last {
      var t := EraseAt(s, i);
      EraseAtKeepsRest(s, i, last);
      EraseAtRemoves(s, i);
      hide EraseAt;
      RangeMinusFirst(s, i, last);
      if last == |s| {
        assert s[i + 1..last] == [];
        EraseStepsNothing(t, i + 1, last);
      } else {
        EnoughBehind(t, i + 1, last);
      }
    }
  }

  lemma RangeMinusFirst<K, V>(s: Items<K, V>, i: nat, last: nat)
    requires i < last <= |s|
    ensures multiset(s) - multiset(s[i..last]) == multiset(s) - multiset{s[i]} - multiset(s[i + 1..last])
  {
    assert s[i..last] == [s[i]] + s[i + 1..last];
  }

  lemma EraseAtKeepsRest<K, V>(s: Items<K, V>, i: nat, last: nat)
    requires i < last <= |s|
    ensures |EraseAt(s, i)| == |s| - 1 && (last < |s| ==> EraseAt(s, i)[i + 1..last] == s[i + 1..last])
  {
  }

  lemma {:induction false} EraseStepsNothing<K, V>(s: Items<K, V>, i: nat, last: nat)
    requires |s| <= i <= last
    ensures EraseSteps(s, i, last) == s
    decreases last - i
  {
    if i < last { EraseStepsNothing(s, i + 1, last); }
  }

  /** The steps take one element each until they meet the shrinking end. */
  lemma {:induction false} StepsLeft<K, V>(s: Items<K, V>, i: nat, last: nat)
    requires i <= last
    ensures |EraseSteps(s, i, last)| ==
            if i >= |s| then |s| else if 2 * (last - i) <= |s| - i then |s| - (last - i) else i + (|s| - i) / 2
    decreases last - i
  {
    if i < last { StepsLeft(EraseAt(s, i), i + 1, last); }
  }

  /** Erasing a range removes exactly its elements just when the range is empty, or it ends before
      the last element and at least all but one of its elements have one behind the range
      to take their place.  A range up to the end stays. */
  lemma EraseRangeIff<K, V>(s: Items<K, V>, first: nat, last: nat)
    requires first <= last <= |s|
    ensures multiset(EraseRange(s, first, last)) == multiset(s) - multiset(s[first..last])
       <==> first == last || (last < |s| && last - first <= |s| - last + 1)
    ensures multiset(EraseRange(s, first, last)) <= multiset(s)
    ensures first == last || last == |s| ==> EraseRange(s, first, last) == s
    ensures first < last < |s| ==>
              |EraseRange(s, first, last)|
              == if 2 * (last - first) <= |s| - first then |s| - (last - first) else first + (|s| - first) / 2
  {
    NothingNew(s, first, last);
    StepsLeft(s, first, last);
    var m := multiset(s) - multiset(s[first..last]);
    RangeSize(s, first, last);
    if first == last {
    } else if last == |s| {
      assert |multiset(s)| != |m|;
    } else if last - first <= |s| - last + 1 {
      EnoughBehind(s, first, last);
    } else {
      StepsLeft(s, first, last);
      assert |EraseSteps(s, first, last)| != |s| - (last - first);
    }
  }

  lemma {:induction false} NothingNew<K, V>(s: Items<K, V>, i: nat, last: nat)
    requires i <= last
    ensures multiset(EraseSteps(s, i, last)) <= multiset(s)
    decreases last - i
  {
    if i < last {
      if i < |s| { EraseAtRemoves(s, i); }
      NothingNew(EraseAt(s, i), i + 1, last);
    }
  }

  lemma RangeSize<K, V>(s: Items<K, V>, first: nat, last: nat)
    requires first <= last <= |s|
    ensures |multiset(s) - multiset(s[first..last])| == |s| - (last - first)
  {
    assert s == s[..first] + s[first..last] + s[last..];
    assert multiset(s) == multiset(s[..first]) + multiset(s[first..last]) + multiset(s[last..]);
    assert multiset(s) - multiset(s[first..last]) == multiset(s[..first]) + multiset(s[last..]);
  }

  // ----- inserting several -----

  /** Only keys that are not there yet. */
  function InsertAll<K(==), V>(s: Items<K, V>, xs: Items<K, V>): Items<K, V>
    decreases xs
  {
    if xs == [] then s else InsertAll(if Position(s, xs[0].0) < |s| then s else s + [xs[0]], xs[1..])
  }

  lemma InsertOne<K, V>(s: Items<K, V>, x: (K, V))
    ensures InsertAll(s, [x]) == if Position(s, x.0) < |s| then s else s + [x]
  {
    assert [x][1..] == [];
  }

  /** What is there stays; of several new elements with one key the first counts. */
  lemma {:induction false} InsertAllMerges<K, V>(s: Items<K, V>, xs: Items<K, V>)
    requires Unique(s)
    ensures Unique(InsertAll(s, xs)) && AsMap(InsertAll(s, xs)) == AsMap(xs) + AsMap(s)
    decreases xs
  {
    hide AsMap;
    if xs == [] {
      NoElements<K, V>();
      assert AsMap<K, V>([]) + AsMap(s) == AsMap(s);
    } else {
      var t := if Position(s, xs[0].0) < |s| then s else s + [xs[0]];
      FirstElement(xs);
      KeyIn(s, xs[0].0);
      if Position(s, xs[0].0) == |s| { InsertNew(s, xs[0]); }
      InsertAllMerges(t, xs[1..]);
    }
  }

  lemma NoElements<K, V>()
    ensures AsMap<K, V>([]) == map[]
  {
  }

  lemma KeyIn<K, V>(s: Items<K, V>, k: K)
    ensures k in AsMap(s) <==> Position(s, k) < |s|
  {
  }

  lemma FirstElement<K, V>(xs: Items<K, V>)
    requires xs != []
    ensures AsMap(xs) == AsMap(xs[1..])[xs[0].0 := xs[0].1]
  {
    var m, n := AsMap(xs), AsMap(xs[1..])[xs[0].0 := xs[0].1];
    forall k ensures k in m <==> k in n {
      KeyIn(xs, k);
      KeyIn(xs[1..], k);
    }
    forall k | k in m ensures m[k] == n[k] {
    }
  }

  // ----- the object -----

  class ArrayMap<K(==), V> {
    var size: nat
    var capacity: nat
    var nodes: array<(K, V)>
    const blank: (K, V)

    ghost predicate Valid()
      reads this, nodes
    {
      size <= capacity == nodes.Length && Unique(nodes[..size])
    }

    function Elements(): Items<K, V>
      requires size <= nodes.Length
      reads this, nodes
    {
      nodes[..size]
    }

    /** `blank` is the default-constructed pair. */
    constructor (s: nat, blank: (K, V))
      ensures Valid() && Elements() == [] && capacity == s && this.blank == blank && fresh(nodes)
    {
      this.blank := blank;
      size, capacity := 0, s;
      nodes := new (K, V)[s](_ => blank);
    }

    method Find(k: K) returns (i: nat)
      requires Valid()
      ensures i == Position(Elements(), k)
      ensures i < size <==> k in AsMap(Elements())
      ensures i < size ==> AsMap(Elements())[k] == nodes[i].1
    {
      i := 0;
      KeyIn(Elements(), k);
      assert nodes[0..size] == Elements();
      while i != size
        invariant i <= size && Position(Elements(), k) == i + Position(nodes[i..size], k)
      {
        if nodes[i].0 == k {
          return;
        }
        assert nodes[i..size][1..] == nodes[i + 1..size];
        i := i + 1;
      }
    }

    method Grow(s: nat)
      requires Valid()
      modifies this`capacity, this`nodes
      ensures Valid() && Elements() == old(Elements()) && capacity >= size + s
      ensures capacity == if size + s > old(capacity) then size + s else old(capacity)
      ensures nodes == old(nodes) || fresh(nodes)
    {
      if size + s > capacity {
        var temp := new (K, V)[size + s](_ => blank);
        for i := 0 to size
          invariant nodes == old(nodes) && nodes[..] == old(nodes[..]) && size == old(size) && capacity == old(capacity)
          invariant temp[..i] == nodes[..i]
        {
          temp[i] := nodes[i];
        }
        capacity := size + s;
        nodes := temp;
      }
    }

    /** A key that is there keeps its value. */
    method Insert(x: (K, V)) returns (i: nat, inserted: bool)
      requires Valid()
      modifies this, nodes
      ensures Valid() && (nodes == old(nodes) || fresh(nodes))
      ensures Elements() == InsertAll(old(Elements()), [x])
      ensures inserted <==> x.0 !in AsMap(old(Elements()))
      ensures AsMap(Elements()) == if inserted then AsMap(old(Elements()))[x.0 := x.1] else AsMap(old(Elements()))
      ensures i < size && nodes[i].0 == x.0
    {
      hide AsMap; hide InsertAll;
      i := Find(x.0);
      inserted := false;
      ghost var s := Elements();
      InsertOne(s, x);
      if i == size {
        InsertNew(s, x);
        var oldSize := size;
        Grow(1);
        i := oldSize;
        nodes[i] := x;
        size := size + 1;
        assert Elements() == s + [x];
        inserted := true;
      }
    }

    method InsertRange(xs: Items<K, V>)
      requires Valid()
      modifies this, nodes
      ensures Valid() && (nodes == old(nodes) || fresh(nodes))
      ensures AsMap(Elements()) == AsMap(xs) + AsMap(old(Elements()))
    {
      Grow(|xs|);
      InsertAllMerges(Elements(), xs);
      for i := 0 to |xs|
        invariant Valid() && (nodes == old(nodes) || fresh(nodes))
        invariant InsertAll(Elements(), xs[i..]) == InsertAll(old(Elements()), xs)
      {
        ghost var s := Elements();
        assert xs[i..][1..] == xs[i + 1..];
        InsertOne(s, xs[i]);
        var _, _ := Insert(xs[i]);
      }
    }

    method EraseAtPosition(pos: nat)
      requires Valid()
      modifies this`size, nodes
      ensures Valid() && Elements() == EraseAt(old(Elements()), pos)
      ensures AsMap(Elements()) ==
              if pos < old(size) then AsMap(old(Elements())) - {old(nodes[..])[pos].0} else AsMap(old(Elements()))
    {
      hide AsMap; hide Unique;
      ghost var s := Elements();
      if pos < size {
        EraseAtKeepsMap(s, pos);
        if pos != size - 1 {
          nodes[pos] := nodes[size - 1];
        }
        nodes[size - 1] := blank;
        size := size - 1;
        assert Elements() == EraseAt(s, pos);
      }
    }

    method EraseKey(k: K) returns (n: nat)
      requires Valid()
      modifies this`size, nodes
      ensures Valid() && AsMap(Elements()) == AsMap(old(Elements())) - {k}
      ensures n == if k in AsMap(old(Elements())) then 1 else 0
      ensures size == old(size) - n
    {
      var pos := Find(k);
      var oldSize := size;
      EraseAtPosition(pos);
      return oldSize - size;
    }

    method EraseBetween(first: nat, last: nat)
      requires Valid()
      modifies this`size, nodes
      ensures Valid() && Elements() == EraseRange(old(Elements()), first, last)
      ensures first <= last <= old(size) ==>
                (multiset(Elements()) == multiset(old(Elements())) - multiset(old(Elements())[first..last])
                 <==> first == last || (last < old(size) && last - first <= old(size) - last + 1))
    {
      hide AsMap; hide EraseAt; hide Unique;
      ghost var s := Elements();
      if first <= last <= size { EraseRangeIff(s, first, last); }
      if first < last && last < size {
        var i := first;
        while i != last
          invariant first <= i <= last && Valid()
          invariant EraseSteps(Elements(), i, last) == EraseSteps(s, first, last)
          decreases last - i
        {
          EraseAtPosition(i);
          i := i + 1;
        }
      }
    }

    method Clear()
      requires Valid()
      modifies this`size
      ensures Valid() && Elements() == [] && AsMap(Elements()) == map[] && capacity == old(capacity)
    {
      size := 0;
    }

    method Swap(other: ArrayMap<K, V>)
      requires Valid() && other.Valid()
      modifies this`size, this`capacity, this`nodes, other`size, other`capacity, other`nodes
      ensures Valid() && other.Valid()
      ensures Elements() == old(other.Elements()) && other.Elements() == old(Elements())
      ensures capacity == old(other.capacity) && other.capacity == old(capacity)
    {
      size, other.size := other.size, size;
      capacity, other.capacity := other.capacity, capacity;
      nodes, other.nodes := other.nodes, nodes;
    }

    method Count(k: K) returns (n: nat)
      requires Valid()
      ensures n == if k in AsMap(Elements()) then 1 else 0
    {
      var i := Find(k);
      return if i == size then 0 else 1;
    }

    /** Indexing: a missing key is added with the default value. */
    method At(k: K) returns (i: nat)
      requires Valid()
      modifies this, nodes
      ensures Valid() && (nodes == old(nodes) || fresh(nodes))
      ensures i < size && nodes[i].0 == k
      ensures AsMap(Elements()) ==
              if k in AsMap(old(Elements())) then AsMap(old(Elements())) else AsMap(old(Elements()))[k := blank.1]
    {
      var inserted;
      i, inserted := Insert((k, blank.1));
    }
  }
}
