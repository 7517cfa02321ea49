/** Sequences of sequences, and sequences up to a mark. */
module Sequences {

  function Flatten<T>(parts: seq<seq<T>>): seq<T>
  {
    if parts == [] then [] else parts[0] + Flatten(parts[1..])
  }

  lemma {:induction false} FlattenConcat<T>(a: seq<seq<T>>, b: seq<seq<T>>)
    ensures Flatten(a + b) == Flatten(a) + Flatten(b)
  {
    if a == [] {
      assert a + b == b;
    } else {
      assert (a + b)[1..] == a[1..] + b;
      FlattenConcat(a[1..], b);
    }
  }

  lemma FlattenFirst<T>(part: seq<T>, rest: seq<seq<T>>)
    ensures Flatten([part] + rest) == part + Flatten(rest) && Flatten([part]) == part
  {
    assert ([part] + rest)[1..] == rest && [part][1..] == [];
  }

  /** What comes before the first `stop`; a C string is the bytes before its first NUL. */
  function UpTo<T(==)>(s: seq<T>, stop: T): seq<T>
  {
    if s == [] || s[0] == stop then [] else [s[0]] + UpTo(s[1..], stop)
  }

  lemma {:induction false} UpToIs<T>(s: seq<T>, stop: T, p: nat)
    requires p < |s| && s[p] == stop && forall i :: 0 <= i < p ==> s[i] != stop
    ensures UpTo(s, stop) == s[..p]
  {
    if p > 0 {
      UpToIs(s[1..], stop, p - 1);
      assert s[..p] == [s[0]] + s[1..][..p - 1];
    }
  }
}
