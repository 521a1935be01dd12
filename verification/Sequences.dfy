/** Concatenation of sequences of sequences. */
module Sequences {
  function Concat<T>(parts: seq<seq<T>>): (s: seq<T>) {
    if parts == [] then [] else parts[0] + Concat(parts[1..])
  }

  lemma {:induction false} ConcatAppend<T>(a: seq<seq<T>>, b: seq<seq<T>>)
    ensures Concat(a + b) == Concat(a) + Concat(b)
    decreases |a|
  {
    if a == [] {
      assert a + b == b;
    } else {
      assert (a + b)[1..] == a[1..] + b;
      ConcatAppend(a[1..], b);
    }
  }

  lemma {:induction false} ConcatSnoc<T>(parts: seq<seq<T>>, last: seq<T>)
    ensures Concat(parts + [last]) == Concat(parts) + last
  {
    ConcatAppend(parts, [last]);
    assert [last][1..] == [] && last + [] == last;
  }

  lemma {:induction false} ConcatPrefix<T>(parts: seq<seq<T>>, n: nat)
    requires n <= |parts|
    ensures Concat(parts[..n]) <= Concat(parts)
  {
    ConcatAppend(parts[..n], parts[n..]);
    assert parts[..n] + parts[n..] == parts;
  }

  lemma {:induction false} ConcatNothing<T>()
    ensures Concat<T>([]) == []
  {
  }

  /** Nothing comes of it exactly if there is nothing in any of them. */
  lemma {:induction false} ConcatIsEmpty<T>(parts: seq<seq<T>>)
    ensures Concat(parts) == [] <==> forall i :: 0 <= i < |parts| ==> parts[i] == []
  {
    if parts != [] {
      ConcatIsEmpty(parts[1..]);
      assert forall i :: 0 <= i < |parts| - 1 ==> parts[1..][i] == parts[i + 1];
      if parts[0] == [] && Concat(parts[1..]) == [] {
        forall i | 0 <= i < |parts| ensures parts[i] == [] {
          if i > 0 { assert parts[1..][i - 1] == []; }
        }
      }
    }
  }
}
