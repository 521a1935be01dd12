/**
 The request target of libs/restinio/http_headers.hpp (section 3 of RFC 3986): kept with the
 positions of its two separators, which are found either at once or while it arrives piece
 by piece.
 */
module RequestTarget {
  import opened Sequences
  import opened Wrappers

  /** memchr_helper: the first occurrence of `ch`, or the size. */
  function IndexOf(s: string, ch: char): (k: nat)
    ensures k <= |s| && (k < |s| ==> s[k] == ch)
    ensures forall j :: 0 <= j < k ==> s[j] != ch
  {
    if s == [] || s[0] == ch then 0 else 1 + IndexOf(s[1..], ch)
  }

  datatype Separators = Separators(query: nat, fragment: nat)

  /** The fragment starts at the first "#", the query at the first "?" before it. */
  function Whole(s: string): (r: Separators)
    ensures r.query <= r.fragment <= |s|
  {
    var f := IndexOf(s, '#');
    Separators(IndexOf(s[..f], '?'), f)
  }

  class RequestHeader {
    var target: string
    var querySeparator: nat
    var fragmentSeparator: nat

    ghost predicate Valid()
      reads this
    {
      Separators(querySeparator, fragmentSeparator) == Whole(target)
    }

    constructor ()
      ensures Valid() && target == ""
    {
      target, querySeparator, fragmentSeparator := "", 0, 0;
    }

    method SetRequestTarget(t: string)
      modifies this
      ensures Valid() && target == t
    {
      target := t;
      fragmentSeparator := IndexOf(target, '#');
      querySeparator := IndexOf(target[..fragmentSeparator], '?');
    }

    /** Each piece is searched only for what has not been found yet, and only once. */
    method AppendRequestTarget(at: string)
      requires Valid()
      modifies this
      ensures Valid() && target == old(target) + at
    {
      AppendWhole(target, at);
      if |target| == fragmentSeparator {
        var increment := IndexOf(at, '#');
        fragmentSeparator := fragmentSeparator + increment;
        if |target| == querySeparator {
          querySeparator := querySeparator + IndexOf(at[..increment], '?');
        }
      }
      target := target + at;
    }

    function Path(): (r: string)
      requires Valid()
      reads this
      ensures r == PathOf(target)
    {
      target[..querySeparator]
    }

    /** None where the source returns a view of nothing, with no data at all. */
    function Query(): (r: Option<string>)
      requires Valid()
      reads this
      ensures r == QueryOf(target)
    {
      if fragmentSeparator == querySeparator then None else Some(target[querySeparator + 1..fragmentSeparator])
    }

    function Fragment(): (r: Option<string>)
      requires Valid()
      reads this
      ensures r == FragmentOf(target)
    {
      if |target| == fragmentSeparator then None else Some(target[fragmentSeparator + 1..])
    }
  }

  /** Feeding a target in pieces, however it is cut, ends in the same state as setting it whole. */
  method Feed(pieces: seq<string>) returns (h: RequestHeader)
    ensures h.target == Concat(pieces)
    ensures Separators(h.querySeparator, h.fragmentSeparator) == Whole(Concat(pieces))
  {
    h := new RequestHeader();
    for i := 0 to |pieces|
      invariant fresh(h) && h.Valid() && h.target == Concat(pieces[..i])
    {
      assert pieces[..i + 1] == pieces[..i] + [pieces[i]];
      ConcatSnoc(pieces[..i], pieces[i]);
      h.AppendRequestTarget(pieces[i]);
    }
    assert pieces[..|pieces|] == pieces;
  }

  lemma {:induction false} IndexOfAppend(a: string, b: string, ch: char)
    ensures IndexOf(a + b, ch) == if IndexOf(a, ch) < |a| then IndexOf(a, ch) else |a| + IndexOf(b, ch)
    decreases |a|
  {
    if a == "" {
      assert a + b == b;
    } else if a[0] != ch {
      assert (a + b)[1..] == a[1..] + b;
      IndexOfAppend(a[1..], b, ch);
    }
  }

  /** What one more piece does to the separators, in terms of the piece alone. */
  lemma {:induction false} AppendWhole(a: string, b: string)
    ensures var w, inc := Whole(a), IndexOf(b, '#');
            Whole(a + b) ==
            if w.fragment < |a| then w
            else if w.query < |a| then Separators(w.query, |a| + inc)
            else Separators(|a| + IndexOf(b[..inc], '?'), |a| + inc)
  {
    hide IndexOf;
    IndexOfAppend(a, b, '#');
    var f, inc := IndexOf(a, '#'), IndexOf(b, '#');
    if f < |a| {
      assert (a + b)[..f] == a[..f];
    } else {
      assert a[..f] == a;
      assert (a + b)[..f + inc] == a + b[..inc];
      IndexOfAppend(a, b[..inc], '?');
    }
  }

  /** What follows the separator at `k`; none, if `k` is the size: there is no separator then. */
  function After(s: string, k: nat): (r: Option<string>)
    requires k <= |s|
  {
    if k == |s| then None else Some(s[k + 1..])
  }

  function Head(s: string): (r: string) {
    s[..IndexOf(s, '#')]
  }

  function PathOf(s: string): (r: string) {
    Head(s)[..IndexOf(Head(s), '?')]
  }

  function QueryOf(s: string): (r: Option<string>) {
    After(Head(s), IndexOf(Head(s), '?'))
  }

  function FragmentOf(s: string): (r: Option<string>) {
    After(s, IndexOf(s, '#'))
  }

  function Prefixed(separator: char, part: Option<string>): (r: string) {
    if part.None? then "" else [separator] + part.value
  }

  function Assembled(path: string, query: Option<string>, fragment: Option<string>): (s: string) {
    path + Prefixed('?', query) + Prefixed('#', fragment)
  }

  /** Path, query and fragment with their separators are the target, and the separators are where they should be. */
  lemma {:induction false} PartsReassemble(s: string)
    ensures Assembled(PathOf(s), QueryOf(s), FragmentOf(s)) == s
    ensures '?' !in PathOf(s) && '#' !in PathOf(s)
    ensures QueryOf(s).Some? ==> '#' !in QueryOf(s).value
  {
    hide IndexOf, Prefixed, After;
    SplitAt(s, '#');
    SplitAt(Head(s), '?');
    assert '#' !in PathOf(s);
    QueryHasNoHash(s);
  }

  lemma {:induction false} QueryHasNoHash(s: string)
    ensures QueryOf(s).Some? ==> '#' !in QueryOf(s).value
  {
    hide IndexOf;
    assert '#' !in Head(s);
  }

  lemma {:induction false} SplitAt(s: string, ch: char)
    ensures ch !in s[..IndexOf(s, ch)]
    ensures s == s[..IndexOf(s, ch)] + Prefixed(ch, After(s, IndexOf(s, ch)))
  {
    hide IndexOf;
    var k := IndexOf(s, ch);
    assert s == s[..k] + s[k..];
    assert k < |s| ==> s[k..] == [ch] + s[k + 1..];
  }

  /** And the other way round: parts free of the separators that would cut them come back out of their assembly. */
  lemma {:induction false} AssemblySplits(path: string, query: Option<string>, fragment: Option<string>)
    requires '?' !in path && '#' !in path
    requires query.Some? ==> '#' !in query.value
    ensures var s := Assembled(path, query, fragment);
            PathOf(s) == path && QueryOf(s) == query && FragmentOf(s) == fragment
  {
    hide IndexOf;
    FirstAfter(path, '?', query);
    var head := path + Prefixed('?', query);
    FirstAfter(head, '#', fragment);
  }

  lemma {:induction false} FirstAfter(s: string, ch: char, part: Option<string>)
    requires ch !in s
    ensures var t := s + Prefixed(ch, part);
            IndexOf(t, ch) == |s| && t[..|s|] == s && After(t, |s|) == part
  {
    hide IndexOf;
    var t := s + Prefixed(ch, part);
    assert t[..|s|] == s;
    IndexIs(t, ch, |s|);
    assert part.Some? ==> t[|s| + 1..] == part.value;
  }

  lemma {:induction false} IndexIs(s: string, ch: char, k: nat)
    requires k <= |s| && (k < |s| ==> s[k] == ch)
    requires ch !in s[..k]
    ensures IndexOf(s, ch) == k
  {
    hide IndexOf;
    forall j | 0 <= j < k ensures s[j] != ch { assert s[j] == s[..k][j]; }
  }
}
