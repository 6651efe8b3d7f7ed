/**
 * Small facts about sequences used throughout the model: distinctness,
 * a sequence that lists a set exactly once (the shape `Array.from(aSet)`
 * produces), and the filter of a sequence by a set.
 */
module Sequences {

  /** No element occurs twice. */
  ghost predicate Distinct<T>(s: seq<T>) {
    forall i, j :: 0 <= i < j < |s| ==> s[i] != s[j]
  }

  /** `s` lists every element of `elements` exactly once (in some order). */
  ghost predicate Enumerates<T(!new)>(s: seq<T>, elements: set<T>) {
    Distinct(s) && forall x :: x in s <==> x in elements
  }

  lemma DistinctPrepend<T>(x: T, s: seq<T>)
    requires Distinct(s) && x !in s
    ensures Distinct([x] + s)
  {
    forall i, j | 0 <= i < j < |[x] + s|
      ensures ([x] + s)[i] != ([x] + s)[j]
    {
      if i == 0 {
        assert ([x] + s)[j] == s[j - 1];
      } else {
        assert ([x] + s)[i] == s[i - 1] && ([x] + s)[j] == s[j - 1];
      }
    }
  }

  lemma DistinctAppend<T>(s: seq<T>, x: T)
    requires Distinct(s) && x !in s
    ensures Distinct(s + [x])
  {
    forall i, j | 0 <= i < j < |s + [x]|
      ensures (s + [x])[i] != (s + [x])[j]
    {
      assert (s + [x])[i] == s[i];
      if j < |s| {
        assert (s + [x])[j] == s[j];
      }
    }
  }

  /** Dropping the last element keeps a sequence distinct, and that element is not among the rest. */
  lemma DistinctInit<T>(s: seq<T>)
    requires Distinct(s) && s != []
    ensures Distinct(s[..|s| - 1]) && s[|s| - 1] !in s[..|s| - 1]
  {
  }

  /** Visiting one more element extends the enumeration of the visited set. */
  lemma EnumeratesAppend<T(!new)>(s: seq<T>, elements: set<T>, x: T)
    requires Enumerates(s, elements) && x !in elements
    ensures Enumerates(s + [x], elements + {x})
  {
    DistinctAppend(s, x);
  }

  /** `Array.from(aSet)`: the elements of a set, each once, in an order the set chooses. */
  method ToSeq<T(!new)>(elements: set<T>) returns (s: seq<T>)
    ensures Enumerates(s, elements)
  {
    var rest := elements;
    s := [];
    while rest != {}
      invariant rest <= elements
      invariant Enumerates(s, elements - rest)
      decreases rest
    {
      var x :| x in rest;
      EnumeratesAppend(s, elements - rest, x);
      s := s + [x];
      rest := rest - {x};
    }
  }

  /** A sequence that enumerates a set is exactly as long as the set is large. */
  lemma {:induction false} EnumerationSize<T(!new)>(s: seq<T>, elements: set<T>)
    requires Enumerates(s, elements)
    ensures |s| == |elements|
  {
    if s != [] {
      var last := s[|s| - 1];
      var init := s[..|s| - 1];
      assert s == init + [last];
      assert Enumerates(init, elements - {last});
      EnumerationSize(init, elements - {last});
    }
  }

  /** The elements of `s` that belong to `keep`, in their order in `s`. */
  function Restrict<T(!new)>(s: seq<T>, keep: set<T>): (r: seq<T>)
    ensures forall x :: x in r <==> x in s && x in keep
    ensures |r| <= |s|
    ensures Distinct(s) ==> Distinct(r)
  {
    if s == [] then []
    else if s[0] in keep then
      var tail := Restrict(s[1..], keep);
      assert Distinct(s) ==> Distinct([s[0]] + tail) by {
        if Distinct(s) {
          DistinctPrepend(s[0], tail);
        }
      }
      [s[0]] + tail
    else
      Restrict(s[1..], keep)
  }

  /** Restricting twice, the second time to fewer elements, is restricting once. */
  lemma {:induction false} RestrictTwice<T(!new)>(s: seq<T>, a: set<T>, b: set<T>)
    requires b <= a
    ensures Restrict(Restrict(s, a), b) == Restrict(s, b)
  {
    if s != [] {
      RestrictTwice(s[1..], a, b);
      if s[0] in a {
        assert Restrict(s, a) == [s[0]] + Restrict(s[1..], a);
        assert ([s[0]] + Restrict(s[1..], a))[1..] == Restrict(s[1..], a);
      }
    }
  }

  /** Restricting a sequence with one more element at the end. */
  lemma {:induction false} RestrictAppend<T(!new)>(s: seq<T>, x: T, keep: set<T>)
    ensures Restrict(s + [x], keep) == Restrict(s, keep) + (if x in keep then [x] else [])
  {
    if s == [] {
      assert [x][1..] == [];
    } else {
      RestrictAppend(s[1..], x, keep);
      assert (s + [x])[1..] == s[1..] + [x];
    }
  }

  /** Restricting a sequence to a set that holds all its elements changes nothing. */
  lemma {:induction false} RestrictToAll<T(!new)>(s: seq<T>, keep: set<T>)
    requires forall x :: x in s ==> x in keep
    ensures Restrict(s, keep) == s
  {
    if s != [] {
      RestrictToAll(s[1..], keep);
      assert s == [s[0]] + s[1..];
    }
  }
}
