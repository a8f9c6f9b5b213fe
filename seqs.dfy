/**
 * Sequence facts shared by the URL extractor and the search client:
 * prefix tests (`startswith`), duplicate-freedom, and the order-preserving
 * de-duplication that both a `seen`-set loop and `list(dict.fromkeys(...))`
 * perform in Python.
 */
module Seqs {

  /** `s.startswith(p)`. */
  predicate StartsWith<T(==)>(s: seq<T>, p: seq<T>) {
    |p| <= |s| && s[..|p|] == p
  }

  /** No element occurs twice. */
  predicate NoDup<T(==)>(s: seq<T>) {
    forall k, l :: 0 <= k < l < |s| ==> s[k] != s[l]
  }

  /**
   * Order-preserving de-duplication: keep an element the first time it is
   * seen and drop every later copy. Defined from the back, the way a
   * left-to-right loop builds its output: the last element is appended
   * exactly when the de-duplicated prefix does not already hold it.
   */
  function Unique<T(==)>(s: seq<T>): seq<T>
  {
    if s == [] then []
    else
      var p := Unique(s[..|s| - 1]);
      if s[|s| - 1] in p then p else p + [s[|s| - 1]]
  }

  /** The position of the first occurrence of `x` in `s`. */
  function FirstIndex<T(==)>(s: seq<T>, x: T): (k: nat)
    requires x in s
    ensures k < |s| && s[k] == x
    ensures x !in s[..k]
  {
    if x in s[..|s| - 1] then FirstIndex(s[..|s| - 1], x)
    else |s| - 1
  }

  /** FirstIndex is unaffected by what follows the first occurrence. */
  lemma {:induction false} FirstIndexPrefix<T>(s: seq<T>, t: seq<T>, x: T)
    requires x in s
    ensures x in s + t && FirstIndex(s + t, x) == FirstIndex(s, x)
  {
    var k := FirstIndex(s, x);
    assert (s + t)[k] == x;
    assert (s + t)[..k] == s[..k];
  }

  /** The de-duplicated sequence holds exactly the elements of the input. */
  lemma {:induction false} UniqueElements<T>(s: seq<T>)
    ensures forall x :: x in Unique(s) <==> x in s
  {
    if s != [] {
      var p := s[..|s| - 1];
      UniqueElements(p);
      assert s == p + [s[|s| - 1]];
    }
  }

  /** The de-duplicated sequence holds no element twice. */
  lemma {:induction false} UniqueNoDup<T>(s: seq<T>)
    ensures NoDup(Unique(s))
  {
    if s != [] {
      UniqueNoDup(s[..|s| - 1]);
    }
  }

  /**
   * The de-duplicated sequence lists the elements in the order of their
   * first occurrence in the input.
   */
  lemma {:induction false} UniqueFirstOccurrenceOrder<T>(s: seq<T>)
    ensures forall x :: x in Unique(s) ==> x in s
    ensures forall k, l :: 0 <= k < l < |Unique(s)| ==>
      FirstIndex(s, Unique(s)[k]) < FirstIndex(s, Unique(s)[l])
  {
    UniqueElements(s);
    if s != [] {
      var p, y := s[..|s| - 1], s[|s| - 1];
      assert s == p + [y];
      UniqueFirstOccurrenceOrder(p);
      UniqueElements(p);
      var r := Unique(s);
      forall k, l | 0 <= k < l < |r|
        ensures FirstIndex(s, r[k]) < FirstIndex(s, r[l])
      {
        FirstIndexPrefix(p, [y], r[k]);
        if l < |Unique(p)| {
          FirstIndexPrefix(p, [y], r[l]);
        } else {
          assert r[l] == y && y !in p;
        }
      }
    }
  }

  /** A sequence without duplicates is its own de-duplication. */
  lemma {:induction false} UniqueOfNoDup<T>(s: seq<T>)
    requires NoDup(s)
    ensures Unique(s) == s
  {
    if s != [] {
      var p := s[..|s| - 1];
      UniqueOfNoDup(p);
      assert s == p + [s[|s| - 1]];
    }
  }

  /**
   * De-duplicating `a + b` starts with the de-duplication of `a`, and every
   * element after that prefix is one that does not occur in `a`.
   */
  lemma {:induction false} UniqueAppend<T>(a: seq<T>, b: seq<T>)
    ensures StartsWith(Unique(a + b), Unique(a))
    ensures forall k :: |Unique(a)| <= k < |Unique(a + b)| ==> Unique(a + b)[k] !in a
  {
    if b == [] {
      assert a + b == a;
    } else {
      var b', y := b[..|b| - 1], b[|b| - 1];
      UniqueAppend(a, b');
      assert (a + b)[..|a + b| - 1] == a + b';
      assert (a + b)[|a + b| - 1] == y;
      var p := Unique(a + b');
      if y !in p {
        UniqueElements(a + b');
        assert y !in a;
        assert (p + [y])[..|Unique(a)|] == p[..|Unique(a)|];
      }
    }
  }
}
