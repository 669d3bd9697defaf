/** Order-preserving de-duplication: keep each value where it first occurs.
    This is `uniq` in the refiner and the key order of a dict built from a
    list of records. */
module Distinct {

  predicate NoDuplicates<T(==)>(s: seq<T>)
  {
    forall i, j :: 0 <= i < j < |s| ==> s[i] != s[j]
  }

  /** The position where `x` first occurs in `s`. */
  function FirstIndex<T(==)>(s: seq<T>, x: T): (k: nat)
    requires x in s
    ensures k < |s| && s[k] == x
    ensures forall i :: 0 <= i < k ==> s[i] != x
  {
    if s[0] == x then 0 else 1 + FirstIndex(s[1..], x)
  }

  /** Scan left to right, appending each value not kept yet. */
  function Dedup<T(==)>(s: seq<T>): (r: seq<T>)
    ensures forall i :: 0 <= i < |r| ==> r[i] in s
  {
    if s == [] then []
    else
      var p := s[..|s| - 1];
      var d := Dedup(p);
      assert forall x :: x in p ==> x in s;
      if s[|s| - 1] in d then d else d + [s[|s| - 1]]
  }

  /** What de-duplication promises: no repeats, every value kept, nothing invented. */
  lemma {:induction false} DedupSpec<T>(s: seq<T>)
    ensures NoDuplicates(Dedup(s))
    ensures forall i :: 0 <= i < |s| ==> s[i] in Dedup(s)
    ensures |Dedup(s)| <= |s|
  {
    if s != [] {
      var p := s[..|s| - 1];
      DedupSpec(p);
      assert forall i :: 0 <= i < |s| - 1 ==> s[i] == p[i];
    }
  }

  lemma {:induction false} FirstIndexAppend<T>(s: seq<T>, y: T, x: T)
    requires x in s
    ensures FirstIndex(s + [y], x) == FirstIndex(s, x)
  {
    if s[0] != x {
      assert (s + [y])[1..] == s[1..] + [y];
      FirstIndexAppend(s[1..], y, x);
    }
  }

  /** The kept values appear in the order of their first occurrences. */
  lemma {:induction false} DedupKeepsFirstOccurrenceOrder<T>(s: seq<T>)
    ensures forall i, j :: 0 <= i < j < |Dedup(s)| ==> FirstIndex(s, Dedup(s)[i]) < FirstIndex(s, Dedup(s)[j])
  {
    if s != [] {
      var p, y := s[..|s| - 1], s[|s| - 1];
      assert s == p + [y];
      DedupKeepsFirstOccurrenceOrder(p);
      DedupSpec(p);
      var d := Dedup(p);
      forall x | x in p
        ensures FirstIndex(s, x) == FirstIndex(p, x)
      {
        FirstIndexAppend(p, y, x);
      }
      if y in d {
        assert Dedup(s) == d;
      } else {
        assert Dedup(s) == d + [y];
        assert y !in p;
        assert FirstIndex(s, y) == |p|;
      }
    }
  }

  /** Nothing is dropped from a sequence that has no repeats. */
  lemma {:induction false} DedupOfDistinct<T>(s: seq<T>)
    requires NoDuplicates(s)
    ensures Dedup(s) == s
  {
    if s != [] {
      var p := s[..|s| - 1];
      DedupOfDistinct(p);
      assert s[|s| - 1] !in p;
    }
  }

  /** The result is exactly as long as the input when, and only when, nothing repeats. */
  lemma DedupLength<T>(s: seq<T>)
    ensures |Dedup(s)| == |s| <==> NoDuplicates(s)
  {
    if NoDuplicates(s) {
      DedupOfDistinct(s);
    }
    if |Dedup(s)| == |s| {
      DedupFullIsDistinct(s);
    }
  }

  lemma {:induction false} DedupFullIsDistinct<T>(s: seq<T>)
    requires |Dedup(s)| == |s|
    ensures NoDuplicates(s)
  {
    if s != [] {
      var p, y := s[..|s| - 1], s[|s| - 1];
      assert s == p + [y];
      DedupSpec(p);
      assert y !in Dedup(p);
      DedupFullIsDistinct(p);
      assert y !in p;
    }
  }

  /** Appending more values only extends what was kept before. */
  lemma {:induction false} DedupPrefix<T>(a: seq<T>, b: seq<T>)
    ensures |Dedup(a)| <= |Dedup(a + b)| && Dedup(a + b)[..|Dedup(a)|] == Dedup(a)
  {
    if b == [] {
      assert a + b == a;
    } else {
      var b', y := b[..|b| - 1], b[|b| - 1];
      assert (a + b)[..|a + b| - 1] == a + b';
      DedupPrefix(a, b');
      var d := Dedup(a + b');
      assert Dedup(a + b) == d || Dedup(a + b) == d + [y];
    }
  }

  /** De-duplicating an already de-duplicated prefix changes nothing: merging
      step by step equals one de-duplication of the whole concatenation. */
  lemma {:induction false} DedupAbsorbs<T>(a: seq<T>, b: seq<T>)
    ensures Dedup(Dedup(a) + b) == Dedup(a + b)
  {
    if b == [] {
      assert Dedup(a) + b == Dedup(a);
      assert a + b == a;
      DedupSpec(a);
      DedupOfDistinct(Dedup(a));
    } else {
      var b', y := b[..|b| - 1], b[|b| - 1];
      DedupAbsorbs(a, b');
      assert (Dedup(a) + b)[..|Dedup(a) + b| - 1] == Dedup(a) + b';
      assert (a + b)[..|a + b| - 1] == a + b';
    }
  }
}
