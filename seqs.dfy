/** Sequences without repeats, kept in first-seen order. */
module Seqs {

  predicate NoDuplicates<T(==)>(s: seq<T>) {
    forall i, j :: 0 <= i < j < |s| ==> s[i] != s[j]
  }

  /** The position of the first occurrence of `x` in `s`. */
  function FirstIndex<T(==)>(s: seq<T>, x: T): (k: nat)
    requires x in s
    ensures k < |s| && s[k] == x
    ensures forall j :: 0 <= j < k ==> s[j] != x
  {
    if s[0] == x then 0 else 1 + FirstIndex(s[1..], x)
  }

  /** `s` with every element that already occurred earlier dropped: the list that the
      "append unless already present" idiom builds. */
  function Dedup<T(==)>(s: seq<T>): seq<T>
  {
    if s == [] then []
    else
      var init := s[..|s| - 1];
      if s[|s| - 1] in init then Dedup(init) else Dedup(init) + [s[|s| - 1]]
  }

  lemma DedupSnoc<T>(s: seq<T>, x: T)
    ensures Dedup(s + [x]) == if x in s then Dedup(s) else Dedup(s) + [x]
  {
    assert (s + [x])[..|s|] == s;
  }

  lemma {:induction false} DedupElements<T>(s: seq<T>)
    ensures forall x :: x in Dedup(s) <==> x in s
  {
    if s != [] {
      var init := s[..|s| - 1];
      DedupElements(init);
      assert s == init + [s[|s| - 1]];
    }
  }

  lemma {:induction false} DedupNoDuplicates<T>(s: seq<T>)
    ensures NoDuplicates(Dedup(s))
  {
    if s != [] {
      var init := s[..|s| - 1];
      DedupNoDuplicates(init);
      DedupElements(init);
    }
  }

  lemma FirstIndexSnoc<T>(s: seq<T>, y: T, x: T)
    requires x in s
    ensures FirstIndex(s + [y], x) == FirstIndex(s, x)
  {
    var k := FirstIndex(s, x);
    var k' := FirstIndex(s + [y], x);
    assert (s + [y])[k] == x;
    assert k' <= k;
    assert s[k'] == x;
  }

  /** Dedup keeps the elements in the order of their first occurrence in `s`. */
  lemma {:induction false} DedupFirstSeen<T>(s: seq<T>)
    ensures forall x :: x in Dedup(s) ==> x in s
    ensures forall i, j :: 0 <= i < j < |Dedup(s)| ==>
      FirstIndex(s, Dedup(s)[i]) < FirstIndex(s, Dedup(s)[j])
  {
    DedupElements(s);
    if s != [] {
      var init, last := s[..|s| - 1], s[|s| - 1];
      assert s == init + [last];
      DedupFirstSeen(init);
      DedupElements(init);
      var r := Dedup(s);
      forall i, j | 0 <= i < j < |r|
        ensures FirstIndex(s, r[i]) < FirstIndex(s, r[j])
      {
        FirstIndexSnoc(init, last, r[i]);
        if j < |Dedup(init)| {
          FirstIndexSnoc(init, last, r[j]);
        } else {
          assert r[j] == last && last !in init;
          assert FirstIndex(s, r[j]) == |init|;
        }
      }
    }
  }

  /** A list that has no repeats is its own first-seen list. */
  lemma DedupIdempotent<T>(s: seq<T>)
    requires NoDuplicates(s)
    ensures Dedup(s) == s
    decreases |s|
  {
    if s != [] {
      var init := s[..|s| - 1];
      DedupIdempotent(init);
      assert s == init + [s[|s| - 1]];
    }
  }

  /** `s` with every occurrence of `x` removed. */
  function Without<T(==)>(s: seq<T>, x: T): seq<T>
  {
    if s == [] then [] else (if s[0] == x then [] else [s[0]]) + Without(s[1..], x)
  }

  lemma {:induction false} WithoutElements<T>(s: seq<T>, x: T)
    ensures forall y :: y in Without(s, x) <==> y in s && y != x
  {
    if s != [] {
      WithoutElements(s[1..], x);
      assert s == [s[0]] + s[1..];
    }
  }

  lemma {:induction false} WithoutNoDuplicates<T>(s: seq<T>, x: T)
    requires NoDuplicates(s)
    ensures NoDuplicates(Without(s, x))
  {
    if s != [] {
      WithoutNoDuplicates(s[1..], x);
      WithoutElements(s[1..], x);
      assert s[0] !in s[1..];
    }
  }

  /** Taking first-seen elements twice is the same as once, whatever comes after. */
  lemma {:induction false} DedupOfDedup<T>(a: seq<T>, b: seq<T>)
    ensures Dedup(Dedup(a) + b) == Dedup(a + b)
    decreases |b|
  {
    if b == [] {
      DedupNoDuplicates(a);
      DedupIdempotent(Dedup(a));
      assert a + b == a && Dedup(a) + b == Dedup(a);
    } else {
      var b', y := b[..|b| - 1], b[|b| - 1];
      DedupOfDedup(a, b');
      DedupElements(a);
      assert Dedup(a) + b == (Dedup(a) + b') + [y];
      assert a + b == (a + b') + [y];
      DedupSnoc(Dedup(a) + b', y);
      DedupSnoc(a + b', y);
    }
  }

  /** The first element of a list is the first element of its first-seen list. */
  lemma {:induction false} DedupHead<T>(x: T, s: seq<T>)
    ensures |Dedup([x] + s)| >= 1 && Dedup([x] + s)[0] == x
    decreases |s|
  {
    if s == [] {
      DedupSnoc([], x);
      assert [x] + s == [] + [x];
    } else {
      var s', y := s[..|s| - 1], s[|s| - 1];
      DedupHead(x, s');
      assert [x] + s == ([x] + s') + [y];
      DedupSnoc([x] + s', y);
    }
  }

  lemma ConsUpdate<T>(x: T, s: seq<T>, i: nat, y: T)
    requires i < |s|
    ensures [x] + s[i := y] == ([x] + s)[i + 1 := y]
  {
  }
}
