/**
  Sequence facts shared by the recency list and the text format: the first
  position of an element (Rust's `iter().position`), removal of every
  occurrence of an element, and duplicate-freedom.
 */
module Seqs {
  import opened Wrappers

  /** Index of the first occurrence of `x` in `s`, or `None` when `x` does not occur. */
  function Position<T(==)>(s: seq<T>, x: T): (r: Option<nat>)
    ensures r.None? <==> x !in s
    ensures r.Some? ==> r.value < |s| && s[r.value] == x && x !in s[..r.value]
  {
    if s == [] then None
    else if s[0] == x then Some(0)
    else
      match Position(s[1..], x)
      case None => None
      case Some(i) =>
        assert s[..i + 1] == [s[0]] + s[1..][..i];
        Some(i + 1)
  }

  /** An occurrence with no earlier occurrence is the one `Position` finds. */
  lemma {:induction false} PositionAt<T>(s: seq<T>, x: T, j: nat)
    requires j < |s| && s[j] == x && x !in s[..j]
    ensures Position(s, x) == Some(j)
    decreases j
  {
    if j > 0 {
      assert s[..j][0] == s[0];
      assert s[1..][..j - 1] == s[..j][1..];
      PositionAt(s[1..], x, j - 1);
    }
  }

  /** `s` with every occurrence of `x` removed, the other elements kept in order. */
  function Without<T(==)>(s: seq<T>, x: T): (r: seq<T>)
    ensures x !in r && |r| <= |s|
  {
    if s == [] then []
    else (if s[0] == x then [] else [s[0]]) + Without(s[1..], x)
  }

  /** No element occurs twice. */
  ghost predicate NoDups<T>(s: seq<T>) {
    forall i, j :: 0 <= i < j < |s| ==> s[i] != s[j]
  }

  lemma {:induction false} WithoutConcat<T>(a: seq<T>, b: seq<T>, x: T)
    ensures Without(a + b, x) == Without(a, x) + Without(b, x)
    decreases |a|
  {
    if a == [] {
      assert a + b == b;
    } else {
      assert (a + b)[1..] == a[1..] + b;
      WithoutConcat(a[1..], b, x);
    }
  }

  lemma {:induction false} WithoutAbsent<T>(s: seq<T>, x: T)
    requires x !in s
    ensures Without(s, x) == s
    decreases |s|
  {
    if s != [] {
      WithoutAbsent(s[1..], x);
      assert s == [s[0]] + s[1..];
    }
  }

  /**
    Moving the element at `pos` to the back keeps the length and the
    elements, and keeps the other elements in their order.
   */
  lemma MoveToBack<T>(s: seq<T>, pos: nat)
    requires pos < |s|
    ensures var r := s[..pos] + s[pos + 1..] + [s[pos]];
            && |r| == |s| && r[|r| - 1] == s[pos]
            && Without(r, s[pos]) == Without(s, s[pos])
            && multiset(r) == multiset(s)
  {
    var x, a, b := s[pos], s[..pos], s[pos + 1..];
    assert s == (a + [x]) + b;
    var wx := Without([x], x);
    assert wx == [] by {
      assert [x][1..] == [];
    }
    calc {
      Without(s, x);
    == { WithoutConcat(a + [x], b, x); }
      Without(a + [x], x) + Without(b, x);
    == { WithoutConcat(a, [x], x); }
      Without(a, x) + wx + Without(b, x);
    ==
      Without(a, x) + Without(b, x);
    == { WithoutConcat(a, b, x); }
      Without(a + b, x);
    ==
      Without(a + b, x) + wx;
    == { WithoutConcat(a + b, [x], x); }
      Without(a + b + [x], x);
    }
  }

  /** Moving the element at `pos` to the back of a duplicate-free sequence keeps it duplicate-free. */
  lemma NoDupsMoveToBack<T>(s: seq<T>, pos: nat)
    requires NoDups(s) && pos < |s|
    ensures NoDups(s[..pos] + s[pos + 1..] + [s[pos]])
  {
    var r := s[..pos] + s[pos + 1..] + [s[pos]];
    assert forall i :: 0 <= i < pos ==> r[i] == s[i];
    assert forall i :: pos <= i < |s| - 1 ==> r[i] == s[i + 1];
    forall i, j | 0 <= i < j < |r| ensures r[i] != r[j] {
      var i' := if i < pos then i else i + 1;
      var j' := if j == |r| - 1 then pos else if j < pos then j else j + 1;
      assert r[i] == s[i'] && r[j] == s[j'] && i' != j';
    }
  }

  /** Removing the only occurrence of `x` is cutting it out. */
  lemma WithoutCut<T>(a: seq<T>, x: T, b: seq<T>)
    requires x !in a && x !in b
    ensures Without(a + [x] + b, x) == a + b
  {
    var ax := a + [x];
    WithoutConcat(ax, b, x);
    WithoutConcat(a, [x], x);
    WithoutAbsent(a, x);
    WithoutAbsent(b, x);
    assert Without([x], x) == [] by {
      assert [x][1..] == [];
    }
    assert Without(ax, x) == a;
  }

  /** Sequences with the same multiset have the same elements. */
  lemma SameElements<T>(a: seq<T>, b: seq<T>)
    requires multiset(a) == multiset(b)
    ensures forall k :: k in a <==> k in b
  {
    forall k ensures k in a <==> k in b {
      assert k in a <==> k in multiset(a);
      assert k in b <==> k in multiset(b);
    }
  }

  /** A slice of a duplicate-free sequence is duplicate-free. */
  lemma NoDupsSlice<T>(s: seq<T>, i: nat, j: nat)
    requires NoDups(s) && i <= j <= |s|
    ensures NoDups(s[i..j])
  {
    forall a, b | 0 <= a < b < j - i ensures s[i..j][a] != s[i..j][b] {
      assert s[i..j][a] == s[i + a] && s[i..j][b] == s[i + b];
    }
  }

  /** In a duplicate-free sequence the last element occurs in no slice before it. */
  lemma NoDupsLastFresh<T>(s: seq<T>, i: nat)
    requires NoDups(s) && i < |s|
    ensures s[|s| - 1] !in s[i..|s| - 1]
  {
    var t := s[i..|s| - 1];
    forall a | 0 <= a < |t| ensures t[a] != s[|s| - 1] {
      assert t[a] == s[i + a];
    }
  }

  /** A duplicate-free sequence has as many distinct elements as it has positions. */
  lemma {:induction false} DistinctCard<T>(s: seq<T>)
    requires NoDups(s)
    ensures |set x | x in s| == |s|
    decreases |s|
  {
    if s != [] {
      var t := s[1..];
      assert NoDups(t);
      DistinctCard(t);
      assert (set x | x in s) == (set x | x in t) + {s[0]};
      assert s[0] !in t;
    }
  }
}
