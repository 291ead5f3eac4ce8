/** Sequence vocabulary shared by the label, dataset and grouping modules:
    order-preserving subsequences, duplicate-free sequences, first-occurrence
    de-duplication (the key order of a Python dict built from a list) and
    flattening of a list of lists. */
module Seqs {

  /** `xs` can be obtained from `ys` by deleting elements: same elements, same relative order. */
  ghost predicate IsSubseq<T>(xs: seq<T>, ys: seq<T>)
    decreases |ys|
  {
    |xs| == 0 || (|ys| > 0 && ((xs[0] == ys[0] && IsSubseq(xs[1..], ys[1..])) || IsSubseq(xs, ys[1..])))
  }

  /** No element occurs twice. */
  ghost predicate NoDup<T>(xs: seq<T>)
  {
    forall i, j :: 0 <= i < j < |xs| ==> xs[i] != xs[j]
  }

  lemma SubseqCons<T>(x: T, xs: seq<T>, ys: seq<T>)
    requires IsSubseq(xs, ys)
    ensures IsSubseq(xs, [x] + ys)
  {
    assert ([x] + ys)[1..] == ys;
  }

  lemma SubseqConsBoth<T>(x: T, xs: seq<T>, ys: seq<T>)
    requires IsSubseq(xs, ys)
    ensures IsSubseq([x] + xs, [x] + ys)
  {
    assert ([x] + xs)[1..] == xs;
    assert ([x] + ys)[1..] == ys;
  }

  /** Every sequence is a subsequence of itself. */
  lemma {:induction false} SubseqRefl<T>(xs: seq<T>)
    ensures IsSubseq(xs, xs)
    decreases |xs|
  {
    if |xs| > 0 {
      SubseqRefl(xs[1..]);
    }
  }

  /** A subsequence only holds elements of the sequence it was taken from, and is no longer. */
  lemma {:induction false} SubseqMembers<T>(xs: seq<T>, ys: seq<T>)
    requires IsSubseq(xs, ys)
    ensures |xs| <= |ys|
    ensures forall x :: x in xs ==> x in ys
    decreases |ys|
  {
    if |xs| > 0 {
      if xs[0] == ys[0] && IsSubseq(xs[1..], ys[1..]) {
        SubseqMembers(xs[1..], ys[1..]);
        assert xs == [xs[0]] + xs[1..];
      } else {
        SubseqMembers(xs, ys[1..]);
      }
    }
  }

  /** Deleting elements cannot introduce a duplicate. */
  lemma {:induction false} SubseqNoDup<T>(xs: seq<T>, ys: seq<T>)
    requires IsSubseq(xs, ys)
    requires NoDup(ys)
    ensures NoDup(xs)
    decreases |ys|
  {
    if |xs| > 0 {
      assert NoDup(ys[1..]) by {
        forall i, j | 0 <= i < j < |ys[1..]| ensures ys[1..][i] != ys[1..][j] {
          assert ys[1..][i] == ys[i + 1] && ys[1..][j] == ys[j + 1];
        }
      }
      if xs[0] == ys[0] && IsSubseq(xs[1..], ys[1..]) {
        SubseqNoDup(xs[1..], ys[1..]);
        SubseqMembers(xs[1..], ys[1..]);
        assert ys[0] !in ys[1..] by {
          forall j | 0 <= j < |ys[1..]| ensures ys[1..][j] != ys[0] {
            assert ys[1..][j] == ys[j + 1];
          }
        }
        forall i, j | 0 <= i < j < |xs| ensures xs[i] != xs[j] {
          if i == 0 {
            assert xs[j] == xs[1..][j - 1];
            assert xs[j] in xs[1..];
          } else {
            assert xs[i] == xs[1..][i - 1] && xs[j] == xs[1..][j - 1];
          }
        }
      } else {
        SubseqNoDup(xs, ys[1..]);
      }
    }
  }

  lemma {:induction false} SubseqSnoc<T>(xs: seq<T>, ys: seq<T>, y: T)
    requires IsSubseq(xs, ys)
    ensures IsSubseq(xs, ys + [y])
    decreases |ys|
  {
    if |xs| > 0 {
      assert (ys + [y])[1..] == ys[1..] + [y];
      if xs[0] == ys[0] && IsSubseq(xs[1..], ys[1..]) {
        SubseqSnoc(xs[1..], ys[1..], y);
      } else {
        SubseqSnoc(xs, ys[1..], y);
      }
    }
  }

  lemma {:induction false} SubseqSnocBoth<T>(xs: seq<T>, ys: seq<T>, y: T)
    requires IsSubseq(xs, ys)
    ensures IsSubseq(xs + [y], ys + [y])
    decreases |ys|
  {
    if |xs| == 0 {
      assert xs + [y] == [y];
      SubseqRefl([y]);
      if |ys| > 0 {
        assert IsSubseq([y], ys[1..] + [y]) by { SubseqEmptySnoc(ys[1..], y); }
        assert (ys + [y])[1..] == ys[1..] + [y];
      }
    } else {
      assert (xs + [y])[1..] == xs[1..] + [y];
      assert (ys + [y])[1..] == ys[1..] + [y];
      if xs[0] == ys[0] && IsSubseq(xs[1..], ys[1..]) {
        SubseqSnocBoth(xs[1..], ys[1..], y);
      } else {
        SubseqSnocBoth(xs, ys[1..], y);
      }
    }
  }

  /** `[y]` is a subsequence of any sequence that ends in `y`. */
  lemma {:induction false} SubseqEmptySnoc<T>(ys: seq<T>, y: T)
    ensures IsSubseq([y], ys + [y])
    decreases |ys|
  {
    if |ys| == 0 {
      assert [y][1..] == [];
    } else {
      assert (ys + [y])[1..] == ys[1..] + [y];
      SubseqEmptySnoc(ys[1..], y);
    }
  }

  /** The distinct elements of `xs`, each at the place of its first occurrence:
      the key order of a Python dict whose keys are inserted from `xs`. */
  function Dedup<T(==,!new)>(xs: seq<T>): (r: seq<T>)
    ensures NoDup(r)
    ensures forall x :: x in r <==> x in xs
    ensures IsSubseq(r, xs)
    decreases |xs|
  {
    if |xs| == 0 then []
    else
      var front := Dedup(xs[..|xs| - 1]);
      var last := xs[|xs| - 1];
      assert xs == xs[..|xs| - 1] + [last];
      if last in front then
        SubseqSnoc(front, xs[..|xs| - 1], last);
        front
      else
        SubseqSnocBoth(front, xs[..|xs| - 1], last);
        front + [last]
  }

  /** The elements of `r` come in the order of their first occurrences in
      `xs`: each element occurs in `xs` before any occurrence of a later one. */
  ghost predicate FirstOccurrenceOrder<T>(r: seq<T>, xs: seq<T>)
  {
    forall i, j :: 0 <= i < j < |r| ==> exists p :: 0 <= p < |xs| && xs[p] == r[i] && r[j] !in xs[..p]
  }

  /** `Dedup` keeps first occurrences: with `NoDup` and the membership
      clause this fixes its result, e.g. `["a", "b"]` for `["a", "b", "a"]`. */
  lemma {:induction false} DedupOrder<T(!new)>(xs: seq<T>)
    ensures FirstOccurrenceOrder(Dedup(xs), xs)
    decreases |xs|
  {
    if |xs| > 0 {
      var init := xs[..|xs| - 1];
      var last := xs[|xs| - 1];
      DedupOrder(init);
      var front := Dedup(init);
      var r := Dedup(xs);
      assert r == front || (last !in init && r == front + [last]);
      forall i, j | 0 <= i < j < |r|
        ensures exists p :: 0 <= p < |xs| && xs[p] == r[i] && r[j] !in xs[..p]
      {
        assert r[i] == front[i];
        if j < |front| {
          assert r[j] == front[j];
          var p :| 0 <= p < |init| && init[p] == front[i] && front[j] !in init[..p];
          assert xs[..p] == init[..p] && xs[p] == init[p];
        } else {
          assert r[j] == last;
          assert front[i] in init;
          var p :| 0 <= p < |init| && init[p] == front[i];
          assert xs[..p] == init[..p] && xs[p] == init[p];
          assert forall x :: x in init[..p] ==> x in init;
        }
      }
    }
  }

  /** The lists of `xss` concatenated in order. */
  function Flatten<T(!new)>(xss: seq<seq<T>>): (r: seq<T>)
    ensures forall x :: x in r <==> exists k :: 0 <= k < |xss| && x in xss[k]
    decreases |xss|
  {
    if |xss| == 0 then []
    else
      var rest := Flatten(xss[1..]);
      assert forall k :: 0 <= k < |xss[1..]| ==> xss[1..][k] == xss[k + 1];
      xss[0] + rest
  }

  /** In a sequence without duplicates each element occurs once. */
  lemma {:induction false} NoDupCount<T>(xs: seq<T>, x: T)
    requires NoDup(xs)
    ensures multiset(xs)[x] == if x in xs then 1 else 0
    decreases |xs|
  {
    if |xs| > 0 {
      assert xs == [xs[0]] + xs[1..];
      assert NoDup(xs[1..]) by {
        forall i, j | 0 <= i < j < |xs[1..]| ensures xs[1..][i] != xs[1..][j] {
          assert xs[1..][i] == xs[i + 1] && xs[1..][j] == xs[j + 1];
        }
      }
      NoDupCount(xs[1..], x);
      if x == xs[0] {
        assert x !in xs[1..] by {
          forall j | 0 <= j < |xs[1..]| ensures xs[1..][j] != x {
            assert xs[1..][j] == xs[j + 1];
          }
        }
      }
    }
  }

  /** Occurrences in a concatenation add up. */
  lemma CountAppend<T>(a: seq<T>, b: seq<T>, x: T)
    ensures multiset(a + b)[x] == multiset(a)[x] + multiset(b)[x]
  {
  }

  /** Occurrences in a non-empty sequence: the first element, then the rest. */
  lemma CountFirst<T>(xs: seq<T>, x: T)
    requires |xs| > 0
    ensures multiset(xs)[x] == (if xs[0] == x then 1 else 0) + multiset(xs[1..])[x]
  {
    assert xs == [xs[0]] + xs[1..];
  }

  /** Multiplication distributes over addition (used for multiplicities). */
  lemma MulDistrib(t: nat, a: nat, b: nat)
    ensures t * (a + b) == t * a + t * b
  {
  }

  /** `n` copies of `x`. */
  function Repeat<T>(x: T, n: nat): (r: seq<T>)
    ensures |r| == n
    ensures forall k :: 0 <= k < n ==> r[k] == x
  {
    seq(n, _ => x)
  }

  lemma InRepeat<T>(x: T, n: nat, y: T)
    ensures y in Repeat(x, n) <==> y == x && n > 0
  {
    if n > 0 {
      assert Repeat(x, n)[0] == x;
    }
  }

  lemma RepeatCount<T>(x: T, n: nat, y: T)
    ensures multiset(Repeat(x, n))[y] == if x == y then n else 0
    decreases n
  {
    if n > 0 {
      assert Repeat(x, n) == [x] + Repeat(x, n - 1);
      RepeatCount(x, n - 1, y);
    }
  }
}
