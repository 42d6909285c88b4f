/** `generateCombinations` of RubiksSolver.cpp: every move word of a fixed
    length over a list of moves, enumerated depth first, together with the
    specification of the list it builds: its length, exactly which words it
    holds, and the order it holds them in. */
module Combinations {

  /** `n` to the power `k`. */
  function Pow(n: nat, k: nat): nat {
    if k == 0 then 1 else n * Pow(n, k - 1)
  }

  /** `p` followed by each word of `ws`, in order. */
  function Prefix<T>(p: seq<T>, ws: seq<seq<T>>): (vs: seq<seq<T>>)
    ensures |vs| == |ws|
    ensures forall i :: 0 <= i < |ws| ==> vs[i] == p + ws[i]
  {
    seq(|ws|, i requires 0 <= i < |ws| => p + ws[i])
  }

  /** For each letter of `rs` in turn, that letter followed by each word of `ws`. */
  function Layer<T>(rs: seq<T>, ws: seq<seq<T>>): seq<seq<T>>
    decreases |rs|
  {
    if rs == [] then [] else Layer(rs[..|rs| - 1], ws) + Prefix([rs[|rs| - 1]], ws)
  }

  /** The words of length `d` over `all`, in the order the recursion of
      `generateCombinations` emits them. */
  function Words<T>(all: seq<T>, d: nat): seq<seq<T>> {
    if d == 0 then [[]] else Layer(all, Words(all, d - 1))
  }

  predicate Distinct<T(==)>(all: seq<T>) {
    forall i, j :: 0 <= i < j < |all| ==> all[i] != all[j]
  }

  /** The position of `x` in `all`, or `|all|` when it is absent. */
  function IndexOf<T(==)>(all: seq<T>, x: T): (k: nat)
    ensures k <= |all|
    ensures k < |all| ==> all[k] == x
    ensures x in all ==> k < |all|
  {
    if all == [] then 0
    else if all[0] == x then 0
    else 1 + IndexOf(all[1..], x)
  }

  /** `u` comes before `v` when, at the first position where they differ, the
      letter of `u` comes earlier in `all`. */
  predicate LexBefore<T(==)>(all: seq<T>, u: seq<T>, v: seq<T>)
    requires |u| == |v|
  {
    |u| > 0 &&
    (IndexOf(all, u[0]) < IndexOf(all, v[0]) ||
     (u[0] == v[0] && LexBefore(all, u[1..], v[1..])))
  }

  /** Every earlier word of the list comes strictly before every later one. */
  ghost predicate Sorted<T>(all: seq<T>, ws: seq<seq<T>>) {
    forall i, j :: 0 <= i < j < |ws| ==> |ws[i]| == |ws[j]| && LexBefore(all, ws[i], ws[j])
  }

  // ---------------------------------------------------------------------------
  // The enumeration method

  /** `generateCombinations(allRotations, depth, currentPath, results)`: appends to
      `results` every word of length `depth` over `all`, each prefixed by the
      current path, and hands the path back as it found it. */
  method GenerateCombinations<T>(all: seq<T>, depth: nat, path: seq<T>, results: seq<seq<T>>)
    returns (path': seq<T>, results': seq<seq<T>>)
    ensures path' == path
    ensures results' == results + Prefix(path, Words(all, depth))
    decreases depth
  {
    if depth == 0 {
      PrefixOfEmptyWord(path);
      path', results' := path, results + [path];
      return;
    }
    path', results' := path, results;
    ghost var ws := Words(all, depth - 1);
    for i := 0 to |all|
      invariant path' == path
      invariant results' == results + Prefix(path, Layer(all[..i], ws))
    {
      path' := path' + [all[i]];
      path', results' := GenerateCombinations(all, depth - 1, path', results');
      DropLast(path, all[i]);
      path' := path'[..|path'| - 1];
      PrefixLayerStep(results, path, all, i, ws);
    }
    assert all[..|all|] == all;
  }

  /** One more letter of the layer appends that letter's words, each after
      the path. */
  lemma PrefixLayerStep<T>(results: seq<seq<T>>, path: seq<T>, all: seq<T>, i: nat, ws: seq<seq<T>>)
    requires i < |all|
    ensures results + Prefix(path, Layer(all[..i + 1], ws))
         == (results + Prefix(path, Layer(all[..i], ws))) + Prefix(path + [all[i]], ws)
  {
    LayerStep(all, i, ws);
    PrefixConcat(path, Layer(all[..i], ws), Prefix([all[i]], ws));
    PrefixPrefix(path, [all[i]], ws);
  }

  /** Popping the letter just pushed gives the path back. */
  lemma DropLast<T>(path: seq<T>, x: T)
    ensures (path + [x])[..|path + [x]| - 1] == path
  {
  }

  /** An empty current path leaves the candidates as they are. */
  lemma PrefixEmptyPath<T>(ws: seq<seq<T>>)
    ensures Prefix([], ws) == ws
  {
    forall i | 0 <= i < |ws| ensures [] + ws[i] == ws[i] {
    }
  }

  lemma PrefixOfEmptyWord<T>(p: seq<T>)
    ensures Prefix(p, [[]]) == [p]
  {
    assert p + [] == p;
  }

  lemma LayerStep<T>(all: seq<T>, i: nat, ws: seq<seq<T>>)
    requires i < |all|
    ensures Layer(all[..i + 1], ws) == Layer(all[..i], ws) + Prefix([all[i]], ws)
  {
    assert all[..i + 1][..i] == all[..i];
  }

  lemma PrefixConcat<T>(p: seq<T>, a: seq<seq<T>>, b: seq<seq<T>>)
    ensures Prefix(p, a + b) == Prefix(p, a) + Prefix(p, b)
  {
  }

  lemma PrefixPrefix<T>(p: seq<T>, q: seq<T>, ws: seq<seq<T>>)
    ensures Prefix(p, Prefix(q, ws)) == Prefix(p + q, ws)
  {
    forall i | 0 <= i < |ws| ensures p + (q + ws[i]) == (p + q) + ws[i] {
    }
  }

  // ---------------------------------------------------------------------------
  // What the list holds

  lemma {:induction false} LayerCount<T>(rs: seq<T>, ws: seq<seq<T>>)
    ensures |Layer(rs, ws)| == |rs| * |ws|
    decreases |rs|
  {
    if rs != [] {
      var rs' := rs[..|rs| - 1];
      LayerCount(rs', ws);
      assert |Layer(rs, ws)| == |rs'| * |ws| + |ws|;
      assert |rs| * |ws| == (|rs'| + 1) * |ws| == |rs'| * |ws| + |ws|;
    }
  }

  /** `depth` levels of recursion over `n` moves yield `n` to the power `depth`
      candidates (8^depth for the eight moves of the solver). */
  lemma {:induction false} WordsCount<T>(all: seq<T>, d: nat)
    ensures |Words(all, d)| == Pow(|all|, d)
  {
    if d > 0 {
      WordsCount(all, d - 1);
      LayerCount(all, Words(all, d - 1));
    }
  }

  /** A word is in a layer exactly when its first letter is one of the layer's
      letters and the rest is one of the layer's tails. */
  lemma {:induction false} LayerMember<T>(rs: seq<T>, ws: seq<seq<T>>, x: seq<T>)
    ensures x in Layer(rs, ws) <==> |x| > 0 && x[0] in rs && x[1..] in ws
    decreases |rs|
  {
    if rs != [] {
      var rs', a := rs[..|rs| - 1], rs[|rs| - 1];
      LayerMember(rs', ws, x);
      assert rs == rs' + [a];
      if x in Prefix([a], ws) {
        var i :| 0 <= i < |ws| && Prefix([a], ws)[i] == x;
        assert x[1..] == ws[i];
      }
      if |x| > 0 && x[0] == a && x[1..] in ws {
        var i :| 0 <= i < |ws| && ws[i] == x[1..];
        assert x == [a] + ws[i];
        assert Prefix([a], ws)[i] == x;
      }
    }
  }

  /** The list holds exactly the words of length `d` whose letters all come
      from `all`. */
  lemma {:induction false} WordsExactly<T>(all: seq<T>, d: nat, x: seq<T>)
    ensures x in Words(all, d) <==> |x| == d && forall i :: 0 <= i < |x| ==> x[i] in all
  {
    if d == 0 {
    } else {
      LayerMember(all, Words(all, d - 1), x);
      if |x| > 0 {
        WordsExactly(all, d - 1, x[1..]);
        if |x| == d && (forall i :: 0 <= i < |x| ==> x[i] in all) {
          assert forall i :: 0 <= i < |x[1..]| ==> x[1..][i] in all by {
            forall i | 0 <= i < |x[1..]| ensures x[1..][i] in all {
              assert x[1..][i] == x[i + 1];
            }
          }
        }
        if x in Words(all, d) {
          forall i | 0 <= i < |x| ensures x[i] in all {
            if i > 0 {
              assert x[i] == x[1..][i - 1];
            }
          }
        }
      }
    }
  }

  lemma WordsComplete<T>(all: seq<T>, x: seq<T>)
    requires forall i :: 0 <= i < |x| ==> x[i] in all
    ensures x in Words(all, |x|)
  {
    WordsExactly(all, |x|, x);
  }

  lemma {:induction false} WordsLength<T>(all: seq<T>, d: nat, k: nat)
    requires k < |Words(all, d)|
    ensures |Words(all, d)[k]| == d
  {
    WordsExactly(all, d, Words(all, d)[k]);
  }

  // ---------------------------------------------------------------------------
  // The order of the list

  lemma {:induction false} LexIrreflexive<T>(all: seq<T>, u: seq<T>)
    ensures !LexBefore(all, u, u)
    decreases |u|
  {
    if |u| > 0 {
      LexIrreflexive(all, u[1..]);
    }
  }

  lemma {:induction false} LexAsymmetric<T>(all: seq<T>, u: seq<T>, v: seq<T>)
    requires |u| == |v|
    ensures LexBefore(all, u, v) ==> !LexBefore(all, v, u)
    decreases |u|
  {
    if |u| > 0 && u[0] == v[0] {
      LexAsymmetric(all, u[1..], v[1..]);
    }
  }

  lemma IndexOfDistinct<T>(all: seq<T>, k: nat)
    requires Distinct(all) && k < |all|
    ensures IndexOf(all, all[k]) == k
  {
  }

  /** A common first letter does not change the order of two words. */
  lemma LexCons<T>(all: seq<T>, a: T, u: seq<T>, v: seq<T>)
    requires |u| == |v|
    ensures LexBefore(all, [a] + u, [a] + v) == LexBefore(all, u, v)
  {
    assert ([a] + u)[1..] == u && ([a] + v)[1..] == v;
  }

  lemma {:induction false} LayerSorted<T>(all: seq<T>, n: nat, ws: seq<seq<T>>)
    requires Distinct(all) && n <= |all| && Sorted(all, ws)
    requires forall i, j :: 0 <= i < j < |ws| ==> |ws[i]| == |ws[j]|
    ensures Sorted(all, Layer(all[..n], ws))
    decreases n
  {
    if n > 0 {
      var rs := all[..n];
      assert rs[..n - 1] == all[..n - 1];
      var a, b := Layer(all[..n - 1], ws), Prefix([all[n - 1]], ws);
      LayerSorted(all, n - 1, ws);
      PrefixSorted(all, all[n - 1], ws);
      assert Layer(rs, ws) == a + b;
      forall i, j | 0 <= i < |a| && 0 <= j < |b|
        ensures |a[i]| == |b[j]| && LexBefore(all, a[i], b[j])
      {
        LayerBeforeLetter(all, n, ws, i, j);
      }
      SortedConcat(all, a, b);
    }
  }

  /** A common first letter keeps a sorted list sorted. */
  lemma PrefixSorted<T>(all: seq<T>, x: T, ws: seq<seq<T>>)
    requires Sorted(all, ws)
    ensures Sorted(all, Prefix([x], ws))
  {
    var b := Prefix([x], ws);
    forall i, j | 0 <= i < j < |b|
      ensures |b[i]| == |b[j]| && LexBefore(all, b[i], b[j])
    {
      LexCons(all, x, ws[i], ws[j]);
    }
  }

  /** Every word of the layer over the first `n - 1` letters comes before every
      word that starts with letter `n - 1`. */
  lemma LayerBeforeLetter<T>(all: seq<T>, n: nat, ws: seq<seq<T>>, i: nat, j: nat)
    requires Distinct(all) && 0 < n <= |all|
    requires forall i, j :: 0 <= i < j < |ws| ==> |ws[i]| == |ws[j]|
    requires i < |Layer(all[..n - 1], ws)| && j < |ws|
    ensures |Layer(all[..n - 1], ws)[i]| == |[all[n - 1]] + ws[j]|
    ensures LexBefore(all, Layer(all[..n - 1], ws)[i], [all[n - 1]] + ws[j])
  {
    var x, y := Layer(all[..n - 1], ws)[i], [all[n - 1]] + ws[j];
    LayerMember(all[..n - 1], ws, x);
    var k :| 0 <= k < n - 1 && all[..n - 1][k] == x[0];
    IndexOfDistinct(all, k);
    IndexOfDistinct(all, n - 1);
    LayerLengths(all[..n - 1], ws, |ws[j]|, i);
  }

  /** Two sorted lists, each word of the first before each of the second, make
      a sorted list. */
  lemma SortedConcat<T>(all: seq<T>, a: seq<seq<T>>, b: seq<seq<T>>)
    requires Sorted(all, a) && Sorted(all, b)
    requires forall i, j :: 0 <= i < |a| && 0 <= j < |b| ==> |a[i]| == |b[j]| && LexBefore(all, a[i], b[j])
    ensures Sorted(all, a + b)
  {
    forall i, j | 0 <= i < j < |a + b|
      ensures |(a + b)[i]| == |(a + b)[j]| && LexBefore(all, (a + b)[i], (a + b)[j])
    {
      if j < |a| {
        assert (a + b)[i] == a[i] && (a + b)[j] == a[j];
      } else if i >= |a| {
        assert (a + b)[i] == b[i - |a|] && (a + b)[j] == b[j - |a|];
      } else {
        assert (a + b)[i] == a[i] && (a + b)[j] == b[j - |a|];
      }
    }
  }

  /** When all tails have length `m`, every word of a layer has length `m + 1`. */
  lemma {:induction false} LayerLengths<T>(rs: seq<T>, ws: seq<seq<T>>, m: nat, i: nat)
    requires forall k :: 0 <= k < |ws| ==> |ws[k]| == m
    requires i < |Layer(rs, ws)|
    ensures |Layer(rs, ws)[i]| == m + 1
    decreases |rs|
  {
    var rs' := rs[..|rs| - 1];
    var a := Layer(rs', ws);
    if i < |a| {
      LayerLengths(rs', ws, m, i);
    }
  }

  /** The list is in strictly increasing lexicographic order, the order of
      `all` deciding between letters, when `all` has no repeated letter. */
  lemma {:induction false} WordsSorted<T>(all: seq<T>, d: nat)
    requires Distinct(all)
    ensures Sorted(all, Words(all, d))
    ensures forall i :: 0 <= i < |Words(all, d)| ==> |Words(all, d)[i]| == d
  {
    if d > 0 {
      WordsSorted(all, d - 1);
      assert all[..|all|] == all;
      LayerSorted(all, |all|, Words(all, d - 1));
      forall i | 0 <= i < |Words(all, d)| ensures |Words(all, d)[i]| == d {
        LayerLengths(all, Words(all, d - 1), d - 1, i);
      }
    }
  }

  /** In the list, a word that comes lexicographically before another of the
      same length sits at a smaller position: the first word of a sorted list
      that passes a test is the lexicographically least that does. */
  lemma FirstInOrder<T>(all: seq<T>, d: nat, k: nat, w: seq<T>)
    requires Distinct(all)
    requires k < |Words(all, d)| && w in Words(all, d)
    requires |w| == |Words(all, d)[k]| && LexBefore(all, w, Words(all, d)[k])
    ensures exists j :: 0 <= j < k && Words(all, d)[j] == w
  {
    var ws := Words(all, d);
    WordsSorted(all, d);
    var j :| 0 <= j < |ws| && ws[j] == w;
    if j == k {
      LexIrreflexive(all, w);
    } else if j > k {
      LexAsymmetric(all, w, ws[k]);
    }
  }
}
