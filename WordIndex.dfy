// The rank calculator of word_index.py: `findIndex` and its helper
// `numDistinctPermutations`, checked against the specification in Permutations.
module WordIndex {
  import opened ListOps
  import opened Permutations

  /** `math.factorial`. */
  function Fact(n: nat): (r: nat)
    ensures r >= 1
  {
    if n == 0 then 1 else n * Fact(n - 1)
  }

  /**
   * `n_0! * n_1! * ... * n_k!` for the counts in `m` of the letters in `keys`,
   * folded from the left as `reduce(lambda x, y: x * factorial(y), ..., 1)` does.
   */
  function FactorialProduct(keys: seq<char>, m: multiset<char>): (r: nat)
    ensures r >= 1
  {
    if keys == [] then 1
    else FactorialProduct(keys[..|keys| - 1], m) * Fact(m[keys[|keys| - 1]])
  }

  /** The denominator of `numDistinctPermutations`: one factorial per distinct letter of `w`. */
  function Denominator(w: seq<char>): (r: nat)
    ensures r >= 1
  {
    FactorialProduct(SortedKeys(w), multiset(w))
  }

  /**
   * `numDistinctPermutations(w)`: `len(w)! / (n_0! * ... * n_k!)`. The division is
   * exact and the quotient is the number of distinct orderings of `w`'s letters.
   */
  function NumDistinctPermutations(w: seq<char>): (r: nat)
    ensures r * Denominator(w) == Fact(|w|)
    ensures r == |Perms(multiset(w))|
    ensures r >= 1
  {
    Multinomial(w);
    DivideExactly(|Perms(multiset(w))|, Denominator(w));
    Fact(|w|) / Denominator(w)
  }

  lemma DivideExactly(a: nat, b: nat)
    requires b > 0
    ensures (a * b) / b == a
  {
    var q, r := (a * b) / b, (a * b) % b;
    assert a * b == q * b + r;
    if q < a {
      assert (a - q) * b == r;
      MulAtLeast(a - q, b);
    } else if q > a {
      assert (q - a) * b + r == 0;
      MulAtLeast(q - a, b);
    }
  }

  /**
   * `findIndex(w)`: walks `w` left to right, and for each distinct remaining letter
   * below the current one adds the number of orderings that open with it.
   * The result is the position of `w` among the distinct orderings of its letters.
   */
  method FindIndex(w: seq<char>) returns (numSkipped: nat)
    ensures numSkipped == Rank(w)
    ensures numSkipped < NumDistinctPermutations(w)
  {
    var charList := w;
    numSkipped := 0;
    for i := 0 to |w|
      invariant charList == w[i..]
      invariant numSkipped + Rank(w[i..]) == Rank(w)
    {
      var c := w[i];
      var charSet := SortedKeys(charList);
      assert c == charList[0] && c in charSet;
      ghost var skippedBefore := numSkipped;
      var j := 0;
      while j < |charSet|
        invariant j <= |charSet|
        invariant forall t :: 0 <= t < j ==> charSet[t] != c
        invariant numSkipped == skippedBefore + BlockSizes(multiset(charList), charSet[..j])
        invariant skippedBefore <= numSkipped
      {
        var x := charSet[j];
        if c == x {
          break;
        }
        var currW := Remove(charList, x);
        numSkipped := numSkipped + NumDistinctPermutations(currW);
        BlockSizesExtend(multiset(charList), charSet, j);
        j := j + 1;
      }
      assert j < |charSet| && charSet[j] == c;
      assert numSkipped + Rank(w[i + 1..]) == Rank(w) by {
        RankStep(charList, charSet, j);
        assert charList[1..] == w[i + 1..];
      }
      charList := Remove(charList, c);
    }
    RankOfEmpty();
    RankBelowPermCount(w);
  }

  // ---- The multinomial identity behind numDistinctPermutations ----

  /** `|w|!` is the number of distinct orderings times the product of the letters' factorials. */
  lemma {:induction false} Multinomial(w: seq<char>)
    ensures |Perms(multiset(w))| * Denominator(w) == Fact(|w|)
    decreases |w|, 3
  {
    var m := multiset(w);
    if |w| == 0 {
      assert m == multiset{};
      assert Perms(m) == {[]};
      assert SortedKeys(w) == [];
    } else {
      var keys := SortedKeys(w);
      ScaledBlocks(w);
      PermCountIsBlockSum(w);
      CountSumOfLetters(keys, w);
      assert Fact(|w|) == |w| * Fact(|w| - 1);
      Substitute(|Perms(m)|, BlockSizes(m, keys), Denominator(w), Fact(|w| - 1), CountSum(keys, m), |w|, Fact(|w|));
    }
  }

  /** Every ordering of `w` falls in exactly one block, by its first letter. */
  lemma PermCountIsBlockSum(w: seq<char>)
    requires |w| > 0
    ensures |Perms(multiset(w))| == BlockSizes(multiset(w), SortedKeys(w))
  {
    AllStartInKeys(multiset(w), SortedKeys(w));
    StartingInCard(multiset(w), SortedKeys(w));
  }

  lemma {:induction false} ScaledBlocks(w: seq<char>)
    requires |w| > 0
    ensures BlockSizes(multiset(w), SortedKeys(w)) * Denominator(w)
         == Fact(|w| - 1) * CountSum(SortedKeys(w), multiset(w))
    decreases |w|, 2
  {
    AllBlocksScaled(w);
    BlockSizesScaled(multiset(w), SortedKeys(w), Denominator(w), Fact(|w| - 1));
  }

  lemma {:induction false} AllBlocksScaled(w: seq<char>)
    requires |w| > 0
    ensures forall k :: k in SortedKeys(w) ==> BlockBalanced(multiset(w), k, Denominator(w), Fact(|w| - 1))
    decreases |w|, 1
  {
    forall k | k in SortedKeys(w) ensures BlockBalanced(multiset(w), k, Denominator(w), Fact(|w| - 1)) {
      BlockScaled(w, k);
    }
  }

  /** The block opening with `k`, scaled by `d`, is `k`'s count scaled by `f`. */
  ghost predicate BlockBalanced(m: multiset<char>, k: char, d: nat, f: nat)
  {
    |Perms(m - multiset{k})| * d == m[k] * f
  }

  /** The block of orderings that open with `k`, scaled by the denominator. */
  lemma {:induction false} BlockScaled(w: seq<char>, k: char)
    requires k in w
    ensures |Perms(multiset(w) - multiset{k})| * Denominator(w) == multiset(w)[k] * Fact(|w| - 1)
    decreases |w|, 0
  {
    var r := Remove(w, k);
    var pr, d, dr, c, f := |Perms(multiset(w) - multiset{k})|, Denominator(w), Denominator(r), multiset(w)[k], Fact(|w| - 1);
    assert f == pr * dr by {
      assert |r| == |w| - 1 && multiset(r) == multiset(w) - multiset{k};
      Multinomial(r);
    }
    assert d == c * dr by {
      DenominatorRemove(w, k);
    }
    RegroupFactor(pr * d, pr, d, f, dr, c);
  }

  /** Taking one `x` out of `w` divides the denominator by `x`'s count. */
  lemma DenominatorRemove(w: seq<char>, x: char)
    requires x in w
    ensures Denominator(w) == multiset(w)[x] * Denominator(Remove(w, x))
  {
    var r := Remove(w, x);
    var m, m' := multiset(w), multiset(r);
    ProductRemoveOne(SortedKeys(w), m, x);
    forall k | k in SortedKeys(w) && k !in SortedKeys(r) ensures m'[k] == 0 {
    }
    forall k | k in SortedKeys(r) && k !in SortedKeys(w) ensures m'[k] == 0 {
      assert k in m';
    }
    ProductSameSupport(SortedKeys(w), SortedKeys(r), m');
  }

  lemma {:induction false} ProductRemoveOne(keys: seq<char>, m: multiset<char>, x: char)
    requires StrictlyIncreasing(keys) && x in keys && x in m
    ensures FactorialProduct(keys, m) == m[x] * FactorialProduct(keys, m - multiset{x})
  {
    var init, last := keys[..|keys| - 1], keys[|keys| - 1];
    assert keys == init + [last];
    if last == x {
      assert x !in init;
      ProductAgree(init, m, m - multiset{x});
      ProductRemoveLast(keys, m, x);
    } else {
      assert x in init;
      ProductRemoveOne(init, m, x);
      ProductRemoveEarlier(keys, m, x);
    }
  }

  lemma ProductRemoveLast(keys: seq<char>, m: multiset<char>, x: char)
    requires keys != [] && keys[|keys| - 1] == x && x in m
    requires FactorialProduct(keys[..|keys| - 1], m) == FactorialProduct(keys[..|keys| - 1], m - multiset{x})
    ensures FactorialProduct(keys, m) == m[x] * FactorialProduct(keys, m - multiset{x})
  {
    var m' := m - multiset{x};
    assert m'[x] == m[x] - 1;
    assert Fact(m[x]) == m[x] * Fact(m'[x]);
    RegroupFactor(FactorialProduct(keys, m), FactorialProduct(keys[..|keys| - 1], m), Fact(m[x]),
                  FactorialProduct(keys, m'), Fact(m'[x]), m[x]);
  }

  lemma ProductRemoveEarlier(keys: seq<char>, m: multiset<char>, x: char)
    requires keys != [] && keys[|keys| - 1] != x
    requires FactorialProduct(keys[..|keys| - 1], m)
          == m[x] * FactorialProduct(keys[..|keys| - 1], m - multiset{x})
    ensures FactorialProduct(keys, m) == m[x] * FactorialProduct(keys, m - multiset{x})
  {
    var init, last, m' := keys[..|keys| - 1], keys[|keys| - 1], m - multiset{x};
    assert m'[last] == m[last];
    RegroupFactor(FactorialProduct(keys, m), Fact(m[last]), FactorialProduct(init, m),
                  FactorialProduct(keys, m'), FactorialProduct(init, m'), m[x]);
  }

  lemma {:induction false} ProductAgree(keys: seq<char>, m1: multiset<char>, m2: multiset<char>)
    requires forall k :: k in keys ==> m1[k] == m2[k]
    ensures FactorialProduct(keys, m1) == FactorialProduct(keys, m2)
  {
    if keys != [] {
      assert forall k :: k in keys[..|keys| - 1] ==> k in keys;
      ProductAgree(keys[..|keys| - 1], m1, m2);
    }
  }

  /** Letters whose count is zero contribute `0! == 1`, so they do not change the product. */
  lemma {:induction false} ProductSameSupport(keys1: seq<char>, keys2: seq<char>, m: multiset<char>)
    requires StrictlyIncreasing(keys1) && StrictlyIncreasing(keys2)
    requires forall k :: k in keys1 && k !in keys2 ==> m[k] == 0
    requires forall k :: k in keys2 && k !in keys1 ==> m[k] == 0
    ensures FactorialProduct(keys1, m) == FactorialProduct(keys2, m)
    decreases |keys1| + |keys2|
  {
    if keys1 == [] && keys2 == [] {
    } else if keys2 == [] || (keys1 != [] && keys1[|keys1| - 1] > keys2[|keys2| - 1]) {
      ProductDropUnused(keys1, keys2, m);
      ProductSameSupport(keys1[..|keys1| - 1], keys2, m);
    } else if keys1 == [] || keys1[|keys1| - 1] < keys2[|keys2| - 1] {
      ProductDropUnused(keys2, keys1, m);
      ProductSameSupport(keys1, keys2[..|keys2| - 1], m);
    } else {
      var init1, init2 := keys1[..|keys1| - 1], keys2[..|keys2| - 1];
      SplitLast(keys1);
      SplitLast(keys2);
      ProductSameSupport(init1, init2, m);
    }
  }

  /** The largest key of `keys1`, above every key of `keys2`, has count zero and can be dropped. */
  lemma ProductDropUnused(keys1: seq<char>, keys2: seq<char>, m: multiset<char>)
    requires StrictlyIncreasing(keys1) && StrictlyIncreasing(keys2) && keys1 != []
    requires keys2 == [] || keys1[|keys1| - 1] > keys2[|keys2| - 1]
    requires forall k :: k in keys1 && k !in keys2 ==> m[k] == 0
    requires forall k :: k in keys2 && k !in keys1 ==> m[k] == 0
    ensures FactorialProduct(keys1, m) == FactorialProduct(keys1[..|keys1| - 1], m)
    ensures StrictlyIncreasing(keys1[..|keys1| - 1])
    ensures forall k :: k in keys1[..|keys1| - 1] && k !in keys2 ==> m[k] == 0
    ensures forall k :: k in keys2 && k !in keys1[..|keys1| - 1] ==> m[k] == 0
  {
    var last := keys1[|keys1| - 1];
    SplitLast(keys1);
    if keys2 != [] {
      SplitLast(keys2);
    }
    assert last !in keys2;
    assert m[last] == 0;
  }

  /** The total of the counts in `m` of the letters in `keys`. */
  ghost function CountSum(keys: seq<char>, m: multiset<char>): nat
  {
    if keys == [] then 0 else CountSum(keys[..|keys| - 1], m) + m[keys[|keys| - 1]]
  }

  lemma {:induction false} CountSumAdd(keys: seq<char>, m: multiset<char>, y: char)
    requires StrictlyIncreasing(keys)
    ensures CountSum(keys, m + multiset{y}) == CountSum(keys, m) + (if y in keys then 1 else 0)
  {
    if keys != [] {
      var init := keys[..|keys| - 1];
      assert keys == init + [keys[|keys| - 1]];
      assert y in init ==> y != keys[|keys| - 1];
      CountSumAdd(init, m, y);
    }
  }

  lemma {:induction false} CountSumEmpty(keys: seq<char>)
    ensures CountSum(keys, multiset{}) == 0
  {
    if keys != [] {
      CountSumEmpty(keys[..|keys| - 1]);
    }
  }

  /** Counting every letter of `w` once per distinct letter gives back `|w|`. */
  lemma {:induction false} CountSumOfLetters(keys: seq<char>, w: seq<char>)
    requires StrictlyIncreasing(keys) && forall y :: y in w ==> y in keys
    ensures CountSum(keys, multiset(w)) == |w|
  {
    if w == [] {
      CountSumEmpty(keys);
    } else {
      assert w == [w[0]] + w[1..];
      assert multiset(w) == multiset(w[1..]) + multiset{w[0]};
      CountSumOfLetters(keys, w[1..]);
      CountSumAdd(keys, multiset(w[1..]), w[0]);
    }
  }

  /** Scaling each block by the denominator turns block sizes into letter counts. */
  lemma {:induction false} BlockSizesScaled(m: multiset<char>, keys: seq<char>, d: nat, f: nat)
    requires forall k :: k in keys ==> BlockBalanced(m, k, d, f)
    ensures BlockSizes(m, keys) * d == f * CountSum(keys, m)
  {
    if keys != [] {
      var init := keys[..|keys| - 1];
      assert forall k :: k in init ==> k in keys;
      BlockSizesScaled(m, init, d, f);
      BlockSizesScaledStep(m, keys, d, f);
    }
  }

  lemma BlockSizesScaledStep(m: multiset<char>, keys: seq<char>, d: nat, f: nat)
    requires keys != []
    requires BlockSizes(m, keys[..|keys| - 1]) * d == f * CountSum(keys[..|keys| - 1], m)
    requires BlockBalanced(m, keys[|keys| - 1], d, f)
    ensures BlockSizes(m, keys) * d == f * CountSum(keys, m)
  {
    var init, last := keys[..|keys| - 1], keys[|keys| - 1];
    ScaledSum(BlockSizes(m, keys), BlockSizes(m, init), |Perms(m - multiset{last})|, d,
              CountSum(keys, m), CountSum(init, m), m[last], f);
  }

  // ---- Arithmetic steps, stated on plain integers ----

  /** From `p1 == a * f1` and `f1 == k * g`: `p1 == k * p2` where `p2 == a * g`. */
  lemma RegroupFactor(p1: int, a: int, f1: int, p2: int, g: int, k: int)
    requires p1 == a * f1 && f1 == k * g && p2 == a * g
    ensures p1 == k * p2
  {
    assert a * (k * g) == k * (a * g);
  }

  lemma Substitute(p: int, bs: int, d: int, f: int, cs: int, n: int, fact: int)
    requires p == bs && bs * d == f * cs && cs == n && fact == n * f
    ensures p * d == fact
  {
  }

  lemma ScaledSum(bs: int, b: int, p: int, d: int, cs: int, s: int, c: int, f: int)
    requires bs == b + p && cs == s + c
    requires b * d == f * s && p * d == c * f
    ensures bs * d == f * cs
  {
    assert (b + p) * d == b * d + p * d;
    assert f * (s + c) == f * s + f * c;
  }

  lemma MulAtLeast(x: int, b: int)
    requires x >= 1 && b >= 0
    ensures x * b >= b
  {
    assert x * b == (x - 1) * b + b;
  }
}
