// Small words worked through by hand: the boundary cases and the examples of
// a sorted, duplicate-free list of orderings, proved from the general results.
module Examples {
  import opened ListOps
  import opened Permutations
  import opened WordIndex
  import opened Factoradic

  /** The empty word has exactly one ordering, itself. */
  lemma NumDistinctPermutationsOfEmpty()
    ensures NumDistinctPermutations([]) == 1
  {
    assert Denominator([]) == 1;
  }

  /** "aaa" has a single distinct ordering: `3! / 3! == 1`. */
  lemma NumDistinctPermutationsOfAaa()
    ensures NumDistinctPermutations("aaa") == 1
  {
    assert "aaa"[1..] == "aa" && "aa"[1..] == "a" && "a"[1..] == [];
    assert SortedKeys("a") == "a";
    assert SortedKeys("aa") == "a";
    assert SortedKeys("aaa") == "a";
    assert "a"[..0] == [];
    assert multiset("aaa")['a'] == 3;
    assert Fact(3) == 6;
    assert FactorialProduct("a", multiset("aaa")) == FactorialProduct([], multiset("aaa")) * Fact(3) == 6;
  }

  /** A repeated letter is counted once per distinct ordering: "aab", "aba", "baa". */
  lemma NumDistinctPermutationsOfAab()
    ensures NumDistinctPermutations("aab") == 3
  {
    DenominatorOfAab();
    assert Fact(3) == 6;
  }

  /** The denominator of "aab" is `2! * 1!`. */
  lemma DenominatorOfAab()
    ensures Denominator("aab") == 2
  {
    SortedKeysOfAab();
    var m := multiset("aab");
    assert m['a'] == 2 && m['b'] == 1;
    assert "ab"[..1] == "a" && "a"[..0] == [];
    assert Fact(2) == 2 && Fact(1) == 1;
    assert FactorialProduct("a", m) == FactorialProduct([], m) * Fact(2) == 2;
    assert FactorialProduct("ab", m) == FactorialProduct("a", m) * Fact(1) == 2;
  }

  lemma SortedKeysOfAab()
    ensures SortedKeys("aab") == "ab"
  {
    assert "aab"[1..] == "ab" && "ab"[1..] == "b" && "b"[1..] == [];
    assert SortedKeys("b") == "b";
    assert Insert("b", 'a') == "ab";
    assert SortedKeys("ab") == "ab";
    assert Insert("ab", 'a') == "ab";
  }

  /** "ba" is the second of "ab", "ba". */
  lemma RankOfBa()
    ensures Rank("ba") == 1
  {
    assert AllDistinct("ba");
    DistinctRank("ba");
    assert "ba"[1..] == "a" && "a"[1..] == [];
    assert CountLess("a", 'b') == 1;
  }

  /** "ab" is the first of its orderings. */
  lemma RankOfAb()
    ensures Rank("ab") == 0
  {
    assert AllDistinct("ab");
    DistinctRank("ab");
    assert "ab"[1..] == "b" && "b"[1..] == [];
    assert CountLess("b", 'a') == 0;
  }

  /** A word of one repeated letter is its only ordering. */
  lemma RankOfAa()
    ensures Rank("aa") == 0
  {
    assert "aa"[1..] == "a" && "a"[1..] == [] && "a"[..0] == [];
    assert Rank("a") == 0 by {
      RankStep("a", "a", 0);
      RankOfEmpty();
    }
    RankStep("aa", "a", 0);
  }

  lemma RankOfAaa()
    ensures Rank("aaa") == 0
  {
    assert "aaa"[1..] == "aa" && "a"[..0] == [];
    RankOfAa();
    RankStep("aaa", "a", 0);
  }

  /** "aab" opens the list: no branch is skipped at any step. */
  lemma RankOfAab()
    ensures Rank("aab") == 0
  {
    assert "aab"[1..] == "ab" && "ab"[..0] == [];
    RankOfAb();
    RankStep("aab", "ab", 0);
  }

  /** "aba" is second: no branch is skipped at the first step, then "ba" is second of its two. */
  lemma RankOfAba()
    ensures Rank("aba") == 1
  {
    assert "aba"[1..] == "ba" && "ab"[..0] == [];
    RankOfBa();
    RankStep("aba", "ab", 0);
  }

  /** "baa" comes after "aab" and "aba": the one skipped branch, opening with 'a', holds two words. */
  lemma RankOfBaa()
    ensures Rank("baa") == 2
  {
    assert "baa"[1..] == "aa" && "ab"[..1] == "a";
    RankOfAa();
    BlockOfBaa();
    RankStep("baa", "ab", 1);
  }

  lemma BlockOfBaa()
    ensures BlockSizes(multiset("baa"), "a") == 2
  {
    assert "a"[..0] == [];
    assert multiset("baa") - multiset{'a'} == multiset("ba");
    assert AllDistinct("ba");
    DistinctPermCount("ba");
    assert Fact(2) == 2;
  }
}
