// The special case the comment in findIndex works through first: a word whose
// letters are all different. Every skipped branch of the imaginary trie then holds
// (n - 1)! words, and the rank is the word's value in the factorial number system.
module Factoradic {
  import opened ListOps
  import opened Permutations
  import opened WordIndex

  /** No letter occurs twice in `w`. */
  predicate AllDistinct(w: seq<char>)
  {
    forall i, j :: 0 <= i < j < |w| ==> w[i] != w[j]
  }

  /** The number of letters of `s` that sort before `c`: the `r` of the comment. */
  function CountLess(s: seq<char>, c: char): (r: nat)
    ensures r <= |s|
  {
    if s == [] then 0 else (if s[0] < c then 1 else 0) + CountLess(s[1..], c)
  }

  /** The distinct letters of `s` that sort before `c`. */
  ghost function Below(s: seq<char>, c: char): set<char>
  {
    set x | x in s && x < c
  }

  /**
   * The rank the comment describes for a word without repeated letters: at each step,
   * `r` skipped letters times `(n - 1)!` skipped words each, `n` being the letters left.
   */
  function FactoradicRank(w: seq<char>): nat
  {
    if w == [] then 0 else CountLess(w[1..], w[0]) * Fact(|w| - 1) + FactoradicRank(w[1..])
  }

  /** For a word with distinct letters the exact rank is its factorial-number-system value. */
  lemma {:induction false} DistinctRank(w: seq<char>)
    requires AllDistinct(w)
    ensures Rank(w) == FactoradicRank(w)
  {
    if w == [] {
      RankOfEmpty();
    } else {
      var m, c, keys := multiset(w), w[0], SortedKeys(w);
      assert c in keys;
      var j :| 0 <= j < |keys| && keys[j] == c;
      RankStep(w, keys, j);
      assert BlockSizes(m, keys[..j]) == j * Fact(|w| - 1) by {
        EqualBlocks(w, keys[..j]);
        UniformBlocks(m, keys[..j], Fact(|w| - 1));
      }
      assert j == CountLess(w[1..], c) by {
        KeyPosition(w, keys, j);
      }
      assert Rank(w[1..]) == FactoradicRank(w[1..]) by {
        DistinctRank(w[1..]);
      }
    }
  }

  /** With distinct letters every block of orderings opening with a letter `k` has `(|w| - 1)!` members. */
  lemma EqualBlocks(w: seq<char>, keys: seq<char>)
    requires AllDistinct(w) && forall k :: k in keys ==> k in w
    ensures forall k :: k in keys ==> |Perms(multiset(w) - multiset{k})| == Fact(|w| - 1)
  {
    forall k | k in keys ensures |Perms(multiset(w) - multiset{k})| == Fact(|w| - 1) {
      var r := Remove(w, k);
      assert multiset(r) == multiset(w) - multiset{k};
      forall y ensures multiset(r)[y] <= 1 {
        DistinctCounts(w, y);
      }
      PermCountNoRepeats(r);
    }
  }

  /** A letter occurs at most once in a word with distinct letters. */
  lemma {:induction false} DistinctCounts(w: seq<char>, y: char)
    requires AllDistinct(w)
    ensures multiset(w)[y] <= 1
  {
    if w != [] {
      assert w == [w[0]] + w[1..];
      assert multiset(w) == multiset{w[0]} + multiset(w[1..]);
      assert AllDistinct(w[1..]);
      DistinctCounts(w[1..], y);
      if y == w[0] {
        assert y !in w[1..];
      }
    }
  }

  /** Without repeated letters every ordering is distinct: `|s|!` of them. */
  lemma PermCountNoRepeats(s: seq<char>)
    requires forall y :: multiset(s)[y] <= 1
    ensures |Perms(multiset(s))| == Fact(|s|)
  {
    ProductOfOnes(SortedKeys(s), multiset(s));
    assert Denominator(s) == 1;
    Multinomial(s);
  }

  /** `numDistinctPermutations` of a word without repeated letters is `len(w)!`. */
  lemma DistinctPermCount(w: seq<char>)
    requires AllDistinct(w)
    ensures NumDistinctPermutations(w) == Fact(|w|)
  {
    forall y ensures multiset(w)[y] <= 1 {
      DistinctCounts(w, y);
    }
    PermCountNoRepeats(w);
  }

  /** Counts of at most one contribute `1!` or `0!`: the denominator is 1. */
  lemma {:induction false} ProductOfOnes(keys: seq<char>, m: multiset<char>)
    requires forall y :: m[y] <= 1
    ensures FactorialProduct(keys, m) == 1
  {
    if keys != [] {
      ProductOfOnes(keys[..|keys| - 1], m);
      assert Fact(m[keys[|keys| - 1]]) == 1;
    }
  }

  /** Blocks of one common size `b` add up to `|keys| * b`. */
  lemma {:induction false} UniformBlocks(m: multiset<char>, keys: seq<char>, b: nat)
    requires forall k :: k in keys ==> |Perms(m - multiset{k})| == b
    ensures BlockSizes(m, keys) == |keys| * b
  {
    if keys != [] {
      var init := keys[..|keys| - 1];
      assert forall k :: k in init ==> k in keys;
      UniformBlocks(m, init, b);
      assert keys[|keys| - 1] in keys;
      AddOneMore(BlockSizes(m, keys), BlockSizes(m, init), |init|, b);
    }
  }

  lemma AddOneMore(total: int, part: int, n: int, b: int)
    requires part == n * b && total == part + b
    ensures total == (n + 1) * b
  {
  }

  /** The position of `w[0]` among the sorted distinct letters of `w` is the `r` of the comment. */
  lemma KeyPosition(w: seq<char>, keys: seq<char>, j: nat)
    requires AllDistinct(w) && |w| > 0
    requires StrictlyIncreasing(keys) && forall y :: y in keys <==> y in w
    requires j < |keys| && keys[j] == w[0]
    ensures j == CountLess(w[1..], w[0])
  {
    var c := w[0];
    var front := keys[..j];
    assert Below(front, c) == Below(w[1..], c) by {
      forall y ensures y in Below(front, c) <==> y in Below(w[1..], c) {
        KeysBelow(keys, j, y);
        if y in w && y < c {
          assert y != w[0];
          assert w == [w[0]] + w[1..];
        }
      }
    }
    assert forall y :: y in front ==> y < c by {
      forall y | y in front ensures y < c {
        KeysBelow(keys, j, y);
      }
    }
    CountLessAll(front, c);
    assert AllDistinct(front);
    CountLessCard(front, c);
    assert AllDistinct(w[1..]);
    CountLessCard(w[1..], c);
  }

  /** When every letter of `s` is below `c`, all of them are counted. */
  lemma {:induction false} CountLessAll(s: seq<char>, c: char)
    requires forall y :: y in s ==> y < c
    ensures CountLess(s, c) == |s|
  {
    if s != [] {
      assert s[0] in s;
      assert forall y :: y in s[1..] ==> y in s;
      CountLessAll(s[1..], c);
    }
  }

  /** Without repeats, counting letters below `c` is counting distinct letters below `c`. */
  lemma {:induction false} CountLessCard(s: seq<char>, c: char)
    requires AllDistinct(s)
    ensures CountLess(s, c) == |Below(s, c)|
  {
    if s == [] {
      assert Below(s, c) == {};
    } else {
      assert s == [s[0]] + s[1..];
      assert AllDistinct(s[1..]);
      CountLessCard(s[1..], c);
      assert s[0] !in s[1..];
      if s[0] < c {
        assert Below(s, c) == Below(s[1..], c) + {s[0]};
      } else {
        assert Below(s, c) == Below(s[1..], c);
      }
    }
  }

  /** The comment's example: "sawyer" sits at position 3 * 5! + 2 * 3! + 2 * 2! = 376. */
  lemma SawyerRank()
    ensures Rank("sawyer") == 376
  {
    assert AllDistinct("sawyer");
    DistinctRank("sawyer");
    SawyerDigits();
  }

  /** The digits of "sawyer": 3, 0, 2, 2, 0, 0 letters skipped at the six steps. */
  lemma SawyerDigits()
    ensures FactoradicRank("sawyer") == 376
  {
    assert Fact(5) == 120 && Fact(3) == 6 && Fact(2) == 2;
    assert "sawyer"[1..] == "awyer" && "awyer"[1..] == "wyer" && "wyer"[1..] == "yer" && "yer"[1..] == "er";
    assert FactoradicRank("er") == 0;
    assert CountLess("er", 'y') == 2;
    assert FactoradicRank("yer") == 2 * 2;
    assert CountLess("yer", 'w') == 2;
    assert FactoradicRank("wyer") == 2 * 6 + 4;
    assert CountLess("wyer", 'a') == 0;
    assert FactoradicRank("awyer") == 16;
    assert CountLess("awyer", 's') == 3;
  }
}
