// The specification side: the distinct orderings of a multiset of letters,
// the order a sorted Python list of strings uses, and the rank of a word
// among the distinct orderings of its own letters.
module Permutations {
  import opened ListOps

  /** Every distinct ordering of the letters in `m`, each once. */
  ghost function Perms(m: multiset<char>): set<seq<char>>
    decreases |m|
  {
    if |m| == 0 then {[]}
    else set x, p | x in m && p in Perms(m - multiset{x}) :: [x] + p
  }

  /** `Perms(m)` holds exactly the sequences whose letters are those of `m`. */
  lemma {:induction false} PermsExactly(m: multiset<char>, p: seq<char>)
    ensures p in Perms(m) <==> multiset(p) == m
    decreases |m|
  {
    if p in Perms(m) {
      InPermsHasLetters(m, p);
    }
    if multiset(p) == m {
      LettersInPerms(m, p);
    }
  }

  lemma {:induction false} InPermsHasLetters(m: multiset<char>, p: seq<char>)
    requires p in Perms(m)
    ensures multiset(p) == m
    decreases |m|
  {
    if |m| != 0 {
      var x, q := PermsHead(m, p);
      InPermsHasLetters(m - multiset{x}, q);
      ConsLetters(m, x, q);
    }
  }

  /** A letter of `m` put before the rest of `m` gives back `m`. */
  lemma ConsLetters(m: multiset<char>, x: char, q: seq<char>)
    requires x in m && multiset(q) == m - multiset{x}
    ensures multiset([x] + q) == m
  {
    assert multiset([x] + q) == multiset{x} + multiset(q);
  }

  /** One unfolding of `Perms`: a non-empty ordering is a letter of `m` before an ordering of the rest. */
  lemma PermsHead(m: multiset<char>, p: seq<char>) returns (x: char, q: seq<char>)
    requires |m| != 0 && p in Perms(m)
    ensures x in m && q in Perms(m - multiset{x}) && p == [x] + q
  {
    x, q :| x in m && q in Perms(m - multiset{x}) && p == [x] + q;
  }

  lemma {:induction false} LettersInPerms(m: multiset<char>, p: seq<char>)
    requires multiset(p) == m
    ensures p in Perms(m)
    decreases |m|
  {
    if |m| == 0 {
      assert |p| == |multiset(p)| == 0;
    } else {
      assert |p| == |m| > 0;
      var x, q := p[0], p[1..];
      assert p == [x] + q;
      assert multiset(p) == multiset{x} + multiset(q);
      assert x in m;
      LettersInPerms(m - multiset{x}, q);
    }
  }

  /** Strict lexicographic order, as Python compares two strings or two lists. */
  predicate Less(a: seq<char>, b: seq<char>)
  {
    |b| > 0 && (|a| == 0 || a[0] < b[0] || (a[0] == b[0] && Less(a[1..], b[1..])))
  }

  lemma {:induction false} LessIrreflexive(a: seq<char>)
    ensures !Less(a, a)
  {
    if |a| > 0 {
      LessIrreflexive(a[1..]);
    }
  }

  /** The distinct orderings of `w`'s letters that sort strictly before `w`. */
  ghost function Smaller(w: seq<char>): set<seq<char>>
  {
    set p | p in Perms(multiset(w)) && Less(p, w)
  }

  /** The 0-based position of `w` in the sorted, duplicate-free list of its letters' orderings. */
  ghost function Rank(w: seq<char>): nat
  {
    |Smaller(w)|
  }

  /** `w` is one of its own orderings and none before it is `w` itself: its rank is a valid index. */
  lemma RankBelowPermCount(w: seq<char>)
    ensures Rank(w) < |Perms(multiset(w))|
  {
    var P, S := Perms(multiset(w)), Smaller(w);
    PermsExactly(multiset(w), w);
    LessIrreflexive(w);
    assert w in P && w !in S;
    assert P == S + (P - S);
    assert S * (P - S) == {};
    assert w in P - S;
  }

  lemma RankOfEmpty()
    ensures Rank([]) == 0
  {
    assert Smaller([]) == {};
  }

  /** The sequences of `S` that start with `x`. */
  ghost function StartingWith(S: set<seq<char>>, x: char): set<seq<char>>
  {
    set p | p in S && |p| > 0 && p[0] == x
  }

  /** The sequences of `S` whose first letter is one of `keys`. */
  ghost function StartingIn(S: set<seq<char>>, keys: seq<char>): set<seq<char>>
  {
    set p | p in S && |p| > 0 && p[0] in keys
  }

  ghost function Prefixed(x: char, S: set<seq<char>>): set<seq<char>>
  {
    set p | p in S :: [x] + p
  }

  lemma {:induction false} PrefixedCard(x: char, S: set<seq<char>>)
    ensures |Prefixed(x, S)| == |S|
    decreases |S|
  {
    if S != {} {
      var q :| q in S;
      PrefixedCard(x, S - {q});
      assert Prefixed(x, S) == Prefixed(x, S - {q}) + {[x] + q};
      forall q' | q' in S - {q} ensures [x] + q' != [x] + q {
        assert ([x] + q')[1..] == q' && ([x] + q)[1..] == q;
      }
    }
  }

  /** The orderings of `m` that start with `x` are `x` followed by an ordering of the rest. */
  lemma PermsStartingWith(m: multiset<char>, x: char)
    requires x in m
    ensures StartingWith(Perms(m), x) == Prefixed(x, Perms(m - multiset{x}))
    ensures |StartingWith(Perms(m), x)| == |Perms(m - multiset{x})|
  {
    forall p ensures p in StartingWith(Perms(m), x) <==> p in Prefixed(x, Perms(m - multiset{x})) {
      PermsExactly(m, p);
      if p in StartingWith(Perms(m), x) {
        assert p == [x] + p[1..];
        assert multiset(p) == multiset{x} + multiset(p[1..]);
        PermsExactly(m - multiset{x}, p[1..]);
      }
      if p in Prefixed(x, Perms(m - multiset{x})) {
        var q :| q in Perms(m - multiset{x}) && p == [x] + q;
        PermsExactly(m - multiset{x}, q);
        assert multiset(p) == multiset{x} + multiset(q);
      }
    }
    PrefixedCard(x, Perms(m - multiset{x}));
  }

  /** The number of orderings of `m` that start with each of `keys` in turn, added up. */
  ghost function BlockSizes(m: multiset<char>, keys: seq<char>): nat
  {
    if keys == [] then 0
    else BlockSizes(m, keys[..|keys| - 1]) + |Perms(m - multiset{keys[|keys| - 1]})|
  }

  lemma BlockSizesExtend(m: multiset<char>, keys: seq<char>, j: nat)
    requires j < |keys|
    ensures BlockSizes(m, keys[..j + 1]) == BlockSizes(m, keys[..j]) + |Perms(m - multiset{keys[j]})|
  {
    assert keys[..j + 1][..j] == keys[..j];
  }

  /** Orderings are counted by their first letter: every distinct first letter opens its own block. */
  lemma {:induction false} StartingInCard(m: multiset<char>, keys: seq<char>)
    requires StrictlyIncreasing(keys)
    requires forall k :: k in keys ==> k in m
    ensures |StartingIn(Perms(m), keys)| == BlockSizes(m, keys)
  {
    if keys != [] {
      var S, init, last := Perms(m), keys[..|keys| - 1], keys[|keys| - 1];
      assert keys == init + [last];
      assert |StartingIn(S, init)| == BlockSizes(m, init) by {
        assert forall k :: k in init ==> k in keys;
        StartingInCard(m, init);
      }
      assert |StartingWith(S, last)| == |Perms(m - multiset{last})| by {
        PermsStartingWith(m, last);
      }
      assert |StartingIn(S, keys)| == |StartingIn(S, init)| + |StartingWith(S, last)| by {
        StartingInSplit(S, init, last);
      }
    }
  }

  /** Adding one more first letter, not already among `keys`, adds its block and nothing else. */
  lemma StartingInSplit(S: set<seq<char>>, keys: seq<char>, x: char)
    requires x !in keys
    ensures |StartingIn(S, keys + [x])| == |StartingIn(S, keys)| + |StartingWith(S, x)|
  {
    var A, B := StartingIn(S, keys), StartingWith(S, x);
    assert StartingIn(S, keys + [x]) == A + B;
    assert A * B == {};
  }

  /** Every ordering of a non-empty `m` starts with one of its distinct letters. */
  lemma AllStartInKeys(m: multiset<char>, keys: seq<char>)
    requires |m| > 0
    requires forall k :: k in keys <==> k in m
    ensures StartingIn(Perms(m), keys) == Perms(m)
  {
    forall p | p in Perms(m) ensures |p| > 0 && p[0] in keys {
      PermsExactly(m, p);
      assert |p| == |m|;
      assert p[0] in multiset(p);
    }
  }

  /**
   * The descent through the imaginary trie, one level: the orderings below `w`
   * are those opening with a smaller distinct letter (the first `j` keys) and those
   * opening with `w[0]` whose tail sorts below `w[1..]`.
   */
  lemma RankStep(w: seq<char>, keys: seq<char>, j: nat)
    requires |w| > 0
    requires StrictlyIncreasing(keys) && forall k :: k in keys <==> k in w
    requires j < |keys| && keys[j] == w[0]
    ensures Rank(w) == BlockSizes(multiset(w), keys[..j]) + Rank(w[1..])
  {
    var m, c := multiset(w), w[0];
    var A := StartingIn(Perms(m), keys[..j]);
    var B := Prefixed(c, Smaller(w[1..]));
    assert Smaller(w) == A + B by {
      SmallerSplit(w, keys, j);
    }
    assert |A + B| == |A| + |B| by {
      BlocksDisjoint(Perms(m), keys, j, Smaller(w[1..]));
      DisjointUnionCard(A, B);
    }
    assert |A| == BlockSizes(m, keys[..j]) by {
      StartingInPrefixCard(m, keys, j);
    }
    assert |B| == Rank(w[1..]) by {
      PrefixedCard(c, Smaller(w[1..]));
    }
  }

  lemma StartingInPrefixCard(m: multiset<char>, keys: seq<char>, j: nat)
    requires StrictlyIncreasing(keys) && j <= |keys|
    requires forall k :: k in keys ==> k in m
    ensures |StartingIn(Perms(m), keys[..j])| == BlockSizes(m, keys[..j])
  {
    assert forall k :: k in keys[..j] ==> k in keys;
    StartingInCard(m, keys[..j]);
  }

  /** Sequences opening below `keys[j]` and sequences opening with `keys[j]` are apart. */
  lemma BlocksDisjoint(S: set<seq<char>>, keys: seq<char>, j: nat, T: set<seq<char>>)
    requires StrictlyIncreasing(keys) && j < |keys|
    ensures forall p :: p in StartingIn(S, keys[..j]) ==> p !in Prefixed(keys[j], T)
  {
    forall p | p in StartingIn(S, keys[..j]) ensures p !in Prefixed(keys[j], T) {
      KeysBelow(keys, j, p[0]);
    }
  }

  lemma DisjointUnionCard(A: set<seq<char>>, B: set<seq<char>>)
    requires forall p :: p in A ==> p !in B
    ensures |A + B| == |A| + |B|
  {
    assert A * B == {};
  }

  lemma SmallerSplit(w: seq<char>, keys: seq<char>, j: nat)
    requires |w| > 0
    requires StrictlyIncreasing(keys) && forall k :: k in keys <==> k in w
    requires j < |keys| && keys[j] == w[0]
    ensures Smaller(w) == StartingIn(Perms(multiset(w)), keys[..j]) + Prefixed(w[0], Smaller(w[1..]))
  {
    var A := StartingIn(Perms(multiset(w)), keys[..j]);
    var B := Prefixed(w[0], Smaller(w[1..]));
    forall p | p in Smaller(w) ensures p in A + B {
      SmallerIsPerm(w, p);
      if p[0] < w[0] {
        KeysBelow(keys, j, p[0]);
      } else {
        SmallerSameFirst(w, p);
      }
    }
    forall p | p in A ensures p in Smaller(w) {
      KeysBelow(keys, j, p[0]);
    }
    forall p | p in B ensures p in Smaller(w) {
      PrefixedSmaller(w, p);
    }
  }

  /** An ordering below `w` has `w`'s length and opens with one of `w`'s letters. */
  lemma SmallerIsPerm(w: seq<char>, p: seq<char>)
    requires |w| > 0 && p in Smaller(w)
    ensures |p| == |w| && p[0] in w && Less(p, w)
  {
    PermsExactly(multiset(w), p);
    assert |p| == |multiset(p)| == |w|;
    assert p[0] in multiset(p);
  }

  /** The first `j` keys of a strictly increasing list are exactly its keys below `keys[j]`. */
  lemma KeysBelow(keys: seq<char>, j: nat, y: char)
    requires StrictlyIncreasing(keys) && j < |keys|
    ensures y in keys[..j] <==> y in keys && y < keys[j]
  {
    if y in keys && y < keys[j] {
      var t :| 0 <= t < |keys| && keys[t] == y;
      assert t < j;
      assert y == keys[..j][t];
    }
  }

  /** An ordering below `w` that opens with `w[0]` continues with one below `w[1..]`. */
  lemma SmallerSameFirst(w: seq<char>, p: seq<char>)
    requires |w| > 0 && p in Smaller(w) && |p| > 0 && p[0] == w[0]
    ensures p in Prefixed(w[0], Smaller(w[1..]))
  {
    PermsExactly(multiset(w), p);
    SameHeadLetters(p, w);
    PermsExactly(multiset(w[1..]), p[1..]);
    assert p[1..] in Smaller(w[1..]);
    assert p == [w[0]] + p[1..];
  }

  /** `w[0]` followed by an ordering below `w[1..]` is an ordering below `w`. */
  lemma PrefixedSmaller(w: seq<char>, p: seq<char>)
    requires |w| > 0 && p in Prefixed(w[0], Smaller(w[1..]))
    ensures p in Smaller(w)
  {
    var q :| q in Smaller(w[1..]) && p == [w[0]] + q;
    assert p[1..] == q;
    PermsExactly(multiset(w[1..]), q);
    SameHeadLetters(p, w);
    PermsExactly(multiset(w), p);
  }

  /** Two sequences opening with the same letter have the same letters exactly when their tails do. */
  lemma SameHeadLetters(p: seq<char>, w: seq<char>)
    requires |p| > 0 && |w| > 0 && p[0] == w[0]
    ensures multiset(p) == multiset(w) <==> multiset(p[1..]) == multiset(w[1..])
  {
    assert p == [p[0]] + p[1..] && w == [w[0]] + w[1..];
    assert multiset(p) == multiset{p[0]} + multiset(p[1..]);
    assert multiset(w) == multiset{w[0]} + multiset(w[1..]);
    assert multiset(p[1..]) == multiset(p) - multiset{p[0]};
    assert multiset(w[1..]) == multiset(w) - multiset{w[0]};
  }
}
