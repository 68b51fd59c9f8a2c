# word_index: the rank of a word among the orderings of its letters

`word_index.py` answers one question: at which position does a word appear in
the alphabetised, duplicate-free list of all orderings of its own letters? It
does so without building that list. `findIndex(w)` walks `w` from left to right.
At every step it looks at the distinct letters still unused, in sorted order.
Below each of them that is smaller than the current letter lies a whole branch of
an "imaginary trie" of skipped words. The size of that branch is the number of
distinct orderings of the remaining letters with one copy of that letter taken
out. The nested helper `numDistinctPermutations` computes it with the
multinomial coefficient `n! / (n_0! * ... * n_k!)`.

The model has five modules, one file each:

- `ListOps.dfy` (module `ListOps`): the two Python list operations the algorithm
  relies on. `Remove` is `list.remove`. `SortedKeys` is
  `sorted(collections.Counter(l).keys())`.
- `Permutations.dfy` (module `Permutations`): the specification, which is
  independent of the algorithm.
  - `Perms(m)` is the set of distinct orderings of a multiset of letters.
  - `Less` is Python's lexicographic order on strings.
  - `Rank(w)` is the number of orderings of `w`'s letters that sort strictly
    before `w`, which is `w`'s 0-based index in the sorted, duplicate-free list.
  - The counting lemmas split that set one level of the trie at a time.
- `WordIndex.dfy` (module `WordIndex`): the algorithm itself, plus the proof of
  the multinomial identity.
  - `NumDistinctPermutations` is a function, as in the source.
  - `FindIndex` is a method with the source's two loops: the outer `for c in w`,
    and the inner scan over the sorted keys that ends at `break`. It has the
    accumulator `numSkipped`, the shrinking `charList`, and the copy `currW`.
- `Factoradic.dfy` (module `Factoradic`): the case the source comment works
  through, a word whose letters are all different. There every skipped branch
  holds `(n - 1)!` words, and the rank is the factorial-number-system value.
  This includes the comment's "sawyer" example.
- `Examples.dfy` (module `Examples`): the boundary cases and small words
  ("", "aaa", "aab", "aba", "baa", "ab", "ba"), proved from the general lemmas.

`FindIndex` is proved against the specification:
`ensures numSkipped == Rank(w)` and `ensures numSkipped < NumDistinctPermutations(w)`.
Its outer loop keeps `charList == w[i..]` exactly. This holds because
`list.remove` takes out the first occurrence, and that occurrence is `w[i]`. So
the current letter is always among the sorted keys and neither `remove` can
fail. The outer loop also keeps `numSkipped + Rank(w[i..]) == Rank(w)`. The
inner loop keeps `numSkipped` equal to its value at the start of the step plus
the sizes of the branches of the keys already passed, and never decreasing.
`NumDistinctPermutations` is proved to be an exact division. Its quotient is
proved to equal `|Perms(multiset(w))|`.

Where the comment and the code differ, the model follows the code. The comment
at word_index.py:33-35 says each step adds `r * (n_i!)`, with `n_i` the number
of letters in the word at that step. The code, and the comment's own "sawyer"
example (`5!` for a six-letter word), add `(n_i - 1)!` per skipped letter.
`Factoradic.FactoradicRank` states the `(n - 1)!` form, and `Factoradic.DistinctRank`
proves it equals `Rank`.

## Model

| member | source | states |
|---|---|---|
| `WordIndex.FindIndex` | word_index.py:13-81 | the result is the number of distinct orderings of `w`'s letters that sort strictly before `w` (its 0-based index in the alphabetised duplicate-free list), and it is below `numDistinctPermutations(w)`; both `remove` calls are proved to find their letter |
| `WordIndex.NumDistinctPermutations` | word_index.py:42-58 | `len(w)!` divided by the product of the letters' count factorials; the division is exact (quotient times denominator is `len(w)!`), the quotient is the number of distinct orderings of `w`'s letters, and it is at least 1 |
| `WordIndex.Multinomial` | word_index.py:44-50 | the number of distinct orderings of `w`'s letters times `n_0! * ... * n_k!` is `len(w)!` |
| `WordIndex.BlockScaled` | word_index.py:44-50 | the orderings opening with a letter `k` of `w`, times the denominator of `w`, equal `k`'s count times `(len(w) - 1)!` |
| `WordIndex.PermCountIsBlockSum` | word_index.py:44-50 | the distinct orderings of a non-empty word are the sum, over its distinct letters, of those opening with each letter |
| `WordIndex.DenominatorRemove` | word_index.py:53-56 | removing one copy of a letter present in `w` divides the denominator by that letter's count |
| `WordIndex.ProductRemoveOne` | word_index.py:53-56 | in the product of count factorials, taking one `x` out divides the product by the count of `x` |
| `WordIndex.ProductSameSupport` | word_index.py:53-56 | letters whose count is zero contribute `0! = 1`, so two key lists covering the same present letters give the same product |
| `WordIndex.Fact` | word_index.py:56-58 | `math.factorial` is at least 1, so no denominator is zero |
| `WordIndex.FactorialProduct` | word_index.py:56 | the `reduce` of count factorials starting from 1 is at least 1 |
| `WordIndex.Denominator` | word_index.py:53-56 | the denominator `n_0! * ... * n_k!` is at least 1 |
| `WordIndex.CountSumOfLetters` | word_index.py:45-48 | the counts of the distinct letters of `w` add up to `len(w)` |
| `WordIndex.BlockSizesScaled` | word_index.py:44-50 | when every block, scaled by `d`, is its letter's count scaled by `f`, the sum of the blocks scaled by `d` is `f` times the sum of the counts |
| `Permutations.PermsExactly` | word_index.py:13-14 | a sequence is one of the distinct orderings of a multiset exactly when its letters are that multiset |
| `Permutations.RankBelowPermCount` | word_index.py:13-14 | the rank of `w` is a valid index: strictly below the number of distinct orderings of its letters |
| `Permutations.RankOfEmpty` | word_index.py:61-81 | the empty word has rank 0 |
| `Permutations.RankStep` | word_index.py:26-31 | the rank of `w` is the total size of the branches for the distinct letters below `w[0]`, plus the rank of `w[1..]` among its own orderings |
| `Permutations.SmallerSplit` | word_index.py:21-31 | the orderings below `w` are those opening with a smaller distinct letter, together with `w[0]` followed by the orderings below `w[1..]` |
| `Permutations.PermsStartingWith` | word_index.py:21-26 | the orderings opening with `x` are `x` followed by an ordering of the remaining letters, and there are exactly as many |
| `Permutations.StartingInCard` | word_index.py:67-76 | the orderings opening with any of a list of distinct keys number the sum of the per-key branch sizes |
| `Permutations.AllStartInKeys` | word_index.py:65 | every ordering of a non-empty multiset opens with one of its distinct letters |
| `Permutations.KeysBelow` | word_index.py:69-71 | in a sorted duplicate-free key list, the keys before position `j` are exactly the keys below `keys[j]`: the scan that breaks at `c` passes every smaller letter once and no other |
| `Permutations.BlockSizesExtend` | word_index.py:69-76 | passing one more key adds that key's branch size to the running total |
| `Permutations.SmallerSameFirst` | word_index.py:26-30 | an ordering below `w` that opens with `w[0]` continues with an ordering below `w[1..]` |
| `Permutations.PrefixedSmaller` | word_index.py:26-30 | `w[0]` followed by an ordering below `w[1..]` is an ordering below `w` |
| `Permutations.PrefixedCard` | word_index.py:24-26 | putting one letter in front of every word of a set keeps the number of words |
| `ListOps.Remove` | word_index.py:74-79 | `list.remove(x)` on a list holding `x` shortens it by one and takes exactly one `x` out of its letters; a missing `x` (ValueError in Python) is excluded by the precondition |
| `ListOps.RemoveDropsFirstOccurrence` | word_index.py:75-79 | the copy `remove` takes out is the first occurrence, and the letters around it keep their order |
| `ListOps.SortedKeys` | word_index.py:65 | `sorted(Counter(l).keys())` is strictly increasing and holds exactly the letters of `l` |
| `ListOps.Insert` | word_index.py:65 | adding a key to a sorted duplicate-free key list keeps it sorted and duplicate-free and adds exactly that key |
| `Factoradic.DistinctRank` | word_index.py:21-35 | for a word with all-distinct letters the rank is `sum r_i * (n_i - 1)!`, `r_i` the remaining letters below the `i`-th letter and `n_i` the letters left at step `i` |
| `Factoradic.KeyPosition` | word_index.py:33-35 | the position of the current letter among the sorted distinct remaining letters is the number `r` of remaining letters below it |
| `Factoradic.EqualBlocks` | word_index.py:21-26 | with distinct letters every skipped branch holds `(n - 1)!` words |
| `Factoradic.UniformBlocks` | word_index.py:33-35 | `r` branches of one common size `b` add up to `r * b` |
| `Factoradic.PermCountNoRepeats` | word_index.py:24-26 | a word without repeated letters has `len(w)!` distinct orderings |
| `Factoradic.DistinctPermCount` | word_index.py:42-58 | `numDistinctPermutations` of a word with all-distinct letters is `len(w)!` |
| `Factoradic.DistinctCounts` | word_index.py:53 | in a word with all-distinct letters each `Counter` count is at most 1 |
| `Factoradic.ProductOfOnes` | word_index.py:56 | counts of at most one make the product of count factorials 1 |
| `Factoradic.CountLess` | word_index.py:33-34 | the number `r` of remaining letters below the current one is at most the number of remaining letters |
| `Factoradic.CountLessCard` | word_index.py:33-35 | without repeats, counting letters below `c` is counting the distinct letters below `c` |
| `Factoradic.SawyerRank` | word_index.py:21-31 | "sawyer" is at position 376 = 3 * 5! + 2 * 3! + 2 * 2! |
| `Factoradic.SawyerDigits` | word_index.py:21-31 | the factorial-number-system value of "sawyer" is 376 |
| `Examples.NumDistinctPermutationsOfEmpty` | word_index.py:53-58 | the empty word has one distinct ordering |
| `Examples.NumDistinctPermutationsOfAaa` | word_index.py:42-58 | "aaa" has one distinct ordering |
| `Examples.NumDistinctPermutationsOfAab` | word_index.py:42-58 | "aab" has three distinct orderings (3! / 2!) |
| `Examples.RankOfAab` | word_index.py:13-81 | "aab" is first of "aab", "aba", "baa" |
| `Examples.RankOfAba` | word_index.py:13-81 | "aba" is second of them |
| `Examples.RankOfBaa` | word_index.py:13-81 | "baa" is third of them |
| `Examples.RankOfAaa` | word_index.py:13-81 | "aaa" is its only ordering, at position 0 |
| `Examples.RankOfBa` | word_index.py:13-81 | "ba" is second of "ab", "ba" |
| `Examples.RankOfAb` | word_index.py:13-81 | "ab" is first of "ab", "ba" |

## Left out

- `getWord` and the `__main__` block (word_index.py:8-11, 83-84): they read `sys.argv`, exit with a usage message, and print. That is process I/O, not part of the computation.
- `findIndexUsingTrie` and its `TrieNode` (word_index.py:86-164): the file marks this code as dead. It builds every ordering, so it is not modelled. `Permutations.Perms` and `Permutations.Rank` play the part of a reference definition instead.
- `ListOps.Remove`: Python's ValueError for a missing letter is modelled as a precondition, not as an error result. `WordIndex.FindIndex` proves that the precondition always holds at both call sites.
- `currW = copy.copy(charList)`: lists are modelled as values (`seq<char>`), so the copy is a new value by construction. Aliasing between `currW` and `charList` is not modelled. That `charList` is unchanged by removing from `currW` holds trivially.
- `WordIndex.FactorialProduct`: multiplies the count factorials in sorted key order, whereas `reduce` over `Counter.values()` goes in `Counter`'s own iteration order. Multiplication commutes, so the value is the same. The model does not state that order-independence as a lemma.
- Python 2 integer `/` (word_index.py:58) is modelled as exact `nat` division, with its exactness proved. Python 3's true division, which returns a float, is not modelled.
- Python integers are unbounded, and so are Dafny's `nat`. No overflow or width is modelled because the source has none.
- Characters are Dafny `char`, compared by code point. The encoding-dependent behaviour of Python 2 byte strings (multi-byte characters, locale) is not modelled.
- Running time and the claim that no ordering is ever generated are not stated. The model proves only what is computed.
