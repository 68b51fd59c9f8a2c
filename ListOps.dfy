// The two Python list operations that word_index.py relies on:
// `list.remove(x)` and `sorted(collections.Counter(l).keys())`.
module ListOps {

  /** Sorted without repeats: what `sorted(...)` yields for a set of keys. */
  predicate StrictlyIncreasing(s: seq<char>)
  {
    forall i, j :: 0 <= i < j < |s| ==> s[i] < s[j]
  }

  /** A non-empty strictly increasing list is its strictly increasing front followed by its maximum. */
  lemma SplitLast(s: seq<char>)
    requires StrictlyIncreasing(s) && s != []
    ensures s == s[..|s| - 1] + [s[|s| - 1]]
    ensures StrictlyIncreasing(s[..|s| - 1])
    ensures forall y :: y in s <==> y in s[..|s| - 1] || y == s[|s| - 1]
    ensures forall i :: 0 <= i < |s| - 1 ==> s[i] < s[|s| - 1]
  {
    assert s == s[..|s| - 1] + [s[|s| - 1]];
  }

  /**
   * `list.remove(x)`: the list without the first occurrence of `x`.
   * Python raises ValueError when `x` is absent; here that is the precondition.
   */
  function Remove(s: seq<char>, x: char): (r: seq<char>)
    requires x in s
    ensures |r| == |s| - 1
    ensures multiset(r) == multiset(s) - multiset{x}
  {
    assert s == [s[0]] + s[1..];
    if s[0] == x then s[1..] else [s[0]] + Remove(s[1..], x)
  }

  /** The occurrence `Remove` drops is the first one: the letters around it keep their order. */
  lemma {:induction false} RemoveDropsFirstOccurrence(s: seq<char>, x: char, i: nat)
    requires i < |s| && s[i] == x && x !in s[..i]
    ensures Remove(s, x) == s[..i] + s[i + 1..]
  {
    if i > 0 {
      assert s[0] in s[..i];
      assert s[1..][..i - 1] == s[1..i];
      assert x !in s[1..][..i - 1];
      RemoveDropsFirstOccurrence(s[1..], x, i - 1);
      assert s[..i] == [s[0]] + s[1..][..i - 1];
      assert s[i + 1..] == s[1..][i..];
    }
  }

  /** Adds `x` to a strictly increasing list of keys, keeping it strictly increasing. */
  function Insert(keys: seq<char>, x: char): (r: seq<char>)
    requires StrictlyIncreasing(keys)
    ensures StrictlyIncreasing(r)
    ensures forall y :: y in r <==> y in keys || y == x
  {
    if keys == [] || x < keys[0] then [x] + keys
    else if x == keys[0] then keys
    else
      var rest := Insert(keys[1..], x);
      assert forall y :: y in rest ==> keys[0] < y;
      assert forall j :: 0 < j <= |rest| ==> ([keys[0]] + rest)[j] == rest[j - 1];
      [keys[0]] + rest
  }

  /** `sorted(collections.Counter(s).keys())`: each distinct letter of `s` once, in increasing order. */
  function SortedKeys(s: seq<char>): (r: seq<char>)
    ensures StrictlyIncreasing(r)
    ensures forall y :: y in r <==> y in s
  {
    if s == [] then [] else Insert(SortedKeys(s[1..]), s[0])
  }
}
