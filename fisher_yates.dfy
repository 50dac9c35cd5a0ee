/**
 * The plugin's Shuffle: an in-place Fisher–Yates shuffle that walks
 * remainingItems down from the list's length and swaps the cell at
 * remainingItems with the one at a draw from System.Random.Next(remainingItems + 1).
 * The generator is replaced by the sequence of draws it returns.
 */
module FisherYates {

  /** How many draws a shuffle of n items consumes: one per pass of the loop. */
  function DrawCount(n: nat): (count: nat)
  {
    if n <= 1 then 0 else n - 1
  }

  /** The k-th draw of a shuffle of n items comes from Next(n - k), so it lies in [0, n - 1 - k]. */
  predicate DrawsValid(draws: seq<int>, n: nat)
  {
    |draws| >= DrawCount(n) &&
    forall k :: 0 <= k < DrawCount(n) ==> 0 <= draws[k] <= n - 1 - k
  }

  function Swap<T>(s: seq<T>, i: nat, j: nat): (r: seq<T>)
    requires i < |s| && j < |s|
  {
    s[i := s[j]][j := s[i]]
  }

  /** The list after the remaining passes of the loop, starting with remainingItems == rem. */
  function ShuffleFrom<T>(s: seq<T>, draws: seq<int>, rem: nat): (shuffled: seq<T>)
    requires rem <= |s| && DrawsValid(draws, rem)
    decreases rem
  {
    if rem <= 1 then s
    else
      assert DrawsValid(draws[1..], rem - 1) by {
        forall k | 0 <= k < DrawCount(rem - 1) ensures 0 <= draws[1..][k] <= rem - 2 - k {
          assert draws[1..][k] == draws[k + 1];
        }
      }
      ShuffleFrom(Swap(s, draws[0], rem - 1), draws[1..], rem - 1)
  }

  /** The whole shuffle of s with the given draws. */
  function Shuffled<T>(s: seq<T>, draws: seq<int>): (shuffled: seq<T>)
    requires DrawsValid(draws, |s|)
  {
    ShuffleFrom(s, draws, |s|)
  }

  /** Every pass swaps two cells, so the result is a permutation of the input. */
  lemma {:induction false} ShuffleFromPermutes<T>(s: seq<T>, draws: seq<int>, rem: nat)
    requires rem <= |s| && DrawsValid(draws, rem)
    ensures |ShuffleFrom(s, draws, rem)| == |s|
    ensures multiset(ShuffleFrom(s, draws, rem)) == multiset(s)
    decreases rem
  {
    if rem > 1 {
      var t := Swap(s, draws[0], rem - 1);
      assert multiset(t) == multiset(s);
      assert DrawsValid(draws[1..], rem - 1) by {
        forall k | 0 <= k < DrawCount(rem - 1) ensures 0 <= draws[1..][k] <= rem - 2 - k {
          assert draws[1..][k] == draws[k + 1];
        }
      }
      ShuffleFromPermutes(t, draws[1..], rem - 1);
    }
  }

  /** Cells at or past remainingItems are never touched again. */
  lemma {:induction false} ShuffleFromKeepsSuffix<T>(s: seq<T>, draws: seq<int>, rem: nat, i: nat)
    requires rem <= i < |s| && DrawsValid(draws, rem)
    ensures |ShuffleFrom(s, draws, rem)| == |s| && ShuffleFrom(s, draws, rem)[i] == s[i]
    decreases rem
  {
    ShuffleFromPermutes(s, draws, rem);
    if rem > 1 {
      assert DrawsValid(draws[1..], rem - 1) by {
        forall k | 0 <= k < DrawCount(rem - 1) ensures 0 <= draws[1..][k] <= rem - 2 - k {
          assert draws[1..][k] == draws[k + 1];
        }
      }
      ShuffleFromKeepsSuffix(Swap(s, draws[0], rem - 1), draws[1..], rem - 1, i);
    }
  }

  /**
   * The shuffle permutes: same length and the same multiset of elements.
   * A list of at most one element is left as it is, and in a longer list the
   * last cell receives the element at the first draw.
   */
  lemma ShuffledIsPermutation<T>(s: seq<T>, draws: seq<int>)
    requires DrawsValid(draws, |s|)
    ensures |Shuffled(s, draws)| == |s| && multiset(Shuffled(s, draws)) == multiset(s)
    ensures |s| <= 1 ==> Shuffled(s, draws) == s
    ensures |s| >= 2 ==> Shuffled(s, draws)[|s| - 1] == s[draws[0]]
  {
    ShuffleFromPermutes(s, draws, |s|);
    if |s| >= 2 {
      var t := Swap(s, draws[0], |s| - 1);
      assert DrawsValid(draws[1..], |s| - 1) by {
        forall k | 0 <= k < DrawCount(|s| - 1) ensures 0 <= draws[1..][k] <= |s| - 2 - k {
          assert draws[1..][k] == draws[k + 1];
        }
      }
      ShuffleFromKeepsSuffix(t, draws[1..], |s| - 1, |s| - 1);
    }
  }

  /** Shuffle, in place. */
  method Shuffle<T>(list: array<T>, draws: seq<int>)
    requires DrawsValid(draws, list.Length)
    modifies list
    ensures list[..] == Shuffled(old(list[..]), draws)
    ensures multiset(list[..]) == multiset(old(list[..]))
  {
    var remainingItems := list.Length;
    var used := 0;
    while remainingItems > 1
      invariant 0 <= remainingItems <= list.Length
      invariant used == list.Length - remainingItems && used <= |draws|
      invariant DrawsValid(draws[used..], remainingItems)
      invariant ShuffleFrom(list[..], draws[used..], remainingItems) == Shuffled(old(list[..]), draws)
    {
      assert draws[used..][1..] == draws[used + 1..];
      remainingItems := remainingItems - 1;
      var randomIndex := draws[used];
      var itemToSwap := list[randomIndex];
      list[randomIndex] := list[remainingItems];
      list[remainingItems] := itemToSwap;
      used := used + 1;
    }
    ShuffledIsPermutation(old(list[..]), draws);
  }
}
