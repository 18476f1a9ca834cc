/** The in-place shuffle of the pairs (random.shuffle). CPython's shuffle is
    a Fisher-Yates walk from the last position down to position 1 that swaps
    each position with one drawn from 0 up to and including that position.
    The random source is the parameter `draw`: the number drawn for position
    `i` is `draw(i) % (i + 1)`, so every sequence of draws CPython can make is
    some `draw`. */
module Shuffling {

  /** `s` with the elements at `i` and `j` exchanged. */
  function Swap<T>(s: seq<T>, i: nat, j: nat): (r: seq<T>)
    requires i < |s| && j < |s|
    ensures |r| == |s| && r[i] == s[j] && r[j] == s[i]
    ensures forall k :: 0 <= k < |s| && k != i && k != j ==> r[k] == s[k]
  {
    s[i := s[j]][j := s[i]]
  }

  /** The position drawn for position `i`. */
  function Drawn(draw: nat -> nat, i: nat): (j: nat)
    ensures j <= i
  {
    draw(i) % (i + 1)
  }

  /** The sequence after the walk has handled positions |s|-1 down to `i`. */
  function ShuffleTail<T>(s: seq<T>, draw: nat -> nat, i: nat): (r: seq<T>)
    requires 1 <= i
    ensures |r| == |s|
    decreases |s| - i
  {
    if i >= |s| then s
    else Swap(ShuffleTail(s, draw, i + 1), i, Drawn(draw, i))
  }

  /** The result of the whole walk. */
  function Shuffled<T>(s: seq<T>, draw: nat -> nat): seq<T>
  {
    ShuffleTail(s, draw, 1)
  }

  /** The shuffle loop, in place on an array. */
  method Shuffle<T>(a: array<T>, draw: nat -> nat)
    modifies a
    ensures a[..] == Shuffled(old(a[..]), draw)
  {
    var i := a.Length;
    while i > 1
      invariant a.Length == 0 || 1 <= i <= a.Length
      invariant a.Length > 0 ==> a[..] == ShuffleTail(old(a[..]), draw, i)
    {
      i := i - 1;
      var j := Drawn(draw, i);
      a[i], a[j] := a[j], a[i];
    }
  }

  lemma SwapPermutes<T>(s: seq<T>, i: nat, j: nat)
    requires i < |s| && j < |s|
    ensures multiset(Swap(s, i, j)) == multiset(s)
  {
    var t := s[i := s[j]];
    assert multiset(t) == multiset(s) - multiset{s[i]} + multiset{s[j]};
  }

  lemma {:induction false} ShuffleTailPermutes<T>(s: seq<T>, draw: nat -> nat, i: nat)
    requires 1 <= i
    ensures multiset(ShuffleTail(s, draw, i)) == multiset(s)
    decreases |s| - i
  {
    if i < |s| {
      ShuffleTailPermutes(s, draw, i + 1);
      SwapPermutes(ShuffleTail(s, draw, i + 1), i, Drawn(draw, i));
    }
  }

  /** Whatever is drawn, the shuffle only reorders: the result is a
      permutation of its input. */
  lemma ShufflePermutes<T>(s: seq<T>, draw: nat -> nat)
    ensures |Shuffled(s, draw)| == |s|
    ensures multiset(Shuffled(s, draw)) == multiset(s)
  {
    ShuffleTailPermutes(s, draw, 1);
  }
}
