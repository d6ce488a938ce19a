/** The rearrangements of an ordered list that the UV map operators perform,
    as functions on sequences, and how the add/remove rotation that the
    plugin is built on composes into them. */
module Reorder {

  /** The list after `move_to_bottom(i)`: element i taken out and put at the
      end, every other element keeping its relative order. */
  function MovedToBottom<T>(s: seq<T>, i: nat): (r: seq<T>)
    requires i < |s|
    ensures |r| == |s| && r[|s| - 1] == s[i]
  {
    s[..i] + s[i + 1..] + [s[i]]
  }

  /** The list with the part from position k onwards rotated left by t
      places: what t calls of `move_to_bottom(k)` in a row produce. */
  function RotatedFrom<T>(s: seq<T>, k: nat, t: nat): (r: seq<T>)
    requires k + t <= |s|
    ensures |r| == |s| && r[..k] == s[..k]
    ensures t == 0 ==> r == s
  {
    s[..k] + s[k + t..] + s[k..k + t]
  }

  /** The list with the elements at k and k + 1 exchanged. */
  function Swapped<T>(s: seq<T>, k: nat): (r: seq<T>)
    requires k + 1 < |s|
    ensures |r| == |s| && r[k] == s[k + 1] && r[k + 1] == s[k]
  {
    s[..k] + [s[k + 1], s[k]] + s[k + 2..]
  }

  /** The list with element k taken out and put first, every other element
      keeping its relative order. */
  function MovedToTop<T>(s: seq<T>, k: nat): (r: seq<T>)
    requires k < |s|
    ensures |r| == |s| && r[0] == s[k]
  {
    [s[k]] + s[..k] + s[k + 1..]
  }

  // The layers not being moved keep their relative order.

  lemma MovedToBottomKeepsOthers<T>(s: seq<T>, i: nat)
    requires i < |s|
    ensures forall j :: 0 <= j < i ==> MovedToBottom(s, i)[j] == s[j]
    ensures forall j :: i <= j < |s| - 1 ==> MovedToBottom(s, i)[j] == s[j + 1]
  {
  }

  lemma SwappedKeepsOthers<T>(s: seq<T>, k: nat)
    requires k + 1 < |s|
    ensures forall j :: 0 <= j < |s| && j != k && j != k + 1 ==> Swapped(s, k)[j] == s[j]
  {
  }

  /** Exchanging the same pair twice restores the list: Move Up undoes
      Move Down and the other way round. */
  lemma SwappedTwice<T>(s: seq<T>, k: nat)
    requires k + 1 < |s|
    ensures Swapped(Swapped(s, k), k) == s
  {
  }

  lemma MovedToTopKeepsOthers<T>(s: seq<T>, k: nat)
    requires k < |s|
    ensures forall j :: 0 <= j < k ==> MovedToTop(s, k)[j + 1] == s[j]
    ensures forall j :: k < j < |s| ==> MovedToTop(s, k)[j] == s[j]
  {
  }

  // Each rearrangement is a permutation: it neither loses nor duplicates
  // an element.

  lemma MovedToBottomPermutes<T>(s: seq<T>, i: nat)
    requires i < |s|
    ensures multiset(MovedToBottom(s, i)) == multiset(s)
  {
    assert s == s[..i] + [s[i]] + s[i + 1..];
  }

  lemma SwappedPermutes<T>(s: seq<T>, k: nat)
    requires k + 1 < |s|
    ensures multiset(Swapped(s, k)) == multiset(s)
  {
    assert s == s[..k] + [s[k], s[k + 1]] + s[k + 2..];
    assert multiset([s[k], s[k + 1]]) == multiset([s[k + 1], s[k]]);
  }

  lemma MovedToTopPermutes<T>(s: seq<T>, k: nat)
    requires k < |s|
    ensures multiset(MovedToTop(s, k)) == multiset(s)
  {
    assert s == s[..k] + [s[k]] + s[k + 1..];
  }

  /** One more `move_to_bottom(k)` rotates the tail by one more place. */
  lemma RotatedFromStep<T>(s: seq<T>, k: nat, t: nat)
    requires k + t < |s|
    ensures MovedToBottom(RotatedFrom(s, k, t), k) == RotatedFrom(s, k, t + 1)
  {
    var r := RotatedFrom(s, k, t);
    assert r[k] == s[k + t];
    assert r[k + 1..] == s[k + t + 1..] + s[k..k + t];
    assert s[k..k + t + 1] == s[k..k + t] + [s[k + t]];
  }

  /** Move Down: `move_to_bottom(k + 1)`, then `move_to_bottom(k)`, then
      |s| - k - 2 further calls of `move_to_bottom(k)` exchange exactly the
      elements at k and k + 1. */
  lemma MoveDownRotations<T>(s: seq<T>, k: nat)
    requires k + 1 < |s|
    ensures RotatedFrom(MovedToBottom(MovedToBottom(s, k + 1), k), k, |s| - k - 2) == Swapped(s, k)
  {
    TwoMovesToBottom(s, k);
    var n := |s|;
    var second := s[..k] + s[k + 2..] + [s[k + 1], s[k]];
    assert |second| == n;
    var r := RotatedFrom(second, k, n - k - 2);
    assert r == second[..k] + second[n - 2..] + second[k..n - 2];
    assert second[..k] == s[..k];
    assert second[n - 2..] == [s[k + 1], s[k]];
    assert second[k..n - 2] == s[k + 2..];
    assert Swapped(s, k) == s[..k] + [s[k + 1], s[k]] + s[k + 2..];
  }

  /** The first two calls of Move Down leave the pair at k, k + 1 at the
      end, in exchanged order. */
  lemma TwoMovesToBottom<T>(s: seq<T>, k: nat)
    requires k + 1 < |s|
    ensures MovedToBottom(MovedToBottom(s, k + 1), k) == s[..k] + s[k + 2..] + [s[k + 1], s[k]]
  {
    var first := s[..k + 1] + s[k + 2..] + [s[k + 1]];
    assert MovedToBottom(s, k + 1) == first;
    assert first[..k] == s[..k];
    assert first[k] == s[k];
    assert first[k + 1..] == s[k + 2..] + [s[k + 1]];
  }

  /** Move to Top: `move_to_bottom(k)`, then |s| - 1 calls of
      `move_to_bottom(0)`, bring element k to the front and keep the order
      of the rest. */
  lemma MoveTopRotations<T>(s: seq<T>, k: nat)
    requires k < |s|
    ensures RotatedFrom(MovedToBottom(s, k), 0, |s| - 1) == MovedToTop(s, k)
  {
    var first := MovedToBottom(s, k);
    var n := |s|;
    assert first == (s[..k] + s[k + 1..]) + [s[k]];
    assert first[n - 1..] == [s[k]];
    assert first[..n - 1] == s[..k] + s[k + 1..];
  }
}
