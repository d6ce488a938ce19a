/** A UV layer of a mesh, the uniqueness of layer names the host keeps, and
    the ordering facts the two sort operators rely on.

    Every statement here about the names of "all layers" is phrased through
    NameAt, so that the verifier applies it only where a proof mentions
    NameAt, and not at every layer of every intermediate list. */
module Layers {
  import opened Names
  import opened Reorder

  /** One texture coordinate of a UV layer. */
  datatype UV = UV(u: real, v: real)

  /** A UV layer: its name and its per-loop coordinates. */
  datatype Layer = Layer(name: string, data: seq<UV>)

  /** The name of the layer at i. */
  function NameAt(s: seq<Layer>, i: nat): (r: string)
    requires i < |s|
  {
    s[i].name
  }

  predicate HasName(s: seq<Layer>, name: string)
  {
    exists j :: 0 <= j < |s| && NameAt(s, j) == name
  }

  /** Some layer other than the one at k is called name. */
  predicate NameUsedElsewhere(s: seq<Layer>, k: nat, name: string)
  {
    exists j :: 0 <= j < |s| && j != k && NameAt(s, j) == name
  }

  /** The host never lets two UV layers of a mesh share a name. */
  predicate DistinctNames(s: seq<Layer>)
  {
    forall a, b :: 0 <= a < b < |s| ==> NameAt(s, a) != NameAt(s, b)
  }

  /** Under unique names, two positions hold the same name exactly when they
      are the same position. */
  lemma NameDeterminesIndex(s: seq<Layer>, a: nat, b: nat)
    requires DistinctNames(s) && a < |s| && b < |s|
    ensures s[a].name == s[b].name <==> a == b
  {
    if a < b {
      assert NameAt(s, a) != NameAt(s, b);
    } else if b < a {
      assert NameAt(s, b) != NameAt(s, a);
    }
  }

  lemma HasNameAt(s: seq<Layer>, k: nat)
    requires k < |s|
    ensures HasName(s, s[k].name)
  {
    assert NameAt(s, k) == s[k].name;
  }

  /** A layer name longer than every name in s, so used by none of them:
      the host picks an unused name for every layer it adds. */
  function FreshName(s: seq<Layer>): (r: string)
  {
    if s == [] then "UVMap" else s[0].name + FreshName(s[1..])
  }

  lemma {:induction false} FreshNameIsLonger(s: seq<Layer>)
    ensures |FreshName(s)| > 0
    ensures forall j :: 0 <= j < |s| ==> |NameAt(s, j)| < |FreshName(s)|
  {
    if s != [] {
      FreshNameIsLonger(s[1..]);
      forall j | 0 <= j < |s|
        ensures |NameAt(s, j)| < |FreshName(s)|
      {
        if j > 0 {
          assert NameAt(s, j) == NameAt(s[1..], j - 1);
        }
      }
    }
  }

  /** No layer in s is called FreshName(s). */
  lemma FreshNameIsUnused(s: seq<Layer>)
    ensures !HasName(s, FreshName(s))
  {
    FreshNameIsLonger(s);
  }

  /** Appending a layer under an unused name keeps names unique. */
  lemma DistinctAppend(s: seq<Layer>, x: Layer)
    requires DistinctNames(s) && !HasName(s, x.name)
    ensures DistinctNames(s + [x])
  {
    var t := s + [x];
    forall a, b | 0 <= a < b < |t|
      ensures NameAt(t, a) != NameAt(t, b)
    {
      if b < |s| {
        assert NameAt(s, a) != NameAt(s, b);
      } else {
        assert NameAt(s, a) == NameAt(t, a);
      }
    }
  }

  /** Deleting a layer keeps names unique. */
  lemma DistinctRemove(s: seq<Layer>, k: nat)
    requires DistinctNames(s) && k < |s|
    ensures DistinctNames(s[..k] + s[k + 1..])
  {
    var t := s[..k] + s[k + 1..];
    forall a, b | 0 <= a < b < |t|
      ensures NameAt(t, a) != NameAt(t, b)
    {
      var a' := if a < k then a else a + 1;
      var b' := if b < k then b else b + 1;
      assert t[a] == s[a'] && t[b] == s[b'];
      assert NameAt(s, a') != NameAt(s, b');
    }
  }

  /** Renaming a layer to a name no other layer has keeps names unique. */
  lemma DistinctRename(s: seq<Layer>, k: nat, name: string)
    requires DistinctNames(s) && k < |s| && !NameUsedElsewhere(s, k, name)
    ensures DistinctNames(s[k := Layer(name, s[k].data)])
  {
    var t := s[k := Layer(name, s[k].data)];
    forall a, b | 0 <= a < b < |t|
      ensures NameAt(t, a) != NameAt(t, b)
    {
      if a != k && b != k {
        assert NameAt(s, a) != NameAt(s, b);
      } else if a == k {
        assert NameAt(s, b) == NameAt(t, b);
      } else {
        assert NameAt(s, a) == NameAt(t, a);
      }
    }
  }

  /** Every layer at or after position p may stand after every layer before
      it: the part from p is sorted and none of it belongs further left. */
  predicate SortedFrom(s: seq<Layer>, p: int, descending: bool)
  {
    forall a, b :: 0 <= a < b < |s| && p <= b ==> InOrder(NameAt(s, a), NameAt(s, b), descending)
  }

  /** The layer at i may stand after every layer before it. */
  predicate LastOfPrefix(s: seq<Layer>, i: nat, descending: bool)
    requires i < |s|
  {
    forall m :: 0 <= m < i ==> InOrder(NameAt(s, m), NameAt(s, i), descending)
  }

  /** Names strictly increasing (descending false) or strictly decreasing
      (descending true) along the list. */
  predicate StrictlySorted(s: seq<Layer>, descending: bool)
  {
    forall a, b :: 0 <= a < b < |s| ==> Precedes(NameAt(s, a), NameAt(s, b), descending)
  }

  /** One comparison of a bubble pass, at positions i and i + 1, with every
      layer from p on already in place: the pair is exchanged exactly when it
      is out of order. Afterwards the layer at i + 1 belongs after everything
      before it, the part from p is still in place, and once the pass has
      reached p the layer at p - 1 is in place too. */
  lemma BubbleStep(s: seq<Layer>, i: nat, p: nat, descending: bool)
    requires i + 1 < |s| && 1 <= p <= |s|
    requires LastOfPrefix(s, i, descending) && SortedFrom(s, p, descending)
    requires p <= i + 1 ==> SortedFrom(s, p - 1, descending)
    ensures var t := if InOrder(s[i].name, s[i + 1].name, descending) then s else Swapped(s, i);
      LastOfPrefix(t, i + 1, descending) && SortedFrom(t, p, descending) &&
      (p <= i + 2 ==> SortedFrom(t, p - 1, descending))
  {
    var d := descending;
    if InOrder(NameAt(s, i), NameAt(s, i + 1), d) {
      forall m | 0 <= m < i + 1
        ensures InOrder(NameAt(s, m), NameAt(s, i + 1), d)
      {
        if m < i {
          InOrderTransitive(NameAt(s, m), NameAt(s, i), NameAt(s, i + 1), d);
        }
      }
      if p <= i + 2 {
        forall a, b | 0 <= a < b < |s| && p - 1 <= b
          ensures InOrder(NameAt(s, a), NameAt(s, b), d)
        {
          if p == i + 2 && b == p - 1 {
            assert InOrder(NameAt(s, a), NameAt(s, i + 1), d);
          }
        }
      }
    } else {
      // an out-of-order pair lies wholly left of p
      assert i + 1 < p;
      var t := Swapped(s, i);
      SwappedKeepsOthers(s, i);
      InOrderTotal(NameAt(s, i), NameAt(s, i + 1), d);
      forall m | 0 <= m < i + 1
        ensures InOrder(NameAt(t, m), NameAt(t, i + 1), d)
      {
        if m < i {
          assert NameAt(t, m) == NameAt(s, m);
        } else {
          assert NameAt(t, m) == NameAt(s, i + 1);
        }
      }
      forall a, b | 0 <= a < b < |t| && p <= b
        ensures InOrder(NameAt(t, a), NameAt(t, b), d)
      {
        var a' := if a == i then i + 1 else if a == i + 1 then i else a;
        assert NameAt(t, b) == NameAt(s, b) && NameAt(t, a) == NameAt(s, a');
        assert InOrder(NameAt(s, a'), NameAt(s, b), d);
      }
      if p == i + 2 {
        forall a, b | 0 <= a < b < |t| && p - 1 <= b
          ensures InOrder(NameAt(t, a), NameAt(t, b), d)
        {
        }
      }
    }
  }

  /** A fully sorted list of distinct names is strictly sorted. */
  lemma SortedIsStrict(s: seq<Layer>, descending: bool)
    requires SortedFrom(s, 0, descending) && DistinctNames(s)
    ensures StrictlySorted(s, descending)
  {
    forall a, b | 0 <= a < b < |s|
      ensures Precedes(NameAt(s, a), NameAt(s, b), descending)
    {
      NameDeterminesIndex(s, a, b);
      InOrderDistinct(NameAt(s, a), NameAt(s, b), descending);
    }
  }

  /** A rearrangement of a list keeps every layer's name in it. */
  lemma PermutationKeepsName(s: seq<Layer>, t: seq<Layer>, k: nat)
    requires multiset(s) == multiset(t) && k < |s|
    ensures HasName(t, s[k].name)
  {
    assert s[k] in multiset(t);
    var j :| 0 <= j < |t| && t[j] == s[k];
    HasNameAt(t, j);
  }

  /** In a rearrangement of a list with distinct names, the layer carrying a
      given layer's name is that very layer, coordinates included. */
  lemma PermutationNameIsLayer(s: seq<Layer>, t: seq<Layer>, k: nat, x: nat)
    requires multiset(s) == multiset(t) && DistinctNames(s)
    requires k < |s| && x < |t| && t[x].name == s[k].name
    ensures t[x] == s[k]
  {
    assert t[x] in multiset(s);
    var m :| 0 <= m < |s| && s[m] == t[x];
    NameDeterminesIndex(s, m, k);
  }

  /** Two strictly sorted rearrangements of the same layers are the same
      list: a sort's outcome does not depend on where it started. */
  lemma {:induction false} SortedPermutationUnique(s: seq<Layer>, t: seq<Layer>, descending: bool)
    requires multiset(s) == multiset(t)
    requires StrictlySorted(s, descending) && StrictlySorted(t, descending)
    ensures s == t
    decreases |s|
  {
    if s != [] {
      SortedHeadsAgree(s, t, descending);
      TailsAgree(s, t);
      TailStrictlySorted(s, descending);
      TailStrictlySorted(t, descending);
      SortedPermutationUnique(s[1..], t[1..], descending);
      assert s == [s[0]] + s[1..] && t == [t[0]] + t[1..];
    }
  }

  lemma TailStrictlySorted(s: seq<Layer>, descending: bool)
    requires StrictlySorted(s, descending) && s != []
    ensures StrictlySorted(s[1..], descending)
  {
    var u := s[1..];
    forall a, b | 0 <= a < b < |u|
      ensures Precedes(NameAt(u, a), NameAt(u, b), descending)
    {
      assert NameAt(u, a) == NameAt(s, a + 1) && NameAt(u, b) == NameAt(s, b + 1);
    }
  }

  /** The first layer of a strictly sorted list stands before every other. */
  lemma HeadPrecedes(s: seq<Layer>, k: nat, descending: bool)
    requires StrictlySorted(s, descending) && 0 < k < |s|
    ensures Precedes(s[0].name, s[k].name, descending)
  {
    assert Precedes(NameAt(s, 0), NameAt(s, k), descending);
  }

  /** Both sorted arrangements start with the same layer. */
  lemma SortedHeadsAgree(s: seq<Layer>, t: seq<Layer>, descending: bool)
    requires multiset(s) == multiset(t) && s != []
    requires StrictlySorted(s, descending) && StrictlySorted(t, descending)
    ensures t != [] && t[0] == s[0]
  {
    assert s[0] in multiset(t);
    var j :| 0 <= j < |t| && t[j] == s[0];
    assert t[0] in multiset(s);
    var m :| 0 <= m < |s| && s[m] == t[0];
    if m != 0 && j != 0 {
      HeadPrecedes(s, m, descending);
      HeadPrecedes(t, j, descending);
      PrecedesAsymmetric(s[0].name, t[0].name, descending);
      assert false;
    }
  }

  lemma TailsAgree(s: seq<Layer>, t: seq<Layer>)
    requires multiset(s) == multiset(t) && s != [] && t != [] && s[0] == t[0]
    ensures multiset(s[1..]) == multiset(t[1..])
  {
    assert s == [s[0]] + s[1..] && t == [t[0]] + t[1..];
    assert multiset(s) == multiset([s[0]]) + multiset(s[1..]);
    assert multiset(t) == multiset([s[0]]) + multiset(t[1..]);
    forall x
      ensures multiset(s[1..])[x] == multiset(t[1..])[x]
    {
      assert multiset(s)[x] == multiset([s[0]])[x] + multiset(s[1..])[x];
      assert multiset(t)[x] == multiset([s[0]])[x] + multiset(t[1..])[x];
    }
  }
}
