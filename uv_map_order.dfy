/** The UV map operators of the plugin, over the host's ordered list of UV
    layers of the active mesh. The host offers no way to reorder the list;
    every operator is built from "add a copy at the end", "remove the active
    layer" and "rename the active layer", tracking the active layer by name. */
module UVMapOrder {
  import opened Names
  import opened Reorder
  import opened Layers

  /** How an operator ends: normally, or with the error the host raises when
      an operator reads the name of the active layer and there is none. */
  datatype Report = Finished | NoActiveLayer

  /** After `move_to_bottom` has added the copy of the layer at index and
      removed the original, the layers other than the copy are the others in
      their old order, and none of them has the original's name. */
  lemma AddRemoveLeavesOthers(original: seq<Layer>, index: nat, copy: Layer, removed: seq<Layer>)
    requires index < |original| && DistinctNames(original)
    requires removed == (original + [copy])[..index] + (original + [copy])[index + 1..]
    ensures |removed| == |original| && removed[|removed| - 1] == copy
    ensures removed[..|removed| - 1] == original[..index] + original[index + 1..]
    ensures !NameUsedElsewhere(removed, |removed| - 1, original[index].name)
  {
    var added := original + [copy];
    assert added[..index] == original[..index];
    assert added[index + 1..] == original[index + 1..] + [copy];
    var others := original[..index] + original[index + 1..];
    assert removed == others + [copy];
    forall j | 0 <= j < |others|
      ensures others[j].name != original[index].name
    {
      var k := if j < index then j else j + 1;
      assert others[j] == original[k];
      NameDeterminesIndex(original, k, index);
      assert NameAt(removed, j) == others[j].name;
    }
  }

  /** The UV layer list of the active mesh, with its active index. */
  class UVLayers {
    var layers: seq<Layer>
    var activeIndex: nat

    /** Names are unique, and the active index points at a layer (it is 0
        when there are none). */
    ghost predicate Valid()
      reads this
    {
      DistinctNames(layers) &&
      (if layers == [] then activeIndex == 0 else activeIndex < |layers|)
    }

    // ---- host primitives ----

    /** Assigning `uvs.active_index`: the host clamps the value into range. */
    method SetActiveIndex(i: nat)
      requires Valid()
      modifies this`activeIndex
      ensures Valid()
      ensures i < |layers| ==> activeIndex == i
      ensures |layers| <= i ==> activeIndex == if layers == [] then 0 else |layers| - 1
    {
      activeIndex := if i < |layers| then i else if layers == [] then 0 else |layers| - 1;
    }

    /** `uv_texture_add`: appends a copy of the active layer's coordinates
        under a fresh name and makes the new layer active. A first layer
        starts from empty coordinates. */
    method Add()
      requires Valid()
      modifies this
      ensures Valid()
      ensures layers == old(layers) + [Layer(FreshName(old(layers)),
                                             if old(layers) == [] then [] else old(layers)[old(activeIndex)].data)]
      ensures activeIndex == |layers| - 1
    {
      var data := if layers == [] then [] else layers[activeIndex].data;
      var newName := FreshName(layers);
      FreshNameIsUnused(layers);
      DistinctAppend(layers, Layer(newName, data));
      layers := layers + [Layer(newName, data)];
      activeIndex := |layers| - 1;
    }

    /** `uv_texture_remove`: deletes the active layer. Which layer is active
        afterwards is the host's choice; only its validity is promised. */
    method Remove()
      requires Valid()
      modifies this
      ensures Valid()
      ensures old(layers) == [] ==> layers == []
      ensures old(layers) != [] ==>
                layers == old(layers)[..old(activeIndex)] + old(layers)[old(activeIndex) + 1..]
    {
      if layers != [] {
        DistinctRemove(layers, activeIndex);
        layers := layers[..activeIndex] + layers[activeIndex + 1..];
        activeIndex := if activeIndex > 0 then activeIndex - 1 else 0;
      }
    }

    /** Assigning `uvs.active.name`: renames the active layer; a name some
        other layer already has is replaced by a fresh one, as the host
        keeps names unique. */
    method SetActiveName(name: string)
      requires Valid() && layers != []
      modifies this`layers
      ensures Valid()
      ensures layers == old(layers)[activeIndex := Layer(
                if NameUsedElsewhere(old(layers), activeIndex, name) then FreshName(old(layers)) else name,
                old(layers)[activeIndex].data)]
    {
      var newName := if NameUsedElsewhere(layers, activeIndex, name) then FreshName(layers) else name;
      FreshNameIsUnused(layers);
      DistinctRename(layers, activeIndex, newName);
      layers := layers[activeIndex := Layer(newName, layers[activeIndex].data)];
    }

    // ---- the plugin's general functions ----

    /** `make_active(name)`: the first layer with that name becomes active;
        when no layer has it, nothing changes. */
    method MakeActive(name: string)
      requires Valid()
      modifies this`activeIndex
      ensures Valid()
      ensures HasName(layers, name) ==> activeIndex < |layers| && layers[activeIndex].name == name
      ensures !HasName(layers, name) ==> activeIndex == old(activeIndex)
    {
      var i := 0;
      while i < |layers|
        invariant 0 <= i <= |layers|
        invariant forall j :: 0 <= j < i ==> layers[j].name != name
      {
        if layers[i].name == name {
          assert NameAt(layers, i) == name;
          activeIndex := i;
          return;
        }
        i := i + 1;
      }
    }

    /** `move_to_bottom(index)`: the layer at index (clamped into range, as
        the host clamps the active index), name and coordinates, ends up last
        and active; the others keep their order. With no layers, reading the
        active layer's name fails and nothing changes. */
    method MoveToBottom(index: nat) returns (report: Report)
      requires Valid()
      modifies this
      ensures Valid()
      ensures report == if old(layers) == [] then NoActiveLayer else Finished
      ensures old(layers) == [] ==> layers == [] && activeIndex == old(activeIndex)
      ensures old(layers) != [] ==>
                layers == MovedToBottom(old(layers), if index < |old(layers)| then index else |old(layers)| - 1) &&
                activeIndex == |layers| - 1
    {
      if layers == [] {
        return NoActiveLayer;
      }
      ghost var original := layers;
      SetActiveIndex(index);
      ghost var k := activeIndex;
      var newName := layers[activeIndex].name;
      Add();
      HasNameAt(layers, k);
      MakeActive(newName);
      NameDeterminesIndex(layers, activeIndex, k);
      Remove();
      AddRemoveLeavesOthers(original, k, Layer(FreshName(original), original[k].data), layers);
      SetActiveIndex(|layers| - 1);
      SetActiveName(newName);
      report := Finished;
    }

    /** `move_to_bottom(index)` called times times in a row, as the loops of
        Move Down and Move to Top do: the part of the list from index on is
        rotated left by times places. */
    method MoveToBottomRepeatedly(index: nat, times: nat)
      requires Valid() && index + times <= |layers|
      modifies this
      ensures Valid()
      ensures layers == RotatedFrom(old(layers), index, times)
      ensures activeIndex == if times == 0 then old(activeIndex) else |layers| - 1
    {
      ghost var start := layers;
      ghost var startIndex := activeIndex;
      for t := 0 to times
        invariant Valid()
        invariant layers == RotatedFrom(start, index, t)
        invariant activeIndex == if t == 0 then startIndex else |layers| - 1
      {
        RotatedFromStep(start, index, t);
        ghost var before := layers;
        var moveReport := MoveToBottom(index);
        assert layers == MovedToBottom(before, index);
      }
    }

    // ---- the operators ----

    /** Move Down: swaps the active layer with the one after it and keeps it
        active; at the bottom it does nothing. */
    method MoveDown() returns (report: Report)
      requires Valid()
      modifies this
      ensures Valid()
      ensures report == if old(layers) == [] then NoActiveLayer else Finished
      ensures old(layers) == [] || old(activeIndex) == |old(layers)| - 1 ==>
                layers == old(layers) && activeIndex == old(activeIndex)
      ensures old(layers) != [] && old(activeIndex) < |old(layers)| - 1 ==>
                layers == Swapped(old(layers), old(activeIndex)) && activeIndex == old(activeIndex) + 1
    {
      if layers == [] {
        return NoActiveLayer;
      }
      var origIndex := activeIndex;
      var origName := layers[activeIndex].name;
      if origIndex == |layers| - 1 {
        return Finished;
      }
      ghost var original := layers;
      var n := |layers|;
      var firstReport := MoveToBottom(origIndex + 1);
      ghost var first := layers;
      assert first == MovedToBottom(original, origIndex + 1);
      var secondReport := MoveToBottom(origIndex);
      assert layers == MovedToBottom(first, origIndex);
      MoveToBottomRepeatedly(origIndex, n - 2 - origIndex);
      MoveDownRotations(original, origIndex);
      assert layers == Swapped(original, origIndex);
      HasNameAt(layers, origIndex + 1);
      MakeActive(origName);
      NameDeterminesIndex(layers, activeIndex, origIndex + 1);
      report := Finished;
    }

    /** Move Up: swaps the active layer with the one before it and keeps it
        active; at the top it does nothing. With no layers the host's active
        index names no layer, so the test for the top fails and reading the
        active layer's name raises. */
    method MoveUp() returns (report: Report)
      requires Valid()
      modifies this
      ensures Valid()
      ensures report == if old(layers) == [] then NoActiveLayer else Finished
      ensures old(activeIndex) == 0 ==> layers == old(layers) && activeIndex == old(activeIndex)
      ensures old(activeIndex) > 0 ==>
                layers == Swapped(old(layers), old(activeIndex) - 1) && activeIndex == old(activeIndex) - 1
    {
      if layers == [] {
        return NoActiveLayer;
      }
      if activeIndex == 0 {
        return Finished;
      }
      var original := layers[activeIndex].name;
      ghost var k := activeIndex;
      SetActiveIndex(activeIndex - 1);
      var downReport := MoveDown();
      HasNameAt(layers, k - 1);
      MakeActive(original);
      NameDeterminesIndex(layers, activeIndex, k - 1);
      report := Finished;
    }

    /** Move to Top: the active layer goes first and stays active, the
        others keep their order; at the top it does nothing. */
    method MoveTop() returns (report: Report)
      requires Valid()
      modifies this
      ensures Valid()
      ensures report == if old(layers) == [] then NoActiveLayer else Finished
      ensures old(activeIndex) == 0 ==> layers == old(layers) && activeIndex == old(activeIndex)
      ensures old(activeIndex) > 0 ==>
                layers == MovedToTop(old(layers), old(activeIndex)) && activeIndex == 0
    {
      if layers == [] {
        return NoActiveLayer;
      }
      var origIndex := activeIndex;
      var origName := layers[activeIndex].name;
      if origIndex == 0 {
        return Finished;
      }
      ghost var original := layers;
      var moveReport := MoveToBottom(origIndex);
      MoveToBottomRepeatedly(0, |layers| - 1);
      MoveTopRotations(original, origIndex);
      HasNameAt(layers, 0);
      MakeActive(origName);
      NameDeterminesIndex(layers, activeIndex, 0);
      report := Finished;
    }

    /** Move to Bottom: the active layer goes last and stays active, the
        others keep their order; at the bottom it does nothing. */
    method MoveBottom() returns (report: Report)
      requires Valid()
      modifies this
      ensures Valid()
      ensures report == if old(layers) == [] then NoActiveLayer else Finished
      ensures old(layers) == [] || old(activeIndex) == |old(layers)| - 1 ==>
                layers == old(layers) && activeIndex == old(activeIndex)
      ensures old(layers) != [] && old(activeIndex) < |old(layers)| - 1 ==>
                layers == MovedToBottom(old(layers), old(activeIndex)) && activeIndex == |layers| - 1
    {
      if layers == [] {
        return NoActiveLayer;
      }
      var origIndex := activeIndex;
      var origName := layers[activeIndex].name;
      if origIndex == |layers| - 1 {
        return Finished;
      }
      var moveReport := MoveToBottom(origIndex);
      HasNameAt(layers, |layers| - 1);
      MakeActive(origName);
      NameDeterminesIndex(layers, activeIndex, |layers| - 1);
      report := Finished;
    }

    /** One pass of Sort A to Z over every adjacent pair, an out-of-order
        pair exchanged by Move Up: with the part from p on already in place,
        afterwards the part from p - 1 on is in place. */
    method AscendingPass(p: nat)
      requires Valid() && 1 <= p <= |layers|
      requires SortedFrom(layers, p, false)
      modifies this
      ensures Valid() && |layers| == |old(layers)|
      ensures multiset(layers) == multiset(old(layers))
      ensures SortedFrom(layers, p - 1, false)
      ensures |layers| == 1 ==> activeIndex == old(activeIndex)
      ensures |layers| > 1 ==> |layers| - 2 <= activeIndex
    {
      var n := |layers|;
      ghost var startIndex := activeIndex;
      for i := 0 to n - 1
        invariant Valid() && |layers| == n
        invariant i == 0 ==> activeIndex == startIndex
        invariant i > 0 ==> i - 1 <= activeIndex <= i
        invariant multiset(layers) == multiset(old(layers))
        invariant LastOfPrefix(layers, i, false) && SortedFrom(layers, p, false)
        invariant p <= i + 1 ==> SortedFrom(layers, p - 1, false)
      {
        BubbleStep(layers, i, p, false);
        SetActiveIndex(i);
        var tempName := layers[activeIndex].name;
        SetActiveIndex(i + 1);
        if Less(layers[activeIndex].name, tempName) {
          SwappedPermutes(layers, i);
          ghost var before := layers;
          var upReport := MoveUp();
          assert layers == Swapped(before, i) && activeIndex == i;
        }
      }
    }

    /** Sort A to Z: a bubble sort by name of n passes over all adjacent
        pairs, each out-of-order pair exchanged by Move Up; afterwards the
        layer that was active is active again. */
    method SortAsc() returns (report: Report)
      requires Valid()
      modifies this
      ensures Valid()
      ensures report == if old(layers) == [] then NoActiveLayer else Finished
      ensures multiset(layers) == multiset(old(layers))
      ensures forall a, b :: 0 <= a < b < |layers| ==> Less(layers[a].name, layers[b].name)
      ensures old(layers) == [] ==> layers == [] && activeIndex == old(activeIndex)
      ensures old(layers) != [] ==>
                activeIndex < |layers| && layers[activeIndex] == old(layers)[old(activeIndex)]
    {
      if layers == [] {
        return NoActiveLayer;
      }
      ghost var original := layers;
      ghost var origIndex := activeIndex;
      var origName := layers[activeIndex].name;
      var n := |layers|;
      for j := 0 to n
        invariant Valid() && |layers| == n
        invariant multiset(layers) == multiset(original)
        invariant SortedFrom(layers, n - j, false)
      {
        AscendingPass(n - j);
      }
      SortedIsStrict(layers, false);
      forall a, b | 0 <= a < b < |layers|
        ensures Less(layers[a].name, layers[b].name)
      {
        assert Precedes(NameAt(layers, a), NameAt(layers, b), false);
      }
      PermutationKeepsName(original, layers, origIndex);
      MakeActive(origName);
      PermutationNameIsLayer(original, layers, origIndex, activeIndex);
      report := Finished;
    }

    /** One pass of Sort Z to A over every adjacent pair, an out-of-order
        pair exchanged by Move Down: with the part from p on already in place,
        afterwards the part from p - 1 on is in place. */
    method DescendingPass(p: nat)
      requires Valid() && 1 <= p <= |layers|
      requires SortedFrom(layers, p, true)
      modifies this
      ensures Valid() && |layers| == |old(layers)|
      ensures multiset(layers) == multiset(old(layers))
      ensures SortedFrom(layers, p - 1, true)
      ensures |layers| == 1 ==> activeIndex == old(activeIndex)
      ensures |layers| > 1 ==> |layers| - 2 <= activeIndex
    {
      var n := |layers|;
      ghost var startIndex := activeIndex;
      for i := 0 to n - 1
        invariant Valid() && |layers| == n
        invariant i == 0 ==> activeIndex == startIndex
        invariant i > 0 ==> i - 1 <= activeIndex <= i
        invariant multiset(layers) == multiset(old(layers))
        invariant LastOfPrefix(layers, i, true) && SortedFrom(layers, p, true)
        invariant p <= i + 1 ==> SortedFrom(layers, p - 1, true)
      {
        BubbleStep(layers, i, p, true);
        SetActiveIndex(i + 1);
        var tempName := layers[activeIndex].name;
        SetActiveIndex(i);
        if Less(layers[activeIndex].name, tempName) {
          SwappedPermutes(layers, i);
          ghost var before := layers;
          var downReport := MoveDown();
          assert layers == Swapped(before, i) && activeIndex == i + 1;
        }
      }
    }

    /** Sort Z to A: the same bubble sort in the other direction, each
        out-of-order pair exchanged by Move Down; afterwards the layer that
        was active is active again. */
    method SortDesc() returns (report: Report)
      requires Valid()
      modifies this
      ensures Valid()
      ensures report == if old(layers) == [] then NoActiveLayer else Finished
      ensures multiset(layers) == multiset(old(layers))
      ensures forall a, b :: 0 <= a < b < |layers| ==> Less(layers[b].name, layers[a].name)
      ensures old(layers) == [] ==> layers == [] && activeIndex == old(activeIndex)
      ensures old(layers) != [] ==>
                activeIndex < |layers| && layers[activeIndex] == old(layers)[old(activeIndex)]
    {
      if layers == [] {
        return NoActiveLayer;
      }
      ghost var original := layers;
      ghost var origIndex := activeIndex;
      var origName := layers[activeIndex].name;
      var n := |layers|;
      for j := 0 to n
        invariant Valid() && |layers| == n
        invariant multiset(layers) == multiset(original)
        invariant SortedFrom(layers, n - j, true)
      {
        DescendingPass(n - j);
      }
      SortedIsStrict(layers, true);
      forall a, b | 0 <= a < b < |layers|
        ensures Less(layers[b].name, layers[a].name)
      {
        assert Precedes(NameAt(layers, a), NameAt(layers, b), true);
      }
      PermutationKeepsName(original, layers, origIndex);
      MakeActive(origName);
      PermutationNameIsLayer(original, layers, origIndex, activeIndex);
      report := Finished;
    }
  }
}
