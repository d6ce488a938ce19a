# UV Map Order, modelled in Dafny

This is a model of the Blender add-on "UV Map Order" (`uv_map_order.py`). The add-on
reorders and sorts the UV maps of the active mesh. Blender's Python API cannot reorder
UV layers, so the add-on builds every rearrangement out of three things the host does offer:
- add a copy of the active layer at the end of the list;
- remove the active layer;
- rename the active layer.

It keeps track of each layer by its name. The one building block is
`move_to_bottom(index)`: it copies layer `index` to the end, deletes the original and
gives the copy the original's name. Two general functions and six operators are built on it:
- `make_active` and `move_to_bottom`;
- Move Up and Move Down;
- Move to Top and Move to Bottom;
- Sort A to Z and Sort Z to A.

The model has four modules:

- `Names` (`names.dfy`): Python's `<` on strings, which the sorts use, as lexicographic
  comparison by code point. Proved to be a strict total order. Also the two sort directions.
- `Reorder` (`reorder.dfy`): the rearrangements as functions on sequences:
  - "moved to the bottom";
  - "rotated from k";
  - "swapped at k";
  - "moved to the top".

  Lemmas prove that the operators' sequences of `move_to_bottom` calls compose into these
  rearrangements, that each one keeps the other layers' order, and that each one is a permutation.
- `Layers` (`layers.dfy`): a UV layer (a name and its coordinates), and the host's rule that
  layer names are unique. It also holds the invariant of one bubble-sort comparison, and the
  fact that a strictly sorted rearrangement of a list is unique.
- `UVMapOrder` (`uv_map_order.dfy`): the class `UVLayers`, the host's layer list of the active
  mesh and its active index.
  - The host primitives are methods whose contracts state what the add-on relies on:
    - assigning `active_index`;
    - `uv_texture_add`;
    - `uv_texture_remove`;
    - assigning `active.name`.
  - `make_active`, `move_to_bottom` and the six operators are methods built only from those
    primitives, with the add-on's own loops.
  - The four move operators are each proved against the rearrangement function from `Reorder`
    that they perform.
  - The two sorts are proved against a permutation plus a strict order by name, stated with
    `Layers`. A separate lemma shows that this determines the result.
  - The invariant `Valid()` is kept throughout: names are distinct, and the active index is in range.

Python's `str.__lt__` is modelled as lexicographic comparison of code points. The host may
raise an error; the model returns it as `Report.NoActiveLayer`. The error is raised when an
operator reads `uvs.active.name` and there are no layers. In that case nothing changes. This
holds for all six operators and for `move_to_bottom`.

## Model

| member | source | states |
|---|---|---|
| Names.Less | uv_map_order.py:185 | Python's `<` on two names: compare code points at the first position where they differ, and a proper prefix is the smaller; proved a strict total order by the next four rows |
| Names.LessIrreflexive | uv_map_order.py:185 | no name is smaller than itself under Python string `<` |
| Names.LessAsymmetric | uv_map_order.py:185 | if a < b then not b < a |
| Names.LessTransitive | uv_map_order.py:185 | string `<` is transitive |
| Names.LessTotal | uv_map_order.py:207 | of two different names one is smaller, so every pair of distinct layer names is ordered |
| Names.InOrderTransitive | uv_map_order.py:180-186 | "may stand before" in either sort direction is transitive |
| Names.InOrderDistinct | uv_map_order.py:202-208 | between distinct names, "not out of order" is the same as "strictly before" |
| Reorder.MovedToBottom | uv_map_order.py:46-59 | moving a layer to the bottom keeps the length and puts that layer last |
| Reorder.MovedToBottomKeepsOthers | uv_map_order.py:46-59 | the layers before the moved one stay where they were; those after it shift up by one, in order |
| Reorder.MovedToBottomPermutes | uv_map_order.py:46-59 | moving to the bottom neither loses nor duplicates a layer |
| Reorder.RotatedFrom | uv_map_order.py:105-107 | rotating the part from k keeps the length and the part before k, and rotating by 0 changes nothing |
| Reorder.RotatedFromStep | uv_map_order.py:106-107 | one more `move_to_bottom(k)` after t of them rotates the part from k by t + 1 places |
| Reorder.TwoMovesToBottom | uv_map_order.py:100-103 | Move Down's first two calls leave the layers at k + 1 and k at the end, in that order, the rest in order before them |
| Reorder.MoveDownRotations | uv_map_order.py:99-107 | Move Down's whole sequence of `move_to_bottom` calls exchanges exactly the layers at k and k + 1 |
| Reorder.MoveTopRotations | uv_map_order.py:132-137 | Move to Top's `move_to_bottom(k)` then n - 1 calls of `move_to_bottom(0)` put layer k first and keep the order of the rest |
| Reorder.Swapped | uv_map_order.py:88-111 | exchanging the pair at k keeps the length and puts each of the two where the other was |
| Reorder.SwappedKeepsOthers | uv_map_order.py:88-111 | exchanging the pair at k changes no other position |
| Reorder.SwappedPermutes | uv_map_order.py:88-111 | exchanging a pair is a permutation |
| Reorder.SwappedTwice | uv_map_order.py:69-81 | exchanging the same pair twice restores the list, so Move Up undoes Move Down |
| Reorder.MovedToTop | uv_map_order.py:121-141 | moving a layer to the top keeps the length and puts that layer first |
| Reorder.MovedToTopKeepsOthers | uv_map_order.py:121-141 | the layers before the moved one shift down by one, those after it stay, in order |
| Reorder.MovedToTopPermutes | uv_map_order.py:121-141 | moving to the top is a permutation |
| Layers.NameDeterminesIndex | uv_map_order.py:38-44 | with unique names, a name identifies one position, so `make_active` finds the very layer that carried it |
| Layers.FreshName | uv_map_order.py:51 | stands in for the name the host gives an added layer: a name longer than every existing name, so it is unused (next row) |
| Layers.FreshNameIsUnused | uv_map_order.py:51 | the name given to an added layer is used by no existing layer |
| Layers.DistinctAppend | uv_map_order.py:51 | appending a layer under an unused name keeps names unique |
| Layers.DistinctRemove | uv_map_order.py:55 | removing a layer keeps names unique |
| Layers.DistinctRename | uv_map_order.py:59 | renaming a layer to a name no other layer has keeps names unique |
| Layers.BubbleStep | uv_map_order.py:181-186 | one comparison exchanges the pair exactly when it is out of order; afterwards the layer at i + 1 belongs after all before it, the sorted part stays sorted, and it grows by one when the pass reaches it |
| Layers.SortedIsStrict | uv_map_order.py:180-190 | a sorted list of unique names is strictly increasing (or decreasing) |
| Layers.PermutationKeepsName | uv_map_order.py:188 | after a rearrangement the originally active name is still present, so `make_active` finds it |
| Layers.PermutationNameIsLayer | uv_map_order.py:188 | the layer found under that name is the originally active layer, coordinates included |
| Layers.SortedPermutationUnique | uv_map_order.py:176-212 | two strictly sorted rearrangements of the same layers are equal, so a sort's result does not depend on the starting order |
| UVMapOrder.AddRemoveLeavesOthers | uv_map_order.py:51-55 | after adding the copy and removing the original, the other layers are in their old order, the copy is last, and no other layer has the original's name |
| UVMapOrder.UVLayers.Valid | uv_map_order.py:38-44 | the host's invariant that every method keeps: layer names are unique, which is why `make_active` can identify a layer by its name; the active index is in range |
| UVMapOrder.UVLayers.SetActiveIndex | uv_map_order.py:48 | assigning the active index selects that layer, an out-of-range value being clamped |
| UVMapOrder.UVLayers.Add | uv_map_order.py:51 | adding appends a copy of the active layer's coordinates under an unused name and makes it active |
| UVMapOrder.UVLayers.Remove | uv_map_order.py:55 | removing deletes exactly the active layer, and does nothing with no layers |
| UVMapOrder.UVLayers.SetActiveName | uv_map_order.py:59 | renaming changes only the active layer's name, and a name another layer holds is replaced by an unused one |
| UVMapOrder.UVLayers.MakeActive | uv_map_order.py:38-44 | a layer with the name becomes active; with no such layer the active index is unchanged |
| UVMapOrder.UVLayers.MoveToBottom | uv_map_order.py:46-59 | the layer at index ends up last and active, the others keep their order, names stay unique; with no layers it fails and changes nothing |
| UVMapOrder.UVLayers.MoveToBottomRepeatedly | uv_map_order.py:106-107 | t calls of `move_to_bottom(k)` rotate the part from k left by t places; after at least one call the last layer is active, and after none the active index is unchanged |
| UVMapOrder.UVLayers.MoveDown | uv_map_order.py:88-111 | at the bottom nothing changes; otherwise the active layer and the next are exchanged and the original layer is active at k + 1; with no layers it fails |
| UVMapOrder.UVLayers.MoveUp | uv_map_order.py:69-81 | at the top nothing changes; otherwise the active layer and the previous are exchanged and the original layer is active at k - 1; with no layers it fails and nothing changes |
| UVMapOrder.UVLayers.MoveTop | uv_map_order.py:121-141 | at the top nothing changes; otherwise the active layer goes first, the others keep their order, and it is active at 0 |
| UVMapOrder.UVLayers.MoveBottom | uv_map_order.py:148-164 | at the bottom nothing changes; otherwise the active layer goes last, the others keep their order, and it stays active |
| UVMapOrder.UVLayers.AscendingPass | uv_map_order.py:181-186 | one A-to-Z pass permutes the layers and extends the sorted suffix by one position; afterwards one of the last two layers is active |
| UVMapOrder.UVLayers.SortAsc | uv_map_order.py:176-190 | the result is a permutation whose names strictly increase, and the originally active layer is active again; with no layers it fails |
| UVMapOrder.UVLayers.DescendingPass | uv_map_order.py:203-208 | one Z-to-A pass permutes the layers and extends the sorted suffix by one position; afterwards one of the last two layers is active |
| UVMapOrder.UVLayers.SortDesc | uv_map_order.py:198-212 | the result is a permutation whose names strictly decrease, and the originally active layer is active again; with no layers it fails |

## Left out

- Blender's internals behind the four host primitives are not modelled. Only their contracts
  are stated: clamping of the active index, append-and-activate, remove-active, and
  rename-with-uniqueness.
- UVMapOrder.UVLayers.Add: the host's unused name is a stand-in (`FreshName`, longer than
  every existing name); Blender's numbered suffix scheme is not modelled. Only "unused" is relied on.
- UVMapOrder.UVLayers.Add: a first layer on an empty mesh gets empty coordinates. The host's
  default unwrap is not modelled.
- UVMapOrder.UVLayers.Add: every add is assumed to succeed. The host refuses to add a UV map
  beyond its per-mesh limit, and the add-on never checks what the add at line 51 returns. At
  the limit, `move_to_bottom` would still go on. Lines 54-55 would remove the original layer at
  `index`, and lines 58-59 would give that layer's name to the last layer. The layer's
  coordinates would be lost. The model does not cover that case. The active index, set at line 48,
  would also have changed already.
- UVMapOrder.UVLayers.Remove: which layer the host makes active after a removal is left open.
  Only that the index stays valid is promised. The add-on always sets the active index
  or layer itself afterwards.
- UVMapOrder.UVLayers.MoveToBottomRepeatedly: requires `index + times` to be at most the
  number of layers. Its only callers, the loops at lines 106-107 and 136-137, always meet this.
- UVMapOrder.UVLayers.MoveUp: an empty list's active index is kept as 0 in the model. The
  host's `active_index` is taken to name no layer then. So the test at line 73 fails, and
  line 76 raises, as in the other operators.
- A `Layer` is only a name and its coordinates. Other per-layer state the host keeps is not
  modelled. An example is the flag marking the layer used for rendering. The copy made at
  line 51 and the removal at line 55 may not carry such state with the moved layer.
- The diagnostic `print` in `make_active` (line 44) is left out, as output only. Its case, a
  name not found, is modelled as "nothing changes".
- The operators' `{'FINISHED'}` return value, `bl_options` (undo registration) and the
  operator metadata are left out, as host bookkeeping.
- The UI panel (`uv_tools_addition`, lines 217-235), `bl_info` and `register`/`unregister`
  (lines 21-31 and 240-253) are left out, as user interface and installation.
- Coordinates are modelled as pairs of `real`. Floating point is not modelled; coordinates
  are only ever copied.
- The active object being a mesh is taken for granted. `bpy.context.view_layer.objects.active.data`
  is not modelled; the class stands for that mesh's UV layer list.
