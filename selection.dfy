/**
 * The selection reducer of the voting page: the list `selectedItems` of
 * static/js/app.js, what a click on a grid item or on a rocket slot does to
 * it, and the views the page derives from it (grid button flags, the launch
 * button, the text shown in each rocket slot).
 *
 * Everything here is a pure function of the list; the page object that holds
 * the list and the DOM state lives in class App.Page.
 */
module Selection {
  import opened Translations

  /** One entry of `selectedItems`: a grid item's key and the rocket slot it occupies. */
  datatype Entry = Entry(key: string, rocketIndex: int)

  /** The number of rocket slots, and so the most items one can select. */
  const MaxSelections: nat := 3

  /** The keys of the entries, in selection order (`selectedItems.map(item => item.key)`). */
  function Keys(items: seq<Entry>): seq<string> {
    seq(|items|, i requires 0 <= i < |items| => items[i].key)
  }

  /** The occupied slots, in selection order (`selectedItems.map(item => item.rocketIndex)`). */
  function Slots(items: seq<Entry>): seq<int> {
    seq(|items|, i requires 0 <= i < |items| => items[i].rocketIndex)
  }

  /** The invariant the click handlers keep: at most three entries, distinct keys, distinct slots in 0..2. */
  predicate ValidSelection(items: seq<Entry>) {
    && |items| <= MaxSelections
    && (forall i :: 0 <= i < |items| ==> 0 <= items[i].rocketIndex < MaxSelections)
    && (forall i, j :: 0 <= i < j < |items| ==> items[i].key != items[j].key)
    && (forall i, j :: 0 <= i < j < |items| ==> items[i].rocketIndex != items[j].rocketIndex)
  }

  /** A key is among the keys exactly when some entry carries it. */
  lemma InKeys(items: seq<Entry>, key: string)
    ensures key in Keys(items) <==> exists i :: 0 <= i < |items| && items[i].key == key
  {
    if key in Keys(items) {
      var i :| 0 <= i < |items| && Keys(items)[i] == key;
      assert items[i].key == key;
    }
    if exists i :: 0 <= i < |items| && items[i].key == key {
      var i :| 0 <= i < |items| && items[i].key == key;
      assert Keys(items)[i] == key;
    }
  }

  /** The search condition of the grid click handler. */
  function HasKey(key: string): Entry -> bool {
    (e: Entry) => e.key == key
  }

  /** The search condition of the rocket slot click handler. */
  function InSlot(slot: int): Entry -> bool {
    (e: Entry) => e.rocketIndex == slot
  }

  /** `Array.prototype.findIndex`: the first index whose element satisfies `p`, or -1. */
  function FindIndex<T>(s: seq<T>, p: T -> bool): (r: int)
    ensures -1 <= r < |s|
    ensures r >= 0 ==> p(s[r])
    ensures forall j :: 0 <= j < |s| && (r == -1 || j < r) ==> !p(s[j])
  {
    if |s| == 0 then -1
    else if p(s[0]) then 0
    else
      var r := FindIndex(s[1..], p);
      if r == -1 then -1 else r + 1
  }

  /** `splice(i, 1)`: the list without its i-th element; the others keep their order. */
  function RemoveAt(items: seq<Entry>, i: nat): (r: seq<Entry>)
    requires i < |items|
    ensures |r| == |items| - 1
    ensures forall j :: 0 <= j < |r| ==> r[j] == items[if j < i then j else j + 1]
  {
    items[..i] + items[i + 1..]
  }

  /**
   * The slot the grid click handler's search loop stops at when it starts
   * from `from`: it steps past every slot in `used` and stops at
   * MaxSelections at the latest.
   */
  function FirstFree(used: seq<int>, from: nat): (r: nat)
    requires from <= MaxSelections
    decreases MaxSelections - from
    ensures from <= r <= MaxSelections
    ensures forall n :: from <= n < r ==> n in used
    ensures r < MaxSelections ==> r !in used
  {
    if from < MaxSelections && from in used then FirstFree(used, from + 1) else from
  }

  /**
   * A click on the grid item `key` (handleGridItemClick, without the
   * re-rendering). A selected key loses its entry; a click on a full
   * selection that does not hold the key changes nothing; under the
   * invariant any other click adds an entry. ToggleItemTouchesOnlyKey says
   * which entries change.
   */
  function ToggleItem(items: seq<Entry>, key: string): (r: seq<Entry>)
    ensures key in Keys(items) ==> |r| == |items| - 1
    ensures key !in Keys(items) && |items| >= MaxSelections ==> r == items
    ensures ValidSelection(items) && key !in Keys(items) && |items| < MaxSelections ==> |r| == |items| + 1
  {
    FindKey(items, key);
    FreeSlotWhenValid(items);
    var existingIndex := FindIndex(items, HasKey(key));
    if existingIndex != -1 then
      RemoveAt(items, existingIndex)
    else if |items| < MaxSelections then
      var rocketIndex := FirstFree(Slots(items), 0);
      if rocketIndex < MaxSelections then items + [Entry(key, rocketIndex)] else items
    else
      items
  }

  /**
   * A click on the rocket slot `slot` (handleRocketBlockClick, without the
   * re-rendering): exactly one entry goes when the slot is occupied, and
   * none otherwise. ToggleSlotTouchesOnlySlot says which one.
   */
  function ToggleSlot(items: seq<Entry>, slot: int): (r: seq<Entry>)
    ensures |r| == if slot in Slots(items) then |items| - 1 else |items|
  {
    FindSlot(items, slot);
    var existingIndex := FindIndex(items, InSlot(slot));
    if existingIndex != -1 then RemoveAt(items, existingIndex) else items
  }

  /** The two CSS flags updateGridStates gives a grid button. */
  datatype ButtonState = ButtonState(selected: bool, disabled: bool)

  /** The flags of the grid button for `key`: selected when some entry has the key, disabled when unselected on a full selection. */
  function GridButton(items: seq<Entry>, key: string): (b: ButtonState)
    ensures b.selected <==> exists i :: 0 <= i < |items| && items[i].key == key
    ensures !(b.selected && b.disabled)
    ensures b.disabled ==> |items| >= MaxSelections
  {
    InKeys(items, key);
    var isSelected := key in Keys(items);
    ButtonState(isSelected, !isSelected && |items| >= MaxSelections)
  }

  /** Whether updateLaunchButtonState enables the launch button: under the invariant, exactly when every slot is taken. */
  function LaunchEnabled(items: seq<Entry>): (enabled: bool)
    ensures ValidSelection(items) ==> (enabled <==> forall n :: 0 <= n < MaxSelections ==> n in Slots(items))
  {
    SlotsFullWhenValid(items);
    |items| == MaxSelections
  }

  /** `currentTranslations[key]`, with a missing key read as the empty (falsy) text. */
  function Translation(tr: Table, key: string): (text: string)
    ensures text != "" ==> key in tr && tr[key] == text
    ensures key in tr ==> text == tr[key]
  {
    if key in tr then tr[key] else ""
  }

  /**
   * The text updateRocketBlocks leaves in rocket block `slot`: the block is
   * cleared, then every entry for that slot with a non-empty translation
   * writes its text, so the last such entry wins.
   */
  function SlotText(items: seq<Entry>, tr: Table, slot: int): (text: string)
    ensures slot !in Slots(items) ==> text == ""
    ensures text != "" ==>
      exists i :: 0 <= i < |items| && items[i].rocketIndex == slot && text == Translation(tr, items[i].key)
  {
    if |items| == 0 then ""
    else
      var last := items[|items| - 1];
      assert Slots(items)[|items| - 1] == last.rocketIndex;
      assert Slots(items[..|items| - 1]) == Slots(items)[..|items| - 1];
      if last.rocketIndex == slot && Translation(tr, last.key) != "" then Translation(tr, last.key)
      else SlotText(items[..|items| - 1], tr, slot)
  }

  // ---------------------------------------------------------------------------
  // The lowest free slot

  /** Any number with the two properties of the handler's search result is that result. */
  lemma FirstFreeUnique(used: seq<int>, r: int)
    requires 0 <= r <= MaxSelections
    requires forall n :: 0 <= n < r ==> n in used
    requires r < MaxSelections ==> r !in used
    ensures r == FirstFree(used, 0)
  {
    var f := FirstFree(used, 0);
    assert r < f ==> r in used;
    assert f < r ==> f in used;
  }

  /** Under the invariant, fewer than three entries leave a slot free, so the handler's `rocketIndex < 3` guard always holds. */
  lemma FreeSlotExists(items: seq<Entry>)
    requires ValidSelection(items) && |items| < MaxSelections
    ensures FirstFree(Slots(items), 0) < MaxSelections
  {
    var used := Slots(items);
    var free :=
      if |used| == 0 then 0
      else if |used| == 1 then (if used[0] == 0 then 1 else 0)
      else if used[0] != 0 && used[1] != 0 then 0
      else if used[0] != 1 && used[1] != 1 then 1
      else 2;
    assert used == if |used| == 0 then [] else if |used| == 1 then [used[0]] else [used[0], used[1]];
    assert 0 <= free < MaxSelections && free !in used;
  }

  /** With three entries in distinct slots of 0..2, every slot is taken. */
  lemma FullSelectionUsesAllSlots(items: seq<Entry>)
    requires ValidSelection(items) && |items| == MaxSelections
    ensures forall n :: 0 <= n < MaxSelections ==> n in Slots(items)
  {
    var used := Slots(items);
    assert used == [used[0], used[1], used[2]];
    assert used[0] != used[1] && used[0] != used[2] && used[1] != used[2];
    forall n | 0 <= n < MaxSelections ensures n in used {
      assert n == used[0] || n == used[1] || n == used[2];
    }
  }

  /** The pigeonhole step of FreeSlotExists, stated for every selection. */
  lemma FreeSlotWhenValid(items: seq<Entry>)
    ensures ValidSelection(items) && |items| < MaxSelections ==> FirstFree(Slots(items), 0) < MaxSelections
  {
    if ValidSelection(items) && |items| < MaxSelections {
      FreeSlotExists(items);
    }
  }

  /** Under the invariant, three entries is the same as every slot taken. */
  lemma SlotsFullWhenValid(items: seq<Entry>)
    ensures ValidSelection(items) ==>
      (|items| == MaxSelections <==> forall n :: 0 <= n < MaxSelections ==> n in Slots(items))
  {
    if ValidSelection(items) {
      if |items| < MaxSelections {
        FreeSlotExists(items);
      } else {
        FullSelectionUsesAllSlots(items);
      }
    }
  }

  /** The launch button is enabled exactly when every rocket slot is taken. */
  lemma LaunchEnabledIffSlotsFull(items: seq<Entry>)
    requires ValidSelection(items)
    ensures LaunchEnabled(items) <==> FirstFree(Slots(items), 0) == MaxSelections
  {
    if |items| < MaxSelections {
      FreeSlotExists(items);
    } else {
      FullSelectionUsesAllSlots(items);
    }
  }

  // ---------------------------------------------------------------------------
  // Removing and appending entries

  /** `key` is among the keys exactly when the grid handler's search finds it. */
  lemma FindKey(items: seq<Entry>, key: string)
    ensures key in Keys(items) <==> FindIndex(items, HasKey(key)) != -1
  {
    var f := FindIndex(items, HasKey(key));
    if f != -1 {
      assert Keys(items)[f] == key;
    } else {
      forall j | 0 <= j < |items| ensures Keys(items)[j] != key {
        assert !HasKey(key)(items[j]);
      }
    }
  }

  /** `slot` is among the occupied slots exactly when the slot handler's search finds it. */
  lemma FindSlot(items: seq<Entry>, slot: int)
    ensures slot in Slots(items) <==> FindIndex(items, InSlot(slot)) != -1
  {
    var f := FindIndex(items, InSlot(slot));
    if f != -1 {
      assert Slots(items)[f] == slot;
    } else {
      forall j | 0 <= j < |items| ensures Slots(items)[j] != slot {
        assert !InSlot(slot)(items[j]);
      }
    }
  }

  /** Removing one entry keeps the invariant, and the removed key and slot are no longer present. */
  lemma RemoveAtKeepsValid(items: seq<Entry>, i: nat)
    requires ValidSelection(items) && i < |items|
    ensures ValidSelection(RemoveAt(items, i))
    ensures items[i].key !in Keys(RemoveAt(items, i))
    ensures items[i].rocketIndex !in Slots(RemoveAt(items, i))
  {
    var r := RemoveAt(items, i);
    assert forall j :: 0 <= j < |r| ==> r[j] == items[if j < i then j else j + 1];
    forall j | 0 <= j < |r|
      ensures Keys(r)[j] != items[i].key && Slots(r)[j] != items[i].rocketIndex
    {
      assert r[j] == items[if j < i then j else j + 1];
    }
  }

  /** Appending a new key in a free slot of 0..2 to fewer than three entries keeps the invariant. */
  lemma AppendKeepsValid(items: seq<Entry>, key: string, slot: int)
    requires ValidSelection(items) && |items| < MaxSelections
    requires key !in Keys(items) && slot !in Slots(items) && 0 <= slot < MaxSelections
    ensures ValidSelection(items + [Entry(key, slot)])
  {
    forall j | 0 <= j < |items| ensures items[j].key != key && items[j].rocketIndex != slot {
      assert Keys(items)[j] == items[j].key && Slots(items)[j] == items[j].rocketIndex;
    }
  }

  /** The other entries survive a removal: their keys stay among the keys and their slots stay occupied. */
  lemma RemoveAtKeepsOthers(items: seq<Entry>, i: nat)
    requires i < |items|
    ensures forall x :: x in Keys(RemoveAt(items, i)) ==> x in Keys(items)
    ensures forall k :: 0 <= k < |items| && k != i ==> items[k].rocketIndex in Slots(RemoveAt(items, i))
  {
    var r := RemoveAt(items, i);
    forall x | x in Keys(r) ensures x in Keys(items) {
      var j :| 0 <= j < |r| && Keys(r)[j] == x;
      assert Keys(items)[if j < i then j else j + 1] == x;
    }
    forall k | 0 <= k < |items| && k != i ensures items[k].rocketIndex in Slots(r) {
      assert Slots(r)[if k < i then k else k - 1] == items[k].rocketIndex;
    }
  }

  // ---------------------------------------------------------------------------
  // The grid click

  /** Clicking a selected item removes exactly its entry; the others keep their order and slots, and its slot becomes free. */
  lemma ToggleSelectedRemoves(items: seq<Entry>, key: string, i: nat)
    requires ValidSelection(items)
    requires i < |items| && items[i].key == key
    ensures ToggleItem(items, key) == items[..i] + items[i + 1..]
    ensures key !in Keys(ToggleItem(items, key))
    ensures items[i].rocketIndex !in Slots(ToggleItem(items, key))
  {
    var f := FindIndex(items, HasKey(key));
    assert f <= i;
    assert f == i by {
      assert f != -1;
      assert items[f].key == key;
    }
    RemoveAtKeepsValid(items, i);
  }

  /** Clicking an unselected item while fewer than three are selected appends it in the lowest free slot. */
  lemma ToggleUnselectedAppends(items: seq<Entry>, key: string)
    requires ValidSelection(items)
    requires key !in Keys(items) && |items| < MaxSelections
    ensures exists slot ::
      && 0 <= slot < MaxSelections
      && slot !in Slots(items)
      && (forall n :: 0 <= n < slot ==> n in Slots(items))
      && ToggleItem(items, key) == items + [Entry(key, slot)]
  {
    FindKey(items, key);
    FreeSlotExists(items);
    var slot := FirstFree(Slots(items), 0);
    assert ToggleItem(items, key) == items + [Entry(key, slot)];
  }

  /** The same, naming the slot: the lowest one the search loop finds free. */
  lemma ToggleAppendsLowestFree(items: seq<Entry>, key: string)
    requires ValidSelection(items)
    requires key !in Keys(items) && |items| < MaxSelections
    ensures FirstFree(Slots(items), 0) < MaxSelections
    ensures ToggleItem(items, key) == items + [Entry(key, FirstFree(Slots(items), 0))]
  {
    FindKey(items, key);
    FreeSlotExists(items);
  }

  /** Clicking an unselected item while three are selected changes nothing. */
  lemma ToggleWhenFullIsNoOp(items: seq<Entry>, key: string)
    requires key !in Keys(items) && |items| >= MaxSelections
    ensures ToggleItem(items, key) == items
  {
    FindKey(items, key);
  }

  /** A grid click keeps the invariant: at most three entries, unique keys, unique slots in 0..2. */
  lemma ToggleItemKeepsValid(items: seq<Entry>, key: string)
    requires ValidSelection(items)
    ensures ValidSelection(ToggleItem(items, key))
  {
    FindKey(items, key);
    var f := FindIndex(items, HasKey(key));
    if f != -1 {
      RemoveAtKeepsValid(items, f);
    } else if |items| < MaxSelections {
      FreeSlotExists(items);
      AppendKeepsValid(items, key, FirstFree(Slots(items), 0));
    }
  }

  /** A click on an enabled grid button flips its `selected` flag; a click on a disabled one changes nothing. */
  lemma GridClickFlipsSelected(items: seq<Entry>, key: string)
    requires ValidSelection(items)
    ensures GridButton(items, key).disabled ==> ToggleItem(items, key) == items
    ensures !GridButton(items, key).disabled ==>
      GridButton(ToggleItem(items, key), key).selected == !GridButton(items, key).selected
  {
    if key in Keys(items) {
      var i :| 0 <= i < |items| && Keys(items)[i] == key;
      ToggleSelectedRemoves(items, key, i);
    } else if |items| < MaxSelections {
      ToggleUnselectedAppends(items, key);
      var r := ToggleItem(items, key);
      assert Keys(r)[|items|] == key;
    } else {
      ToggleWhenFullIsNoOp(items, key);
    }
  }

  /** Removing an entry from a full selection frees its slot, and the next new item gets exactly that slot. */
  lemma FreedSlotIsReused(items: seq<Entry>, key: string, i: nat, next: string)
    requires ValidSelection(items) && |items| == MaxSelections
    requires i < |items| && items[i].key == key
    requires next != key && next !in Keys(items)
    ensures ToggleItem(ToggleItem(items, key), next)
         == items[..i] + items[i + 1..] + [Entry(next, items[i].rocketIndex)]
  {
    var rest := RemoveAt(items, i);
    ToggleSelectedRemoves(items, key, i);
    assert ToggleItem(items, key) == rest;
    RemoveAtKeepsValid(items, i);
    RemoveAtKeepsOthers(items, i);
    assert next !in Keys(rest);
    ToggleAppendsLowestFree(rest, next);
    var slot := FirstFree(Slots(rest), 0);
    assert ToggleItem(rest, next) == rest + [Entry(next, slot)];
    // Every slot but items[i]'s is still taken in `rest`, so the lowest free one is items[i]'s.
    FullSelectionUsesAllSlots(items);
    assert slot in Slots(items);
    var k :| 0 <= k < |items| && Slots(items)[k] == slot;
    assert items[k].rocketIndex == slot && slot !in Slots(rest);
    assert k == i;
  }

  /** `splice(i, 1)` brings in nothing new and keeps every entry but the i-th. */
  lemma RemoveAtMembers(items: seq<Entry>, i: nat)
    requires i < |items|
    ensures forall e :: e in RemoveAt(items, i) ==> e in items
    ensures forall j :: 0 <= j < |items| && j != i ==> items[j] in RemoveAt(items, i)
  {
    var r := RemoveAt(items, i);
    forall j | 0 <= j < |items| && j != i ensures items[j] in r {
      assert r[if j < i then j else j - 1] == items[j];
    }
  }

  /**
   * A grid click touches only the clicked key: every entry with another key
   * survives, and an entry that is new has the clicked key and a slot of 0..2
   * that was free.
   */
  lemma ToggleItemTouchesOnlyKey(items: seq<Entry>, key: string)
    ensures forall e :: e in items && e.key != key ==> e in ToggleItem(items, key)
    ensures forall e :: e in ToggleItem(items, key) && e !in items ==>
      e.key == key && 0 <= e.rocketIndex < MaxSelections && e.rocketIndex !in Slots(items)
  {
    var f := FindIndex(items, HasKey(key));
    if f != -1 {
      RemoveAtMembers(items, f);
      forall e | e in items && e.key != key ensures e in ToggleItem(items, key) {
        var j :| 0 <= j < |items| && items[j] == e;
        assert j != f;
      }
    }
  }

  // ---------------------------------------------------------------------------
  // The rocket slot click

  /** A slot click removes the entry in that slot if there is one, and otherwise changes nothing; it never adds an entry. */
  lemma ToggleSlotRemovesOccupant(items: seq<Entry>, slot: int)
    requires ValidSelection(items)
    ensures ValidSelection(ToggleSlot(items, slot))
    ensures slot !in Slots(ToggleSlot(items, slot))
    ensures slot !in Slots(items) ==> ToggleSlot(items, slot) == items
    ensures slot in Slots(items) ==>
      exists i :: 0 <= i < |items| && items[i].rocketIndex == slot
               && ToggleSlot(items, slot) == items[..i] + items[i + 1..]
  {
    FindSlot(items, slot);
    var f := FindIndex(items, InSlot(slot));
    if f != -1 {
      RemoveAtKeepsValid(items, f);
    }
  }

  /** A block click brings in nothing new and keeps every entry in another block. */
  lemma ToggleSlotTouchesOnlySlot(items: seq<Entry>, slot: int)
    ensures forall e :: e in ToggleSlot(items, slot) ==> e in items
    ensures forall e :: e in items && e.rocketIndex != slot ==> e in ToggleSlot(items, slot)
  {
    var f := FindIndex(items, InSlot(slot));
    if f != -1 {
      RemoveAtMembers(items, f);
      forall e | e in items && e.rocketIndex != slot ensures e in ToggleSlot(items, slot) {
        var j :| 0 <= j < |items| && items[j] == e;
        assert j != f;
      }
    }
  }

  // ---------------------------------------------------------------------------
  // The rocket blocks

  /** Under the invariant, a rocket slot shows the translation of the entry in that slot, and is empty when no entry occupies it or its text is empty. */
  lemma {:induction false} SlotTextIsOccupant(items: seq<Entry>, tr: Table, slot: int)
    requires ValidSelection(items)
    ensures var f := FindIndex(items, InSlot(slot));
      SlotText(items, tr, slot) == if f == -1 then "" else Translation(tr, items[f].key)
  {
    if |items| > 0 {
      var init := items[..|items| - 1];
      var last := items[|items| - 1];
      assert ValidSelection(init);
      SlotTextIsOccupant(init, tr, slot);
      var f := FindIndex(items, InSlot(slot));
      var g := FindIndex(init, InSlot(slot));
      if last.rocketIndex == slot {
        assert f == |items| - 1 by {
          assert forall j :: 0 <= j < |init| ==> init[j].rocketIndex != slot;
        }
        assert g == -1;
      } else {
        if g != -1 {
          assert f == g by {
            assert InSlot(slot)(items[g]);
          }
        } else {
          assert f == -1 by {
            forall j | 0 <= j < |items| ensures !InSlot(slot)(items[j]) {
              if j < |init| { assert items[j] == init[j]; }
            }
          }
        }
      }
    }
  }

  // ---------------------------------------------------------------------------
  // Sequences of clicks

  /** A user event on the index page. */
  datatype Click = GridClick(key: string) | RocketClick(slot: int)

  /** The selection after one event. */
  function Step(items: seq<Entry>, c: Click): seq<Entry> {
    match c
    case GridClick(key) => ToggleItem(items, key)
    case RocketClick(slot) => ToggleSlot(items, slot)
  }

  /** The selection after a sequence of events, in order. */
  function Run(items: seq<Entry>, clicks: seq<Click>): seq<Entry>
    decreases |clicks|
  {
    if |clicks| == 0 then items else Run(Step(items, clicks[0]), clicks[1..])
  }

  /** Whatever the user clicks, starting from any valid selection, the invariant holds: never more than three entries, never a repeated key or slot. */
  lemma {:induction false} RunKeepsValid(items: seq<Entry>, clicks: seq<Click>)
    requires ValidSelection(items)
    ensures ValidSelection(Run(items, clicks))
    decreases |clicks|
  {
    if |clicks| > 0 {
      match clicks[0] {
        case GridClick(key) => ToggleItemKeepsValid(items, key);
        case RocketClick(slot) => ToggleSlotRemovesOccupant(items, slot);
      }
      RunKeepsValid(Step(items, clicks[0]), clicks[1..]);
    }
  }

  /** One grid click that appends `key` in the slot the caller names as the lowest free one. */
  lemma ToggleAppendsAt(items: seq<Entry>, key: string, slot: int)
    requires ValidSelection(items)
    requires key !in Keys(items) && |items| < MaxSelections
    requires 0 <= slot < MaxSelections && slot !in Slots(items)
    requires forall n :: 0 <= n < slot ==> n in Slots(items)
    ensures ValidSelection(ToggleItem(items, key))
    ensures ToggleItem(items, key) == items + [Entry(key, slot)]
  {
    ToggleAppendsLowestFree(items, key);
    FirstFreeUnique(Slots(items), slot);
    AppendKeepsValid(items, key, slot);
  }

  /** Running a list of clicks and then one more is running the list and then clicking once more. */
  lemma {:induction false} RunSnoc(items: seq<Entry>, cs: seq<Click>, c: Click)
    ensures Run(items, cs + [c]) == Step(Run(items, cs), c)
    decreases |cs|
  {
    if |cs| == 0 {
      assert cs + [c] == [c];
    } else {
      assert (cs + [c])[0] == cs[0];
      assert (cs + [c])[1..] == cs[1..] + [c];
      RunSnoc(Step(items, cs[0]), cs[1..], c);
    }
  }

  /** One grid click per key, in order. */
  function GridClicks(keys: seq<string>): (cs: seq<Click>)
    ensures |cs| == |keys|
    ensures forall i :: 0 <= i < |keys| ==> cs[i] == GridClick(keys[i])
  {
    if |keys| == 0 then [] else GridClicks(keys[..|keys| - 1]) + [GridClick(keys[|keys| - 1])]
  }

  /** The selection in which the i-th key sits in slot i. */
  function InOrder(keys: seq<string>): seq<Entry> {
    seq(|keys|, i requires 0 <= i < |keys| => Entry(keys[i], i))
  }

  /** InOrder of up to three distinct keys keeps the invariant, and its slots are 0 up to the number of keys. */
  lemma InOrderIsValid(keys: seq<string>)
    requires |keys| <= MaxSelections
    requires forall i, j :: 0 <= i < j < |keys| ==> keys[i] != keys[j]
    ensures ValidSelection(InOrder(keys))
    ensures Keys(InOrder(keys)) == keys
    ensures forall n :: 0 <= n < |keys| ==> n in Slots(InOrder(keys))
    ensures |keys| !in Slots(InOrder(keys))
  {
    var s := InOrder(keys);
    forall n | 0 <= n < |keys| ensures n in Slots(s) {
      assert Slots(s)[n] == n;
    }
  }

  /** Slot assignment is deterministic: selecting up to three distinct keys, one after the other, from an empty selection puts the i-th key in slot i. */
  lemma {:induction false} SlotsFillInOrder(keys: seq<string>)
    requires |keys| <= MaxSelections
    requires forall i, j :: 0 <= i < j < |keys| ==> keys[i] != keys[j]
    ensures Run([], GridClicks(keys)) == InOrder(keys)
    decreases |keys|
  {
    if |keys| > 0 {
      var init := keys[..|keys| - 1];
      var k := keys[|keys| - 1];
      assert GridClicks(keys) == GridClicks(init) + [GridClick(k)];
      SlotsFillInOrder(init);
      RunSnoc([], GridClicks(init), GridClick(k));
      assert Run([], GridClicks(keys)) == ToggleItem(InOrder(init), k);
      InOrderIsValid(init);
      assert k !in init;
      ToggleAppendsAt(InOrder(init), k, |init|);
      assert InOrder(init) + [Entry(k, |init|)] == InOrder(keys);
    }
  }

  /** Removing B from A, B, C in slots 0, 1, 2 and then selecting D puts D in the freed slot 1. */
  lemma RefillFreedSlot(a: string, b: string, c: string, d: string)
    requires a != b && a != c && a != d && b != c && b != d && c != d
    ensures ToggleItem(ToggleItem(InOrder([a, b, c]), b), d)
         == [Entry(a, 0), Entry(c, 2), Entry(d, 1)]
  {
    var s3 := InOrder([a, b, c]);
    InOrderIsValid([a, b, c]);
    assert s3 == [Entry(a, 0), Entry(b, 1), Entry(c, 2)];
    FreedSlotIsReused(s3, b, 1, d);
    assert s3[..1] + s3[2..] + [Entry(d, 1)] == [Entry(a, 0), Entry(c, 2), Entry(d, 1)];
  }
}
