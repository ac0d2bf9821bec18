/** Which descriptor slot the k-th element of an update names.

    An update that runs past the last element of a binding continues at the first element of the
    next binding that has any ("Descriptor Set Updates", Vulkan 1.2 specification).
  */
module DescriptorSlots {
  import opened Options

  const WORD: nat := 0x1_0000_0000

  /** A layout lists its bindings in increasing order; each has a number of elements. */
  datatype Binding = Binding(binding: nat, count: nat)

  datatype Slot = Slot(binding: nat, element: nat)

  /** A binding and an element packed into one key. */
  function SlotKey(binding: nat, element: nat): nat {
    binding * WORD + element
  }

  predicate Words(bindings: seq<Binding>) {
    forall i | 0 <= i < |bindings| :: bindings[i].binding < WORD && bindings[i].count < WORD
  }

  predicate Sorted(bindings: seq<Binding>) {
    forall i, j | 0 <= i < j < |bindings| :: bindings[i].binding < bindings[j].binding
  }

  predicate Layout(bindings: seq<Binding>) {
    Words(bindings) && Sorted(bindings)
  }

  lemma SlotKeyInjective(a: Slot, b: Slot)
    requires a.element < WORD && b.element < WORD
    ensures SlotKey(a.binding, a.element) == SlotKey(b.binding, b.element) <==> a == b
  {
    if a.binding < b.binding {
      assert SlotKey(b.binding, b.element) >= (a.binding + 1) * WORD;
    } else if b.binding < a.binding {
      assert SlotKey(a.binding, a.element) >= (b.binding + 1) * WORD;
    }
  }

  // ---------------------------------------------------------------------------
  // The cursor as a value
  // ---------------------------------------------------------------------------

  /** `bindings` is absent when the name does not occur in the layout. */
  datatype Cursor = Cursor(bindings: Option<seq<Binding>>, index: nat, element: nat)

  predicate Current(c: Cursor) {
    c.bindings.Some? && c.index < |c.bindings.value| && c.element < c.bindings.value[c.index].count
  }

  function CurrentSlot(c: Cursor): Slot
    requires Current(c)
  {
    Slot(c.bindings.value[c.index].binding, c.element)
  }

  /** The first binding from `i` on that has elements, or the number of bindings. */
  function NextWithElements(bindings: seq<Binding>, i: nat): (j: nat)
    requires i <= |bindings|
    ensures i <= j <= |bindings|
    ensures forall k | i <= k < j :: bindings[k].count == 0
    ensures j < |bindings| ==> bindings[j].count > 0
    decreases |bindings| - i
  {
    if i == |bindings| || bindings[i].count > 0 then i else NextWithElements(bindings, i + 1)
  }

  function Advance(c: Cursor): Cursor {
    if c.bindings.None? || c.index >= |c.bindings.value| then c
    else
      var next := (c.element + 1) % WORD;
      if next < c.bindings.value[c.index].count then c.(element := next)
      else c.(element := 0, index := NextWithElements(c.bindings.value, c.index + 1))
  }

  function AdvanceBy(c: Cursor, k: nat): Cursor {
    if k == 0 then c else Advance(AdvanceBy(c, k - 1))
  }

  /** The first binding not below the name's. */
  function Search(bindings: seq<Binding>, binding: nat, i: nat): (j: nat)
    requires i <= |bindings|
    ensures i <= j <= |bindings|
    ensures forall k | i <= k < j :: bindings[k].binding < binding
    ensures j < |bindings| ==> bindings[j].binding >= binding
    decreases |bindings| - i
  {
    if i == |bindings| || bindings[i].binding >= binding then i else Search(bindings, binding, i + 1)
  }

  function CursorAt(bindings: Option<seq<Binding>>, binding: nat, element: nat): Cursor {
    if bindings.None? then Cursor(None, 0, element)
    else
      var i := Search(bindings.value, binding, 0);
      if i == |bindings.value| || bindings.value[i].binding != binding then Cursor(None, i, element)
      else Cursor(bindings, i, element)
  }

  /** The key an update names `j` elements after (binding, element): the cursor's slot, or else the
      element counted on from the name in 32-bit arithmetic. */
  function KeyAt(bindings: Option<seq<Binding>>, binding: nat, element: nat, j: nat): nat {
    var c := AdvanceBy(CursorAt(bindings, binding, element), j);
    if Current(c) then SlotKey(CurrentSlot(c).binding, CurrentSlot(c).element)
    else SlotKey(binding, (element + j) % WORD)
  }

  // ---------------------------------------------------------------------------
  // The flat list of slots
  // ---------------------------------------------------------------------------

  function ElementsOf(b: Binding): (slots: seq<Slot>)
    ensures |slots| == b.count
  {
    seq(b.count, e requires 0 <= e < b.count => Slot(b.binding, e))
  }

  /** Every slot of a layout, in order; bindings without elements have none. */
  function Slots(bindings: seq<Binding>): seq<Slot> {
    if bindings == [] then [] else Slots(bindings[..|bindings| - 1]) + ElementsOf(bindings[|bindings| - 1])
  }

  /** The position of a binding's first slot. */
  function Offset(bindings: seq<Binding>, i: nat): nat
    requires i <= |bindings|
  {
    |Slots(bindings[..i])|
  }

  lemma OffsetNext(bindings: seq<Binding>, i: nat)
    requires i < |bindings|
    ensures Offset(bindings, i + 1) == Offset(bindings, i) + bindings[i].count
    ensures Slots(bindings[..i + 1]) == Slots(bindings[..i]) + ElementsOf(bindings[i])
  {
    assert bindings[..i + 1][..i] == bindings[..i];
  }

  lemma {:induction false} SlotsPrefix(bindings: seq<Binding>, i: nat)
    requires i <= |bindings|
    ensures Slots(bindings[..i]) <= Slots(bindings)
    decreases |bindings|
  {
    if i == |bindings| {
      assert bindings[..i] == bindings;
    } else {
      var n := |bindings| - 1;
      assert bindings[..n][..i] == bindings[..i];
      SlotsPrefix(bindings[..n], i);
    }
  }

  /** Where an element of a binding stands in the flat list. */
  lemma SlotAt(bindings: seq<Binding>, i: nat, e: nat)
    requires i < |bindings| && e < bindings[i].count
    ensures Offset(bindings, i) + e < |Slots(bindings)|
    ensures Slots(bindings)[Offset(bindings, i) + e] == Slot(bindings[i].binding, e)
  {
    OffsetNext(bindings, i);
    SlotsPrefix(bindings, i + 1);
    assert Slots(bindings[..i + 1])[Offset(bindings, i) + e] == ElementsOf(bindings[i])[e];
  }

  lemma {:induction false} OffsetSkipsEmpty(bindings: seq<Binding>, i: nat, j: nat)
    requires i <= j <= |bindings| && forall k | i <= k < j :: bindings[k].count == 0
    ensures Offset(bindings, j) == Offset(bindings, i)
    decreases j
  {
    if i < j {
      OffsetSkipsEmpty(bindings, i, j - 1);
      OffsetNext(bindings, j - 1);
    }
  }

  /** The cursor stands at the flat position `n`, or past the end. */
  predicate StandsAt(c: Cursor, bindings: seq<Binding>, n: nat) {
    && c.bindings == Some(bindings) && c.index <= |bindings|
    && if n < |Slots(bindings)| then Current(c) && Offset(bindings, c.index) + c.element == n
       else c.index == |bindings|
  }

  lemma AdvanceStands(c: Cursor, bindings: seq<Binding>, n: nat)
    requires Layout(bindings) && StandsAt(c, bindings, n)
    ensures StandsAt(Advance(c), bindings, n + 1)
  {
    if n < |Slots(bindings)| {
      var i := c.index;
      OffsetNext(bindings, i);
      if c.element + 1 == bindings[i].count {
        var j := NextWithElements(bindings, i + 1);
        OffsetSkipsEmpty(bindings, i + 1, j);
        if j < |bindings| {
          SlotAt(bindings, j, 0);
        } else {
          assert bindings[..j] == bindings;
        }
      } else {
        SlotAt(bindings, i, c.element + 1);
      }
    }
  }

  lemma {:induction false} AdvanceByStands(c: Cursor, bindings: seq<Binding>, n: nat, k: nat)
    requires Layout(bindings) && StandsAt(c, bindings, n)
    ensures StandsAt(AdvanceBy(c, k), bindings, n + k)
    decreases k
  {
    if k > 0 {
      AdvanceByStands(c, bindings, n, k - 1);
      AdvanceStands(AdvanceBy(c, k - 1), bindings, n + k - 1);
    }
  }

  lemma SearchFinds(bindings: seq<Binding>, i: nat)
    requires Sorted(bindings) && i < |bindings|
    ensures Search(bindings, bindings[i].binding, 0) == i
  {
    var j := Search(bindings, bindings[i].binding, 0);
    assert j < |bindings| && bindings[j].binding >= bindings[i].binding;
  }

  /** The consecutive-binding rule: k advances from an element of a binding name the slot k places
      later in the flat list, as long as there is one; after that the cursor names nothing. */
  lemma ConsecutiveBindings(bindings: seq<Binding>, i: nat, element: nat, k: nat)
    requires Layout(bindings) && i < |bindings| && element < bindings[i].count
    ensures var c := AdvanceBy(CursorAt(Some(bindings), bindings[i].binding, element), k);
            var n := Offset(bindings, i) + element + k;
            && (Current(c) <==> n < |Slots(bindings)|)
            && (Current(c) ==> CurrentSlot(c) == Slots(bindings)[n])
  {
    SearchFinds(bindings, i);
    SlotAt(bindings, i, element);
    var c := CursorAt(Some(bindings), bindings[i].binding, element);
    AdvanceByStands(c, bindings, Offset(bindings, i) + element, k);
    var d := AdvanceBy(c, k);
    if Current(d) {
      SlotAt(bindings, d.index, d.element);
    }
  }

  // ---------------------------------------------------------------------------
  // Slots and keys are distinct
  // ---------------------------------------------------------------------------

  lemma {:induction false} SlotsFrom(bindings: seq<Binding>, n: nat) returns (i: nat, e: nat)
    requires n < |Slots(bindings)|
    ensures i < |bindings| && e < bindings[i].count && n == Offset(bindings, i) + e
    ensures Slots(bindings)[n] == Slot(bindings[i].binding, e)
    decreases |bindings|
  {
    var last := |bindings| - 1;
    if n < |Slots(bindings[..last])| {
      i, e := SlotsFrom(bindings[..last], n);
      assert bindings[..last][..i] == bindings[..i];
    } else {
      i, e := last, n - |Slots(bindings[..last])|;
    }
    SlotAt(bindings, i, e);
  }

  /** Different positions of a layout have different keys. */
  lemma SlotKeysDistinct(bindings: seq<Binding>, m: nat, n: nat)
    requires Layout(bindings) && m < |Slots(bindings)| && n < |Slots(bindings)|
    ensures var a, b := Slots(bindings)[m], Slots(bindings)[n];
            SlotKey(a.binding, a.element) == SlotKey(b.binding, b.element) <==> m == n
  {
    var i, e := SlotsFrom(bindings, m);
    var j, f := SlotsFrom(bindings, n);
    SlotKeyInjective(Slot(bindings[i].binding, e), Slot(bindings[j].binding, f));
    if i < j {
      assert bindings[i].binding < bindings[j].binding;
    } else if j < i {
      assert bindings[j].binding < bindings[i].binding;
    }
  }

  /** So an update that stays inside a layout names a different key with every element. */
  lemma KeysDistinct(bindings: seq<Binding>, i: nat, element: nat, j: nat, k: nat)
    requires Layout(bindings) && i < |bindings| && element < bindings[i].count
    requires Offset(bindings, i) + element + j < |Slots(bindings)|
    requires Offset(bindings, i) + element + k < |Slots(bindings)|
    ensures (KeyAt(Some(bindings), bindings[i].binding, element, j)
             == KeyAt(Some(bindings), bindings[i].binding, element, k)) == (j == k)
  {
    ConsecutiveBindings(bindings, i, element, j);
    ConsecutiveBindings(bindings, i, element, k);
    SlotKeysDistinct(bindings, Offset(bindings, i) + element + j, Offset(bindings, i) + element + k);
  }

  /** The binding occurs in the layout. */
  predicate Occurs(layout: Option<seq<Binding>>, binding: nat) {
    layout.Some? && exists i :: 0 <= i < |layout.value| && layout.value[i].binding == binding
  }

  /** A name that does not occur is counted on, in 32-bit arithmetic. */
  lemma {:induction false} UnknownIsCounted(layout: Option<seq<Binding>>, binding: nat, element: nat, j: nat)
    requires !Occurs(layout, binding)
    ensures KeyAt(layout, binding, element, j) == binding * 0x1_0000_0000 + (element + j) % 0x1_0000_0000
    ensures AdvanceBy(CursorAt(layout, binding, element), j).bindings == None
    decreases j
  {
    if j > 0 {
      UnknownIsCounted(layout, binding, element, j - 1);
    }
  }

  /** An update of a known binding names the slots of the flat list from its element on, and counts on past
      the last one. */
  lemma KnownIsFollowed(bindings: seq<Binding>, i: nat, element: nat, j: nat)
    requires Layout(bindings) && i < |bindings| && element < bindings[i].count
    ensures var n, key := Offset(bindings, i) + element + j, KeyAt(Some(bindings), bindings[i].binding, element, j);
            if n < |Slots(bindings)| then key == Slots(bindings)[n].binding * 0x1_0000_0000 + Slots(bindings)[n].element
            else key == bindings[i].binding * 0x1_0000_0000 + (element + j) % 0x1_0000_0000
  {
    ConsecutiveBindings(bindings, i, element, j);
  }

  // ---------------------------------------------------------------------------
  // The cursor in place
  // ---------------------------------------------------------------------------

  class DescriptorSlotCursor {
    var bindings: Option<seq<Binding>>
    var index: nat
    var element: nat

    constructor (layout: Option<seq<Binding>>, binding: nat, element: nat)
      ensures Abs() == CursorAt(layout, binding, element)
      ensures this.element == element
      ensures bindings.Some? ==> bindings == layout && index < |layout.value| && layout.value[index].binding == binding
      ensures (layout.Some? ==> Sorted(layout.value)) ==> (bindings.Some? <==> Occurs(layout, binding))
    {
      bindings := layout;
      index := 0;
      this.element := element;
      new;
      if layout.Some? {
        ghost var found := Search(layout.value, binding, 0);
        while index < |layout.value| && layout.value[index].binding < binding
          invariant index <= |layout.value| && found == Search(layout.value, binding, index)
          invariant bindings == layout && this.element == element
          decreases |layout.value| - index
        {
          index := index + 1;
        }
        if index == |layout.value| || layout.value[index].binding != binding {
          bindings := None;
        }
      }
    }

    function Abs(): Cursor
      reads this
    {
      Cursor(bindings, index, element)
    }

    method CurrentKey() returns (key: Option<nat>)
      ensures key == if Current(Abs()) then Some(SlotKey(CurrentSlot(Abs()).binding, CurrentSlot(Abs()).element))
                     else None
      ensures key.Some? <==> bindings.Some? && index < |bindings.value| && element < bindings.value[index].count
      ensures key.Some? ==> key.value == bindings.value[index].binding * 0x1_0000_0000 + element
    {
      if bindings.None? || index >= |bindings.value| || element >= bindings.value[index].count {
        return None;
      }
      key := Some(SlotKey(bindings.value[index].binding, element));
    }

    method Step() returns (more: bool)
      modifies this
      ensures Abs() == Advance(old(Abs()))
      ensures more <==> bindings.Some? && index < |bindings.value| && element < bindings.value[index].count
      ensures bindings == old(bindings)
      ensures var next := (old(element) + 1) % 0x1_0000_0000;
              if bindings.None? || old(index) >= |bindings.value| then index == old(index) && element == old(element)
              else if next < bindings.value[old(index)].count then index == old(index) && element == next
              else
                && element == 0 && old(index) < index <= |bindings.value|
                && (forall k | old(index) < k < index :: bindings.value[k].count == 0)
                && (index < |bindings.value| ==> bindings.value[index].count > 0)
    {
      if bindings.None? || index >= |bindings.value| { return false; }
      element := (element + 1) % WORD;
      if element < bindings.value[index].count { return true; }
      element := 0;
      index := index + 1;
      ghost var goal := NextWithElements(bindings.value, index);
      while index < |bindings.value| && bindings.value[index].count == 0
        invariant bindings == old(bindings) && element == 0
        invariant index <= |bindings.value| && goal == NextWithElements(bindings.value, index)
        decreases |bindings.value| - index
      {
        index := index + 1;
      }
      more := index < |bindings.value|;
    }
  }
}
