/** A batched descriptor update.

    The client collects the slots an update touches in an overlay, reads copies through it, and
    commits it at the end. The result is that of applying every write and then every copy, in
    order, to the device's table; a call that stops early changes nothing.
  */
module DescriptorUpdates {
  import opened Limits
  import opened Options
  import opened DescriptorSlots
  import Recording

  type Id = nat
  type Key = nat
  type Resource = Recording.Resource
  type Resources = map<Key, Resource>

  /** What a slot holds that was never written: nothing the device could write through. */
  const NOTHING := Recording.Resource(Recording.OtherKind, 0)

  /** A write of consecutive slots; `encodable` says whether the request can carry it. */
  datatype Write = Write(set_: Id, binding: nat, element: nat, kind: Recording.Kind, ids: seq<Id>, encodable: bool)
  {
    /** Only storage descriptors refer to a resource the device may write. */
    function ResourceOf(j: nat): Resource
      requires j < |ids|
    {
      Recording.Resource(kind, if kind == Recording.OtherKind then 0 else ids[j])
    }
  }

  datatype Copy = Copy(source: Id, sourceBinding: nat, sourceElement: nat,
                       target: Id, targetBinding: nat, targetElement: nat, count: nat)

  // ---------------------------------------------------------------------------
  // One slot after another
  // ---------------------------------------------------------------------------

  function LayoutOf(layouts: map<Id, seq<Binding>>, s: Id): Option<seq<Binding>> {
    if s in layouts then Some(layouts[s]) else None
  }

  function ResourcesOf(table: map<Id, Resources>, s: Id): Resources {
    if s in table then table[s] else map[]
  }

  function At(resources: Resources, key: Key): Resource {
    if key in resources then resources[key] else NOTHING
  }

  /** Writing a slot: a resource replaces what it held, and nothing empties it. */
  function Put(resources: Resources, key: Key, r: Resource): Resources {
    if r.id != 0 then resources[key := r] else resources - {key}
  }

  /** Writing `values` to the slots from (binding, element) on. */
  function PutAll(layout: Option<seq<Binding>>, resources: Resources, binding: nat, element: nat,
                  values: seq<Resource>): Resources
  {
    if values == [] then resources
    else
      var n := |values| - 1;
      Put(PutAll(layout, resources, binding, element, values[..n]), KeyAt(layout, binding, element, n), values[n])
  }

  function WriteValues(w: Write): (values: seq<Resource>)
    ensures |values| == |w.ids|
  {
    seq(|w.ids|, j requires 0 <= j < |w.ids| => w.ResourceOf(j))
  }

  /** What a copy reads: its source slots before any of its target slots change. */
  function CopyValues(layouts: map<Id, seq<Binding>>, source: Resources, c: Copy): (values: seq<Resource>)
    ensures |values| == c.count
  {
    seq(c.count, j requires 0 <= j < c.count =>
      At(source, KeyAt(LayoutOf(layouts, c.source), c.sourceBinding, c.sourceElement, j)))
  }

  lemma NextCopied(layouts: map<Id, seq<Binding>>, source: Resources, c: Copy, j: nat)
    requires j < c.count
    ensures CopyValues(layouts, source, c)[..j + 1] == CopyValues(layouts, source, c)[..j]
              + [At(source, KeyAt(LayoutOf(layouts, c.source), c.sourceBinding, c.sourceElement, j))]
  {
  }

  // ---------------------------------------------------------------------------
  // Sequential application
  // ---------------------------------------------------------------------------

  function ApplyWrite(layouts: map<Id, seq<Binding>>, table: map<Id, Resources>, w: Write): map<Id, Resources> {
    table[w.set_ := PutAll(LayoutOf(layouts, w.set_), ResourcesOf(table, w.set_), w.binding, w.element, WriteValues(w))]
  }

  function ApplyCopy(layouts: map<Id, seq<Binding>>, table: map<Id, Resources>, c: Copy): map<Id, Resources> {
    table[c.target := PutAll(LayoutOf(layouts, c.target), ResourcesOf(table, c.target), c.targetBinding, c.targetElement,
                             CopyValues(layouts, ResourcesOf(table, c.source), c))]
  }

  function ApplyWrites(layouts: map<Id, seq<Binding>>, table: map<Id, Resources>, ws: seq<Write>): map<Id, Resources> {
    if ws == [] then table
    else ApplyWrite(layouts, ApplyWrites(layouts, table, ws[..|ws| - 1]), ws[|ws| - 1])
  }

  function ApplyCopies(layouts: map<Id, seq<Binding>>, table: map<Id, Resources>, cs: seq<Copy>): map<Id, Resources> {
    if cs == [] then table
    else ApplyCopy(layouts, ApplyCopies(layouts, table, cs[..|cs| - 1]), cs[|cs| - 1])
  }

  // ---------------------------------------------------------------------------
  // The overlay
  // ---------------------------------------------------------------------------

  /** `touched` laid over `base`: a touched slot holds its resource, or nothing when that has no id. */
  function Overlay(base: Resources, touched: Resources): Resources {
    map k | k in base.Keys + touched.Keys && (k in touched ==> touched[k].id != 0) ::
      if k in touched then touched[k] else base[k]
  }

  function View(base: map<Id, Resources>, touched: map<Id, Resources>): map<Id, Resources> {
    map s | s in base.Keys + touched.Keys ::
      if s in touched then Overlay(ResourcesOf(base, s), touched[s]) else base[s]
  }

  lemma OverlayPut(base: Resources, touched: Resources, key: Key, r: Resource)
    ensures Overlay(base, touched[key := r]) == Put(Overlay(base, touched), key, r)
  {
  }

  /** Recording values in the overlay, one slot after another. */
  function TouchAll(layout: Option<seq<Binding>>, touched: Resources, binding: nat, element: nat,
                    values: seq<Resource>): Resources
  {
    if values == [] then touched
    else
      var n := |values| - 1;
      TouchAll(layout, touched, binding, element, values[..n])[KeyAt(layout, binding, element, n) := values[n]]
  }

  /** Touching slots shows through the overlay as writing them. */
  lemma {:induction false} TouchAllIsPutAll(layout: Option<seq<Binding>>, base: Resources, touched: Resources,
                                            binding: nat, element: nat, values: seq<Resource>)
    ensures Overlay(base, TouchAll(layout, touched, binding, element, values))
            == PutAll(layout, Overlay(base, touched), binding, element, values)
    decreases |values|
  {
    if values != [] {
      var n := |values| - 1;
      TouchAllIsPutAll(layout, base, touched, binding, element, values[..n]);
      OverlayPut(base, TouchAll(layout, touched, binding, element, values[..n]), KeyAt(layout, binding, element, n), values[n]);
    }
  }

  function Touch(layouts: map<Id, seq<Binding>>, touched: map<Id, Resources>, s: Id, binding: nat, element: nat,
                 values: seq<Resource>): map<Id, Resources>
  {
    touched[s := TouchAll(LayoutOf(layouts, s), ResourcesOf(touched, s), binding, element, values)]
  }

  lemma OverlayNothing(base: Resources)
    ensures Overlay(base, map[]) == base
  {
  }

  lemma ViewOf(base: map<Id, Resources>, touched: map<Id, Resources>, s: Id)
    ensures ResourcesOf(View(base, touched), s) == Overlay(ResourcesOf(base, s), ResourcesOf(touched, s))
  {
    OverlayNothing(ResourcesOf(base, s));
  }

  lemma ViewUpdate(base: map<Id, Resources>, touched: map<Id, Resources>, s: Id, slots: Resources)
    ensures View(base, touched[s := slots]) == View(base, touched)[s := Overlay(ResourcesOf(base, s), slots)]
  {
  }

  lemma TouchShows(layouts: map<Id, seq<Binding>>, base: map<Id, Resources>, touched: map<Id, Resources>, s: Id,
                   binding: nat, element: nat, values: seq<Resource>)
    ensures View(base, Touch(layouts, touched, s, binding, element, values))
            == View(base, touched)[s := PutAll(LayoutOf(layouts, s), ResourcesOf(View(base, touched), s),
                                               binding, element, values)]
  {
    TouchAllIsPutAll(LayoutOf(layouts, s), ResourcesOf(base, s), ResourcesOf(touched, s), binding, element, values);
    ViewOf(base, touched, s);
    ViewUpdate(base, touched, s, TouchAll(LayoutOf(layouts, s), ResourcesOf(touched, s), binding, element, values));
  }

  lemma ViewNothing(base: map<Id, Resources>)
    ensures View(base, map[]) == base
  {
  }

  // ---------------------------------------------------------------------------
  // Slot by slot
  // ---------------------------------------------------------------------------

  predicate LayoutIs(layouts: map<Id, seq<Binding>>, s: Id, layout: Option<seq<Binding>>) {
    if s in layouts then layout == Some(layouts[s]) else layout.None?
  }

  /** Of the `n` named slots, the `j`-th is the last with this key. */
  predicate LastNamed(layout: Option<seq<Binding>>, binding: nat, element: nat, n: nat, key: Key, j: int) {
    0 <= j < n && KeyAt(layout, binding, element, j) == key && forall k | j < k < n :: KeyAt(layout, binding, element, k) != key
  }

  /** The slot holds the resource, or nothing when that has no id. */
  predicate HoldsAt(table: map<Id, Resources>, s: Id, key: Key, r: Resource) {
    && s in table
    && (key in table[s] <==> r.id != 0)
    && (r.id != 0 ==> table[s][key] == r)
  }

  /** The slot is as before. */
  predicate SameAt(before: map<Id, Resources>, after: map<Id, Resources>, s: Id, key: Key) {
    && (s in after && key in after[s] <==> s in before && key in before[s])
    && (s in after && key in after[s] && s in before && key in before[s] ==> after[s][key] == before[s][key])
  }

  /** A write fills its slots: a storage descriptor with its resource, another one with nothing. Where it
      names a slot twice the last time counts; every other slot is as before. */
  ghost predicate Wrote(layouts: map<Id, seq<Binding>>, before: map<Id, Resources>, after: map<Id, Resources>, w: Write) {
    && after.Keys == before.Keys + {w.set_}
    && (forall s, key | s != w.set_ :: SameAt(before, after, s, key))
    && forall layout | LayoutIs(layouts, w.set_, layout) ::
         && (forall j, key | LastNamed(layout, w.binding, w.element, |w.ids|, key, j) ::
               HoldsAt(after, w.set_, key, Recording.Resource(w.kind, if w.kind.OtherKind? then 0 else w.ids[j])))
         && forall key | (forall j :: !LastNamed(layout, w.binding, w.element, |w.ids|, key, j)) ::
              SameAt(before, after, w.set_, key)
  }

  /** A copy fills its target slots with what its source slots held before. */
  ghost predicate Copied(layouts: map<Id, seq<Binding>>, before: map<Id, Resources>, after: map<Id, Resources>, c: Copy) {
    && after.Keys == before.Keys + {c.target}
    && (forall s, key | s != c.target :: SameAt(before, after, s, key))
    && forall from, to | LayoutIs(layouts, c.source, from) && LayoutIs(layouts, c.target, to) ::
         && (forall j, key | LastNamed(to, c.targetBinding, c.targetElement, c.count, key, j) ::
               var source := KeyAt(from, c.sourceBinding, c.sourceElement, j);
               HoldsAt(after, c.target, key,
                       if c.source in before && source in before[c.source] then before[c.source][source] else NOTHING))
         && forall key | (forall j :: !LastNamed(to, c.targetBinding, c.targetElement, c.count, key, j)) ::
              SameAt(before, after, c.target, key)
  }

  /** The tables between: every write and then every copy, in order. */
  ghost predicate UpdateRun(layouts: map<Id, seq<Binding>>, ws: seq<Write>, cs: seq<Copy>, tables: seq<map<Id, Resources>>) {
    && |tables| == |ws| + |cs| + 1
    && (forall i | 0 <= i < |ws| :: Wrote(layouts, tables[i], tables[i + 1], ws[i]))
    && forall i | 0 <= i < |cs| :: Copied(layouts, tables[|ws| + i], tables[|ws| + i + 1], cs[i])
  }

  /** Writing values to named slots, at one key. */
  lemma {:induction false} PutAllLast(layout: Option<seq<Binding>>, resources: Resources, binding: nat, element: nat,
                                      values: seq<Resource>, key: Key)
    ensures var last, after := LastAt(layout, binding, element, |values|, key),
                               PutAll(layout, resources, binding, element, values);
            if last.None? then (key in after <==> key in resources) && (key in after ==> after[key] == resources[key])
            else last.value < |values| && (key in after <==> values[last.value].id != 0)
                 && (key in after ==> after[key] == values[last.value])
    decreases |values|
  {
    hide KeyAt;
    if values != [] {
      PutAllLast(layout, resources, binding, element, values[..|values| - 1], key);
    }
  }

  lemma {:induction false} LastAtIs(layout: Option<seq<Binding>>, binding: nat, element: nat, n: nat, key: Key, j: int)
    ensures LastNamed(layout, binding, element, n, key, j) <==> LastAt(layout, binding, element, n, key) == Some(j)
    decreases n
  {
    hide KeyAt;
    if n > 0 {
      LastAtIs(layout, binding, element, n - 1, key, j);
      LastNamedNext(layout, binding, element, n - 1, key, j);
    }
  }

  lemma PutAllIs(layout: Option<seq<Binding>>, resources: Resources, binding: nat, element: nat, values: seq<Resource>)
    ensures var after := PutAll(layout, resources, binding, element, values);
            && (forall j, key | LastNamed(layout, binding, element, |values|, key, j) ::
                  (key in after <==> values[j].id != 0) && (key in after ==> after[key] == values[j]))
            && forall key | (forall j :: !LastNamed(layout, binding, element, |values|, key, j)) ::
                 (key in after <==> key in resources) && (key in after ==> after[key] == resources[key])
  {
    hide PutAll, KeyAt;
    var after := PutAll(layout, resources, binding, element, values);
    forall j, key | LastNamed(layout, binding, element, |values|, key, j)
      ensures (key in after <==> values[j].id != 0) && (key in after ==> after[key] == values[j])
    {
      PutAllLast(layout, resources, binding, element, values, key);
      LastAtIs(layout, binding, element, |values|, key, j);
    }
    forall key | (forall j :: !LastNamed(layout, binding, element, |values|, key, j))
      ensures (key in after <==> key in resources) && (key in after ==> after[key] == resources[key])
    {
      PutAllLast(layout, resources, binding, element, values, key);
      var last := LastAt(layout, binding, element, |values|, key);
      if last.Some? {
        LastAtIs(layout, binding, element, |values|, key, last.value);
      }
    }
  }

  lemma LastNamedNext(layout: Option<seq<Binding>>, binding: nat, element: nat, n: nat, key: Key, j: int)
    ensures LastNamed(layout, binding, element, n + 1, key, j)
            <==> if key == KeyAt(layout, binding, element, n) then j == n else LastNamed(layout, binding, element, n, key, j)
  {
    hide KeyAt;
    if j < n && key == KeyAt(layout, binding, element, n) {
      assert KeyAt(layout, binding, element, n) == key;
    }
  }

  lemma WroteIs(layouts: map<Id, seq<Binding>>, table: map<Id, Resources>, w: Write)
    ensures Wrote(layouts, table, ApplyWrite(layouts, table, w), w)
  {
    PutAllIs(LayoutOf(layouts, w.set_), ResourcesOf(table, w.set_), w.binding, w.element, WriteValues(w));
    hide PutAll, KeyAt;
    assert forall layout | LayoutIs(layouts, w.set_, layout) :: layout == LayoutOf(layouts, w.set_);
    OthersSame(table, ApplyWrite(layouts, table, w), w.set_);
    hide LayoutIs, LayoutOf;
  }

  lemma OthersSame(before: map<Id, Resources>, after: map<Id, Resources>, s: Id)
    requires after.Keys == before.Keys + {s} && forall other | other in before && other != s :: after[other] == before[other]
    ensures forall other, key | other != s :: SameAt(before, after, other, key)
  {
  }

  lemma CopiedSlots(layouts: map<Id, seq<Binding>>, table: map<Id, Resources>, c: Copy)
    ensures var from, to, after := LayoutOf(layouts, c.source), LayoutOf(layouts, c.target), ApplyCopy(layouts, table, c);
            && (forall j, key | LastNamed(to, c.targetBinding, c.targetElement, c.count, key, j) ::
                  HoldsAt(after, c.target, key,
                          At(ResourcesOf(table, c.source), KeyAt(from, c.sourceBinding, c.sourceElement, j))))
            && forall key | (forall j :: !LastNamed(to, c.targetBinding, c.targetElement, c.count, key, j)) ::
                 SameAt(table, after, c.target, key)
  {
    var source := ResourcesOf(table, c.source);
    PutAllIs(LayoutOf(layouts, c.target), ResourcesOf(table, c.target), c.targetBinding, c.targetElement,
             CopyValues(layouts, source, c));
    hide PutAll, KeyAt, At;
  }

  lemma CopiedIs(layouts: map<Id, seq<Binding>>, table: map<Id, Resources>, c: Copy)
    ensures Copied(layouts, table, ApplyCopy(layouts, table, c), c)
  {
    CopiedSlots(layouts, table, c);
    OthersSame(table, ApplyCopy(layouts, table, c), c.target);
    hide PutAll, KeyAt, SameAt, HoldsAt, LastNamed;
    assert forall layout | LayoutIs(layouts, c.target, layout) :: layout == LayoutOf(layouts, c.target);
    assert forall layout | LayoutIs(layouts, c.source, layout) :: layout == LayoutOf(layouts, c.source);
    hide LayoutIs, LayoutOf;
  }

  lemma {:induction false} WritesRun(layouts: map<Id, seq<Binding>>, table: map<Id, Resources>, ws: seq<Write>)
    returns (tables: seq<map<Id, Resources>>)
    ensures UpdateRun(layouts, ws, [], tables)
    ensures tables[0] == table && tables[|ws|] == ApplyWrites(layouts, table, ws)
    decreases |ws|
  {
    hide Wrote;
    if ws == [] {
      tables := [table];
    } else {
      var n := |ws| - 1;
      var front := WritesRun(layouts, table, ws[..n]);
      WroteIs(layouts, front[n], ws[n]);
      tables := front + [ApplyWrite(layouts, front[n], ws[n])];
      forall i | 0 <= i < |ws| ensures Wrote(layouts, tables[i], tables[i + 1], ws[i]) {
        assert i < n ==> Wrote(layouts, front[i], front[i + 1], ws[..n][i]);
      }
    }
  }

  lemma {:induction false} UpdatesRun(layouts: map<Id, seq<Binding>>, table: map<Id, Resources>, ws: seq<Write>,
                                      cs: seq<Copy>) returns (tables: seq<map<Id, Resources>>)
    ensures UpdateRun(layouts, ws, cs, tables)
    ensures tables[0] == table && tables[|ws| + |cs|] == ApplyCopies(layouts, ApplyWrites(layouts, table, ws), cs)
    decreases |cs|
  {
    hide Wrote, Copied, ApplyCopy, ApplyWrites;
    if cs == [] {
      tables := WritesRun(layouts, table, ws);
    } else {
      var n := |cs| - 1;
      var front := UpdatesRun(layouts, table, ws, cs[..n]);
      CopiedIs(layouts, front[|ws| + n], cs[n]);
      tables := front + [ApplyCopy(layouts, front[|ws| + n], cs[n])];
      assert forall i | 0 <= i < n :: cs[..n][i] == cs[i];
      assert forall i | 0 <= i <= |ws| + n :: tables[i] == front[i];
    }
  }

  // ---------------------------------------------------------------------------
  // The call in place
  // ---------------------------------------------------------------------------

  class DescriptorTables {
    var resources: map<Id, Resources>
    var layouts: map<Id, seq<Binding>>

    constructor (layouts: map<Id, seq<Binding>>)
      ensures resources == map[] && this.layouts == layouts
    {
      resources := map[];
      this.layouts := layouts;
    }

    /** The slots a write or copy fills, through the cursor. */
    method TouchSlots(touched: map<Id, Resources>, s: Id, binding: nat, element: nat, values: seq<Resource>)
      returns (after: map<Id, Resources>)
      ensures after == Touch(layouts, touched, s, binding, element, values)
    {
      hide Overlay, View, CursorAt, SlotKey, Advance;
      var layout := LayoutOf(layouts, s);
      var slots := ResourcesOf(touched, s);
      var cursor := new DescriptorSlotCursor(layout, binding, element);
      for j := 0 to |values|
        invariant cursor.Abs() == AdvanceBy(CursorAt(layout, binding, element), j)
        invariant fresh(cursor)
        invariant slots == TouchAll(layout, ResourcesOf(touched, s), binding, element, values[..j])
      {
        assert values[..j + 1][..j] == values[..j];
        var current := cursor.CurrentKey();
        var key := if current.Some? then current.value else SlotKey(binding, (element + j) % WORD);
        slots := slots[key := values[j]];
        var _ := cursor.Step();
      }
      assert values[..|values|] == values;
      after := touched[s := slots];
    }

    /** What a copy reads, through the overlay. */
    method ReadSlots(touched: map<Id, Resources>, c: Copy) returns (values: seq<Resource>)
      ensures values == CopyValues(layouts, ResourcesOf(View(resources, touched), c.source), c)
    {
      hide Overlay, View, CursorAt, SlotKey, CopyValues, Advance;
      ViewOf(resources, touched, c.source);
      var source := Overlay(ResourcesOf(resources, c.source), ResourcesOf(touched, c.source));
      var layout := LayoutOf(layouts, c.source);
      var cursor := new DescriptorSlotCursor(layout, c.sourceBinding, c.sourceElement);
      values := [];
      for j := 0 to c.count
        invariant cursor.Abs() == AdvanceBy(CursorAt(layout, c.sourceBinding, c.sourceElement), j)
        invariant fresh(cursor)
        invariant values == CopyValues(layouts, source, c)[..j]
      {
        var current := cursor.CurrentKey();
        var key := if current.Some? then current.value else SlotKey(c.sourceBinding, (c.sourceElement + j) % WORD);
        NextCopied(layouts, source, c, j);
        values := values + [At(source, key)];
        var _ := cursor.Step();
      }
    }

    method TouchWrites(ws: seq<Write>) returns (ok: bool, touched: map<Id, Resources>)
      ensures ok <==> forall w | w in ws :: w.encodable
      ensures ok ==> View(resources, touched) == ApplyWrites(layouts, resources, ws)
    {
      touched := map[];
      ViewNothing(resources);
      for i := 0 to |ws|
        invariant forall w | w in ws[..i] :: w.encodable
        invariant View(resources, touched) == ApplyWrites(layouts, resources, ws[..i])
      {
        var w := ws[i];
        assert ws[..i + 1] == ws[..i] + [w] && ws[..i + 1][..i] == ws[..i];
        if !w.encodable { return false, touched; }
        TouchShows(layouts, resources, touched, w.set_, w.binding, w.element, WriteValues(w));
        touched := TouchSlots(touched, w.set_, w.binding, w.element, WriteValues(w));
      }
      assert ws[..|ws|] == ws;
      ok := true;
    }

    method TouchCopies(cs: seq<Copy>, written: map<Id, Resources>, ghost table: map<Id, Resources>)
      returns (ok: bool, touched: map<Id, Resources>)
      requires View(resources, written) == table
      ensures ok <==> forall c | c in cs :: c.source != 0 && c.target != 0
      ensures ok ==> View(resources, touched) == ApplyCopies(layouts, table, cs)
    {
      touched := written;
      for i := 0 to |cs|
        invariant forall c | c in cs[..i] :: c.source != 0 && c.target != 0
        invariant View(resources, touched) == ApplyCopies(layouts, table, cs[..i])
      {
        var c := cs[i];
        assert cs[..i + 1] == cs[..i] + [c] && cs[..i + 1][..i] == cs[..i];
        if c.source == 0 || c.target == 0 { return false, touched; }
        var values := ReadSlots(touched, c);
        TouchShows(layouts, resources, touched, c.target, c.targetBinding, c.targetElement, values);
        touched := TouchSlots(touched, c.target, c.targetBinding, c.targetElement, values);
      }
      assert cs[..|cs|] == cs;
      ok := true;
    }

    /** The final commit: every touched slot is written or erased. */
    method CommitSet(base: Resources, touched: Resources) returns (after: Resources)
      ensures after == Overlay(base, touched)
    {
      after := base;
      var keys := touched.Keys;
      ghost var done: Resources := map[];
      OverlayNothing(base);
      while keys != {}
        invariant keys <= touched.Keys
        invariant done == map k | k in touched && k !in keys :: touched[k]
        invariant after == Overlay(base, done)
      {
        var k :| k in keys;
        OverlayPut(base, done, k, touched[k]);
        after := if touched[k].id != 0 then after[k := touched[k]] else after - {k};
        done := done[k := touched[k]];
        keys := keys - {k};
      }
      assert done == touched;
    }

    method CommitTouched(touched: map<Id, Resources>)
      modifies this`resources
      ensures resources == View(old(resources), touched)
    {
      var sets := touched.Keys;
      ghost var base, done: map<Id, Resources> := resources, map[];
      ViewNothing(resources);
      while sets != {}
        invariant sets <= touched.Keys
        invariant done == map s | s in touched && s !in sets :: touched[s]
        invariant resources == View(base, done)
      {
        var s :| s in sets;
        assert ResourcesOf(resources, s) == ResourcesOf(base, s);
        ViewUpdate(base, done, s, touched[s]);
        var after := CommitSet(ResourcesOf(resources, s), touched[s]);
        resources := resources[s := after];
        done := done[s := touched[s]];
        sets := sets - {s};
      }
      assert done == touched;
    }

    /** The batched update equals every write, then every copy, one after another. */
    method UpdateDescriptorSets(ws: seq<Write>, cs: seq<Copy>) returns (sent: bool)
      modifies this`resources
      ensures sent <==> |ws| <= MAX_ARRAY_ELEMENTS && |cs| <= MAX_ARRAY_ELEMENTS && (forall w | w in ws :: w.encodable)
                        && forall c | c in cs :: c.source != 0 && c.target != 0
      ensures sent ==> exists tables ::
                UpdateRun(layouts, ws, cs, tables) && tables[0] == old(resources) && tables[|ws| + |cs|] == resources
      ensures sent ==> resources == ApplyCopies(layouts, ApplyWrites(layouts, old(resources), ws), cs)
      ensures !sent ==> resources == old(resources)
    {
      if |ws| > MAX_ARRAY_ELEMENTS || |cs| > MAX_ARRAY_ELEMENTS { return false; }
      var ok, written := TouchWrites(ws);
      if !ok { return false; }
      var copied, touched := TouchCopies(cs, written, ApplyWrites(layouts, resources, ws));
      if !copied { return false; }
      ghost var tables := UpdatesRun(layouts, resources, ws, cs);
      CommitTouched(touched);
      sent := true;
    }
  }

  // ---------------------------------------------------------------------------
  // What an update leaves
  // ---------------------------------------------------------------------------

  /** The last of the named slots that has this key, or the number of values. */
  function LastAt(layout: Option<seq<Binding>>, binding: nat, element: nat, n: nat, key: Key): Option<nat> {
    if n == 0 then None
    else if KeyAt(layout, binding, element, n - 1) == key then Some(n - 1)
    else LastAt(layout, binding, element, n - 1, key)
  }

  /** Every slot afterwards: a named one holds the last value written to it, or nothing when that has
      no id; every other one what it held. */
  lemma {:induction false} PutAllAt(layout: Option<seq<Binding>>, resources: Resources, binding: nat, element: nat,
                                    values: seq<Resource>, key: Key)
    requires forall k | k in resources :: resources[k].id != 0
    ensures var last, after := LastAt(layout, binding, element, |values|, key),
                               PutAll(layout, resources, binding, element, values);
            && (last.Some? ==> last.value < |values|)
            && (forall k | k in after :: after[k].id != 0)
            && (if last.None? then key in after <==> key in resources else key in after <==> values[last.value].id != 0)
            && (key in after ==> after[key] == if last.Some? then values[last.value] else resources[key])
    decreases |values|
  {
    if values != [] {
      PutAllAt(layout, resources, binding, element, values[..|values| - 1], key);
    }
  }

  lemma {:induction false} LastAtFinds(layout: Option<seq<Binding>>, binding: nat, element: nat, n: nat, j: nat, key: Key)
    requires j < n && KeyAt(layout, binding, element, j) == key
    requires forall k | j < k < n :: KeyAt(layout, binding, element, k) != key
    ensures LastAt(layout, binding, element, n, key) == Some(j)
    decreases n
  {
    if j < n - 1 {
      LastAtFinds(layout, binding, element, n - 1, j, key);
    }
  }

  /** A copy inside one set, however its ranges overlap: every target slot gets what its source slot
      held before the copy. */
  lemma SelfCopyReadsBefore(layouts: map<Id, seq<Binding>>, table: map<Id, Resources>, c: Copy, i: nat, j: nat)
    requires c.source == c.target && c.target in layouts && c.target in table && j < c.count
    requires forall k | k in table[c.target] :: table[c.target][k].id != 0
    requires var bindings := layouts[c.target];
             && Layout(bindings) && i < |bindings| && bindings[i].binding == c.targetBinding
             && c.targetElement < bindings[i].count
             && Offset(bindings, i) + c.targetElement + c.count <= |Slots(bindings)|
    ensures var layout, after := Some(layouts[c.target]), ApplyCopy(layouts, table, c)[c.target];
            var source := KeyAt(layout, c.sourceBinding, c.sourceElement, j);
            var target := KeyAt(layout, c.targetBinding, c.targetElement, j);
            && (target in after <==> source in table[c.target])
            && (target in after ==> after[target] == table[c.target][source])
  {
    var layout, bindings := Some(layouts[c.target]), layouts[c.target];
    var values := CopyValues(layouts, table[c.target], c);
    var target := KeyAt(layout, c.targetBinding, c.targetElement, j);
    forall k | j < k < c.count
      ensures KeyAt(layout, c.targetBinding, c.targetElement, k) != target
    {
      KeysDistinct(bindings, i, c.targetElement, j, k);
    }
    LastAtFinds(layout, c.targetBinding, c.targetElement, c.count, j, target);
    PutAllAt(layout, table[c.target], c.targetBinding, c.targetElement, values, target);
  }
}
