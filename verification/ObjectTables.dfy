/** The server's object tables and the teardown of a device.

    Objects are named by 1-based ids whose slots are never reused; a slot records the device that
    owns the object. Destroying a device destroys what it owns, children before parents, and
    leaves nothing behind that mentions it.
  */
module ObjectTables {
  type Id = nat
  type Handle = nat

  /** Handle 0 is null. */
  datatype Entry = Entry(handle: Handle, owner: Handle)

  const EMPTY := Entry(0, 0)

  // ---------------------------------------------------------------------------
  // One table
  // ---------------------------------------------------------------------------

  predicate Known(es: seq<Entry>, id: Id) {
    1 <= id <= |es|
  }

  function Get(es: seq<Entry>, id: Id): Handle {
    if Known(es, id) then es[id - 1].handle else 0
  }

  function Owner(es: seq<Entry>, id: Id): Handle {
    if Known(es, id) then es[id - 1].owner else 0
  }

  function Taken(es: seq<Entry>, id: Id): seq<Entry> {
    if Known(es, id) then es[id - 1 := EMPTY] else es
  }

  function Retired(es: seq<Entry>, device: Handle): (r: seq<Entry>)
    ensures |r| == |es|
  {
    seq(|es|, i requires 0 <= i < |es| => if es[i].owner == device then EMPTY else es[i])
  }

  predicate Live(e: Entry, device: Handle) {
    e.handle != 0 && e.owner == device
  }

  /** Destroying what a device owns clears the live slots only. */
  function Cleared(es: seq<Entry>, device: Handle): (r: seq<Entry>)
    ensures |r| == |es|
  {
    seq(|es|, i requires 0 <= i < |es| => if Live(es[i], device) then EMPTY else es[i])
  }

  /** Where an equal object is recorded, or the size of the table. */
  function Find(es: seq<Entry>, e: Entry): (i: nat)
    ensures i <= |es|
    ensures i < |es| ==> es[i] == e
    ensures forall j | 0 <= j < i :: es[j] != e
  {
    if es == [] then 0
    else
      var i := Find(es[..|es| - 1], e);
      assert forall j | 0 <= j < i :: es[..|es| - 1][j] == es[j];
      if i < |es| - 1 || es[|es| - 1] == e then i else |es|
  }

  class Table {
    var slots: seq<Handle>
    var owners: seq<Handle>

    constructor ()
      ensures Valid() && Entries() == []
    {
      slots, owners := [], [];
    }

    predicate Valid()
      reads this
    {
      |slots| == |owners|
    }

    function Entries(): (es: seq<Entry>)
      requires Valid()
      reads this
      ensures |es| == |slots|
    {
      seq(|slots|, i requires 0 <= i < |slots| reads this requires Valid() => Entry(slots[i], owners[i]))
    }

    method Add(value: Handle, owner: Handle) returns (id: Id)
      requires Valid()
      modifies this
      ensures Valid() && Entries() == old(Entries()) + [Entry(value, owner)]
      ensures id == old(|slots|) + 1 && slots == old(slots) + [value] && owners == old(owners) + [owner]
    {
      slots := slots + [value];
      owners := owners + [owner];
      id := |slots|;
      assert Entries() == old(Entries()) + [Entry(value, owner)];
    }

    /** An object the same device already named keeps its id. */
    method AddUnique(value: Handle, owner: Handle) returns (id: Id)
      requires Valid()
      modifies this
      ensures Valid() && 1 <= id <= |slots| && slots[id - 1] == value && owners[id - 1] == owner
      ensures forall j | 0 <= j < id - 1 :: slots[j] != value || owners[j] != owner
      ensures (slots == old(slots) && owners == old(owners))
              || (id == |slots| && slots == old(slots) + [value] && owners == old(owners) + [owner])
      ensures var es := old(Entries());
              if Entry(value, owner) in es then Entries() == es && id == Find(es, Entry(value, owner)) + 1
              else Entries() == es + [Entry(value, owner)] && id == |es| + 1
    {
      ghost var es := Entries();
      for i := 0 to |slots|
        invariant Valid() && Entries() == es && |slots| == |es|
        invariant forall j | 0 <= j < i :: es[j] != Entry(value, owner)
      {
        if slots[i] == value && owners[i] == owner {
          assert es[i] == Entry(value, owner);
          forall j | 0 <= j < i ensures slots[j] != value || owners[j] != owner { assert es[j] != Entry(value, owner); }
          return i + 1;
        }
      }
      forall j | 0 <= j < |slots| ensures slots[j] != value || owners[j] != owner { assert es[j] != Entry(value, owner); }
      id := Add(value, owner);
    }

    method Take(id: Id) returns (value: Handle)
      requires Valid()
      modifies this
      ensures Valid() && value == Get(old(Entries()), id) && Entries() == Taken(old(Entries()), id)
      ensures if 1 <= id <= |old(slots)| then
                value == old(slots)[id - 1] && slots == old(slots)[id - 1 := 0] && owners == old(owners)[id - 1 := 0]
              else value == 0 && slots == old(slots) && owners == old(owners)
    {
      if id == 0 || id > |slots| { return 0; }
      value := slots[id - 1];
      slots := slots[id - 1 := 0];
      owners := owners[id - 1 := 0];
      assert Entries() == Taken(old(Entries()), id);
    }

    function OwnerOf(id: Id): Handle
      requires Valid()
      reads this
    {
      Owner(Entries(), id)
    }

    predicate OwnedBy(id: Id, device: Handle)
      requires Valid()
      reads this
    {
      Get(Entries(), id) != 0 && Owner(Entries(), id) == device
    }

    /** The teardown loop over this table: what is destroyed, each taken out first. */
    method DestroyOwned(k: Kind, device: Handle) returns (log: seq<Destruction>)
      requires Valid()
      modifies this
      ensures Valid() && log == DestroyedOf(k, old(Entries()), device)
      ensures Entries() == Cleared(old(Entries()), device)
    {
      ghost var es := Entries();
      log := [];
      for id := 1 to |slots| + 1
        invariant Valid() && |slots| == |es|
        invariant log == DestroyedOf(k, es[..id - 1], device)
        invariant forall j | 0 <= j < |es| ::
          Entries()[j] == if j < id - 1 && Live(es[j], device) then EMPTY else es[j]
      {
        assert es[..id][..id - 1] == es[..id - 1] && es[..id][id - 1] == es[id - 1];
        assert Entries()[id - 1] == es[id - 1];
        if !OwnedBy(id, device) { continue; }
        var taken := Take(id);
        if taken != 0 { log := log + [Destruction(k, id, taken)]; }
      }
      assert es[..|es|] == es;
    }

    method RetireOwned(device: Handle)
      requires Valid()
      modifies this
      ensures Valid() && Entries() == Retired(old(Entries()), device) && |slots| == |old(slots)|
      ensures forall i | 0 <= i < |slots| ::
                if old(owners)[i] == device then slots[i] == 0 && owners[i] == 0
                else slots[i] == old(slots)[i] && owners[i] == old(owners)[i]
    {
      ghost var es := Entries();
      for i := 0 to |slots|
        invariant Valid() && |slots| == |es|
        invariant forall j | 0 <= j < |es| ::
          Entries()[j] == if j < i && es[j].owner == device then EMPTY else es[j]
      {
        if owners[i] == device {
          slots := slots[i := 0];
          owners := owners[i := 0];
        }
      }
      forall i | 0 <= i < |slots|
        ensures if old(owners)[i] == device then slots[i] == 0 && owners[i] == 0
                else slots[i] == old(slots)[i] && owners[i] == old(owners)[i]
      {
        assert Entries()[i] == if es[i].owner == device then EMPTY else es[i];
      }
    }
  }

  // ---------------------------------------------------------------------------
  // Ids are never rebound
  // ---------------------------------------------------------------------------

  datatype Operation =
    | Adds(value: Handle, owner: Handle)
    | AddsUnique(value: Handle, owner: Handle)
    | Takes(id: Id)
    | Retires(device: Handle)
    | Clears(device: Handle)

  function Apply(es: seq<Entry>, op: Operation): seq<Entry> {
    match op
    case Adds(value, owner) => es + [Entry(value, owner)]
    case AddsUnique(value, owner) => if Entry(value, owner) in es then es else es + [Entry(value, owner)]
    case Takes(id) => Taken(es, id)
    case Retires(device) => Retired(es, device)
    case Clears(device) => Cleared(es, device)
  }

  function ApplyAll(es: seq<Entry>, ops: seq<Operation>): seq<Entry> {
    if ops == [] then es else Apply(ApplyAll(es, ops[..|ops| - 1]), ops[|ops| - 1])
  }

  /** Over any run a used id keeps its object or loses it for good: it never names another one. */
  lemma {:induction false} NeverRebound(es: seq<Entry>, ops: seq<Operation>, id: Id)
    requires Known(es, id)
    ensures Known(ApplyAll(es, ops), id)
    ensures ApplyAll(es, ops)[id - 1] == es[id - 1] || ApplyAll(es, ops)[id - 1] == EMPTY
    decreases |ops|
  {
    if ops != [] {
      NeverRebound(es, ops[..|ops| - 1], id);
    }
  }

  // ---------------------------------------------------------------------------
  // What teardown destroys
  // ---------------------------------------------------------------------------

  /** The tables of a device, numbered in the order of the teardown: children before what they refer to. */
  type Kind = k: nat | k < KINDS

  const KINDS := 26

  const FRAMEBUFFERS: Kind := 0
  const PIPELINES: Kind := 1
  const DESCRIPTOR_POOLS: Kind := 2
  const UPDATE_TEMPLATES: Kind := 3
  const IMAGE_VIEWS: Kind := 4
  const BUFFER_VIEWS: Kind := 5
  const SAMPLERS: Kind := 6
  const SHADER_MODULES: Kind := 7
  const PIPELINE_LAYOUTS: Kind := 8
  const SET_LAYOUTS: Kind := 9
  const RENDER_PASSES: Kind := 10
  const PIPELINE_CACHES: Kind := 11
  const QUERY_POOLS: Kind := 12
  const EVENTS: Kind := 13
  const FENCES: Kind := 14
  const SEMAPHORES: Kind := 15
  const YCBCR_CONVERSIONS: Kind := 16
  const COMMAND_POOLS: Kind := 17
  const BUFFERS: Kind := 18
  const IMAGES: Kind := 19
  const SWAPCHAINS: Kind := 20
  const MEMORIES: Kind := 21
  const COMMAND_BUFFERS: Kind := 22
  const DESCRIPTOR_SETS: Kind := 23
  const QUEUES: Kind := 24
  const DEVICES: Kind := 25

  /** A call that destroys the object of a slot. */
  datatype Destruction = Destruction(kind: Kind, id: Id, handle: Handle)

  /** The teardown is asked for a device by its handle. */
  function DeviceItself(device: Handle): Destruction {
    Destruction(DEVICES, 0, device)
  }

  type Tables = map<Kind, seq<Entry>>

  function TableOf(t: Tables, k: Kind): seq<Entry> {
    if k in t then t[k] else []
  }

  /** What is destroyed in one table, by id. */
  function DestroyedOf(k: Kind, es: seq<Entry>, device: Handle): seq<Destruction> {
    if es == [] then []
    else
      var n := |es| - 1;
      DestroyedOf(k, es[..n], device) + if Live(es[n], device) then [Destruction(k, n + 1, es[n].handle)] else []
  }

  /** The tables after what the device owns in the kinds from `lo` up to `hi` is destroyed. */
  function ClearedIn(t: Tables, lo: nat, hi: nat, device: Handle): Tables
    requires lo <= hi <= KINDS
  {
    if lo == hi then t
    else
      var before, k: Kind := ClearedIn(t, lo, hi - 1, device), hi - 1;
      before[k := Cleared(TableOf(before, k), device)]
  }

  /** What is destroyed on the way. */
  function DestroyedIn(t: Tables, lo: nat, hi: nat, device: Handle): seq<Destruction>
    requires lo <= hi <= KINDS
  {
    if lo == hi then []
    else
      var k: Kind := hi - 1;
      DestroyedIn(t, lo, hi - 1, device)
      + DestroyedOf(k, TableOf(ClearedIn(t, lo, hi - 1, device), k), device)
  }

  function RetiredIn(t: Tables, lo: nat, hi: nat, device: Handle): Tables
    requires lo <= hi <= KINDS
  {
    if lo == hi then t
    else
      var before, k: Kind := RetiredIn(t, lo, hi - 1, device), hi - 1;
      before[k := Retired(TableOf(before, k), device)]
  }

  /** A table after the entries of some ids are taken out. */
  function Without(es: seq<Entry>, ids: set<Id>): (r: seq<Entry>)
    ensures |r| == |es|
  {
    seq(|es|, i requires 0 <= i < |es| => if i + 1 in ids then EMPTY else es[i])
  }

  type Side = map<nat, Handle>

  /** Everything the teardown reads or changes. Side tables keep the device of each record. */
  datatype State = State(
    tables: Tables,
    physicalDevices: Side,
    commandBufferDevices: Side,
    memoryOwners: Side,
    setOwners: Side,
    templateOwners: Side,
    templateEntries: map<Id, nat>,
    conversionOwners: Side,
    swapchainDevices: Side,
    swapchainSurfaces: map<Handle, Handle>,
    swapchainImages: map<Id, seq<Id>>)

  /** The images borrowed from the device's live swapchains. */
  function Borrowed(t: Tables, images: map<Id, seq<Id>>, device: Handle): set<Id> {
    BorrowedFrom(TableOf(t, SWAPCHAINS), images, images.Keys, device)
  }

  function BorrowedFrom(swapchains: seq<Entry>, images: map<Id, seq<Id>>, ws: set<Id>, device: Handle): set<Id>
    requires ws <= images.Keys
  {
    set w, id | w in ws && id in images[w] && Owner(swapchains, w) == device :: id
  }

  function IdsOf(ids: seq<Id>): set<Id> {
    set id | id in ids
  }

  lemma BorrowedMore(swapchains: seq<Entry>, images: map<Id, seq<Id>>, ws: set<Id>, w: Id, device: Handle)
    requires ws <= images.Keys && w in images
    ensures BorrowedFrom(swapchains, images, ws + {w}, device)
            == BorrowedFrom(swapchains, images, ws, device)
               + if Owner(swapchains, w) == device then IdsOf(images[w]) else {}
  {
  }

  function Kept(owners: Side, device: Handle): Side {
    map k | k in owners && owners[k] != device :: owners[k]
  }

  function Erased(owners: Side, device: Handle): set<nat> {
    set k | k in owners && owners[k] == device
  }

  function KeptImages(t: Tables, images: map<Id, seq<Id>>): map<Id, seq<Id>> {
    map s | s in images && Owner(TableOf(t, SWAPCHAINS), s) != 0 :: images[s]
  }

  function TakenImages(s: State, device: Handle): Tables {
    var t := ClearedIn(s.tables, 0, IMAGES, device);
    t[IMAGES := Without(TableOf(t, IMAGES), Borrowed(t, s.swapchainImages, device))]
  }

  function TornTables(s: State, device: Handle): Tables {
    RetiredIn(ClearedIn(TakenImages(s, device), IMAGES, COMMAND_BUFFERS, device), COMMAND_BUFFERS, DEVICES, device)
  }

  function ErasedRecords(s: State, device: Handle): State {
    State(s.tables, s.physicalDevices - {device}, Kept(s.commandBufferDevices, device), Kept(s.memoryOwners, device),
          Kept(s.setOwners, device), Kept(s.templateOwners, device),
          s.templateEntries - Erased(s.templateOwners, device), Kept(s.conversionOwners, device),
          Kept(s.swapchainDevices, device), s.swapchainSurfaces - Erased(s.swapchainDevices, device),
          KeptImages(s.tables, s.swapchainImages))
  }

  function Torn(s: State, device: Handle): State {
    ErasedRecords(s.(tables := TornTables(s, device)), device)
  }

  /** What the driver is asked to destroy, in order. */
  function Destructions(s: State, device: Handle): seq<Destruction> {
    DestroyedIn(s.tables, 0, IMAGES, device) + DestroyedIn(TakenImages(s, device), IMAGES, COMMAND_BUFFERS, device)
    + [DeviceItself(device)]
  }

  // ---------------------------------------------------------------------------
  // What is destroyed, and in which order
  // ---------------------------------------------------------------------------

  predicate Holds(es: seq<Entry>, device: Handle, d: Destruction) {
    1 <= d.id <= |es| && Live(es[d.id - 1], device) && es[d.id - 1].handle == d.handle
  }

  lemma {:induction false} InDestroyedOf(k: Kind, es: seq<Entry>, device: Handle, d: Destruction)
    ensures d in DestroyedOf(k, es, device) <==> d.kind == k && Holds(es, device, d)
    decreases |es|
  {
    if es != [] {
      InDestroyedOf(k, es[..|es| - 1], device, d);
    }
  }

  predicate Before(a: Destruction, b: Destruction) {
    a.kind < b.kind || (a.kind == b.kind && a.id < b.id)
  }

  /** Strictly by kind and id, so nothing is destroyed twice. */
  predicate Increasing(log: seq<Destruction>) {
    forall i, j | 0 <= i < j < |log| :: Before(log[i], log[j])
  }

  lemma IncreasingAppend(x: seq<Destruction>, y: seq<Destruction>)
    requires Increasing(x) && Increasing(y)
    requires forall a, b | a in x && b in y :: Before(a, b)
    ensures Increasing(x + y)
  {
    forall i, j | 0 <= i < j < |x + y| ensures Before((x + y)[i], (x + y)[j]) {
      if i < |x| <= j {
        assert x[i] in x && y[j - |x|] in y;
      }
    }
  }

  lemma {:induction false} DestroyedOfIncreases(k: Kind, es: seq<Entry>, device: Handle)
    ensures Increasing(DestroyedOf(k, es, device))
    decreases |es|
  {
    if es != [] {
      var n := |es| - 1;
      DestroyedOfIncreases(k, es[..n], device);
      var front, last := DestroyedOf(k, es[..n], device), Destruction(k, n + 1, es[n].handle);
      forall a | a in front ensures Before(a, last) { InDestroyedOf(k, es[..n], device, a); }
      IncreasingAppend(front, if Live(es[n], device) then [last] else []);
    }
  }

  lemma {:induction false} ClearedTable(t: Tables, lo: nat, hi: nat, device: Handle, k: Kind)
    requires lo <= hi <= KINDS
    ensures TableOf(ClearedIn(t, lo, hi, device), k)
            == if lo <= k < hi then Cleared(TableOf(t, k), device) else TableOf(t, k)
    decreases hi
  {
    if lo < hi {
      ClearedTable(t, lo, hi - 1, device, k);
    }
  }

  lemma {:induction false} RetiredTable(t: Tables, lo: nat, hi: nat, device: Handle, k: Kind)
    requires lo <= hi <= KINDS
    ensures TableOf(RetiredIn(t, lo, hi, device), k)
            == if lo <= k < hi then Retired(TableOf(t, k), device) else TableOf(t, k)
    decreases hi
  {
    if lo < hi {
      RetiredTable(t, lo, hi - 1, device, k);
    }
  }

  lemma {:induction false} InDestroyedIn(t: Tables, lo: nat, hi: nat, device: Handle, d: Destruction)
    requires lo <= hi <= KINDS
    ensures d in DestroyedIn(t, lo, hi, device) <==> lo <= d.kind < hi && Holds(TableOf(t, d.kind), device, d)
    decreases hi
  {
    if lo < hi {
      var k: Kind := hi - 1;
      InDestroyedIn(t, lo, k, device, d);
      ClearedTable(t, lo, k, device, k);
      InDestroyedOf(k, TableOf(t, k), device, d);
      assert DestroyedIn(t, lo, hi, device) == DestroyedIn(t, lo, k, device) + DestroyedOf(k, TableOf(t, k), device);
    }
  }

  lemma {:induction false} DestroyedInIncreases(t: Tables, lo: nat, hi: nat, device: Handle)
    requires lo <= hi <= KINDS
    ensures Increasing(DestroyedIn(t, lo, hi, device))
    decreases hi
  {
    if lo < hi {
      var k: Kind := hi - 1;
      DestroyedInIncreases(t, lo, hi - 1, device);
      ClearedTable(t, lo, hi - 1, device, k);
      DestroyedOfIncreases(k, TableOf(t, k), device);
      var front, last := DestroyedIn(t, lo, hi - 1, device), DestroyedOf(k, TableOf(t, k), device);
      forall a, b | a in front && b in last ensures Before(a, b) {
        InDestroyedIn(t, lo, hi - 1, device, a);
        InDestroyedOf(k, TableOf(t, k), device, b);
      }
      IncreasingAppend(front, last);
    }
  }

  lemma TakenTable(s: State, device: Handle, k: Kind)
    ensures var es := TableOf(s.tables, k);
            TableOf(TakenImages(s, device), k)
            == if k == IMAGES then Without(es, Borrowed(s.tables, s.swapchainImages, device))
               else if k < IMAGES then Cleared(es, device)
               else es
  {
    ClearedTable(s.tables, 0, IMAGES, device, k);
    ClearedTable(s.tables, 0, IMAGES, device, SWAPCHAINS);
    ClearedTable(s.tables, 0, IMAGES, device, IMAGES);
  }

  /** The teardown must destroy this: a live object the device owns, and not a borrowed image. */
  predicate Doomed(s: State, device: Handle, d: Destruction) {
    && d.kind < COMMAND_BUFFERS
    && Holds(TableOf(s.tables, d.kind), device, d)
    && !(d.kind == IMAGES && d.id in Borrowed(s.tables, s.swapchainImages, device))
  }

  /** Exactly the doomed objects and the device are destroyed; a borrowed image never is. */
  lemma DestroysExactly(s: State, device: Handle, d: Destruction)
    requires device != 0
    ensures d in Destructions(s, device) <==> Doomed(s, device, d) || d == DeviceItself(device)
  {
    InDestroyedIn(s.tables, 0, IMAGES, device, d);
    InDestroyedIn(TakenImages(s, device), IMAGES, COMMAND_BUFFERS, device, d);
    TakenTable(s, device, d.kind);
  }

  /** Each is destroyed once, children go before what they refer to, and the device goes last. */
  lemma DestroyedOnceInOrder(s: State, device: Handle)
    ensures Increasing(Destructions(s, device))
    ensures var log := Destructions(s, device); log[|log| - 1] == DeviceItself(device)
  {
    var t := TakenImages(s, device);
    var x, y := DestroyedIn(s.tables, 0, IMAGES, device), DestroyedIn(t, IMAGES, COMMAND_BUFFERS, device);
    DestroyedInIncreases(s.tables, 0, IMAGES, device);
    DestroyedInIncreases(t, IMAGES, COMMAND_BUFFERS, device);
    forall d ensures d in x ==> d.kind < IMAGES { InDestroyedIn(s.tables, 0, IMAGES, device, d); }
    forall d ensures d in y ==> IMAGES <= d.kind < DEVICES { InDestroyedIn(t, IMAGES, COMMAND_BUFFERS, device, d); }
    IncreasingAppend(x, y);
    IncreasingAppend(x + y, [DeviceItself(device)]);
  }

  /** The image belongs to a swapchain of the device. */
  predicate SwapchainImage(s: State, device: Handle, id: Id) {
    exists w :: w in s.swapchainImages && id in s.swapchainImages[w]
                && SWAPCHAINS in s.tables && 1 <= w <= |s.tables[SWAPCHAINS]| && s.tables[SWAPCHAINS][w - 1].owner == device
  }

  /** The slot holds this live object of the device. */
  predicate Names(s: State, device: Handle, d: Destruction) {
    && d.kind in s.tables && 1 <= d.id <= |s.tables[d.kind]|
    && s.tables[d.kind][d.id - 1] == Entry(d.handle, device) && d.handle != 0
  }

  /** A destruction that destroys: a live object of the device other than an image of its swapchains, and the
      device itself. */
  predicate Destroys(s: State, device: Handle, d: Destruction) {
    || (d.kind < COMMAND_BUFFERS && Names(s, device, d) && (d.kind == IMAGES ==> !SwapchainImage(s, device, d.id)))
    || d == Destruction(DEVICES, 0, device)
  }

  /** Objects of the first kind are made from objects of the second. */
  predicate MadeFrom(child: Kind, parent: Kind) {
    || (child == FRAMEBUFFERS && parent in {IMAGE_VIEWS, RENDER_PASSES})
    || (child == PIPELINES && parent in {SHADER_MODULES, PIPELINE_LAYOUTS, RENDER_PASSES, PIPELINE_CACHES})
    || (child == UPDATE_TEMPLATES && parent in {PIPELINE_LAYOUTS, SET_LAYOUTS})
    || (child == IMAGE_VIEWS && parent in {IMAGES, YCBCR_CONVERSIONS})
    || (child == SAMPLERS && parent == YCBCR_CONVERSIONS)
    || (child == BUFFER_VIEWS && parent == BUFFERS)
    || (child == PIPELINE_LAYOUTS && parent == SET_LAYOUTS)
    || (child in {BUFFERS, IMAGES} && parent == MEMORIES)
    || (child != DEVICES && parent == DEVICES)
  }

  lemma BorrowedIs(s: State, device: Handle, id: Id)
    requires device != 0
    ensures id in Borrowed(s.tables, s.swapchainImages, device) <==> SwapchainImage(s, device, id)
  {
    if id in Borrowed(s.tables, s.swapchainImages, device) {
      var w :| w in s.swapchainImages && id in s.swapchainImages[w] && Owner(TableOf(s.tables, SWAPCHAINS), w) == device;
    }
    if SwapchainImage(s, device, id) {
      var w: nat :| w in s.swapchainImages && id in s.swapchainImages[w]
               && SWAPCHAINS in s.tables && 1 <= w <= |s.tables[SWAPCHAINS]| && s.tables[SWAPCHAINS][w - 1].owner == device;
      assert Owner(TableOf(s.tables, SWAPCHAINS), w) == device;
    }
  }

  lemma DestroysAre(s: State, device: Handle, d: Destruction)
    requires device != 0
    ensures d in Destructions(s, device) <==> Destroys(s, device, d)
  {
    DestroysExactly(s, device, d);
    BorrowedIs(s, device, d.id);
    hide Borrowed, SwapchainImage, Destructions;
  }

  /** So what is made from something goes before it. */
  lemma ChildrenFirst(s: State, device: Handle, i: nat, j: nat)
    requires var log := Destructions(s, device);
             i < |log| && j < |log| && MadeFrom(log[i].kind, log[j].kind)
    ensures i < j
  {
    DestroyedOnceInOrder(s, device);
    var log := Destructions(s, device);
    assert log[i].kind < log[j].kind;
    assert j < i ==> Before(log[j], log[i]);
  }

  // ---------------------------------------------------------------------------
  // What is left
  // ---------------------------------------------------------------------------

  /** The teardown clears these slots and no others. */
  predicate Goes(s: State, device: Handle, k: Kind, id: Id, e: Entry) {
    || (e.owner == device && k < DEVICES && (e.handle != 0 || k >= COMMAND_BUFFERS))
    || (k == IMAGES && id in Borrowed(s.tables, s.swapchainImages, device))
  }

  lemma TornExactly(s: State, device: Handle, k: Kind, i: nat)
    requires device != 0 && i < |TableOf(s.tables, k)|
    ensures |TableOf(TornTables(s, device), k)| == |TableOf(s.tables, k)|
    ensures TableOf(TornTables(s, device), k)[i]
            == if Goes(s, device, k, i + 1, TableOf(s.tables, k)[i]) then EMPTY else TableOf(s.tables, k)[i]
  {
    var t := TakenImages(s, device);
    TakenTable(s, device, k);
    ClearedTable(t, IMAGES, COMMAND_BUFFERS, device, k);
    RetiredTable(ClearedIn(t, IMAGES, COMMAND_BUFFERS, device), COMMAND_BUFFERS, DEVICES, device, k);
  }

  /** The entry is cleared: of an object the device owns, any entry of its command buffers, descriptor sets and
      queues, or of an image of its swapchains. */
  predicate Clears(s: State, device: Handle, k: Kind, i: nat)
    requires k in s.tables && i < |s.tables[k]|
  {
    var e := s.tables[k][i];
    || (e.owner == device && e.handle != 0 && k < COMMAND_BUFFERS)
    || (e.owner == device && COMMAND_BUFFERS <= k < DEVICES)
    || (k == IMAGES && SwapchainImage(s, device, i + 1))
  }

  /** The records that survive are those of other devices. */
  predicate Survive(before: Side, after: Side, device: Handle) {
    && (forall k | k in after :: k in before && after[k] == before[k] != device)
    && forall k | k in before && before[k] != device :: k in after
  }

  /** What the teardown leaves, entry by entry and record by record. */
  ghost predicate TearsDown(s: State, device: Handle, r: State) {
    && (forall k | k in s.tables :: k in r.tables && |r.tables[k]| == |s.tables[k]|
          && forall i | 0 <= i < |s.tables[k]| ::
               r.tables[k][i] == if Clears(s, device, k, i) then Entry(0, 0) else s.tables[k][i])
    && (forall h :: h in r.physicalDevices <==> h in s.physicalDevices && h != device)
    && (forall h | h in r.physicalDevices :: r.physicalDevices[h] == s.physicalDevices[h])
    && Survive(s.commandBufferDevices, r.commandBufferDevices, device)
    && Survive(s.memoryOwners, r.memoryOwners, device)
    && Survive(s.setOwners, r.setOwners, device)
    && Survive(s.templateOwners, r.templateOwners, device)
    && Survive(s.conversionOwners, r.conversionOwners, device)
    && Survive(s.swapchainDevices, r.swapchainDevices, device)
    && (forall t :: t in r.templateEntries
          <==> t in s.templateEntries && !(t in s.templateOwners && s.templateOwners[t] == device))
    && (forall t | t in r.templateEntries :: r.templateEntries[t] == s.templateEntries[t])
    && (forall w :: w in r.swapchainSurfaces
          <==> w in s.swapchainSurfaces && !(w in s.swapchainDevices && s.swapchainDevices[w] == device))
    && (forall w | w in r.swapchainSurfaces :: r.swapchainSurfaces[w] == s.swapchainSurfaces[w])
    && (forall w :: w in r.swapchainImages
          <==> w in s.swapchainImages && SWAPCHAINS in r.tables && 1 <= w <= |r.tables[SWAPCHAINS]|
               && r.tables[SWAPCHAINS][w - 1].owner != 0)
    && forall w | w in r.swapchainImages :: r.swapchainImages[w] == s.swapchainImages[w]
  }

  lemma TornEntries(s: State, device: Handle, k: Kind)
    requires device != 0 && k in s.tables
    ensures k in Torn(s, device).tables && |Torn(s, device).tables[k]| == |s.tables[k]|
    ensures forall i | 0 <= i < |s.tables[k]| ::
              Torn(s, device).tables[k][i] == if Clears(s, device, k, i) then Entry(0, 0) else s.tables[k][i]
  {
    TornKeeps(s, device, k);
    TornLength(s, device, k);
    hide TornTables, Goes, Clears;
    assert Torn(s, device).tables == TornTables(s, device);
    forall i: nat | i < |s.tables[k]|
      ensures TornTables(s, device)[k][i] == if Clears(s, device, k, i) then Entry(0, 0) else s.tables[k][i]
    {
      TornExactly(s, device, k, i);
      ClearsIs(s, device, k, i);
    }
  }

  lemma ClearsIs(s: State, device: Handle, k: Kind, i: nat)
    requires device != 0 && k in s.tables && i < |s.tables[k]|
    ensures Clears(s, device, k, i) <==> Goes(s, device, k, i + 1, s.tables[k][i])
  {
    BorrowedIs(s, device, i + 1);
    hide Borrowed, SwapchainImage;
  }

  lemma {:induction false} ClearedKeeps(t: Tables, lo: nat, hi: nat, device: Handle, k: Kind)
    requires lo <= hi <= KINDS && k in t
    ensures k in ClearedIn(t, lo, hi, device) && k in RetiredIn(t, lo, hi, device)
    decreases hi
  {
    if lo < hi {
      ClearedKeeps(t, lo, hi - 1, device, k);
    }
  }

  lemma TornKeeps(s: State, device: Handle, k: Kind)
    requires k in s.tables
    ensures k in TornTables(s, device)
  {
    ClearedKeeps(s.tables, 0, IMAGES, device, k);
    var t := TakenImages(s, device);
    ClearedKeeps(t, IMAGES, COMMAND_BUFFERS, device, k);
    ClearedKeeps(ClearedIn(t, IMAGES, COMMAND_BUFFERS, device), COMMAND_BUFFERS, DEVICES, device, k);
  }

  lemma KeptSurvive(owners: Side, device: Handle)
    ensures Survive(owners, Kept(owners, device), device)
  {
  }

  lemma PairedErased(owners: Side, paired: map<nat, nat>, device: Handle)
    ensures var left := paired - Erased(owners, device);
            && (forall k :: k in left <==> k in paired && !(k in owners && owners[k] == device))
            && forall k | k in left :: left[k] == paired[k]
  {
  }

  /** The teardown leaves exactly that. */
  lemma TearsDownExactly(s: State, device: Handle)
    requires device != 0 && SWAPCHAINS in s.tables
    ensures TearsDown(s, device, Torn(s, device))
  {
    var r := Torn(s, device);
    forall k | k in s.tables
      ensures k in r.tables && |r.tables[k]| == |s.tables[k]|
      ensures forall i | 0 <= i < |s.tables[k]| ::
                r.tables[k][i] == if Clears(s, device, k, i) then Entry(0, 0) else s.tables[k][i]
    {
      TornEntries(s, device, k);
    }
    assert TableOf(r.tables, SWAPCHAINS) == r.tables[SWAPCHAINS];
    KeptSurvive(s.commandBufferDevices, device);
    KeptSurvive(s.memoryOwners, device);
    KeptSurvive(s.setOwners, device);
    KeptSurvive(s.templateOwners, device);
    KeptSurvive(s.conversionOwners, device);
    KeptSurvive(s.swapchainDevices, device);
    PairedErased(s.templateOwners, s.templateEntries, device);
    PairedErased(s.swapchainDevices, s.swapchainSurfaces, device);
    hide TornTables, Clears, Kept, Erased, Survive;
  }

  /** No slot without an object has an owner. */
  predicate NullUnowned(es: seq<Entry>) {
    forall i | 0 <= i < |es| :: es[i].handle == 0 ==> es[i].owner == 0
  }

  /** Every step keeps that, as long as no null object is added. */
  lemma NullStaysUnowned(es: seq<Entry>, op: Operation)
    requires NullUnowned(es)
    requires op.Adds? || op.AddsUnique? ==> op.value != 0
    ensures NullUnowned(Apply(es, op))
  {
  }

  predicate WellFormed(s: State) {
    && (forall k: Kind :: NullUnowned(TableOf(s.tables, k)))
    && s.templateEntries.Keys <= s.templateOwners.Keys
    && s.swapchainSurfaces.Keys <= s.swapchainDevices.Keys
  }

  predicate Mentions(owners: Side, device: Handle) {
    exists k :: k in owners && owners[k] == device
  }

  /** Nothing owned by the device is left in any table or record. */
  lemma NothingLeft(s: State, device: Handle)
    requires device != 0 && WellFormed(s)
    ensures forall k, i | k != DEVICES && 0 <= i < |TableOf(Torn(s, device).tables, k)| ::
              TableOf(Torn(s, device).tables, k)[i].owner != device
    ensures var r := Torn(s, device);
            && device !in r.physicalDevices
            && !Mentions(r.commandBufferDevices, device) && !Mentions(r.memoryOwners, device)
            && !Mentions(r.setOwners, device) && !Mentions(r.templateOwners, device)
            && !Mentions(r.conversionOwners, device) && !Mentions(r.swapchainDevices, device)
            && r.templateEntries.Keys <= r.templateOwners.Keys
            && r.swapchainSurfaces.Keys <= r.swapchainDevices.Keys
            && forall w | w in r.swapchainImages :: Owner(TableOf(r.tables, SWAPCHAINS), w) !in {0, device}
  {
    var r := Torn(s, device);
    forall k, i | k != DEVICES && 0 <= i < |TableOf(r.tables, k)| ensures TableOf(r.tables, k)[i].owner != device {
      TornLength(s, device, k);
      TornExactly(s, device, k, i);
      }
  }

  lemma TornLength(s: State, device: Handle, k: Kind)
    requires device != 0
    ensures |TableOf(TornTables(s, device), k)| == |TableOf(s.tables, k)|
  {
    var t := TakenImages(s, device);
    TakenTable(s, device, k);
    ClearedTable(t, IMAGES, COMMAND_BUFFERS, device, k);
    RetiredTable(ClearedIn(t, IMAGES, COMMAND_BUFFERS, device), COMMAND_BUFFERS, DEVICES, device, k);
  }

  /** A swapchain's images are recorded under its own device, or are gone. */
  predicate BorrowedByOwner(s: State) {
    forall w, id | w in s.swapchainImages && id in s.swapchainImages[w] ::
      || Get(TableOf(s.tables, IMAGES), id) == 0
      || Owner(TableOf(s.tables, IMAGES), id) == Owner(TableOf(s.tables, SWAPCHAINS), w)
  }

  predicate KeepsOthers(before: Side, after: Side, device: Handle) {
    forall k | k in before && before[k] != device :: k in after && after[k] == before[k]
  }

  /** No entry and no record of another device changes. */
  lemma OthersUntouched(s: State, device: Handle)
    requires device != 0 && WellFormed(s) && BorrowedByOwner(s)
    ensures forall k, i | 0 <= i < |TableOf(s.tables, k)| && TableOf(s.tables, k)[i].owner != device ::
              && i < |TableOf(Torn(s, device).tables, k)|
              && TableOf(Torn(s, device).tables, k)[i] == TableOf(s.tables, k)[i]
    ensures var r := Torn(s, device);
            && KeepsOthers(s.commandBufferDevices, r.commandBufferDevices, device)
            && KeepsOthers(s.memoryOwners, r.memoryOwners, device)
            && KeepsOthers(s.setOwners, r.setOwners, device)
            && KeepsOthers(s.templateOwners, r.templateOwners, device)
            && KeepsOthers(s.conversionOwners, r.conversionOwners, device)
            && KeepsOthers(s.swapchainDevices, r.swapchainDevices, device)
            && (forall h | h in s.physicalDevices && h != device ::
                  h in r.physicalDevices && r.physicalDevices[h] == s.physicalDevices[h])
            && (forall w | w in s.swapchainImages && Owner(TableOf(s.tables, SWAPCHAINS), w) !in {0, device} ::
                  w in r.swapchainImages && r.swapchainImages[w] == s.swapchainImages[w])
  {
    var r := Torn(s, device);
    forall k, i | 0 <= i < |TableOf(s.tables, k)| && TableOf(s.tables, k)[i].owner != device
      ensures i < |TableOf(r.tables, k)| && TableOf(r.tables, k)[i] == TableOf(s.tables, k)[i]
    {
      TornExactly(s, device, k, i);
      var e := TableOf(s.tables, k)[i];
      if Goes(s, device, k, i + 1, e) {
        assert Owner(TableOf(s.tables, IMAGES), i + 1) == e.owner;
        assert e.handle == 0 && NullUnowned(TableOf(s.tables, k));
      }
    }
  }

  // ---------------------------------------------------------------------------
  // The teardown itself
  // ---------------------------------------------------------------------------

  class DeviceTables {
    const tables: map<Kind, Table>
    var physicalDevices: Side
    var commandBufferDevices: Side
    var memoryOwners: Side
    var setOwners: Side
    var templateOwners: Side
    var templateEntries: map<Id, nat>
    var conversionOwners: Side
    var swapchainDevices: Side
    var swapchainSurfaces: map<Handle, Handle>
    var swapchainImages: map<Id, seq<Id>>

    constructor (tables: map<Kind, Table>)
      requires forall k: Kind :: k in tables && tables[k].Valid()
      requires forall j: Kind, k: Kind | j != k :: tables[j] != tables[k]
      ensures Valid() && this.tables == tables
    {
      this.tables := tables;
      physicalDevices, commandBufferDevices, memoryOwners, setOwners := map[], map[], map[], map[];
      templateOwners, templateEntries, conversionOwners := map[], map[], map[];
      swapchainDevices, swapchainSurfaces, swapchainImages := map[], map[], map[];
    }

    ghost function Parts(): set<Table> {
      set k | k in tables :: tables[k]
    }

    ghost predicate Valid()
      reads Parts()
    {
      && (forall k: Kind :: k in tables && tables[k].Valid())
      && forall j: Kind, k: Kind | j != k :: tables[j] != tables[k]
    }

    ghost function Entries(): Tables
      requires Valid()
      reads Parts()
    {
      map k: Kind | k in tables :: tables[k].Entries()
    }

    /** The records, beside the tables `t`. */
    ghost function Beside(t: Tables): State
      reads this
    {
      State(t, physicalDevices, commandBufferDevices, memoryOwners, setOwners, templateOwners,
            templateEntries, conversionOwners, swapchainDevices, swapchainSurfaces, swapchainImages)
    }

    ghost function Abs(): State
      requires Valid()
      reads this, Parts()
    {
      Beside(Entries())
    }

    lemma OneChanged(t: Tables, k: Kind)
      requires Valid() && forall j: Kind :: j in t && (j != k ==> tables[j].Entries() == t[j])
      ensures Entries() == t[k := tables[k].Entries()]
    {
    }

    method DestroyKind(k: Kind, device: Handle) returns (log: seq<Destruction>)
      requires Valid()
      modifies Parts()
      ensures Valid() && log == DestroyedOf(k, TableOf(old(Entries()), k), device)
      ensures Entries() == old(Entries())[k := Cleared(TableOf(old(Entries()), k), device)]
    {
      log := tables[k].DestroyOwned(k, device);
      OneChanged(old(Entries()), k);
    }

    method DestroyKinds(lo: nat, hi: nat, device: Handle) returns (log: seq<Destruction>)
      requires Valid() && lo <= hi <= KINDS
      modifies Parts()
      ensures Valid() && log == DestroyedIn(old(Entries()), lo, hi, device)
      ensures Entries() == ClearedIn(old(Entries()), lo, hi, device)
    {
      log := [];
      for k := lo to hi
        invariant Valid() && log == DestroyedIn(old(Entries()), lo, k, device)
        invariant Entries() == ClearedIn(old(Entries()), lo, k, device)
      {
        var more := DestroyKind(k, device);
        log := log + more;
      }
    }

    method RetireKind(k: Kind, device: Handle)
      requires Valid()
      modifies Parts()
      ensures Valid() && Entries() == old(Entries())[k := Retired(TableOf(old(Entries()), k), device)]
    {
      tables[k].RetireOwned(device);
      OneChanged(old(Entries()), k);
    }

    method RetireKinds(device: Handle)
      requires Valid()
      modifies Parts()
      ensures Valid() && Entries() == RetiredIn(old(Entries()), COMMAND_BUFFERS, DEVICES, device)
    {
      for k := COMMAND_BUFFERS to DEVICES
        invariant Valid() && Entries() == RetiredIn(old(Entries()), COMMAND_BUFFERS, k, device)
      {
        RetireKind(k, device);
      }
    }

    method TakeImages(ids: seq<Id>)
      requires Valid()
      modifies tables[IMAGES]
      ensures Valid()
      ensures tables[IMAGES].Entries() == Without(old(tables[IMAGES].Entries()), IdsOf(ids))
    {
      var images := tables[IMAGES];
      ghost var es := images.Entries();
      for i := 0 to |ids|
        invariant Valid() && images.Entries() == Without(es, IdsOf(ids[..i]))
      {
        var _ := images.Take(ids[i]);
        assert ids[..i + 1] == ids[..i] + [ids[i]];
        assert images.Entries() == Without(es, IdsOf(ids[..i + 1]));
      }
      assert ids[..|ids|] == ids;
    }

    /** Images borrowed from live swapchains lose their ids before the images are destroyed. */
    method TakeBorrowed(device: Handle)
      requires Valid()
      modifies Parts()
      ensures Valid()
      ensures Entries() == old(Entries())[IMAGES :=
                Without(TableOf(old(Entries()), IMAGES), Borrowed(old(Entries()), swapchainImages, device))]
    {
      ghost var t := Entries();
      ghost var es, ws, seen: set<Id> := t[IMAGES], t[SWAPCHAINS], {};
      var rest := swapchainImages.Keys;
      while rest != {}
        invariant Valid() && rest <= swapchainImages.Keys && seen == swapchainImages.Keys - rest
        invariant tables[IMAGES].Entries() == Without(es, BorrowedFrom(ws, swapchainImages, seen, device))
        invariant forall j: Kind | j != IMAGES :: unchanged(tables[j])
      {
        var w :| w in rest;
        BorrowedMore(ws, swapchainImages, seen, w, device);
        rest := rest - {w};
        seen := seen + {w};
        if tables[SWAPCHAINS].OwnerOf(w) == device {
          TakeImages(swapchainImages[w]);
        }
      }
      assert seen == swapchainImages.Keys;
      OneChanged(t, IMAGES);
      assert Entries() == t[IMAGES := Without(es, Borrowed(t, swapchainImages, device))];
    }

    /** One of the loops that erase a device's records. */
    static method EraseOwned(owners: Side, device: Handle) returns (kept: Side, erased: set<nat>)
      ensures kept == Kept(owners, device) && erased == Erased(owners, device)
    {
      var rest := owners.Keys;
      kept, erased := owners, {};
      while rest != {}
        invariant rest <= owners.Keys
        invariant erased == set k | k in owners && k !in rest && owners[k] == device
        invariant kept == map k | k in owners && k !in erased :: owners[k]
      {
        var k :| k in rest;
        rest := rest - {k};
        if owners[k] == device {
          erased := erased + {k};
          kept := kept - {k};
        }
      }
    }

    method EraseDeadSwapchains(ghost t: Tables)
      requires Valid() && SWAPCHAINS in t && t[SWAPCHAINS] == tables[SWAPCHAINS].Entries()
      modifies this`swapchainImages
      ensures swapchainImages == KeptImages(t, old(swapchainImages))
    {
      var rest := swapchainImages.Keys;
      ghost var images := swapchainImages;
      while rest != {}
        invariant rest <= images.Keys
        invariant swapchainImages
                  == map w | w in images && (w in rest || Owner(TableOf(t, SWAPCHAINS), w) != 0) :: images[w]
      {
        var w :| w in rest;
        rest := rest - {w};
        if tables[SWAPCHAINS].OwnerOf(w) == 0 {
          swapchainImages := swapchainImages - {w};
        }
      }
    }

    method EraseObjectRecords(device: Handle)
      modifies this`physicalDevices, this`commandBufferDevices, this`memoryOwners, this`setOwners, this`conversionOwners
      ensures physicalDevices == old(physicalDevices) - {device}
      ensures commandBufferDevices == Kept(old(commandBufferDevices), device)
      ensures memoryOwners == Kept(old(memoryOwners), device)
      ensures setOwners == Kept(old(setOwners), device)
      ensures conversionOwners == Kept(old(conversionOwners), device)
    {
      physicalDevices := physicalDevices - {device};
      var erased;
      commandBufferDevices, erased := EraseOwned(commandBufferDevices, device);
      memoryOwners, erased := EraseOwned(memoryOwners, device);
      setOwners, erased := EraseOwned(setOwners, device);
      conversionOwners, erased := EraseOwned(conversionOwners, device);
    }

    /** Records whose owner tells which other records go with them. */
    method ErasePairedRecords(device: Handle)
      modifies this`templateOwners, this`templateEntries, this`swapchainDevices, this`swapchainSurfaces
      ensures templateOwners == Kept(old(templateOwners), device)
      ensures templateEntries == old(templateEntries) - Erased(old(templateOwners), device)
      ensures swapchainDevices == Kept(old(swapchainDevices), device)
      ensures swapchainSurfaces == old(swapchainSurfaces) - Erased(old(swapchainDevices), device)
    {
      var erased;
      templateOwners, erased := EraseOwned(templateOwners, device);
      templateEntries := templateEntries - erased;
      swapchainDevices, erased := EraseOwned(swapchainDevices, device);
      swapchainSurfaces := swapchainSurfaces - erased;
    }

    method DestroyTables(device: Handle) returns (log: seq<Destruction>)
      requires Valid()
      modifies Parts()
      ensures Valid() && log + [DeviceItself(device)] == Destructions(old(Abs()), device)
      ensures Entries() == TornTables(old(Abs()), device)
    {
      ghost var s := Abs();
      var first := DestroyKinds(0, IMAGES, device);
      TakeBorrowed(device);
      assert Entries() == TakenImages(s, device);
      var second := DestroyKinds(IMAGES, COMMAND_BUFFERS, device);
      RetireKinds(device);
      log := first + second;
    }

    method EraseAllRecords(device: Handle, ghost t: Tables)
      requires Valid() && SWAPCHAINS in t && t[SWAPCHAINS] == tables[SWAPCHAINS].Entries()
      modifies this
      ensures Beside(t) == ErasedRecords(old(Beside(t)), device)
    {
      hide Kept, Erased, KeptImages;
      EraseObjectRecords(device);
      ErasePairedRecords(device);
      EraseDeadSwapchains(t);
    }

    method EraseBesides(device: Handle)
      requires Valid()
      modifies this
      ensures Abs() == ErasedRecords(old(Abs()), device)
    {
      hide ErasedRecords, Beside;
      ghost var t := Entries();
      EraseAllRecords(device, t);
      OneChanged(t, IMAGES);
      assert tables[IMAGES].Entries() == t[IMAGES];
      assert Entries() == t;
    }

    method DestroyDeviceObjects(device: Handle) returns (ok: bool, log: seq<Destruction>)
      requires Valid()
      modifies this, Parts()
      ensures Valid() && ok == (device != 0)
      ensures !ok ==> Abs() == old(Abs()) && log == []
      ensures ok ==> Abs() == Torn(old(Abs()), device) && log == Destructions(old(Abs()), device)
      ensures ok ==> forall d :: d in log <==> Destroys(old(Abs()), device, d)
      ensures ok ==> forall i, j | 0 <= i < j < |log| ::
                log[i].kind < log[j].kind || (log[i].kind == log[j].kind && log[i].id < log[j].id)
      ensures ok ==> TearsDown(old(Abs()), device, Abs())
    {
      hide ErasedRecords, TornTables, Destructions, Destroys, TearsDown;
      if device == 0 { return false, []; }
      ghost var s := Abs();
      TearsDownExactly(s, device);
      DestroyedOnceInOrder(s, device);
      forall d ensures d in Destructions(s, device) <==> Destroys(s, device, d) { DestroysAre(s, device, d); }
      log := DestroyTables(device);
      EraseBesides(device);
      return true, log + [DeviceItself(device)];
    }
  }
}
