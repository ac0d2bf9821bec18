/** Which memories a command buffer may have written for the host.

    While commands are recorded the command buffer tracks the memories they write and the
    descriptor sets shaders may write through; a barrier towards the host makes tracked
    writes visible. At submission the visible ones are attributed to the batch.
  */
module Recording {
  type Id = nat

  datatype Kind = StorageBuffer | StorageBufferDynamic | StorageImage | StorageTexelBuffer | OtherKind

  /** What one descriptor slot refers to; id 0 means nothing that can be written. */
  datatype Resource = Resource(kind: Kind, id: Id)

  /** The attachments of a framebuffer; an imageless one gets them when a render pass begins. */
  datatype Framebuffer = Framebuffer(views: seq<Id>, imageless: bool)

  /** The device's tables that lead from resources to memories. */
  datatype Tables = Tables(
    descriptors: map<Id, map<nat, Resource>>,
    bufferMemory: map<Id, Id>,
    imageMemory: map<Id, Id>,
    imageViews: map<Id, Id>,
    bufferViews: map<Id, Id>,
    framebuffers: map<Id, Framebuffer>)

  function Lookup(m: map<Id, Id>, k: Id): Id {
    if k in m then m[k] else 0
  }

  /** The memory a storage descriptor writes, or 0. */
  function DescriptorMemory(t: Tables, r: Resource): Id {
    match r.kind
    case StorageBuffer => Lookup(t.bufferMemory, r.id)
    case StorageBufferDynamic => Lookup(t.bufferMemory, r.id)
    case StorageImage => if r.id in t.imageViews then Lookup(t.imageMemory, t.imageViews[r.id]) else 0
    case StorageTexelBuffer => if r.id in t.bufferViews then Lookup(t.bufferMemory, t.bufferViews[r.id]) else 0
    case OtherKind => 0
  }

  /** What a command buffer has tracked. */
  datatype Tracked = Tracked(
    pending: set<Id>,
    visible: set<Id>,
    writableSets: set<Id>,
    descriptorsVisible: bool,
    graphicsSets: map<nat, Id>,
    computeSets: map<nat, Id>)

  const CLEARED := Tracked({}, {}, {}, false, map[], map[])

  /** The memories the storage descriptors of `sets` lead to. */
  function DescriptorWrites(t: Tables, sets: set<Id>): set<Id> {
    set s, k | s in sets && s in t.descriptors && k in t.descriptors[s]
               && DescriptorMemory(t, t.descriptors[s][k]) != 0
             :: DescriptorMemory(t, t.descriptors[s][k])
  }

  /** The memories one command buffer contributes to the batch it is submitted in. */
  function SubmittedBy(t: Tables, cb: Tracked): set<Id> {
    cb.visible + if cb.descriptorsVisible then DescriptorWrites(t, cb.writableSets) else {}
  }

  function SubmittedWrites(t: Tables, cbs: seq<Tracked>): set<Id> {
    if cbs == [] then {} else SubmittedWrites(t, cbs[..|cbs| - 1]) + SubmittedBy(t, cbs[|cbs| - 1])
  }

  /** A storage descriptor leads to a memory: by its buffer, by its view's image, or by its view's
      buffer. */
  predicate LeadsTo(t: Tables, r: Resource, m: Id) {
    && m != 0
    && match r.kind
       case StorageBuffer => r.id in t.bufferMemory && t.bufferMemory[r.id] == m
       case StorageBufferDynamic => r.id in t.bufferMemory && t.bufferMemory[r.id] == m
       case StorageImage =>
         r.id in t.imageViews && t.imageViews[r.id] in t.imageMemory && t.imageMemory[t.imageViews[r.id]] == m
       case StorageTexelBuffer =>
         r.id in t.bufferViews && t.bufferViews[r.id] in t.bufferMemory && t.bufferMemory[t.bufferViews[r.id]] == m
       case OtherKind => false
  }

  /** Some descriptor of the set leads to the memory. */
  predicate SetLeadsTo(t: Tables, s: Id, m: Id) {
    s in t.descriptors && exists slot :: slot in t.descriptors[s] && LeadsTo(t, t.descriptors[s][slot], m)
  }

  /** The command buffer attributes the memory: it is visible, or descriptor writes are and a set shaders
      may write through leads to it. */
  predicate Attributes(t: Tables, cb: Tracked, m: Id) {
    m in cb.visible || (cb.descriptorsVisible && exists s :: s in cb.writableSets && SetLeadsTo(t, s, m))
  }

  lemma DescriptorLeads(t: Tables, r: Resource, m: Id)
    ensures m != 0 ==> (DescriptorMemory(t, r) == m <==> LeadsTo(t, r, m))
  {
  }

  lemma SetsLead(t: Tables, sets: set<Id>, m: Id)
    ensures m in DescriptorWrites(t, sets) <==> exists s :: s in sets && SetLeadsTo(t, s, m)
  {
    if m in DescriptorWrites(t, sets) {
      var s, k :| s in sets && s in t.descriptors && k in t.descriptors[s]
                  && DescriptorMemory(t, t.descriptors[s][k]) != 0 && DescriptorMemory(t, t.descriptors[s][k]) == m;
      DescriptorLeads(t, t.descriptors[s][k], m);
      assert SetLeadsTo(t, s, m);
    }
    if s :| s in sets && SetLeadsTo(t, s, m) {
      var k :| k in t.descriptors[s] && LeadsTo(t, t.descriptors[s][k], m);
      DescriptorLeads(t, t.descriptors[s][k], m);
    }
  }

  lemma SubmittedIsAttributed(t: Tables, cb: Tracked, m: Id)
    ensures m in SubmittedBy(t, cb) <==> Attributes(t, cb, m)
  {
    SetsLead(t, cb.writableSets, m);
  }

  /** A batch is attributed exactly what its command buffers are. */
  lemma {:induction false} SubmittedExactly(t: Tables, cbs: seq<Tracked>, m: Id)
    ensures m in SubmittedWrites(t, cbs) <==> exists k :: 0 <= k < |cbs| && Attributes(t, cbs[k], m)
    decreases |cbs|
  {
    if cbs != [] {
      var n := |cbs| - 1;
      SubmittedExactly(t, cbs[..n], m);
      SubmittedIsAttributed(t, cbs[n], m);
      hide Attributes;
      if k :| 0 <= k < n && Attributes(t, cbs[..n][k], m) { assert Attributes(t, cbs[k], m); }
      if k :| 0 <= k < |cbs| && Attributes(t, cbs[k], m) { assert k < n ==> Attributes(t, cbs[..n][k], m); }
    }
  }

  /** The attribution loops of a submission. */
  method CollectWrites(t: Tables, cbs: seq<Tracked>) returns (writes: set<Id>)
    ensures writes == SubmittedWrites(t, cbs)
    ensures forall m :: m in writes <==> exists k :: 0 <= k < |cbs| && Attributes(t, cbs[k], m)
  {
    hide Attributes;
    writes := {};
    for i := 0 to |cbs|
      invariant writes == SubmittedWrites(t, cbs[..i])
    {
      var cb := cbs[i];
      assert cbs[..i + 1][..i] == cbs[..i];
      writes := writes + cb.visible;
      if cb.descriptorsVisible {
        var sets := cb.writableSets;
        while sets != {}
          invariant sets <= cb.writableSets
          invariant writes == SubmittedWrites(t, cbs[..i]) + cb.visible
                              + DescriptorWrites(t, cb.writableSets - sets)
        {
          var s :| s in sets;
          ghost var seen := cb.writableSets - sets;
          assert cb.writableSets - (sets - {s}) == seen + {s};
          if s in t.descriptors {
            var found := CollectSet(t, t.descriptors[s]);
            assert DescriptorWrites(t, seen + {s}) == DescriptorWrites(t, seen) + found;
            writes := writes + found;
          } else {
            assert DescriptorWrites(t, seen + {s}) == DescriptorWrites(t, seen);
          }
          sets := sets - {s};
        }
        assert cb.writableSets - sets == cb.writableSets;
      }
    }
    assert cbs[..|cbs|] == cbs;
    forall m ensures m in writes <==> exists k :: 0 <= k < |cbs| && Attributes(t, cbs[k], m) {
      SubmittedExactly(t, cbs, m);
    }
  }

  method CollectSet(t: Tables, resources: map<nat, Resource>) returns (writes: set<Id>)
    ensures writes == set k | k in resources && DescriptorMemory(t, resources[k]) != 0
                          :: DescriptorMemory(t, resources[k])
  {
    writes := {};
    var keys := resources.Keys;
    while keys != {}
      invariant keys <= resources.Keys
      invariant writes == set k | k in resources && k !in keys && DescriptorMemory(t, resources[k]) != 0
                              :: DescriptorMemory(t, resources[k])
    {
      var k :| k in keys;
      var memory := DescriptorMemory(t, resources[k]);
      if memory != 0 {
        writes := writes + {memory};
      }
      keys := keys - {k};
    }
  }
}
