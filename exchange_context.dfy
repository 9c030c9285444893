/**
 The per-round exchange context: capability flags derived once from the
 negotiated protocol version, the discovery events of the round, and the
 lazily created set of cache groups whose affinity must be fetched on join.
 */
module ExchangeContexts {
  import opened Types

  /** The exchange future a context is built for; its internals are not modelled. */
  class GridDhtPartitionsExchangeFuture {
  }

  /** The discovery events of one round, opaque here: all that is kept is the future it was built from. */
  class ExchangeDiscoveryEvents {
    const fut: GridDhtPartitionsExchangeFuture?

    constructor (fut: GridDhtPartitionsExchangeFuture?)
      ensures this.fut == fut
    {
      this.fut := fut;
    }
  }

  /** The recorded groups, an absent set reading as empty. */
  function Elements(groups: Option<set<int32>>): set<int32>
  {
    match groups
    case None => {}
    case Some(s) => s
  }

  /** The group ids occurring in a sequence of requests. */
  function Members(gs: seq<int32>): set<int32>
  {
    set g | g in gs
  }

  /** The set after recording `grpId`: created on first use, then extended by that one id. */
  function AddGroup(groups: Option<set<int32>>, grpId: int32): (r: Option<set<int32>>)
    ensures r.Some?
    ensures Elements(groups) <= r.value
    ensures grpId in r.value
    ensures r.value <= Elements(groups) + {grpId}
  {
    match groups
    case None => Some({grpId})
    case Some(s) => Some(s + {grpId})
  }

  /** The set after recording the ids of `gs` one after another. */
  function AfterAdds(groups: Option<set<int32>>, gs: seq<int32>): Option<set<int32>>
    decreases |gs|
  {
    if gs == [] then groups else AfterAdds(AddGroup(groups, gs[0]), gs[1..])
  }

  /**
   The closed form of AddGroup's contract: recording `grpId` yields exactly
   the old groups, absent read as empty, plus `grpId`.
   */
  lemma AddGroupIsUnion(groups: Option<set<int32>>, grpId: int32)
    ensures AddGroup(groups, grpId) == Some(Elements(groups) + {grpId})
  {
    if groups.None? {
      assert {} + {grpId} == {grpId};
    }
  }

  /** Recording a group that is already recorded changes nothing. */
  lemma AddGroupIdempotent(groups: Option<set<int32>>, grpId: int32)
    ensures AddGroup(AddGroup(groups, grpId), grpId) == AddGroup(groups, grpId)
  {
    AddGroupIsUnion(groups, grpId);
    AddGroupIsUnion(AddGroup(groups, grpId), grpId);
    assert Elements(groups) + {grpId} + {grpId} == Elements(groups) + {grpId};
  }

  /** Two recordings may be swapped. */
  lemma AddGroupCommutes(groups: Option<set<int32>>, g: int32, h: int32)
    ensures AddGroup(AddGroup(groups, g), h) == AddGroup(AddGroup(groups, h), g)
  {
    AddGroupIsUnion(groups, g);
    AddGroupIsUnion(groups, h);
    AddGroupIsUnion(AddGroup(groups, g), h);
    AddGroupIsUnion(AddGroup(groups, h), g);
    assert Elements(groups) + {g} + {h} == Elements(groups) + {h} + {g};
  }

  /** One more request at the end is one more AddGroup on the result. */
  lemma {:induction false} AfterAddsSnoc(groups: Option<set<int32>>, gs: seq<int32>, g: int32)
    ensures AfterAdds(groups, gs + [g]) == AddGroup(AfterAdds(groups, gs), g)
    decreases |gs|
  {
    if gs == [] {
      assert gs + [g] == [g];
    } else {
      assert (gs + [g])[0] == gs[0];
      assert (gs + [g])[1..] == gs[1..] + [g];
      AfterAddsSnoc(AddGroup(groups, gs[0]), gs[1..], g);
    }
  }

  /**
   A run of requests leaves the set absent when it is empty, and otherwise
   yields exactly the old groups together with every requested id.
   */
  lemma {:induction false} AfterAddsIsUnion(groups: Option<set<int32>>, gs: seq<int32>)
    ensures AfterAdds(groups, gs) == if gs == [] then groups else Some(Elements(groups) + Members(gs))
    decreases |gs|
  {
    if gs != [] {
      AfterAddsIsUnion(AddGroup(groups, gs[0]), gs[1..]);
      AddGroupIsUnion(groups, gs[0]);
      assert gs == [gs[0]] + gs[1..];
      assert Members(gs) == {gs[0]} + Members(gs[1..]);
      if gs[1..] == [] {
        assert Members(gs[1..]) == {};
        assert Members(gs) == {gs[0]};
      } else {
        assert Elements(groups) + {gs[0]} + Members(gs[1..]) == Elements(groups) + Members(gs);
      }
    }
  }

  /** The final set depends only on which ids were requested, not on their order or repetition. */
  lemma AfterAddsOrderIndependent(groups: Option<set<int32>>, gs: seq<int32>, hs: seq<int32>)
    requires forall g :: g in gs <==> g in hs
    ensures AfterAdds(groups, gs) == AfterAdds(groups, hs)
  {
    AfterAddsIsUnion(groups, gs);
    AfterAddsIsUnion(groups, hs);
    if gs != [] {
      assert gs[0] in hs;
    }
    if hs != [] {
      assert hs[0] in gs;
    }
    assert Members(gs) == Members(hs);
  }

  class ExchangeContext {
    var requestGrpsAffOnJoin: Option<set<int32>>
    var fetchAffOnJoin: bool
    const merge: bool
    const evts: ExchangeDiscoveryEvents

    /** The protocol version the context was built with (the flags are all that is stored). */
    ghost const protocolVer: int32
    /** The group ids passed to AddGroupAffinityRequestOnJoin so far, in call order. */
    ghost var requested: seq<int32>

    ghost predicate Valid()
      reads this
    {
      fetchAffOnJoin == (protocolVer == 1) &&
      merge == (protocolVer > 1) &&
      requestGrpsAffOnJoin == AfterAdds(None, requested)
    }

    /** Any version is accepted; one of 0 or below turns both flags off. */
    constructor (protocolVer: int32, fut: GridDhtPartitionsExchangeFuture?)
      ensures Valid()
      ensures this.protocolVer == protocolVer && requested == []
      ensures fetchAffOnJoin == (protocolVer == 1)
      ensures merge == (protocolVer > 1)
      ensures requestGrpsAffOnJoin == None
      ensures fresh(evts) && evts.fut == fut
    {
      fetchAffOnJoin := protocolVer == 1;
      merge := protocolVer > 1;
      evts := new ExchangeDiscoveryEvents(fut);
      this.protocolVer := protocolVer;
      requestGrpsAffOnJoin := None;
      requested := [];
    }

    /** The events object created by the constructor; it is a constant field. */
    method Events() returns (e: ExchangeDiscoveryEvents)
      ensures e == evts
    {
      e := evts;
    }

    method FetchAffinityOnJoin() returns (b: bool)
      requires Valid()
      ensures b <==> protocolVer == 1
    {
      b := fetchAffOnJoin;
    }

    method CanMergeExchanges() returns (b: bool)
      requires Valid()
      ensures b <==> protocolVer > 1
    {
      b := merge;
    }

    /** Creates the set on first use and adds `grpId`; nothing else changes. */
    method AddGroupAffinityRequestOnJoin(grpId: int32)
      requires Valid()
      modifies this`requestGrpsAffOnJoin, this`requested
      ensures Valid()
      ensures requested == old(requested) + [grpId]
      ensures requestGrpsAffOnJoin == AddGroup(old(requestGrpsAffOnJoin), grpId)
      ensures fetchAffOnJoin == old(fetchAffOnJoin)
    {
      if requestGrpsAffOnJoin == None {
        requestGrpsAffOnJoin := Some({});
      }
      requestGrpsAffOnJoin := Some(requestGrpsAffOnJoin.value + {grpId});
      AddGroupIsUnion(old(requestGrpsAffOnJoin), grpId);
      AfterAddsSnoc(None, requested, grpId);
      requested := requested + [grpId];
    }

    /** Absent until the first request; afterwards exactly the requested ids. */
    method GroupsAffinityRequestOnJoin() returns (s: Option<set<int32>>)
      requires Valid()
      ensures s == requestGrpsAffOnJoin
      ensures s.None? <==> requested == []
      ensures s.Some? ==> s.value == Members(requested)
    {
      AfterAddsIsUnion(None, requested);
      s := requestGrpsAffOnJoin;
    }
  }

  /** The two capability flags are never both on, and a version below 1 turns both off. */
  lemma FlagsExclusive(c: ExchangeContext)
    requires c.Valid()
    ensures !(c.fetchAffOnJoin && c.merge)
    ensures c.protocolVer < 1 ==> !c.fetchAffOnJoin && !c.merge
  {
  }
}
