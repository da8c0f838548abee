/** The linked lists behind region binding: every handler heads a chain of the regions
    bound to it, src/kern/acpi/opregion.c. */
module RegionList {
  import opened Common

  class Region {
    var handler: Handler?
    var next: Region?
  }

  class Handler {
    var regions: Region?
    ghost var list: seq<Region>

    /** The chain from `regions` is the list, ends, and every region on it points back. */
    ghost predicate Valid()
      reads this, list
    {
      Distinct(list) && regions == At(list, 0) && Linked(list, this)
    }
  }

  ghost predicate Distinct(list: seq<Region>) {
    forall i, j | 0 <= i < j < |list| :: list[i] != list[j]
  }

  ghost function At(list: seq<Region>, i: nat): Region? {
    if i < |list| then list[i] else null
  }

  ghost predicate Linked(list: seq<Region>, handler: Handler)
    reads list
  {
    forall i: nat {:trigger list[i]} | i < |list| :: list[i].handler == handler && list[i].next == At(list, i + 1)
  }

  ghost function Without(list: seq<Region>, k: nat): seq<Region>
    requires k < |list|
  {
    list[..k] + list[k + 1..]
  }

  /** Puts an unbound region at the head of the handler's list, as `OpRegion.Bind` does. */
  method RegionInstallHandler(region: Region, handler: Handler)
    requires handler.Valid() && region.handler == null
    modifies region, handler
    ensures handler.Valid() && region.handler == handler
    ensures handler.list == [region] + old(handler.list)
  {
    region.handler := handler;
    region.next := handler.regions;
    handler.regions := region;
    handler.list := [region] + handler.list;
    assert forall i | 0 < i < |handler.list| :: handler.list[i] == old(handler.list)[i - 1];
  }

  /** The region before this one in its handler's list, or the region itself at the head. */
  method FindPreviousRegionLink(region: Region, ghost k: nat) returns (link: Region)
    requires region.handler != null && region.handler.Valid()
    requires k < |region.handler.list| && region.handler.list[k] == region
    ensures link == region.handler.list[if k == 0 then 0 else k - 1]
  {
    var handler := region.handler;
    var parent := handler.regions;
    if parent == region {
      return region;
    }
    ghost var i := 0;
    while parent.next != region
      invariant 0 <= i < k && parent == handler.list[i]
      decreases k - i
    {
      parent := parent.next;
      i := i + 1;
    }
    return parent;
  }

  /** All links are as in a linked list except that element k is bypassed. */
  ghost predicate Bypassed(list: seq<Region>, handler: Handler, k: nat)
    requires k < |list|
    reads list
  {
    && (forall i: nat {:trigger list[i]} | i < |list| && i != k :: list[i].handler == handler)
    && (forall i: nat {:trigger list[i]} | i < |list| && i != k && i + 1 != k :: list[i].next == At(list, i + 1))
    && (k > 0 ==> list[k - 1].next == At(list, k + 1))
  }

  lemma StillLinked(list: seq<Region>, handler: Handler, k: nat)
    requires k < |list| && Distinct(list) && Bypassed(list, handler, k)
    ensures Distinct(Without(list, k)) && Linked(Without(list, k), handler)
    ensures At(Without(list, k), 0) == At(list, if k == 0 then 1 else 0)
  {
    hide Bypassed, Distinct;
    DistinctWithout(list, k);
    var rest := Without(list, k);
    forall i: nat | i < |rest|
      ensures rest[i].handler == handler && rest[i].next == At(rest, i + 1)
    {
      BypassedAt(list, handler, k, if i < k then i else i + 1);
      WithoutAt(list, k, i);
      WithoutAt(list, k, i + 1);
    }
    WithoutAt(list, k, 0);
  }

  lemma WithoutAt(list: seq<Region>, k: nat, i: nat)
    requires k < |list|
    ensures At(Without(list, k), i) == At(list, if i < k then i else i + 1)
  {
  }

  lemma DistinctWithout(list: seq<Region>, k: nat)
    requires k < |list| && Distinct(list)
    ensures Distinct(Without(list, k))
  {
  }

  lemma BypassedAt(list: seq<Region>, handler: Handler, k: nat, i: nat)
    requires k < |list| && Bypassed(list, handler, k) && i < |list| && i != k
    ensures list[i].handler == handler && list[i].next == At(list, if i + 1 == k then i + 2 else i + 1)
  {
  }

  /** In a list without repeats, taking item k out is taking its value out. */
  lemma {:induction false} WithoutIsUnlink(list: seq<Region>, k: nat)
    requires k < |list| && Distinct(list)
    ensures Without(list, k) == Unlink(list, list[k])
  {
    if k > 0 {
      WithoutIsUnlink(list[1..], k - 1);
      assert Without(list, k) == [list[0]] + Without(list[1..], k - 1);
    } else {
      assert Without(list, 0) == list[1..];
    }
  }

  /** Links past element k. */
  method LinkPast(region: Region, handler: Handler, ghost list: seq<Region>, ghost k: nat)
    requires handler.Valid() && handler.list == list && region.handler == handler && k < |list| && list[k] == region
    modifies handler`regions, list`next
    ensures Bypassed(list, handler, k) && handler.regions == At(list, if k == 0 then 1 else 0)
  {
    var link := FindPreviousRegionLink(region, k);
    if link == region {
      handler.regions := link.next;
    } else {
      link.next := region.next;
    }
  }

  /** Takes a region out of the list of its handler, wherever it is in it: the links
      change as `OpRegion.Unbind` changes the list. */
  method RegionUninstallHandler(region: Region, ghost k: nat)
    requires region.handler != null ==>
               region.handler.Valid() && k < |region.handler.list| && region.handler.list[k] == region
    modifies region`handler, if region.handler == null then {} else {region.handler},
             (if region.handler == null then [] else region.handler.list)`next
    ensures region.handler == null
    ensures old(region.handler) != null ==>
              && old(region.handler).Valid()
              && old(region.handler).list == Unlink(old(region.handler.list), region)
              && forall r: Region | r in old(region.handler.list) && r != region :: r.handler == old(region.handler)
  {
    hide Unlink, Without;
    var handler := region.handler;
    if handler == null {
      return;
    }
    ghost var was := handler.list;
    WithoutIsUnlink(was, k);
    DistinctWithout(was, k);
    LinkPast(region, handler, was, k);
    region.handler := null;
    StillBypassed(was, handler, region, k);
    handler.list := Without(was, k);
    hide Bypassed, Distinct;
    StillLinked(was, handler, k);
  }

  /** What becomes of the region itself does not matter to the others. */
  lemma StillBypassed(list: seq<Region>, handler: Handler, region: Region, k: nat)
    requires k < |list| && Distinct(list) && list[k] == region
    requires forall i: nat {:trigger list[i]} | i < |list| && i != k :: list[i].handler == handler
    requires forall i: nat {:trigger list[i]} | i < |list| && i != k && i + 1 != k :: list[i].next == At(list, i + 1)
    requires k > 0 ==> list[k - 1].next == At(list, k + 1)
    ensures Bypassed(list, handler, k)
  {
  }
}
