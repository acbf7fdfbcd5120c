/** Free lists threaded through the page descriptors: what a well-formed family
    of doubly linked lists is, and that linking in and out keeps it. */
module PmmLists {
  import opened Basics
  import opened Bits
  import opened Dyadic
  import opened PmmSpec

  const NULL: int := -1

  datatype PageFlag = FREE | RESERVED | KERNEL

  /** A page descriptor; `next` and `prev` are frame numbers or NULL. */
  datatype Page = Page(flags: set<PageFlag>, refCount: nat, order: nat, next: int, prev: int)

  datatype Zone = Zone(freeList: seq<int>, freeCount: seq<nat>, freePages: int)

  datatype ListId = ListId(zone: nat, order: nat)

  predicate IsList(id: ListId) {
    id.zone <= HIGHMEM && id.order <= MAX_ORDER
  }

  function ListOf(b: Block): ListId {
    ListId(ZoneOf(b.pfn), b.order)
  }

  /** The sum over all orders of 2^o times the number of blocks of order o. */
  ghost function PagesIn(counts: seq<nat>): nat {
    if counts == [] then 0 else PagesIn(counts[..|counts| - 1]) + Pow2(|counts| - 1) * counts[|counts| - 1]
  }

  /** One more block of order `o` adds 2^o pages. */
  lemma {:induction false} OneMoreBlock(counts: seq<nat>, o: nat)
    requires o < |counts|
    ensures PagesIn(counts[o := counts[o] + 1]) == PagesIn(counts) + Pow2(o)
  {
    var n := |counts| - 1;
    if o == n {
      assert counts[o := counts[o] + 1][..n] == counts[..n];
      assert Pow2(n) * (counts[n] + 1) == Pow2(n) * counts[n] + Pow2(n);
    } else {
      OneMoreBlock(counts[..n], o);
      assert counts[o := counts[o] + 1][..n] == counts[..n][o := counts[o] + 1];
    }
  }

  /** One free list: head, counter and links spell out the sequence `l`. */
  ghost predicate Chain(pages: seq<Page>, zone: Zone, id: ListId, l: seq<nat>) {
    && id.order < |zone.freeList| && id.order < |zone.freeCount|
    && zone.freeList[id.order] == (if l == [] then NULL else l[0])
    && zone.freeCount[id.order] == |l|
    && Distinct(l)
    && forall i :: 0 <= i < |l| ==> Node(pages, id, l, i)
  }

  ghost predicate Node(pages: seq<Page>, id: ListId, l: seq<nat>, i: nat)
    requires i < |l|
  {
    && l[i] < |pages| && ZoneOf(l[i]) == id.zone
    && pages[l[i]].flags == {FREE} && pages[l[i]].order == id.order
    && pages[l[i]].next == (if i + 1 < |l| then l[i + 1] else NULL)
    && pages[l[i]].prev == (if i > 0 then l[i - 1] else NULL)
  }

  type Lists = map<ListId, seq<nat>>

  ghost predicate ZoneShape(zone: Zone) {
    |zone.freeList| == |zone.freeCount| == MAX_ORDER + 1 && zone.freePages == PagesIn(zone.freeCount)
  }

  ghost predicate Linked(pages: seq<Page>, zones: seq<Zone>, lists: Lists) {
    && |zones| == HIGHMEM + 1
    && (forall z :: 0 <= z < |zones| ==> ZoneShape(zones[z]))
    && (forall id :: id in lists <==> IsList(id))
    && (forall id :: id in lists ==> Chain(pages, zones[id.zone], id, lists[id]))
  }

  /** A list is not disturbed by writes to other descriptors. */
  lemma ChainFrame(pages: seq<Page>, zone: Zone, pages': seq<Page>, zone': Zone, id: ListId, l: seq<nat>)
    requires Chain(pages, zone, id, l) && |pages'| == |pages|
    requires forall f :: f in l ==> f < |pages| ==> pages'[f] == pages[f]
    requires |zone'.freeList| == |zone.freeList| && |zone'.freeCount| == |zone.freeCount|
    requires zone'.freeList[id.order] == zone.freeList[id.order]
    requires zone'.freeCount[id.order] == zone.freeCount[id.order]
    ensures Chain(pages', zone', id, l)
  {
    forall i | 0 <= i < |l| ensures Node(pages', id, l, i) {
      assert Node(pages, id, l, i) && l[i] in l;
    }
  }

  /** The descriptor of a listed frame tells which list it is on. */
  lemma OnOneList(pages: seq<Page>, zones: seq<Zone>, lists: Lists, id: ListId, p: nat)
    requires Linked(pages, zones, lists) && id in lists && p in lists[id]
    ensures p < |pages| && pages[p].flags == {FREE} && id == ListId(ZoneOf(p), pages[p].order)
  {
    assert Chain(pages, zones[id.zone], id, lists[id]);
    var i :| 0 <= i < |lists[id]| && lists[id][i] == p;
    assert Node(pages, id, lists[id], i);
  }

  function WithHead(zone: Zone, order: nat, head: int, count: nat, freePages: int): Zone
    requires order < |zone.freeList| && order < |zone.freeCount|
  {
    zone.(freeList := zone.freeList[order := head], freeCount := zone.freeCount[order := count], freePages := freePages)
  }

  /** The descriptors after `p` was linked in before `head`. */
  function Pushed(pages: seq<Page>, p: nat, order: nat, head: int): (r: seq<Page>)
    requires p < |pages| && (head == NULL || 0 <= head < |pages|)
    ensures |r| == |pages|
  {
    var linked := pages[p := pages[p].(flags := {FREE}, order := order, next := head, prev := NULL)];
    if head == NULL then linked else linked[head := linked[head].(prev := p)]
  }

  lemma PushChain(pages: seq<Page>, zone: Zone, id: ListId, l: seq<nat>, p: nat)
    requires Chain(pages, zone, id, l) && p < |pages| && ZoneOf(p) == id.zone && p !in l
    ensures var head := zone.freeList[id.order];
      (head == NULL || 0 <= head < |pages|) &&
      Chain(Pushed(pages, p, id.order, head),
            WithHead(zone, id.order, p, zone.freeCount[id.order] + 1, zone.freePages + Pow2(id.order)), id, [p] + l)
  {
    if l != [] { assert Node(pages, id, l, 0) && l[0] in l; }
    var pages' := Pushed(pages, p, id.order, zone.freeList[id.order]);
    var l' := [p] + l;
    forall i | 0 <= i < |l'| ensures Node(pages', id, l', i) {
      if i > 0 {
        assert Node(pages, id, l, i - 1) && l[i - 1] in l;
        assert i > 1 ==> l[i - 1] != l[0];
      }
    }
  }

  /** Rebuilding one list leaves the family well formed, if the other lists' frames are untouched. */
  lemma Relink(pages: seq<Page>, zones: seq<Zone>, lists: Lists, id: ListId,
               pages': seq<Page>, zone': Zone, l': seq<nat>)
    requires Linked(pages, zones, lists) && id in lists && |pages'| == |pages|
    requires ZoneShape(zone') && Chain(pages', zone', id, l')
    requires forall o :: 0 <= o <= MAX_ORDER && o != id.order ==>
      zone'.freeList[o] == zones[id.zone].freeList[o] && zone'.freeCount[o] == zones[id.zone].freeCount[o]
    requires forall f :: 0 <= f < |pages| && pages'[f] != pages[f] ==>
      forall j :: j in lists && j != id ==> f !in lists[j]
    ensures Linked(pages', zones[id.zone := zone'], lists[id := l'])
  {
    var zones' := zones[id.zone := zone'];
    forall j | j in lists && j != id ensures Chain(pages', zones'[j.zone], j, lists[j]) {
      assert Chain(pages, zones[j.zone], j, lists[j]);
      ChainFrame(pages, zones[j.zone], pages', zones'[j.zone], j, lists[j]);
    }
  }

  function PushedZone(zone: Zone, order: nat, p: nat): Zone
    requires order < |zone.freeList| && order < |zone.freeCount|
  {
    WithHead(zone, order, p, zone.freeCount[order] + 1, zone.freePages + Pow2(order))
  }

  /** Frames of one list are on no other. */
  lemma OnNoOther(pages: seq<Page>, zones: seq<Zone>, lists: Lists, id: ListId, p: nat)
    requires Linked(pages, zones, lists) && id in lists && p in lists[id]
    ensures forall j :: j in lists && j != id ==> p !in lists[j]
  {
    OnOneList(pages, zones, lists, id, p);
    forall j | j in lists && j != id ensures p !in lists[j] {
      if p in lists[j] { OnOneList(pages, zones, lists, j, p); }
    }
  }

  lemma PushedElsewhere(pages: seq<Page>, zones: seq<Zone>, lists: Lists, id: ListId, p: nat)
    requires Linked(pages, zones, lists) && id in lists && p < |pages| && Head(pages, zones, id)
    requires forall j :: j in lists ==> p !in lists[j]
    ensures var pages' := Pushed(pages, p, id.order, zones[id.zone].freeList[id.order]);
      forall f :: 0 <= f < |pages| && pages'[f] != pages[f] ==> forall j :: j in lists && j != id ==> f !in lists[j]
  {
    var head := zones[id.zone].freeList[id.order];
    if head != NULL {
      assert Chain(pages, zones[id.zone], id, lists[id]) && head in lists[id];
      OnNoOther(pages, zones, lists, id, head);
    }
  }

  lemma PushLinked(pages: seq<Page>, zones: seq<Zone>, lists: Lists, id: ListId, p: nat)
    requires Linked(pages, zones, lists) && id in lists && p < |pages| && ZoneOf(p) == id.zone
    requires forall j :: j in lists ==> p !in lists[j]
    ensures Head(pages, zones, id)
    ensures Linked(Pushed(pages, p, id.order, zones[id.zone].freeList[id.order]),
                   zones[id.zone := PushedZone(zones[id.zone], id.order, p)], lists[id := [p] + lists[id]])
  {
    hide Node, Pushed, Distinct, PagesIn;
    var zone := zones[id.zone];
    assert Chain(pages, zone, id, lists[id]);
    PushChain(pages, zone, id, lists[id], p);
    OneMoreBlock(zone.freeCount, id.order);
    PushedElsewhere(pages, zones, lists, id, p);
    Relink(pages, zones, lists, id, Pushed(pages, p, id.order, zone.freeList[id.order]),
           PushedZone(zone, id.order, p), [p] + lists[id]);
  }

  ghost predicate Head(pages: seq<Page>, zones: seq<Zone>, id: ListId) {
    && IsList(id) && id.zone < |zones| && ZoneShape(zones[id.zone])
    && (zones[id.zone].freeList[id.order] == NULL || 0 <= zones[id.zone].freeList[id.order] < |pages|)
  }

  /** The descriptors after `p` was taken out of its list: its neighbours skip it. */
  function Unlinked(pages: seq<Page>, p: nat): seq<Page>
    requires Neighbours(pages, p)
  {
    var left, right := pages[p].prev, pages[p].next;
    var bypassed := if left == NULL then pages else pages[left := pages[left].(next := right)];
    if right == NULL then bypassed else bypassed[right := bypassed[right].(prev := left)]
  }

  predicate Neighbours(pages: seq<Page>, p: nat) {
    && p < |pages|
    && (pages[p].prev == NULL || 0 <= pages[p].prev < |pages|)
    && (pages[p].next == NULL || 0 <= pages[p].next < |pages|)
  }

  function UnlinkedZone(zone: Zone, order: nat, page: Page): Zone
    requires order < |zone.freeList| && order < |zone.freeCount| && zone.freeCount[order] > 0
  {
    WithHead(zone, order, if page.prev == NULL then page.next else zone.freeList[order],
             zone.freeCount[order] - 1, zone.freePages - Pow2(order))
  }

  lemma UnlinkChain(pages: seq<Page>, zone: Zone, id: ListId, l: seq<nat>, i: nat)
    requires Chain(pages, zone, id, l) && i < |l|
    ensures Neighbours(pages, l[i]) && zone.freeCount[id.order] > 0
    ensures Chain(Unlinked(pages, l[i]), UnlinkedZone(zone, id.order, pages[l[i]]), id, RemoveAt(l, i))
    ensures forall f :: 0 <= f < |pages| && Unlinked(pages, l[i])[f] != pages[f] ==> f in l
  {
    assert Node(pages, id, l, i);
    if i > 0 { assert Node(pages, id, l, i - 1); }
    if i + 1 < |l| { assert Node(pages, id, l, i + 1); }
    var l' := RemoveAt(l, i);
    var pages' := Unlinked(pages, l[i]);
    forall k | 0 <= k < |l'| ensures Node(pages', id, l', k) {
      var k0 := if k < i then k else k + 1;
      assert l'[k] == l[k0] && Node(pages, id, l, k0);
    }
  }

  lemma UnlinkedShape(zone: Zone, order: nat, page: Page)
    requires ZoneShape(zone) && order <= MAX_ORDER && zone.freeCount[order] > 0
    ensures ZoneShape(UnlinkedZone(zone, order, page))
  {
    var zone' := UnlinkedZone(zone, order, page);
    OneMoreBlock(zone'.freeCount, order);
    assert zone'.freeCount[order := zone'.freeCount[order] + 1] == zone.freeCount;
  }

  lemma UnlinkLinked(pages: seq<Page>, zones: seq<Zone>, lists: Lists, id: ListId, i: nat)
    requires Linked(pages, zones, lists) && id in lists && i < |lists[id]|
    ensures var p := lists[id][i];
      Neighbours(pages, p) && Head(pages, zones, id) && zones[id.zone].freeCount[id.order] > 0 &&
      Linked(Unlinked(pages, p), zones[id.zone := UnlinkedZone(zones[id.zone], id.order, pages[p])],
             lists[id := RemoveAt(lists[id], i)])
  {
    var zone := zones[id.zone];
    var l := lists[id];
    assert Chain(pages, zone, id, l);
    UnlinkChain(pages, zone, id, l, i);
    OnOneList(pages, zones, lists, id, l[0]);
    UnlinkedShape(zone, id.order, pages[l[i]]);
    forall f | f in l ensures forall j :: j in lists && j != id ==> f !in lists[j] {
      OnNoOther(pages, zones, lists, id, f);
    }
    hide Chain, Unlinked;
    Relink(pages, zones, lists, id, Unlinked(pages, l[i]), UnlinkedZone(zone, id.order, pages[l[i]]), RemoveAt(l, i));
  }

  /** Descriptors on no list may be rewritten freely. */
  lemma TouchLinked(pages: seq<Page>, zones: seq<Zone>, lists: Lists, p: nat, page: Page)
    requires Linked(pages, zones, lists) && p < |pages|
    requires forall id :: id in lists ==> p !in lists[id]
    ensures Linked(pages[p := page], zones, lists)
  {
    forall id | id in lists ensures Chain(pages[p := page], zones[id.zone], id, lists[id]) {
      ChainFrame(pages, zones[id.zone], pages[p := page], zones[id.zone], id, lists[id]);
    }
  }
}
