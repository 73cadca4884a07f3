/** abstract-machine/am/src/native/vme.c: address spaces as linked lists of pages, and the mapping the host has installed. */
module Vme {

  const PGSIZE: nat := 4096

  datatype Page = Page(vpn: nat, ppn: nat)

  // ---- Lists of pages as functions ----

  /** No virtual page is listed twice. */
  predicate Distinct(pages: seq<Page>) {
    forall i, j :: 0 <= i < j < |pages| ==> Differ(pages, i, j)
  }

  predicate Differ(pages: seq<Page>, i: nat, j: nat)
    requires i < |pages| && j < |pages|
  {
    pages[i].vpn != pages[j].vpn
  }

  /** What the pages from i to j map. */
  function View(pages: seq<Page>, i: nat, j: nat): map<nat, nat>
    requires j <= |pages|
    decreases j
  {
    if j <= i then map[] else View(pages, i, j - 1)[pages[j - 1].vpn := pages[j - 1].ppn]
  }

  /** The mapping of an address space. */
  function Mapping(pages: seq<Page>): map<nat, nat> { View(pages, 0, |pages|) }

  lemma {:induction false} ViewKeys(pages: seq<Page>, i: nat, j: nat, v: nat)
    requires j <= |pages|
    ensures v in View(pages, i, j) <==> exists k :: i <= k < j && pages[k].vpn == v
    decreases j
  {
    if i < j {
      ViewKeys(pages, i, j - 1, v);
      assert v in View(pages, i, j) <==> v in View(pages, i, j - 1) || v == pages[j - 1].vpn;
    }
  }

  /** A page that is listed is mapped as listed. */
  lemma {:induction false} ViewAt(pages: seq<Page>, i: nat, j: nat, k: nat)
    requires j <= |pages| && Distinct(pages) && i <= k < j
    ensures pages[k].vpn in View(pages, i, j) && View(pages, i, j)[pages[k].vpn] == pages[k].ppn
    decreases j
  {
    if k < j - 1 {
      ViewAt(pages, i, j - 1, k);
      assert Differ(pages, k, j - 1);
    }
  }

  /** Unmapping the first page of a range leaves the rest. */
  lemma {:induction false} ViewDrop(pages: seq<Page>, i: nat, j: nat)
    requires i < j <= |pages| && Distinct(pages)
    ensures View(pages, i, j) - {pages[i].vpn} == View(pages, i + 1, j)
    decreases j
  {
    if i < j - 1 {
      ViewDrop(pages, i, j - 1);
      assert Differ(pages, i, j - 1);
    }
  }

  /** Putting a page in front adds it to the mapping, when it is new. */
  lemma {:induction false} ViewPrepend(page: Page, pages: seq<Page>, j: nat)
    requires j <= |pages| && forall k :: 0 <= k < |pages| ==> pages[k].vpn != page.vpn
    ensures View([page] + pages, 0, j + 1) == View(pages, 0, j)[page.vpn := page.ppn]
  {
    var all := [page] + pages;
    if j > 0 {
      ViewPrepend(page, pages, j - 1);
      assert all[j] == pages[j - 1];
    } else {
      assert View(all, 0, 1) == View(all, 0, 0)[page.vpn := page.ppn];
    }
  }

  lemma DistinctPrepend(page: Page, pages: seq<Page>)
    requires Distinct(pages) && forall k :: 0 <= k < |pages| ==> pages[k].vpn != page.vpn
    ensures Distinct([page] + pages)
  {
    var all := [page] + pages;
    forall i, j | 0 <= i < j < |all| ensures Differ(all, i, j) {
      assert i > 0 ==> Differ(pages, i - 1, j - 1);
    }
  }

  // ---- The heap ----

  /** The list node PageMap; owner says whose list it is on. */
  class PageMap {
    var vpn: nat
    var ppn: nat
    var next: PageMap?
    var isMapped: bool
    ghost const owner: AddressSpace

    constructor (vpn: nat, ppn: nat, next: PageMap?, owner: AddressSpace)
      ensures this.vpn == vpn && this.ppn == ppn && this.next == next && this.owner == owner && !isMapped
    {
      this.vpn, this.ppn, this.next, this.owner, isMapped := vpn, ppn, next, owner, false;
    }
  }

  class AddressSpace {
    var ptr: PageMap?
    var pgsize: nat
    ghost var nodes: seq<PageMap>
    ghost var pages: seq<Page>

    constructor ()
      ensures ptr == null && nodes == [] && pages == []
    {
      ptr, pgsize, nodes, pages := null, 0, [], [];
    }

    /** The list from ptr on consists of nodes, which hold pages. */
    ghost predicate Listed()
      reads this, nodes`next, nodes`vpn, nodes`ppn
    {
      && |nodes| == |pages| && ptr == At(nodes, 0) && Distinct(pages)
      && (forall i :: 0 <= i < |nodes| ==> Holds(nodes, pages, i))
      && (forall n :: n in nodes ==> n.owner == this)
    }

    lemma Others(k: nat)
      requires Listed() && k < |nodes|
      ensures forall i :: 0 <= i < |nodes| && i != k ==> nodes[i] != nodes[k]
    {
      forall i | 0 <= i < |nodes| && i != k ensures nodes[i] != nodes[k] {
        assert Holds(nodes, pages, i) && Holds(nodes, pages, k);
        assert if i < k then Differ(pages, i, k) else Differ(pages, k, i);
      }
    }

    /** Node i holds page i and links to the next. */
    static ghost predicate Holds(ns: seq<PageMap>, ps: seq<Page>, i: nat)
      requires i < |ns| == |ps|
      reads ns`next, ns`vpn, ns`ppn
    {
      ns[i].next == At(ns, i + 1) && ns[i].vpn == ps[i].vpn && ns[i].ppn == ps[i].ppn
    }

    /** A new node in front. */
    method Prepend(vpn: nat, ppn: nat) returns (pp: PageMap)
      requires Listed() && forall i :: 0 <= i < |pages| ==> pages[i].vpn != vpn
      modifies this
      ensures Listed() && nodes == [pp] + old(nodes) && pages == [Page(vpn, ppn)] + old(pages)
      ensures fresh(pp) && !pp.isMapped && pp.vpn == vpn && pp.ppn == ppn
    {
      DistinctPrepend(Page(vpn, ppn), pages);
      ghost var rest, held := nodes, pages;
      pp := new PageMap(vpn, ppn, ptr, this);
      ptr := pp;
      nodes, pages := [pp] + nodes, [Page(vpn, ppn)] + pages;
      forall i | 0 <= i < |nodes| ensures Holds(nodes, pages, i) {
        if i > 0 {
          assert Holds(rest, held, i - 1);
        }
      }
    }

    ghost predicate Marked(mapped: bool)
      reads this`nodes, nodes`isMapped
    {
      forall n :: n in nodes ==> n.isMapped == mapped
    }
  }

  function At(nodes: seq<PageMap>, i: nat): PageMap? {
    if i < |nodes| then nodes[i] else null
  }

  class Mmu {
    var enabled: bool
    var curAs: AddressSpace
    ghost var spaces: set<AddressSpace>
    ghost var all: set<PageMap>
    ghost var installed: map<nat, nat>

    ghost predicate Valid()
      reads this, spaces, all
    {
      && curAs in spaces && installed == Mapping(curAs.pages)
      && (forall a :: a in spaces ==> forall n :: n in a.nodes ==> n in all)
      && (forall a :: a in spaces ==> a.Listed() && a.Marked(a == curAs))
    }

    /** The program starts in an empty address space that maps nothing. */
    constructor ()
      ensures Valid() && !enabled && spaces == {curAs} && curAs.pages == [] && installed == map[]
    {
      curAs := new AddressSpace();
      enabled, installed, all := false, map[], {};
      new;
      spaces := {curAs};
    }

    /** _vme_init */
    method Init()
      requires Valid()
      modifies this`enabled
      ensures Valid() && enabled
    {
      enabled := true;
    }

    /**
     * _protect, on a new space or on one in use, whose pages are forgotten; but it does not unmap what the host has
     * installed, so a current space must not have pages.
     */
    method Protect(p: AddressSpace)
      requires Valid()
      modifies this`spaces, p
      ensures spaces == old(spaces) + {p} && p.pages == [] && p.pgsize == PGSIZE
      ensures Valid() <==> p != curAs || old(p.pages) == []
    {
      ghost var was := p.pages;
      if was != [] && p == curAs {
        ViewAt(was, 0, |was|, 0);
      }
      p.ptr := null;
      p.pgsize := PGSIZE;
      p.nodes, p.pages := [], [];
      spaces := spaces + {p};
    }

    /** shm_mmap and shm_munmap of one page. */
    method ShmMmap(vpn: nat, ppn: nat)
      modifies this`installed
      ensures installed == old(installed)[vpn := ppn]
    {
      installed := installed[vpn := ppn];
    }

    method ShmMunmap(vpn: nat)
      modifies this`installed
      ensures installed == old(installed) - {vpn}
    {
      installed := installed - {vpn};
    }

    /** The search of _map: the node of a virtual page, or null. */
    method Lookup(p: AddressSpace, vpn: nat) returns (pp: PageMap?, ghost k: nat)
      requires Valid() && p in spaces
      ensures pp == At(p.nodes, k) && k <= |p.nodes|
      ensures pp != null ==> p.pages[k].vpn == vpn
      ensures pp == null ==> forall i :: 0 <= i < |p.pages| ==> p.pages[i].vpn != vpn
    {
      pp, k := p.ptr, 0;
      while pp != null
        invariant k <= |p.nodes| && pp == At(p.nodes, k) && forall i :: 0 <= i < k ==> p.pages[i].vpn != vpn
        decreases |p.nodes| - k
      {
        assert AddressSpace.Holds(p.nodes, p.pages, k);
        if pp.vpn == vpn {
          return;
        }
        pp := pp.next;
        k := k + 1;
      }
    }

    /** _map; ok is false where its assertion fails, when the page is already mapped elsewhere. */
    method Map(p: AddressSpace, va: nat, pa: nat) returns (ok: bool)
      requires Valid() && p in spaces
      modifies this`all, this`installed, p
      ensures Valid() && spaces == old(spaces)
      ensures var m := Mapping(old(p.pages)); var v := va / PGSIZE;
        && (ok <==> (v in m ==> m[v] == pa / PGSIZE))
        && Mapping(p.pages) == if ok then m[v := pa / PGSIZE] else m
    {
      var vpn := va / PGSIZE;
      ghost var k;
      var pp;
      pp, k := Lookup(p, vpn);
      if pp != null {
        ViewAt(p.pages, 0, |p.pages|, k);
        assert AddressSpace.Holds(p.nodes, p.pages, k);
        ok := pp.ppn == pa / PGSIZE;
        return;
      }
      ViewKeys(p.pages, 0, |p.pages|, vpn);
      Add(p, vpn, pa / PGSIZE);
      ok := true;
    }

    /** The rest of _map: a new node in front of the list, and on the host when the space is current. */
    method Add(p: AddressSpace, vpn: nat, ppn: nat)
      requires Valid() && p in spaces && forall i :: 0 <= i < |p.pages| ==> p.pages[i].vpn != vpn
      modifies this`all, this`installed, p
      ensures Valid() && Mapping(p.pages) == Mapping(old(p.pages))[vpn := ppn]
    {
      ViewPrepend(Page(vpn, ppn), p.pages, |p.pages|);
      var pp := p.Prepend(vpn, ppn);
      all := all + {pp};
      Install(p, pp);
    }

    /** Only pp may still have a wrong mark. */
    ghost predicate Pending(pp: PageMap)
      reads this, spaces, all
    {
      && curAs in spaces
      && (forall a :: a in spaces ==> forall n :: n in a.nodes ==> n in all)
      && (forall a :: a in spaces ==> a.Listed() && forall n :: n in a.nodes && n != pp ==> n.isMapped == (a == curAs))
    }

    method Install(p: AddressSpace, pp: PageMap)
      requires Pending(pp) && p in spaces && pp in p.nodes
      requires p != curAs ==> installed == Mapping(curAs.pages)
      requires p == curAs ==> installed[pp.vpn := pp.ppn] == Mapping(p.pages)
      modifies this`installed, pp`isMapped
      ensures Valid()
    {
      if p == curAs {
        ShmMmap(pp.vpn, pp.ppn);
        pp.isMapped := true;
      } else {
        pp.isMapped := false;
      }
    }

    /** _switch */
    method Switch(p: AddressSpace)
      requires Valid() && p in spaces
      modifies this`curAs, this`installed, all
      ensures Valid() && curAs == if enabled then p else old(curAs)
    {
      if !enabled {
        return;
      }
      if p == curAs {
        return;
      }
      UnmapAll(curAs);
      MapAll(p);
      curAs := p;
    }

    /** The first loop of _switch. */
    method UnmapAll(p: AddressSpace)
      requires p.Listed() && p.Marked(true) && installed == Mapping(p.pages)
      modifies this`installed, p.nodes`isMapped
      ensures p.Listed() && p.Marked(false) && installed == map[]
    {
      var pp := p.ptr;
      ghost var k: nat := 0;
      while pp != null
        invariant k <= |p.nodes| && pp == At(p.nodes, k) && installed == View(p.pages, k, |p.pages|)
        invariant forall i :: 0 <= i < |p.nodes| ==> p.nodes[i].isMapped == (i >= k)
        decreases |p.nodes| - k
      {
        assert AddressSpace.Holds(p.nodes, p.pages, k);
        p.Others(k);
        ViewDrop(p.pages, k, |p.pages|);
        if pp.isMapped {
          ShmMunmap(pp.vpn);
          pp.isMapped := false;
        }
        pp := pp.next;
        k := k + 1;
      }
    }

    /** The second loop of _switch. */
    method MapAll(p: AddressSpace)
      requires p.Listed() && p.Marked(false) && installed == map[]
      modifies this`installed, p.nodes`isMapped
      ensures p.Listed() && p.Marked(true) && installed == Mapping(p.pages)
    {
      var pp := p.ptr;
      ghost var k: nat := 0;
      while pp != null
        invariant k <= |p.nodes| && pp == At(p.nodes, k) && installed == View(p.pages, 0, k)
        invariant forall i :: 0 <= i < k ==> p.nodes[i].isMapped
        decreases |p.nodes| - k
      {
        assert AddressSpace.Holds(p.nodes, p.pages, k);
        ShmMmap(pp.vpn, pp.ppn);
        pp.isMapped := true;
        pp := pp.next;
        k := k + 1;
      }
    }
  }
}
