/** Guest memory with its direct-mapped page lookup cache. */
module GuestMemory {
  import opened PagedMemory

  class PageEntry {
    var data: PageData
    var permissions: bv8

    constructor (data: PageData, permissions: bv8)
      ensures this.data == data && this.permissions == permissions
    {
      this.data := data;
      this.permissions := permissions;
    }
  }

  datatype TlbSlot = TlbSlot(pageIndex: nat, epoch: nat, entry: PageEntry?)

  const TLB_SIZE: nat := 128

  class Memory {
    var pages: map<nat, PageEntry>
    const tlb: array<TlbSlot>
    var tlbEpoch: nat
    var pageEpoch: nat
    var codeEpoch: nat

    /** A slot of the current epoch that holds an entry holds the entry of its page. */
    ghost predicate SlotOk(s: TlbSlot)
      reads this
    {
      && s.epoch <= tlbEpoch
      && (s.epoch == tlbEpoch && s.entry != null ==> s.pageIndex in pages && pages[s.pageIndex] == s.entry)
    }

    ghost predicate TlbOk()
      reads this, tlb
    {
      tlb.Length == TLB_SIZE && forall i :: 0 <= i < tlb.Length ==> SlotOk(tlb[i])
    }

    /** No two pages share an entry. */
    ghost predicate PagesOk()
      reads this
    {
      forall p, q :: p in pages && q in pages && p != q ==> pages[p] != pages[q]
    }

    ghost predicate Valid()
      reads this, tlb, pages.Values
    {
      TlbOk() && PagesOk()
    }

    /** The memory without the cache. */
    ghost function Contents(): (v: View)
      reads this, pages.Values
    {
      map p | p in pages :: Page(pages[p].data, pages[p].permissions)
    }

    constructor ()
      ensures Valid() && Contents() == map[] && pages == map[] && fresh(tlb)
    {
      tlb := new TlbSlot[TLB_SIZE](i => TlbSlot(0xFFFF_FFFF_FFFF_FFFF, 0, null));
      tlbEpoch, pageEpoch, codeEpoch := 1, 1, 1;
      pages := map[];
    }

    /** The entry of a page, through the cache: always what the map holds. */
    method LookupPage(pageIndex: nat) returns (entry: PageEntry?)
      requires Valid()
      modifies tlb
      ensures Valid()
      ensures entry == if pageIndex in pages then pages[pageIndex] else null
    {
      var i := pageIndex % TLB_SIZE;
      var slot := tlb[i];
      if slot.entry != null && slot.pageIndex == pageIndex && slot.epoch == tlbEpoch {
        assert SlotOk(tlb[i]);
        return slot.entry;
      }
      entry := if pageIndex in pages then pages[pageIndex] else null;
      tlb[i] := TlbSlot(pageIndex, tlbEpoch, entry);
    }

    /** A new epoch turns every slot stale. */
    method InvalidateTlb()
      requires Valid()
      modifies this`tlbEpoch
      ensures Valid() && tlbEpoch == old(tlbEpoch) + 1
      ensures forall i :: 0 <= i < tlb.Length ==> tlb[i].epoch < tlbEpoch
    {
      assert forall i :: 0 <= i < tlb.Length ==> SlotOk(tlb[i]);
      tlbEpoch := tlbEpoch + 1;
    }

    /** The slots are all of an older epoch. */
    ghost predicate TlbStale()
      reads this, tlb
    {
      tlb.Length == TLB_SIZE && forall i :: 0 <= i < tlb.Length ==> tlb[i].epoch < tlbEpoch
    }

    /** One page of a mapping: a new page is zeroed, a page that is there keeps its bytes. */
    method MapPage(page: nat, permissions: bv8)
      requires PagesOk()
      modifies this`pages, pages.Values
      ensures PagesOk() && fresh(pages.Values - old(pages.Values))
      ensures Contents() == var w := old(Contents()); w[page := Page(if page in w then w[page].data else Zeros(), permissions)]
    {
      ghost var w := Contents();
      if page !in pages {
        var entry := new PageEntry(Zeros(), permissions);
        pages := pages[page := entry];
      } else {
        assert pages[page] in pages.Values;
        pages[page].permissions := permissions;
      }
      assert Contents() == w[page := Page(if page in w then w[page].data else Zeros(), permissions)];
    }

    method MapRange(firstPage: nat, lastPage: nat, permissions: bv8)
      requires PagesOk()
      modifies this`pages, pages.Values
      ensures PagesOk() && fresh(pages.Values - old(pages.Values))
      ensures Contents() == MapPages(old(Contents()), firstPage, lastPage, permissions)
    {
      hide MapPages, Contents, PagesOk;
      ghost var v := Contents();
      var page := firstPage;
      MapNothing(v, firstPage, lastPage, permissions);
      MapNothing(v, firstPage, firstPage, permissions);
      while page < lastPage
        invariant firstPage <= page <= lastPage || page == firstPage
        invariant PagesOk() && fresh(pages.Values - old(pages.Values))
        invariant Contents() == MapPages(v, firstPage, page, permissions)
      {
        MapNext(v, firstPage, page, permissions);
        MapPage(page, permissions);
        page := page + 1;
      }
    }

    method Map(base: nat, size: nat, permissions: bv8)
      requires Valid() && base + size + PAGE <= ADDRESS_LIMIT
      modifies this, pages.Values
      ensures Valid() && fresh(pages.Values - old(pages.Values))
      ensures Contents() == MapPages(old(Contents()), FirstPage(base), LastPage(base, size), permissions)
      ensures RangeMapped(Contents(), old(Contents()), base, size, permissions)
      ensures codeEpoch == old(codeEpoch) + 1
    {
      hide MapPages, RangeMapped, RangeUnmapped, RangeReprotected;
      RangeOperations(Contents(), base, size, permissions);
      pageEpoch := pageEpoch + 1;
      codeEpoch := codeEpoch + 1;
      InvalidateTlb();
      assert TlbStale() && Contents() == old(Contents());
      MapRange(base / PAGE, (base + size + PAGE - 1) / PAGE, permissions);
    }

    method UnmapRange(firstPage: nat, lastPage: nat)
      requires PagesOk()
      modifies this`pages
      ensures PagesOk() && pages.Values <= old(pages.Values)
      ensures Contents() == UnmapPages(old(Contents()), firstPage, lastPage)
    {
      ghost var v := Contents();
      ghost var before := pages.Values;
      var page := firstPage;
      while page < lastPage
        invariant firstPage <= page <= lastPage || page == firstPage
        invariant PagesOk() && pages.Values <= before
        invariant Contents() == UnmapPages(v, firstPage, page)
      {
        ghost var w := Contents();
        pages := pages - {page};
        assert Contents() == w - {page};
        page := page + 1;
      }
    }

    method Unmap(base: nat, size: nat)
      requires Valid() && base + size + PAGE <= ADDRESS_LIMIT
      modifies this
      ensures Valid() && pages.Values <= old(pages.Values)
      ensures Contents() == UnmapPages(old(Contents()), FirstPage(base), LastPage(base, size))
      ensures RangeUnmapped(Contents(), old(Contents()), base, size)
      ensures codeEpoch == old(codeEpoch) + 1
    {
      hide UnmapPages, RangeMapped, RangeUnmapped, RangeReprotected;
      RangeOperations(Contents(), base, size, 0);
      pageEpoch := pageEpoch + 1;
      codeEpoch := codeEpoch + 1;
      InvalidateTlb();
      assert TlbStale() && Contents() == old(Contents());
      UnmapRange(base / PAGE, (base + size + PAGE - 1) / PAGE);
    }

    /** Permissions change in the entry itself. */
    method ReprotectPage(page: nat, permissions: bv8)
      requires PagesOk()
      modifies pages.Values
      ensures PagesOk()
      ensures Contents() == var w := old(Contents()); if page in w then w[page := Page(w[page].data, permissions)] else w
    {
      if page in pages {
        ghost var w := Contents();
        assert pages[page] in pages.Values;
        pages[page].permissions := permissions;
        assert Contents() == w[page := Page(w[page].data, permissions)];
      }
    }

    method ReprotectRange(firstPage: nat, lastPage: nat, permissions: bv8)
      requires PagesOk()
      modifies pages.Values
      ensures PagesOk()
      ensures Contents() == ReprotectPages(old(Contents()), firstPage, lastPage, permissions)
    {
      hide Contents, PagesOk;
      ghost var v := Contents();
      var page := firstPage;
      while page < lastPage
        invariant firstPage <= page <= lastPage || page == firstPage
        invariant PagesOk() && Contents() == ReprotectPages(v, firstPage, page, permissions)
      {
        ReprotectPage(page, permissions);
        page := page + 1;
      }
    }

    /** Entries stay where they are, so the cache stays as it is. */
    method Reprotect(base: nat, size: nat, permissions: bv8)
      requires Valid() && base + size + PAGE <= ADDRESS_LIMIT
      modifies this`pageEpoch, this`codeEpoch, pages.Values
      ensures Valid()
      ensures Contents() == ReprotectPages(old(Contents()), FirstPage(base), LastPage(base, size), permissions)
      ensures RangeReprotected(Contents(), old(Contents()), base, size, permissions)
      ensures codeEpoch == old(codeEpoch) + 1
    {
      hide ReprotectPages, RangeMapped, RangeUnmapped, RangeReprotected;
      RangeOperations(Contents(), base, size, permissions);
      pageEpoch := pageEpoch + 1;
      codeEpoch := codeEpoch + 1;
      assert Contents() == old(Contents());
      ReprotectRange(base / PAGE, (base + size + PAGE - 1) / PAGE, permissions);
    }

    /** The page of an access that lies within one page: what the fast path reads. */
    method ReadWithinPage(address: nat, size: nat, kind: AccessKind) returns (ok: bool, dst: seq<bv8>)
      requires Valid() && address % PAGE + size <= PAGE
      modifies tlb
      ensures Valid()
      ensures ok <==> PageOk(Contents(), address / PAGE, kind)
      ensures dst == if ok then Contents()[address / PAGE].data[address % PAGE..address % PAGE + size] else []
    {
      ok, dst := false, [];
      var entry := LookupPage(address / PAGE);
      if entry == null || !HasPermission(entry.permissions, kind) {
        return;
      }
      ok := true;
      dst := entry.data[address % PAGE..address % PAGE + size];
    }

    /** The page loop: it stops at the first page that forbids the access. */
    method CopyFromPages(address: nat, size: nat, kind: AccessKind) returns (ok: bool, dst: seq<bv8>)
      requires Valid()
      modifies tlb
      ensures Valid()
      ensures dst == ReadPrefix(Contents(), address, size, kind) && (ok <==> |dst| == size)
    {
      hide ReadPrefix, PageOk, Chunk;
      var remaining, current := size, address;
      ghost var v := Contents();
      ghost var whole := ReadPrefix(v, address, size, kind);
      dst := [];
      while remaining != 0
        invariant Valid() && Contents() == v && current + remaining == address + size && |dst| + remaining == size
        invariant whole == dst + ReadPrefix(v, current, remaining, kind)
        decreases remaining
      {
        var chunk := Chunk(current, remaining);
        var good, part := ReadWithinPage(current, chunk, kind);
        ReadLoopStep(v, current, remaining, kind, chunk, part, whole, dst);
        if !good {
          ok := false;
          return;
        }
        dst := dst + part;
        current := current + chunk;
        remaining := remaining - chunk;
      }
      ok := true;
    }

    /** A read returns what the cache-free memory holds, or the part before the first page that forbids it.
        `special` says that an access hook or an MMIO region is installed, which takes the fast path away. */
    method Read(address: nat, size: nat, kind: AccessKind, special: bool) returns (ok: bool, dst: seq<bv8>)
      requires Valid() && 0 < size && address + size <= ADDRESS_LIMIT
      modifies tlb
      ensures Valid()
      ensures dst == ReadPrefix(Contents(), address, size, kind) && (ok <==> |dst| == size)
      ensures ok <==> Allowed(Contents(), address, size, kind)
      ensures kind == InstructionFetch ==> (ok <==> Granted(Contents(), address, size, 4))
      ensures kind == DataRead ==> (ok <==> Granted(Contents(), address, size, 7))
      ensures kind == DataWrite ==> (ok <==> Granted(Contents(), address, size, 2))
    {
      hide Granted, Allowed;
      AllowedBits(Contents(), address, size);
      ReadComplete(Contents(), address, size, kind);
      if !special && address % PAGE + size <= PAGE {
        assert Chunk(address, size) == size;
        assert ReadPrefix(Contents(), address + size, 0, kind) == [];
        ok, dst := ReadWithinPage(address, size, kind);
      } else {
        ok, dst := CopyFromPages(address, size, kind);
      }
    }

    /** The whole page for the code cache. */
    method ReadCodePage(pageBase: nat) returns (ok: bool, dst: seq<bv8>)
      requires Valid()
      modifies tlb
      ensures Valid()
      ensures ok <==> pageBase % PAGE == 0 && Executable(Contents(), pageBase / PAGE)
      ensures ok <==> pageBase % PAGE == 0 && pageBase / PAGE in Contents() && Contents()[pageBase / PAGE].permissions & 4 != 0
      ensures ok ==> dst == Contents()[pageBase / PAGE].data
    {
      ok, dst := false, [];
      if pageBase % PAGE != 0 {
        return;
      }
      ok, dst := ReadWithinPage(pageBase, PAGE, InstructionFetch);
      if ok { assert Contents()[pageBase / PAGE].data[0..PAGE] == Contents()[pageBase / PAGE].data; }
    }

    /** One page's part of a write. */
    method WriteWithinPage(address: nat, src: seq<bv8>) returns (ok: bool, code: bool)
      requires Valid() && address % PAGE + |src| <= PAGE
      modifies tlb, pages.Values
      ensures Valid()
      ensures ok <==> PageOk(old(Contents()), address / PAGE, DataWrite)
      ensures ok ==> (code <==> Executable(old(Contents()), address / PAGE))
      ensures Contents() == if ok then PatchPage(old(Contents()), address / PAGE, address % PAGE, src) else old(Contents())
    {
      ghost var v := Contents();
      ok, code := false, false;
      var entry := LookupPage(address / PAGE);
      if entry == null || !HasPermission(entry.permissions, DataWrite) {
        return;
      }
      assert entry in pages.Values;
      ok := true;
      code := HasPermission(entry.permissions, InstructionFetch);
      entry.data := Patched(entry.data, address % PAGE, src);
      assert Contents() == PatchPage(v, address / PAGE, address % PAGE, src);
    }

    /** The page loop of a write: pages before the first one that forbids it keep what was stored. */
    method CopyToPages(address: nat, src: seq<bv8>) returns (ok: bool, code: bool)
      requires Valid()
      modifies tlb, pages.Values
      ensures Valid()
      ensures Contents() == WritePages(old(Contents()), address, src, DataWrite)
      ensures ok <==> |ReadPrefix(old(Contents()), address, |src|, DataWrite)| == |src|
      ensures ok ==> (code <==> TouchesCode(old(Contents()), address, |src|))
    {
      hide ReadPrefix, WritePages, TouchesCode, PatchPage, Copying;
      ghost var v := Contents();
      CopyingStart(v, address, src);
      var rest, current := src, address;
      code := false;
      while rest != []
        invariant Valid() && Copying(v, Contents(), address, src, current, rest, code)
        decreases |rest|
      {
        var chunk := Chunk(current, |rest|);
        ghost var w := Contents();
        var good, part := WriteWithinPage(current, rest[..chunk]);
        if !good {
          CopyingStuck(v, w, address, src, current, rest, code);
          ok := false;
          return;
        }
        CopyingStep(v, w, Contents(), address, src, current, rest, chunk, code, part);
        code := code || part;
        current := current + chunk;
        rest := rest[chunk..];
      }
      CopyingDone(v, Contents(), address, src, current, code);
      ok := true;
    }

    /** A write stores what `WritePages` says, and moves the code epoch when it succeeds and touches an
        executable page. */
    method Write(address: nat, src: seq<bv8>, special: bool) returns (ok: bool)
      requires Valid() && 0 < |src| && address + |src| <= ADDRESS_LIMIT
      modifies tlb, pages.Values, this`codeEpoch
      ensures Valid()
      ensures Contents() == WritePages(old(Contents()), address, src, DataWrite)
      ensures ok <==> Allowed(old(Contents()), address, |src|, DataWrite)
      ensures ok <==> Granted(old(Contents()), address, |src|, 2)
      ensures codeEpoch == old(codeEpoch) + if MovesEpoch(old(Contents()), address, src) then 1 else 0
    {
      hide ReadPrefix, WritePages, TouchesCode, Allowed;
      ReadComplete(Contents(), address, |src|, DataWrite);
      AllowedBits(Contents(), address, |src|);
      var code;
      ok, code := StoreBytes(address, src, special);
      if ok && code {
        codeEpoch := codeEpoch + 1;
      }
    }

    /** The fast path within a page, or page by page. */
    method StoreBytes(address: nat, src: seq<bv8>, special: bool) returns (ok: bool, code: bool)
      requires Valid() && 0 < |src|
      modifies tlb, pages.Values
      ensures Valid()
      ensures Contents() == WritePages(old(Contents()), address, src, DataWrite)
      ensures ok <==> |ReadPrefix(old(Contents()), address, |src|, DataWrite)| == |src|
      ensures ok ==> (code <==> TouchesCode(old(Contents()), address, |src|))
    {
      hide ReadPrefix, WritePages, TouchesCode, PatchPage, Executable, PageOk;
      if !special && address % PAGE + |src| <= PAGE {
        OnePage(Contents(), address, src);
        ok, code := WriteWithinPage(address, src);
      } else {
        ok, code := CopyToPages(address, src);
      }
    }

    /** Every page that an access touches is mapped. */
    method IsMapped(address: nat, size: nat) returns (mapped: bool)
      requires Valid() && address + size <= ADDRESS_LIMIT
      modifies tlb
      ensures Valid()
      ensures mapped <==> forall a :: address <= a < address + size ==> Mapped(Contents(), a)
    {
      var remaining: nat, current: nat := size, address;
      while remaining != 0
        invariant Valid() && current + remaining == address + size
        invariant forall a :: address <= a < current ==> Mapped(Contents(), a)
        decreases remaining
      {
        var entry := LookupPage(current / PAGE);
        if entry == null {
          assert !Mapped(Contents(), current);
          return false;
        }
        var chunk := Chunk(current, remaining);
        forall a | current <= a < current + chunk ensures Mapped(Contents(), a) { SamePage(current, a - current); }
        current := current + chunk;
        remaining := remaining - chunk;
      }
      mapped := true;
    }

    /** All pages, in the order of their index. */
    method SnapshotPages() returns (s: seq<PageSnapshot>)
      requires Valid()
      ensures IsSnapshot(s, Contents())
    {
      hide SnapshotOf;
      s := [];
      var left := pages.Keys;
      assert pages.Keys == Contents().Keys;
      SnapshotStart(Contents());
      while left != {}
        invariant left <= pages.Keys && SnapshotOf(s, left, Contents())
        decreases |left|
      {
        var page := Least(left);
        SnapshotGrows(s, left, page, Contents());
        s := s + [PageSnapshot(page, Page(pages[page].data, pages[page].permissions))];
        left := left - {page};
      }
      SnapshotEnd(s, Contents());
    }

    /** One page of a snapshot, unless its page is there already. */
    method EmplacePage(x: PageSnapshot)
      requires PagesOk()
      modifies this`pages
      ensures PagesOk() && fresh(pages.Values - old(pages.Values))
      ensures Contents() == var w := old(Contents()); if x.pageIndex in w then w else w[x.pageIndex := x.page]
    {
      if x.pageIndex !in pages {
        ghost var w := Contents();
        var entry := new PageEntry(x.page.data, x.page.permissions);
        pages := pages[x.pageIndex := entry];
        assert Contents() == w[x.pageIndex := x.page];
      }
    }

    /** All pages are replaced, and every cached pointer turns stale. */
    method RestorePages(s: seq<PageSnapshot>)
      requires Valid()
      modifies this
      ensures Valid() && fresh(pages.Values)
      ensures Contents() == FromSnapshots(s)
      ensures codeEpoch == old(codeEpoch) + 1
    {
      pageEpoch := pageEpoch + 1;
      codeEpoch := codeEpoch + 1;
      InvalidateTlb();
      pages := map[];
      for i := 0 to |s|
        invariant PagesOk() && TlbStale() && codeEpoch == old(codeEpoch) + 1 && fresh(pages.Values)
        invariant Contents() == FromSnapshots(s[..i])
      {
        SnapshotSnoc(s[..i], s[i]);
        assert s[..i] + [s[i]] == s[..i + 1];
        EmplacePage(s[i]);
      }
      assert s[..|s|] == s;
    }
  }

  /** The smallest element of a set. */
  method Least(s: set<nat>) returns (m: nat)
    requires s != {}
    ensures m in s && forall x :: x in s ==> m <= x
  {
    m :| m in s;
    var left := s - {m};
    while left != {}
      invariant m in s && left <= s && forall x :: x in s && x !in left ==> m <= x
      decreases |left|
    {
      var x :| x in left;
      if x < m { m := x; }
      left := left - {x};
    }
  }

  /** The list holds the pages that are not left, in order, and all of them come before those that are. */
  ghost predicate SnapshotOf(s: seq<PageSnapshot>, left: set<nat>, v: View) {
    && SortedSnapshots(s)
    && (forall i :: 0 <= i < |s| ==> s[i].pageIndex in v && v[s[i].pageIndex] == s[i].page)
    && (forall p :: p in v ==> p in left || exists i :: 0 <= i < |s| && s[i].pageIndex == p)
    && (forall i, p :: 0 <= i < |s| && p in left ==> s[i].pageIndex < p)
  }

  lemma SnapshotStart(v: View)
    ensures SnapshotOf([], v.Keys, v)
  {}

  lemma SnapshotEnd(s: seq<PageSnapshot>, v: View)
    requires SnapshotOf(s, {}, v)
    ensures IsSnapshot(s, v)
  {}

  lemma SnapshotGrows(s0: seq<PageSnapshot>, left: set<nat>, page: nat, v: View)
    requires page in left && page in v && SnapshotOf(s0, left, v) && forall x :: x in left ==> page <= x
    ensures SnapshotOf(s0 + [PageSnapshot(page, v[page])], left - {page}, v)
  {
    var s := s0 + [PageSnapshot(page, v[page])];
    forall p | p in v && p !in left - {page} ensures exists i :: 0 <= i < |s| && s[i].pageIndex == p {
      if p == page {
        assert s[|s0|].pageIndex == p;
      } else {
        var i :| 0 <= i < |s0| && s0[i].pageIndex == p;
        assert s[i].pageIndex == p;
      }
    }
  }

  lemma {:induction false} SnapshotSnoc(s: seq<PageSnapshot>, x: PageSnapshot)
    ensures FromSnapshots(s + [x]) == if x.pageIndex in FromSnapshots(s) then FromSnapshots(s) else FromSnapshots(s)[x.pageIndex := x.page]
  {
    if s == [] {
      assert s + [x] == [x];
      assert FromSnapshots([x]) == FromSnapshots([])[x.pageIndex := x.page];
    } else {
      assert (s + [x])[1..] == s[1..] + [x];
      SnapshotSnoc(s[1..], x);
    }
  }

  lemma PermissionsTrans(v: View, w: View, x: View)
    requires SamePermissions(v, w) && SamePermissions(w, x)
    ensures SamePermissions(v, x)
  {}

  /** Code among the first bytes of an access, and in the page of the next chunk. */
  lemma CodeStep(v: View, w: View, address: nat, done: nat, current: nat, chunk: nat)
    requires SamePermissions(v, w) && current == address + done && 0 < chunk && current % PAGE + chunk <= PAGE
    ensures TouchesCode(v, address, done + chunk) <==> TouchesCode(v, address, done) || Executable(w, current / PAGE)
  {
    assert Executable(v, current / PAGE) <==> Executable(w, current / PAGE);
    assert address <= current < address + done + chunk;
    if a :| address <= a < address + done + chunk && Executable(v, a / PAGE) && current <= a {
      SamePage(current, a - current);
    }
  }

  lemma WriteLoopStep(w: View, now: View, current: nat, rest: seq<bv8>, chunk: nat)
    requires !Stuck(w, current, |rest|, DataWrite) && chunk == Chunk(current, |rest|)
    requires now == PatchPage(w, current / PAGE, current % PAGE, rest[..chunk])
    ensures SamePermissions(w, now)
    ensures WritePages(w, current, rest, DataWrite) == WritePages(now, current + chunk, rest[chunk..], DataWrite)
    ensures |ReadPrefix(w, current, |rest|, DataWrite)| == chunk + |ReadPrefix(now, current + chunk, |rest| - chunk, DataWrite)|
  {
    hide *;
    var c, x := FirstPart(w, current, rest, DataWrite);
    assert c == chunk && x == now;
    SameReach(w, now, current + chunk, |rest| - chunk, DataWrite);
  }

  lemma ReadLoopStep(v: View, current: nat, remaining: nat, kind: AccessKind, chunk: nat, part: seq<bv8>, whole: seq<bv8>, dst: seq<bv8>)
    requires 0 < remaining && chunk == Chunk(current, remaining) && whole == dst + ReadPrefix(v, current, remaining, kind)
    requires part == if PageOk(v, current / PAGE, kind) then v[current / PAGE].data[current % PAGE..current % PAGE + chunk] else []
    ensures if PageOk(v, current / PAGE, kind)
            then whole == dst + part + ReadPrefix(v, current + chunk, remaining - chunk, kind) else whole == dst
    ensures |part| == if PageOk(v, current / PAGE, kind) then chunk else 0
  {
    hide ReadPrefix, PageOk;
    ReadUnfold(v, current, remaining, kind);
  }

  /** An access within one page. */
  lemma OnePage(v: View, address: nat, src: seq<bv8>)
    requires 0 < |src| && address % PAGE + |src| <= PAGE
    ensures PageOk(v, address / PAGE, DataWrite) ==> WritePages(v, address, src, DataWrite) == PatchPage(v, address / PAGE, address % PAGE, src)
    ensures !PageOk(v, address / PAGE, DataWrite) ==> WritePages(v, address, src, DataWrite) == v
    ensures PageOk(v, address / PAGE, DataWrite) <==> |ReadPrefix(v, address, |src|, DataWrite)| == |src|
    ensures TouchesCode(v, address, |src|) <==> Executable(v, address / PAGE)
  {
    assert Chunk(address, |src|) == |src| && src[..|src|] == src;
    assert address <= address < address + |src|;
    if a :| address <= a < address + |src| && Executable(v, a / PAGE) { SamePage(address, a - address); }
  }

  /** A write from v that has come as far as x: what is left of it completes it. */
  ghost predicate Copying(v: View, x: View, address: nat, src: seq<bv8>, current: nat, rest: seq<bv8>, code: bool) {
    && SamePermissions(v, x)
    && |rest| <= |src| && current + |rest| == address + |src| && rest == src[|src| - |rest|..]
    && WritePages(v, address, src, DataWrite) == WritePages(x, current, rest, DataWrite)
    && |ReadPrefix(v, address, |src|, DataWrite)| == |src| - |rest| + |ReadPrefix(x, current, |rest|, DataWrite)|
    && (code <==> TouchesCode(v, address, |src| - |rest|))
  }

  lemma CopyingStart(v: View, address: nat, src: seq<bv8>)
    ensures Copying(v, v, address, src, address, src, false)
  {
    hide WritePages, ReadPrefix;
    assert src[|src| - |src|..] == src;
  }

  lemma CopyingStep(v: View, w: View, x: View, address: nat, src: seq<bv8>, current: nat, rest: seq<bv8>, chunk: nat, code: bool, part: bool)
    requires Copying(v, w, address, src, current, rest, code) && rest != [] && chunk == Chunk(current, |rest|)
    requires PageOk(w, current / PAGE, DataWrite) && (part <==> Executable(w, current / PAGE))
    requires x == PatchPage(w, current / PAGE, current % PAGE, rest[..chunk])
    ensures Copying(v, x, address, src, current + chunk, rest[chunk..], code || part)
  {
    hide WritePages, ReadPrefix, TouchesCode, SamePermissions;
    CodeStep(v, w, address, |src| - |rest|, current, chunk);
    WriteLoopStep(w, x, current, rest, chunk);
    PermissionsTrans(v, w, x);
    assert rest[chunk..] == src[|src| - |rest[chunk..]|..];
  }

  lemma CopyingStuck(v: View, w: View, address: nat, src: seq<bv8>, current: nat, rest: seq<bv8>, code: bool)
    requires Copying(v, w, address, src, current, rest, code) && rest != [] && Stuck(w, current, |rest|, DataWrite)
    ensures w == WritePages(v, address, src, DataWrite) && |ReadPrefix(v, address, |src|, DataWrite)| < |src|
  {
    hide WritePages, ReadPrefix;
    WriteNothing(w, current, rest, DataWrite);
  }

  lemma CopyingDone(v: View, x: View, address: nat, src: seq<bv8>, current: nat, code: bool)
    requires Copying(v, x, address, src, current, [], code)
    ensures x == WritePages(v, address, src, DataWrite) && |ReadPrefix(v, address, |src|, DataWrite)| == |src|
    ensures code <==> TouchesCode(v, address, |src|)
  {
    hide TouchesCode, WritePages, ReadPrefix, SamePermissions;
    WriteNothing(x, current, [], DataWrite);
  }
}
