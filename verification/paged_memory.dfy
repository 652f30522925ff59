/** Guest memory as a plain map from page index to page: what reads, writes and mappings mean, without
    any lookup cache. */
module PagedMemory {
  import opened Options

  const PAGE: nat := 0x1000
  const ADDRESS_LIMIT: nat := 0x1_0000_0000_0000_0000

  datatype AccessKind = InstructionFetch | DataRead | DataWrite

  const PERMISSION_READ: bv8 := 1
  const PERMISSION_WRITE: bv8 := 2
  const PERMISSION_EXECUTE: bv8 := 4

  type PageData = data: seq<bv8> | |data| == PAGE witness seq(PAGE, _ => 0)

  datatype Page = Page(data: PageData, permissions: bv8)

  type View = map<nat, Page>

  predicate HasPermission(permissions: bv8, kind: AccessKind) {
    match kind
    case InstructionFetch => permissions & PERMISSION_EXECUTE != 0
    case DataRead => permissions & PERMISSION_READ != 0 || permissions & PERMISSION_WRITE != 0 || permissions & PERMISSION_EXECUTE != 0
    case DataWrite => permissions & PERMISSION_WRITE != 0
  }

  predicate PageOk(v: View, page: nat, kind: AccessKind) {
    page in v && HasPermission(v[page].permissions, kind)
  }

  predicate Executable(v: View, page: nat) { PageOk(v, page, InstructionFetch) }

  // --------------------------------------------------------- page by page

  /** The part of an access that lies in the page of its first byte. */
  function Chunk(address: nat, size: nat): (c: nat)
    ensures c <= size && address % PAGE + c <= PAGE
    ensures 0 < size ==> 0 < c
    ensures c < size ==> address % PAGE + c == PAGE
  {
    if size <= PAGE - address % PAGE then size else PAGE - address % PAGE
  }

  /** The bytes that a read gets before the first page that forbids it. */
  function ReadPrefix(v: View, address: nat, size: nat, kind: AccessKind): (r: seq<bv8>)
    ensures |r| <= size
    decreases size
  {
    if size == 0 || !PageOk(v, address / PAGE, kind) then []
    else
      var chunk := Chunk(address, size);
      v[address / PAGE].data[address % PAGE..address % PAGE + chunk] + ReadPrefix(v, address + chunk, size - chunk, kind)
  }

  /** A page with some of its bytes replaced. */
  function Patched(data: seq<bv8>, offset: nat, src: seq<bv8>): (r: seq<bv8>)
    requires offset + |src| <= |data|
    ensures |r| == |data|
  {
    data[..offset] + src + data[offset + |src|..]
  }

  function PatchPage(v: View, page: nat, offset: nat, src: seq<bv8>): (w: View)
    requires page in v && offset + |src| <= PAGE
  {
    v[page := Page(Patched(v[page].data, offset, src), v[page].permissions)]
  }

  /** Memory after a write, which stops at the first page that forbids it and keeps what it has written. */
  function WritePages(v: View, address: nat, src: seq<bv8>, kind: AccessKind): (w: View)
    decreases |src|
  {
    if src == [] || !PageOk(v, address / PAGE, kind) then v
    else
      var chunk := Chunk(address, |src|);
      WritePages(PatchPage(v, address / PAGE, address % PAGE, src[..chunk]), address + chunk, src[chunk..], kind)
  }

  /** Every page that an access touches allows it. */
  predicate Allowed(v: View, address: nat, size: nat, kind: AccessKind) {
    forall a :: address <= a < address + size ==> PageOk(v, a / PAGE, kind)
  }

  /** Every page that the bytes from an address on touch is mapped with one of the permission bits of the mask. */
  ghost predicate Granted(v: View, address: nat, size: nat, mask: bv8) {
    forall a :: address <= a < address + size ==> a / PAGE in v && v[a / PAGE].permissions & mask != 0
  }

  /** The bits an access asks for: bit 4 to fetch, any of the three to read, bit 2 to write. */
  lemma PermissionBits(permissions: bv8)
    ensures HasPermission(permissions, InstructionFetch) <==> permissions & 4 != 0
    ensures HasPermission(permissions, DataRead) <==> permissions & 7 != 0
    ensures HasPermission(permissions, DataWrite) <==> permissions & 2 != 0
  {}

  lemma AllowedBits(v: View, address: nat, size: nat)
    ensures Allowed(v, address, size, InstructionFetch) <==> Granted(v, address, size, 4)
    ensures Allowed(v, address, size, DataRead) <==> Granted(v, address, size, 7)
    ensures Allowed(v, address, size, DataWrite) <==> Granted(v, address, size, 2)
  {
    hide HasPermission;
    forall a | address <= a < address + size
      ensures PageOk(v, a / PAGE, InstructionFetch) <==> a / PAGE in v && v[a / PAGE].permissions & 4 != 0
      ensures PageOk(v, a / PAGE, DataRead) <==> a / PAGE in v && v[a / PAGE].permissions & 7 != 0
      ensures PageOk(v, a / PAGE, DataWrite) <==> a / PAGE in v && v[a / PAGE].permissions & 2 != 0
    {
      if a / PAGE in v { PermissionBits(v[a / PAGE].permissions); }
    }
  }

  /** Some page that an access touches is executable. */
  predicate TouchesCode(v: View, address: nat, size: nat) {
    exists a :: address <= a < address + size && Executable(v, a / PAGE)
  }

  // ------------------------------------------------------------ byte by byte

  /** The byte at an address. */
  function ByteAt(v: View, a: nat): Option<bv8>
  {
    if a / PAGE in v then Some(v[a / PAGE].data[a % PAGE]) else None
  }

  predicate Mapped(v: View, a: nat) { a / PAGE in v }

  /** Addresses within one page. */
  lemma SamePage(address: nat, i: nat)
    requires address % PAGE + i < PAGE
    ensures (address + i) / PAGE == address / PAGE && (address + i) % PAGE == address % PAGE + i
  {}

  /** A read returns the bytes of memory. */
  lemma {:induction false} ReadBytes(v: View, address: nat, size: nat, kind: AccessKind, i: nat)
    requires i < |ReadPrefix(v, address, size, kind)|
    ensures PageOk(v, (address + i) / PAGE, kind)
    ensures ByteAt(v, address + i) == Some(ReadPrefix(v, address, size, kind)[i])
    decreases size
  {
    hide ReadPrefix, Chunk, HasPermission;
    ReadUnfold(v, address, size, kind);
    var chunk := Chunk(address, size);
    if i < chunk {
      SamePage(address, i);
    } else {
      ReadBytes(v, address + chunk, size - chunk, kind, i - chunk);
    }
  }

  /** Nothing of an access goes through. */
  predicate Stuck(v: View, address: nat, size: nat, kind: AccessKind) {
    size == 0 || !PageOk(v, address / PAGE, kind)
  }

  /** A read is its part in the first page and the read of the rest. */
  lemma ReadUnfold(v: View, address: nat, size: nat, kind: AccessKind)
    ensures Stuck(v, address, size, kind) ==> ReadPrefix(v, address, size, kind) == []
    ensures !Stuck(v, address, size, kind) ==>
      var chunk := Chunk(address, size);
      && 0 < chunk <= size && address % PAGE + chunk <= PAGE && address / PAGE in v
      && (chunk < size ==> (address + chunk) % PAGE == 0)
      && ReadPrefix(v, address, size, kind)
         == v[address / PAGE].data[address % PAGE..address % PAGE + chunk] + ReadPrefix(v, address + chunk, size - chunk, kind)
      && |ReadPrefix(v, address, size, kind)| == chunk + |ReadPrefix(v, address + chunk, size - chunk, kind)|
  {
    hide HasPermission;
  }

  /** A read that stops short has met a page that forbids it. */
  lemma {:induction false} ReadStops(v: View, address: nat, size: nat, kind: AccessKind)
    requires |ReadPrefix(v, address, size, kind)| < size
    ensures var n := |ReadPrefix(v, address, size, kind)|;
            !PageOk(v, (address + n) / PAGE, kind) && (n == 0 || (address + n) % PAGE == 0)
    decreases size
  {
    hide ReadPrefix, PageOk, Chunk;
    ReadUnfold(v, address, size, kind);
    if !Stuck(v, address, size, kind) {
      var chunk := Chunk(address, size);
      ReadStops(v, address + chunk, size - chunk, kind);
      assert address + chunk + |ReadPrefix(v, address + chunk, size - chunk, kind)| == address + |ReadPrefix(v, address, size, kind)|;
    }
  }

  /** A read is complete exactly when every page it touches allows it. */
  lemma ReadComplete(v: View, address: nat, size: nat, kind: AccessKind)
    requires 0 < size
    ensures |ReadPrefix(v, address, size, kind)| == size <==> Allowed(v, address, size, kind)
  {
    var n := |ReadPrefix(v, address, size, kind)|;
    if n == size {
      forall a | address <= a < address + size ensures PageOk(v, a / PAGE, kind) {
        ReadBytes(v, address, size, kind, a - address);
      }
    } else {
      ReadStops(v, address, size, kind);
    }
  }

  /** Page permissions are what writes leave alone. */
  ghost predicate SamePermissions(v: View, w: View) {
    v.Keys == w.Keys && forall p :: p in v ==> v[p].permissions == w[p].permissions
  }

  lemma PatchedPermissions(v: View, page: nat, offset: nat, src: seq<bv8>)
    requires page in v && offset + |src| <= PAGE
    ensures SamePermissions(v, PatchPage(v, page, offset, src))
  {}

  lemma {:induction false} WritePermissions(v: View, address: nat, src: seq<bv8>, kind: AccessKind)
    ensures SamePermissions(v, WritePages(v, address, src, kind))
    decreases |src|
  {
    if src != [] && PageOk(v, address / PAGE, kind) {
      var chunk := Chunk(address, |src|);
      WritePermissions(PatchPage(v, address / PAGE, address % PAGE, src[..chunk]), address + chunk, src[chunk..], kind);
    }
  }

  /** How far an access gets depends on permissions only. */
  lemma {:induction false} SameReach(v: View, w: View, address: nat, size: nat, kind: AccessKind)
    requires SamePermissions(v, w)
    ensures |ReadPrefix(v, address, size, kind)| == |ReadPrefix(w, address, size, kind)|
    decreases size
  {
    hide ReadPrefix, Chunk;
    ReadUnfold(v, address, size, kind);
    ReadUnfold(w, address, size, kind);
    if !Stuck(v, address, size, kind) {
      var chunk := Chunk(address, size);
      SameReach(v, w, address + chunk, size - chunk, kind);
    }
  }

  /** The first page of an access, and the rest of it. */
  lemma FirstPart(v: View, address: nat, src: seq<bv8>, kind: AccessKind) returns (chunk: nat, w: View)
    requires !Stuck(v, address, |src|, kind)
    ensures chunk == Chunk(address, |src|) && 0 < chunk <= |src| && address % PAGE + chunk <= PAGE && address / PAGE in v
    ensures w == PatchPage(v, address / PAGE, address % PAGE, src[..chunk]) && SamePermissions(v, w)
    ensures WritePages(v, address, src, kind) == WritePages(w, address + chunk, src[chunk..], kind)
    ensures |ReadPrefix(v, address, |src|, kind)| == chunk + |ReadPrefix(v, address + chunk, |src| - chunk, kind)|
  {
    hide ReadPrefix, PatchPage, SamePermissions;
    ReadUnfold(v, address, |src|, kind);
    chunk := Chunk(address, |src|);
    w := PatchPage(v, address / PAGE, address % PAGE, src[..chunk]);
    PatchedPermissions(v, address / PAGE, address % PAGE, src[..chunk]);
  }

  /** The byte at b when the first n bytes of src are stored from `address` on, over a byte `was`. */
  function Stored(was: Option<bv8>, address: nat, src: seq<bv8>, n: nat, b: nat): Option<bv8>
    requires n <= |src|
  {
    if address <= b < address + n then Some(src[b - address]) else was
  }

  lemma StoredInParts(was: Option<bv8>, address: nat, src: seq<bv8>, chunk: nat, n: nat, b: nat)
    requires chunk + n <= |src|
    ensures Stored(Stored(was, address, src[..chunk], chunk, b), address + chunk, src[chunk..], n, b)
         == Stored(was, address, src, chunk + n, b)
  {}

  /** One page's part of a write, byte by byte. */
  lemma PatchedBytes(v: View, address: nat, src: seq<bv8>, b: nat)
    requires address / PAGE in v && address % PAGE + |src| <= PAGE
    ensures ByteAt(PatchPage(v, address / PAGE, address % PAGE, src), b)
         == Stored(ByteAt(v, b), address, src, |src|, b)
  {
    if address <= b < address + |src| {
      SamePage(address, b - address);
    } else if b / PAGE == address / PAGE {
      assert b - address == b % PAGE - address % PAGE;
    }
  }

  /** The first page's part of a write, and what it does to the byte at b. */
  lemma WriteStep(v: View, address: nat, src: seq<bv8>, kind: AccessKind, b: nat) returns (chunk: nat, w: View)
    requires !Stuck(v, address, |src|, kind)
    ensures 0 < chunk <= |src|
    ensures ByteAt(WritePages(v, address, src, kind), b) == ByteAt(WritePages(w, address + chunk, src[chunk..], kind), b)
    ensures |ReadPrefix(v, address, |src|, kind)| == chunk + |ReadPrefix(w, address + chunk, |src| - chunk, kind)|
    ensures ByteAt(w, b) == Stored(ByteAt(v, b), address, src[..chunk], chunk, b)
  {
    hide *;
    chunk, w := FirstPart(v, address, src, kind);
    SameReach(v, w, address + chunk, |src| - chunk, kind);
    PatchedBytes(v, address, src[..chunk], b);
  }

  /** A write changes the bytes before the first page that forbids it, and no others. */
  lemma {:induction false} WriteBytes(v: View, address: nat, src: seq<bv8>, kind: AccessKind, b: nat)
    ensures ByteAt(WritePages(v, address, src, kind), b)
         == Stored(ByteAt(v, b), address, src, |ReadPrefix(v, address, |src|, kind)|, b)
    decreases |src|, 1
  {
    if Stuck(v, address, |src|, kind) {
      WriteNothing(v, address, src, kind);
    } else {
      WriteMore(v, address, src, kind, b);
    }
  }

  lemma {:induction false} WriteMore(v: View, address: nat, src: seq<bv8>, kind: AccessKind, b: nat)
    requires !Stuck(v, address, |src|, kind)
    ensures ByteAt(WritePages(v, address, src, kind), b)
         == Stored(ByteAt(v, b), address, src, |ReadPrefix(v, address, |src|, kind)|, b)
    decreases |src|, 0
  {
    hide *;
    var chunk, w := WriteStep(v, address, src, kind, b);
    var rest := src[chunk..];
    WriteBytes(w, address + chunk, rest, kind, b);
    StoredInParts(ByteAt(v, b), address, src, chunk, |ReadPrefix(w, address + chunk, |rest|, kind)|, b);
  }

  lemma WriteNothing(v: View, address: nat, src: seq<bv8>, kind: AccessKind)
    requires Stuck(v, address, |src|, kind)
    ensures WritePages(v, address, src, kind) == v && ReadPrefix(v, address, |src|, kind) == []
  {}

  /** Reading back what a successful write stored: a writable page is always readable. */
  lemma WriteThenRead(v: View, address: nat, src: seq<bv8>)
    requires 0 < |src| && Allowed(v, address, |src|, DataWrite)
    ensures ReadPrefix(WritePages(v, address, src, DataWrite), address, |src|, DataRead) == src
  {
    hide ByteAt, WritePages, ReadPrefix, Allowed, PageOk, SamePermissions;
    var w := WritePages(v, address, src, DataWrite);
    WritePermissions(v, address, src, DataWrite);
    ReadComplete(v, address, |src|, DataWrite);
    StillAllowed(v, w, address, |src|);
    ReadComplete(w, address, |src|, DataRead);
    var r := ReadPrefix(w, address, |src|, DataRead);
    forall i | 0 <= i < |src| ensures r[i] == src[i] {
      ReadBytes(w, address, |src|, DataRead, i);
      WriteBytes(v, address, src, DataWrite, address + i);
    }
  }

  lemma StillAllowed(v: View, w: View, address: nat, size: nat)
    requires SamePermissions(v, w) && Allowed(v, address, size, DataWrite)
    ensures Allowed(w, address, size, DataRead)
  {
    forall a | address <= a < address + size ensures PageOk(w, a / PAGE, DataRead) {
      assert PageOk(v, a / PAGE, DataWrite);
    }
  }

  // ------------------------------------------------------------------- code

  /** One page holds the same code: executable in both with the same bytes, or in neither. */
  predicate SameCodePage(v: View, w: View, p: nat) {
    Executable(v, p) || Executable(w, p) ==> Executable(v, p) && Executable(w, p) && v[p].data == w[p].data
  }

  /** The same pages are executable, with the same bytes. */
  ghost predicate SameCode(v: View, w: View) {
    forall p :: SameCodePage(v, w, p)
  }

  /** The write stores another byte in an executable page at its i-th position. */
  predicate ChangesCode(v: View, address: nat, src: seq<bv8>, i: nat)
    requires i < |src|
  {
    Executable(v, (address + i) / PAGE) && ByteAt(v, address + i) != Some(src[i])
  }

  /** A write that stops part way, after it has changed a byte of an executable page. */
  ghost predicate Torn(v: View, address: nat, src: seq<bv8>)
  {
    var n := |ReadPrefix(v, address, |src|, DataWrite)|;
    n < |src| && exists i :: 0 <= i < n && ChangesCode(v, address, src, i)
  }

  /** The write stores another byte in page p, which is executable, before it stops. */
  ghost predicate ChangesPage(v: View, address: nat, src: seq<bv8>, p: nat)
  {
    exists i :: 0 <= i < |ReadPrefix(v, address, |src|, DataWrite)| && ChangesCode(v, address, src, i) && (address + i) / PAGE == p
  }

  /** What a write does to the code of one page: it leaves it alone exactly when none of the bytes it stores there
      is a different one. */
  lemma WritePageCode(v: View, address: nat, src: seq<bv8>, p: nat)
    ensures SameCodePage(v, WritePages(v, address, src, DataWrite), p) <==> !ChangesPage(v, address, src, p)
  {
    hide WritePages, ReadPrefix, ChangesCode;
    var w, n := WritePages(v, address, src, DataWrite), |ReadPrefix(v, address, |src|, DataWrite)|;
    WritePermissions(v, address, src, DataWrite);
    if ChangesPage(v, address, src, p) {
      var i :| 0 <= i < n && ChangesCode(v, address, src, i) && (address + i) / PAGE == p;
      ByteChanged(v, address, src, i);
    } else if Executable(v, p) {
      CodePageKept(v, w, address, src, n, p);
    }
  }

  lemma ByteChanged(v: View, address: nat, src: seq<bv8>, i: nat)
    requires i < |ReadPrefix(v, address, |src|, DataWrite)| && ChangesCode(v, address, src, i)
    ensures !SameCodePage(v, WritePages(v, address, src, DataWrite), (address + i) / PAGE)
  {
    hide WritePages, ReadPrefix;
    var w := WritePages(v, address, src, DataWrite);
    WriteBytes(v, address, src, DataWrite, address + i);
    assert ByteAt(w, address + i) != ByteAt(v, address + i);
  }

  lemma CodePageKept(v: View, w: View, address: nat, src: seq<bv8>, n: nat, p: nat)
    requires w == WritePages(v, address, src, DataWrite) && SamePermissions(v, w) && Executable(v, p)
    requires n == |ReadPrefix(v, address, |src|, DataWrite)| && !ChangesPage(v, address, src, p)
    ensures v[p].data == w[p].data
  {
    hide WritePages, ReadPrefix;
    forall k | 0 <= k < PAGE ensures v[p].data[k] == w[p].data[k] {
      var b := p * PAGE + k;
      assert b / PAGE == p && b % PAGE == k;
      WriteBytes(v, address, src, DataWrite, b);
      if address <= b < address + n { assert !ChangesCode(v, address, src, b - address) by { assert (address + (b - address)) / PAGE == p; } }
      assert ByteAt(v, b) == Some(v[p].data[k]) && ByteAt(w, b) == Some(w[p].data[k]);
    }
  }

  /** What a write does to code: it leaves it alone exactly when none of the bytes it stores is a different
      byte of an executable page. */
  lemma WriteCode(v: View, address: nat, src: seq<bv8>)
    ensures SameCode(v, WritePages(v, address, src, DataWrite))
       <==> forall i :: 0 <= i < |ReadPrefix(v, address, |src|, DataWrite)| ==> !ChangesCode(v, address, src, i)
  {
    hide WritePages, ReadPrefix, ChangesCode, SameCodePage;
    forall p: nat ensures SameCodePage(v, WritePages(v, address, src, DataWrite), p) <==> !ChangesPage(v, address, src, p) {
      WritePageCode(v, address, src, p);
    }
    if i :| 0 <= i < |ReadPrefix(v, address, |src|, DataWrite)| && ChangesCode(v, address, src, i) {
      assert ChangesPage(v, address, src, (address + i) / PAGE);
    }
  }

  /** The code epoch moves exactly for writes that succeed and touch an executable page. */
  predicate MovesEpoch(v: View, address: nat, src: seq<bv8>)
  {
    |ReadPrefix(v, address, |src|, DataWrite)| == |src| && TouchesCode(v, address, |src|)
  }

  /** Code changes without the epoch moving exactly when the write is torn. */
  lemma StaleExactlyWhenTorn(v: View, address: nat, src: seq<bv8>)
    ensures !SameCode(v, WritePages(v, address, src, DataWrite)) && !MovesEpoch(v, address, src) <==> Torn(v, address, src)
  {
    WriteCode(v, address, src);
    var n := |ReadPrefix(v, address, |src|, DataWrite)|;
    if i :| 0 <= i < n && ChangesCode(v, address, src, i) {
      assert address <= address + i < address + |src| && Executable(v, (address + i) / PAGE);
    }
  }

  /** It happens: a write of two bytes across the end of a page that is writable and executable, into a
      page that is not mapped. */
  lemma TornWriteExists()
    ensures var v := map[0 := Page(Zeros(), 6)]; Torn(v, PAGE - 1, [1, 1])
  {
    var v := map[0 := Page(Zeros(), 6)];
    assert (6 as bv8) & PERMISSION_WRITE != 0 && (6 as bv8) & PERMISSION_EXECUTE != 0;
    assert (PAGE - 1) / PAGE == 0 && (PAGE - 1) % PAGE == PAGE - 1 && PAGE / PAGE == 1;
    assert Chunk(PAGE - 1, 2) == 1;
    assert ReadPrefix(v, PAGE, 1, DataWrite) == [];
    assert |ReadPrefix(v, PAGE - 1, 2, DataWrite)| == 1;
    assert ChangesCode(v, PAGE - 1, [1, 1], 0);
  }

  // ---------------------------------------------------------- page mappings

  function Zeros(): (z: seq<bv8>)
    ensures |z| == PAGE && forall i :: 0 <= i < PAGE ==> z[i] == 0
  {
    seq(PAGE, _ => 0)
  }

  /** The pages that a range of bytes covers, as the source rounds it. */
  function FirstPage(base: nat): nat { base / PAGE }
  function LastPage(base: nat, size: nat): nat { (base + size + PAGE - 1) / PAGE }

  /** Mapping adds zeroed pages and sets permissions; a page that was there keeps its bytes. */
  function MapPages(v: View, first: nat, last: nat, permissions: bv8): View
    decreases last
  {
    if last <= first then v
    else
      var w := MapPages(v, first, last - 1, permissions);
      w[last - 1 := Page(if last - 1 in w then w[last - 1].data else Zeros(), permissions)]
  }

  lemma MapNothing(v: View, first: nat, last: nat, permissions: bv8)
    ensures last <= first ==> MapPages(v, first, last, permissions) == v
  {}

  lemma MapNext(v: View, first: nat, page: nat, permissions: bv8)
    requires first <= page
    ensures MapPages(v, first, page + 1, permissions) == var w := MapPages(v, first, page, permissions);
      w[page := Page(if page in w then w[page].data else Zeros(), permissions)]
  {}

  function UnmapPages(v: View, first: nat, last: nat): View
    decreases last
  {
    if last <= first then v else UnmapPages(v, first, last - 1) - {last - 1}
  }

  function ReprotectPages(v: View, first: nat, last: nat, permissions: bv8): View
    decreases last
  {
    if last <= first then v
    else
      var w := ReprotectPages(v, first, last - 1, permissions);
      if last - 1 in w then w[last - 1 := Page(w[last - 1].data, permissions)] else w
  }

  /** What the three operations do to one page: outside the range nothing; inside, mapping keeps the bytes
      of a page that was there. */
  lemma {:induction false} MapAt(v: View, first: nat, last: nat, permissions: bv8, p: nat)
    ensures p in MapPages(v, first, last, permissions) <==> p in v || first <= p < last
    ensures p in MapPages(v, first, last, permissions) ==>
        MapPages(v, first, last, permissions)[p] == if first <= p < last then Page(if p in v then v[p].data else Zeros(), permissions) else v[p]
    decreases last
  {
    if first < last {
      MapAt(v, first, last - 1, permissions, p);
      MapAt(v, first, last - 1, permissions, last - 1);
    }
  }

  lemma {:induction false} UnmapAt(v: View, first: nat, last: nat, p: nat)
    ensures p in UnmapPages(v, first, last) <==> p in v && !(first <= p < last)
    ensures p in UnmapPages(v, first, last) ==> UnmapPages(v, first, last)[p] == v[p]
    decreases last
  {
    if first < last { UnmapAt(v, first, last - 1, p); }
  }

  lemma {:induction false} ReprotectAt(v: View, first: nat, last: nat, permissions: bv8, p: nat)
    ensures p in ReprotectPages(v, first, last, permissions) <==> p in v
    ensures p in v ==>
        ReprotectPages(v, first, last, permissions)[p] == if first <= p < last then Page(v[p].data, permissions) else v[p]
    decreases last
  {
    if first < last {
      ReprotectAt(v, first, last - 1, permissions, p);
      ReprotectAt(v, first, last - 1, permissions, last - 1);
    }
  }

  /** Page p has a byte in common with the range of `size` bytes from `base` on; an empty range inside a page counts as
      in that page. */
  predicate Meets(p: nat, base: nat, size: nat) { p * PAGE < base + size && base < p * PAGE + PAGE }

  lemma MeetsExactly(p: nat, base: nat, size: nat)
    ensures Meets(p, base, size) <==>
      (exists a :: base <= a < base + size && a / PAGE == p) || (size == 0 && base % PAGE != 0 && p == base / PAGE)
  {
    if Meets(p, base, size) && 0 < size {
      var a := if base <= p * PAGE then p * PAGE else base;
      assert base <= a < base + size && a / PAGE == p;
    }
  }

  /** The pages of a range as the source rounds it are those that the range meets. */
  lemma RoundedRange(p: nat, base: nat, size: nat)
    ensures FirstPage(base) <= p < LastPage(base, size) <==> Meets(p, base, size)
  {}

  /** The pages that the range does not meet are as before. */
  ghost predicate SameElsewhere(now: View, was: View, base: nat, size: nat) {
    forall p: nat :: !Meets(p, base, size) ==> (p in now <==> p in was) && (p in was ==> now[p] == was[p])
  }

  /** Every page of the range is there with the permissions; its bytes are kept, those of a new page are zero. */
  ghost predicate RangeMapped(now: View, was: View, base: nat, size: nat, permissions: bv8) {
    && SameElsewhere(now, was, base, size)
    && forall p: nat :: Meets(p, base, size) ==>
      p in now && now[p].permissions == permissions && now[p].data == if p in was then was[p].data else seq(PAGE, _ => 0)
  }

  ghost predicate RangeUnmapped(now: View, was: View, base: nat, size: nat) {
    SameElsewhere(now, was, base, size) && forall p: nat :: Meets(p, base, size) ==> p !in now
  }

  ghost predicate RangeReprotected(now: View, was: View, base: nat, size: nat, permissions: bv8) {
    && SameElsewhere(now, was, base, size)
    && forall p: nat :: Meets(p, base, size) ==>
      (p in now <==> p in was) && (p in was ==> now[p].permissions == permissions && now[p].data == was[p].data)
  }

  /** What the three operations do to a range of bytes. */
  lemma RangeOperations(v: View, base: nat, size: nat, permissions: bv8)
    ensures RangeMapped(MapPages(v, FirstPage(base), LastPage(base, size), permissions), v, base, size, permissions)
    ensures RangeUnmapped(UnmapPages(v, FirstPage(base), LastPage(base, size)), v, base, size)
    ensures RangeReprotected(ReprotectPages(v, FirstPage(base), LastPage(base, size), permissions), v, base, size, permissions)
  {
    hide MapPages, UnmapPages, ReprotectPages, FirstPage, LastPage, Meets;
    var first, last := FirstPage(base), LastPage(base, size);
    forall p: nat
      ensures Meets(p, base, size) <==> first <= p < last
      ensures p in MapPages(v, first, last, permissions) <==> p in v || first <= p < last
      ensures p in MapPages(v, first, last, permissions) ==>
        MapPages(v, first, last, permissions)[p] == if first <= p < last then Page(if p in v then v[p].data else Zeros(), permissions) else v[p]
      ensures p in UnmapPages(v, first, last) <==> p in v && !(first <= p < last)
      ensures p in UnmapPages(v, first, last) ==> UnmapPages(v, first, last)[p] == v[p]
      ensures p in ReprotectPages(v, first, last, permissions) <==> p in v
      ensures p in v ==>
        ReprotectPages(v, first, last, permissions)[p] == if first <= p < last then Page(v[p].data, permissions) else v[p]
    {
      RoundedRange(p, base, size);
      MapAt(v, first, last, permissions, p);
      UnmapAt(v, first, last, p);
      ReprotectAt(v, first, last, permissions, p);
    }
  }

  /** Byte by byte: after mapping, every byte of the range is mapped with the permissions and holds what it held, or
      zero; after unmapping, none is mapped; a byte of any other page is as before. */
  lemma RangeBytes(v: View, base: nat, size: nat, permissions: bv8, a: nat)
    requires base <= a < base + size
    ensures var w := MapPages(v, FirstPage(base), LastPage(base, size), permissions);
      a / PAGE in w && w[a / PAGE].permissions == permissions && ByteAt(w, a) == if Mapped(v, a) then ByteAt(v, a) else Some(0)
    ensures !Mapped(UnmapPages(v, FirstPage(base), LastPage(base, size)), a)
    ensures var w := ReprotectPages(v, FirstPage(base), LastPage(base, size), permissions);
      ByteAt(w, a) == ByteAt(v, a) && (a / PAGE in w ==> w[a / PAGE].permissions == permissions)
  {
    hide MapPages, UnmapPages, ReprotectPages, FirstPage, LastPage, Meets, SameElsewhere;
    RangeOperations(v, base, size, permissions);
    MeetsExactly(a / PAGE, base, size);
  }

  /** Unmapping a range after mapping it leaves only the pages outside. */
  lemma UnmapMap(v: View, first: nat, last: nat, permissions: bv8)
    ensures UnmapPages(MapPages(v, first, last, permissions), first, last) == UnmapPages(v, first, last)
  {
    var w := MapPages(v, first, last, permissions);
    forall p: nat ensures p in UnmapPages(w, first, last) <==> p in UnmapPages(v, first, last) {
      MapAt(v, first, last, permissions, p);
      UnmapAt(w, first, last, p);
      UnmapAt(v, first, last, p);
    }
    forall p: nat | p in UnmapPages(v, first, last) ensures UnmapPages(w, first, last)[p] == UnmapPages(v, first, last)[p] {
      MapAt(v, first, last, permissions, p);
      UnmapAt(w, first, last, p);
      UnmapAt(v, first, last, p);
    }
  }

  // -------------------------------------------------------------- snapshots

  datatype PageSnapshot = PageSnapshot(pageIndex: nat, page: Page)

  /** The pages of a list of snapshots; of two for the same page the first counts. */
  function FromSnapshots(s: seq<PageSnapshot>): View {
    if s == [] then map[] else FromSnapshots(s[1..])[s[0].pageIndex := s[0].page]
  }

  ghost predicate SortedSnapshots(s: seq<PageSnapshot>) {
    forall i, j :: 0 <= i < j < |s| ==> s[i].pageIndex < s[j].pageIndex
  }

  /** The list holds each page of the view once. */
  ghost predicate IsSnapshot(s: seq<PageSnapshot>, v: View) {
    && SortedSnapshots(s)
    && (forall i :: 0 <= i < |s| ==> s[i].pageIndex in v && v[s[i].pageIndex] == s[i].page)
    && (forall p :: p in v ==> exists i :: 0 <= i < |s| && s[i].pageIndex == p)
  }

  lemma {:induction false} SnapshotAt(s: seq<PageSnapshot>, p: nat)
    ensures p in FromSnapshots(s) <==> exists i :: 0 <= i < |s| && s[i].pageIndex == p
    ensures p in FromSnapshots(s) ==> exists i :: 0 <= i < |s| && s[i].pageIndex == p && s[i].page == FromSnapshots(s)[p]
  {
    if s != [] {
      SnapshotAt(s[1..], p);
      if i :| 0 <= i < |s| && s[i].pageIndex == p && i > 0 { assert s[1..][i - 1] == s[i]; }
      if i :| 0 <= i < |s[1..]| && s[1..][i].pageIndex == p && s[1..][i].page == FromSnapshots(s[1..])[p] { assert s[i + 1] == s[1..][i]; }
      if i :| 0 <= i < |s[1..]| && s[1..][i].pageIndex == p { assert s[i + 1] == s[1..][i]; }
    }
  }

  /** Restoring a snapshot gives back exactly the pages it was taken of. */
  lemma RestoreSnapshot(s: seq<PageSnapshot>, v: View)
    requires IsSnapshot(s, v)
    ensures FromSnapshots(s) == v
  {
    forall p ensures p in FromSnapshots(s) <==> p in v { if 0 <= p { SnapshotAt(s, p); } }
    forall p | p in v ensures FromSnapshots(s)[p] == v[p] { SnapshotAt(s, p); }
  }
}
