/** CachedLegacyMemoryInterface: guest memory reached through a cache of host page
    pointers, in accesses of several widths. */
module GuestMemory {
  import opened Addresses
  import BinaryText
  import opened Common

  const CACHE_SIZE := 1024
  /** The tag of an unused entry: no page starts there. */
  const NO_TAG: Address := 1

  datatype Entry = Entry(tag: Address, data: array?<byte>)

  lemma AddAdd(a: Address, m: nat, n: nat)
    ensures Add(Add(a, m), n) == Add(a, m + n)
  {
  }

  lemma SameBase(t: Address, a: Address)
    requires PageOffset(t) == 0 && PageIndex(t) == PageIndex(a)
    ensures t == PageBase(a)
  {
  }

  lemma PageStart(a: Address)
    ensures PageIndex(PageBase(a)) == PageIndex(a) && PageOffset(PageBase(a)) == 0 && PageBase(a) != NO_TAG
  {
  }

  /** How far b is above a, around the end of the address space. */
  function Distance(a: Address, b: Address): (n: nat) {
    (b - a) % TWO_64
  }

  lemma DistanceOf(a: Address, b: Address, n: nat)
    requires n < TWO_64
    ensures Add(a, n) == b <==> Distance(a, b) == n
  {
  }

  /** An access that does not cross a page: its bytes lie side by side in it. */
  lemma WithinPage(a: Address, w: nat, i: nat)
    requires 0 < w <= PAGE_SIZE && PageIndex(a) == PageIndex(Add(a, w - 1)) && i < w
    ensures PageOffset(a) + w <= PAGE_SIZE
    ensures PageIndex(Add(a, i)) == PageIndex(a) && PageOffset(Add(a, i)) == PageOffset(a) + i
  {
    assert a == PAGE_SIZE * PageIndex(a) + PageOffset(a);
    assert a + w - 1 < TWO_64;
    assert Add(a, w - 1) == PAGE_SIZE * PageIndex(a) + PageOffset(Add(a, w - 1));
  }

  // ----- Little-endian words -----

  function Word(s: seq<byte>): (v: nat) {
    if s == [] then 0 else s[0] + 256 * Word(s[1..])
  }

  function Bytes(v: nat, w: nat): (s: seq<byte>)
    ensures |s| == w
  {
    if w == 0 then [] else [v % 256] + Bytes(v / 256, w - 1)
  }

  function Limit(w: nat): (n: nat)
    ensures n > 0
  {
    if w == 0 then 1 else 256 * Limit(w - 1)
  }

  lemma {:induction false} WordOfBytes(v: nat, w: nat)
    requires v < Limit(w)
    ensures Word(Bytes(v, w)) == v
    decreases w
  {
    if w > 0 {
      WordOfBytes(v / 256, w - 1);
      assert Bytes(v, w)[1..] == Bytes(v / 256, w - 1);
    }
  }

  lemma {:induction false} BytesOfWord(s: seq<byte>)
    ensures Word(s) < Limit(|s|) && Bytes(Word(s), |s|) == s
    decreases |s|
  {
    if s != [] {
      BytesOfWord(s[1..]);
      assert s == [s[0]] + s[1..];
      assert Word(s) % 256 == s[0] && Word(s) / 256 == Word(s[1..]);
    }
  }

  lemma DivLimit(v: nat, i: nat)
    ensures v / Limit(i + 1) == v / 256 / Limit(i)
  {
    var l := Limit(i);
    var q, r := v / 256 / l, v / 256 % l;
    assert v == 256 * (q * l + r) + v % 256;
    assert v == 256 * l * q + (256 * r + v % 256);
    BinaryText.DivModUnique(v, 256 * l, q, 256 * r + v % 256);
  }

  /** The byte at i has weight 256 to the i: the least significant one comes first. */
  lemma {:induction false} WordDigit(s: seq<byte>, i: nat)
    requires i < |s|
    ensures Word(s) / Limit(i) % 256 == s[i]
    decreases i
  {
    if i > 0 {
      WordDigit(s[1..], i - 1);
      DivLimit(Word(s), i - 1);
      assert Word(s) / 256 == Word(s[1..]);
    }
  }

  lemma {:induction false} BytesDigit(v: nat, w: nat, i: nat)
    requires i < w
    ensures Bytes(v, w)[i] == v / Limit(i) % 256
    decreases i
  {
    if i > 0 {
      BytesDigit(v / 256, w - 1, i - 1);
      DivLimit(v, i - 1);
    }
  }

  class CachedMemory {
    /** The host page that locking each guest page gives. */
    var pages: map<nat, array<byte>>
    const cache: array<Entry>

    /** Host pages are whole and distinct, and an entry in use is some host page, in the
        slot of its tag. */
    ghost predicate Sound()
      reads this`pages, cache
    {
      && cache.Length == CACHE_SIZE
      && (forall p :: p in pages ==> pages[p].Length == PAGE_SIZE)
      && (forall p, q :: p in pages && q in pages && p != q ==> pages[p] != pages[q])
      && forall i :: 0 <= i < CACHE_SIZE ==> Slotted(cache[i], i)
    }

    ghost predicate Slotted(e: Entry, i: nat) {
      e.tag == NO_TAG || (PageOffset(e.tag) == 0 && PageIndex(e.tag) % CACHE_SIZE == i
                          && e.data != null && e.data.Length == PAGE_SIZE)
    }

    /** ... and it is the host page that its tag has now. */
    ghost predicate Valid()
      reads this`pages, cache
    {
      Sound() && forall i :: 0 <= i < CACHE_SIZE ==> Right(cache[i])
    }

    ghost predicate Right(e: Entry)
      reads this`pages
    {
      e.tag == NO_TAG || e.data == Current(e.tag)
    }

    /** The host page an address has now, if any. */
    ghost function Current(a: Address): (page: array?<byte>)
      reads this`pages
    {
      if Mapped(a) then pages[PageIndex(a)] else null
    }

    predicate Cached(a: Address)
      requires cache.Length == CACHE_SIZE
      reads cache
    {
      cache[PageIndex(a) % CACHE_SIZE].tag == PageBase(a)
    }

    /** The host page an access to an address goes to. */
    ghost function Seen(a: Address): (page: array?<byte>)
      requires cache.Length == CACHE_SIZE
      reads this`pages, cache
    {
      if Cached(a) then cache[PageIndex(a) % CACHE_SIZE].data else Current(a)
    }

    /** Every access goes to the page its address has now if and only if no entry is stale. */
    lemma SeenIsCurrent()
      requires Sound()
      ensures Valid() <==> forall a: Address :: Seen(a) == Current(a)
    {
      if Valid() {
        forall a: Address ensures Seen(a) == Current(a) {
          PageStart(a);
          SamePage(a);
          assert Right(cache[PageIndex(a) % CACHE_SIZE]);
        }
      }
      if forall a: Address :: Seen(a) == Current(a) {
        forall i: nat | i < CACHE_SIZE ensures Right(cache[i]) {
          assert Slotted(cache[i], i);
          if cache[i].tag != NO_TAG {
            assert Cached(cache[i].tag);
            assert Seen(cache[i].tag) == Current(cache[i].tag);
          }
        }
      }
    }

    lemma SamePage(a: Address)
      ensures Current(PageBase(a)) == Current(a)
    {
      PageStart(a);
    }

    ghost function Host(): (r: set<array<byte>>)
      reads this`pages
    {
      set p | p in pages :: pages[p]
    }

    predicate Mapped(a: Address)
      reads this`pages
    {
      PageIndex(a) in pages
    }

    /** The flat memory behind the cache. */
    ghost function Flat(a: Address): (b: byte)
      reads this`pages, Host()
    {
      if Mapped(a) && pages[PageIndex(a)].Length == PAGE_SIZE then pages[PageIndex(a)][PageOffset(a)] else 0
    }

    ghost function FlatBytes(a: Address, n: nat): (s: seq<byte>)
      reads this`pages, Host()
      ensures |s| == n && forall i :: 0 <= i < n ==> s[i] == Flat(Add(a, i))
    {
      if n == 0 then [] else FlatBytes(a, n - 1) + [Flat(Add(a, n - 1))]
    }

    ghost predicate AllMapped(a: Address, n: nat)
      reads this`pages
    {
      forall i :: 0 <= i < n ==> Mapped(Add(a, i))
    }

    /** Flat memory is what it was, with the first n of the bytes written at a. */
    twostate predicate Written(a: Address, bytes: seq<byte>, n: nat)
      requires n <= |bytes|
      reads this`pages, Host()
    {
      forall b: Address :: Flat(b) == if Distance(a, b) < n then bytes[Distance(a, b)] else old(Flat(b))
    }

    constructor (pages: map<nat, array<byte>>)
      requires forall p :: p in pages ==> pages[p].Length == PAGE_SIZE
      requires forall p, q :: p in pages && q in pages && p != q ==> pages[p] != pages[q]
      ensures Valid() && this.pages == pages && fresh(cache)
    {
      this.pages := pages;
      cache := new Entry[CACHE_SIZE](i => Entry(NO_TAG, null));
    }

    /** Whatever the entries held, from here on every access goes to the current page. */
    method Invalidate()
      requires Sound()
      modifies cache
      ensures Valid() && forall i :: 0 <= i < CACHE_SIZE ==> cache[i] == Entry(NO_TAG, null)
    {
      for i := 0 to CACHE_SIZE
        invariant Sound() && forall k :: 0 <= k < i ==> cache[k] == Entry(NO_TAG, null)
      {
        cache[i] := Entry(NO_TAG, null);
      }
    }

    /** The memory model gives a page another host page; the cache does not hear of it. */
    method Remap(a: Address, host: array<byte>)
      requires Sound() && host.Length == PAGE_SIZE && forall q :: q in pages && q != PageIndex(a) ==> pages[q] != host
      modifies this`pages
      ensures Sound() && pages == old(pages)[PageIndex(a) := host]
      ensures forall b: Address :: Seen(b) == if PageIndex(b) == PageIndex(a) && !Cached(b) then host else old(Seen(b))
      ensures old(Valid()) ==> (Valid() <==> !Cached(a) || old(Current(a)) == host)
    {
      ghost var was, valid := pages, Valid();
      assert valid ==> forall i :: 0 <= i < CACHE_SIZE ==> Slotted(cache[i], i) && Right(cache[i]);
      pages := pages[PageIndex(a) := host];
      if valid {
        Stale(a, was, host);
      }
    }

    /** After one page has changed, an entry is stale just when it is that page's. */
    lemma Stale(a: Address, was: map<nat, array<byte>>, host: array<byte>)
      requires Sound() && pages == was[PageIndex(a) := host]
      requires forall i :: 0 <= i < CACHE_SIZE && cache[i].tag != NO_TAG ==>
        PageIndex(cache[i].tag) in was && cache[i].data == was[PageIndex(cache[i].tag)]
      ensures Valid() <==> !Cached(a) || (PageIndex(a) in was && was[PageIndex(a)] == host)
    {
      PageStart(a);
      var slot := PageIndex(a) % CACHE_SIZE;
      forall i: nat | i < CACHE_SIZE && cache[i].tag != NO_TAG && PageIndex(cache[i].tag) == PageIndex(a)
        ensures i == slot && cache[i].tag == PageBase(a)
      {
        assert Slotted(cache[i], i);
        SameBase(cache[i].tag, a);
      }
      if Valid() {
        assert Right(cache[slot]);
      }
    }

    /** The host page an access goes to; null stands for the exception when the page cannot
        be locked. */
    method GetPtr(a: Address) returns (page: array?<byte>)
      requires Sound()
      modifies cache
      ensures Sound() && page == old(Seen(a)) && (page != null ==> page.Length == PAGE_SIZE)
      ensures cache[..] == if page == null then old(cache[..]) else old(cache[..])[PageIndex(a) % CACHE_SIZE := Entry(PageBase(a), page)]
      ensures old(Valid()) ==> Valid() && page == Current(a)
    {
      PageStart(a);
      SamePage(a);
      hide PageIndex, PageBase, PageOffset;
      var index := PageIndex(a) % CACHE_SIZE;
      assert Slotted(cache[index], index);
      if cache[index].tag != PageBase(a) {
        if !Mapped(a) {
          return null;
        }
        cache[index] := Entry(PageBase(a), pages[PageIndex(a)]);
      }
      page := cache[index].data;
    }

    /** The byte of the page the access goes to; with no entry stale, the flat byte. */
    method Read8(a: Address) returns (ok: bool, v: byte)
      requires Sound()
      modifies cache
      ensures Sound() && ok == (old(Seen(a)) != null)
      ensures ok ==> old(Seen(a)).Length == PAGE_SIZE && v == old(Seen(a))[PageOffset(a)]
      ensures old(Valid()) ==> Valid() && ok == Mapped(a) && (ok ==> v == Flat(a))
    {
      var page := GetPtr(a);
      if page == null {
        return false, 0;
      }
      return true, page[PageOffset(a)];
    }

    method Write8(a: Address, v: byte) returns (ok: bool)
      requires Valid()
      modifies cache, Host()
      ensures Valid() && ok == Mapped(a)
      ensures forall b: Address :: Flat(b) == if ok && b == a then v else old(Flat(b))
    {
      var page := GetPtr(a);
      if page == null {
        return false;
      }
      page[PageOffset(a)] := v;
      return true;
    }

    /** Byte by byte, as accesses that cross a page go. */
    method ReadBytes(a: Address, n: nat) returns (ok: bool, s: seq<byte>)
      requires Valid()
      modifies cache
      ensures Valid() && ok == AllMapped(a, n) && (ok ==> s == FlatBytes(a, n))
    {
      s := [];
      for i := 0 to n
        invariant Valid() && AllMapped(a, i) && s == FlatBytes(a, i)
      {
        var done, v := Read8(Add(a, i));
        if !done {
          return false, s;
        }
        s := s + [v];
      }
      return true, s;
    }

    /** Byte by byte; the bytes before the first that cannot be written are written. */
    method WriteBytes(a: Address, bytes: seq<byte>) returns (done: nat)
      requires Valid() && |bytes| < TWO_64
      modifies cache, Host()
      ensures Valid() && done <= |bytes| && AllMapped(a, done)
      ensures done < |bytes| ==> !Mapped(Add(a, done))
      ensures Written(a, bytes, done)
    {
      done := 0;
      while done < |bytes|
        invariant done <= |bytes| && Valid() && AllMapped(a, done) && Written(a, bytes, done)
      {
        var ok := Write8(Add(a, done), bytes[done]);
        if !ok {
          return;
        }
        forall b: Address ensures Distance(a, b) == done <==> b == Add(a, done) {
          DistanceOf(a, b, done);
        }
        done := done + 1;
      }
    }

    /** Read16, Read32 and Read64 (w bytes), and Read8 for one. */
    method ReadWord(a: Address, w: nat) returns (ok: bool, v: nat)
      requires Valid() && 0 < w <= 8
      modifies cache
      ensures Valid() && ok == AllMapped(a, w) && (ok ==> v == Word(FlatBytes(a, w)))
    {
      var s;
      if PageIndex(a) != PageIndex(Add(a, w - 1)) {
        ok, s := ReadBytes(a, w);
        return ok, Word(s);
      }
      forall i: nat | i < w ensures PageOffset(a) + w <= PAGE_SIZE && PageIndex(Add(a, i)) == PageIndex(a)
        && PageOffset(Add(a, i)) == PageOffset(a) + i
      {
        WithinPage(a, w, i);
      }
      assert Add(a, 0) == a;
      var page := GetPtr(a);
      if page == null {
        return false, 0;
      }
      WithinPage(a, w, 0);
      s := page[PageOffset(a)..PageOffset(a) + w];
      assert s == FlatBytes(a, w);
      return true, Word(s);
    }

    /** Write16, Write32 and Write64 (w bytes), and Write8 for one. */
    method WriteWord(a: Address, w: nat, v: nat) returns (done: nat)
      requires Valid() && 0 < w <= 8 && v < Limit(w)
      modifies cache, Host()
      ensures Valid() && done <= w && AllMapped(a, done) && (done < w ==> !Mapped(Add(a, done)))
      ensures Written(a, Bytes(v, w), done)
    {
      if PageIndex(a) != PageIndex(Add(a, w - 1)) {
        done := WriteBytes(a, Bytes(v, w));
      } else {
        done := WriteInPage(a, Bytes(v, w));
      }
    }

    method WriteInPage(a: Address, bytes: seq<byte>) returns (done: nat)
      requires Valid() && 0 < |bytes| <= 8 && PageIndex(a) == PageIndex(Add(a, |bytes| - 1))
      modifies cache, Host()
      ensures Valid() && done <= |bytes| && AllMapped(a, done) && (done < |bytes| ==> !Mapped(Add(a, done)))
      ensures Written(a, bytes, done)
    {
      assert Add(a, 0) == a;
      hide Add, Distance, PageIndex, PageOffset, PageBase;
      var w, at := |bytes|, PageOffset(a);
      forall i: nat | i < w ensures PageOffset(a) + w <= PAGE_SIZE && PageIndex(Add(a, i)) == PageIndex(a) {
        WithinPage(a, w, i);
      }
      var page := GetPtr(a);
      if page == null {
        return 0;
      }
      WithinPage(a, w, 0);
      forall k | at <= k < at + w {
        page[k] := bytes[k - at];
      }
      forall b: Address ensures (PageIndex(b) == PageIndex(a) && at <= PageOffset(b) < at + w) <==> Distance(a, b) < w {
        InAccess(a, w, b);
      }
      forall b: Address | Distance(a, b) < w ensures PageOffset(b) - at == Distance(a, b) {
        InAccess(a, w, b);
      }
      return w;
    }

    lemma {:induction false} FlatSplit(a: Address, m: nat, n: nat)
      ensures FlatBytes(a, m + n) == FlatBytes(a, m) + FlatBytes(Add(a, m), n)
      ensures AllMapped(a, m + n) <==> AllMapped(a, m) && AllMapped(Add(a, m), n)
      decreases n
    {
      if n > 0 {
        FlatSplit(a, m, n - 1);
        AddAdd(a, m, n - 1);
        MappedLast(a, m + n);
        MappedLast(Add(a, m), n);
        hide Add, AllMapped, Mapped, Flat;
      }
    }

    lemma MappedLast(a: Address, n: nat)
      requires n > 0
      ensures AllMapped(a, n) <==> AllMapped(a, n - 1) && Mapped(Add(a, n - 1))
    {
    }

    /** One step of Read: a word of w bytes after the n that are there. */
    method ReadStep(a: Address, w: nat, s: seq<byte>) returns (ok: bool, r: seq<byte>)
      requires Valid() && 0 < w <= 8 && s == FlatBytes(a, |s|) && AllMapped(a, |s|)
      modifies cache
      ensures Valid() && ok == AllMapped(a, |s| + w) && (ok ==> r == FlatBytes(a, |s| + w))
    {
      hide Valid, FlatBytes, AllMapped, Bytes, Word, Add;
      var v;
      ok, v := ReadWord(Add(a, |s|), w);
      FlatSplit(a, |s|, w);
      BytesOfWord(FlatBytes(Add(a, |s|), w));
      assert forall i :: 0 <= i < |s| ==> Flat(Add(a, i)) == old(Flat(Add(a, i)));
      r := s + Bytes(v, w);
    }

    /** The loop of Read for one width: words as long as there is room for one. */
    method ReadSteps(a: Address, w: nat, size: nat, s0: seq<byte>) returns (ok: bool, s: seq<byte>)
      requires Valid() && 0 < w <= 8 && |s0| <= size && s0 == FlatBytes(a, |s0|) && AllMapped(a, |s0|)
      modifies cache
      ensures Valid() && (ok ==> size - w < |s| <= size && s == FlatBytes(a, |s|) && AllMapped(a, |s|))
      ensures !ok ==> !AllMapped(a, size)
    {
      hide Valid, FlatBytes, Flat, Mapped;
      s, ok := s0, true;
      while size - |s| >= w
        invariant Valid() && |s| <= size && s == FlatBytes(a, |s|) && AllMapped(a, |s|) && ok
        decreases size - |s|
      {
        ok, s := ReadStep(a, w, s);
        if !ok {
          return;
        }
      }
    }

    /** MemoryInterface::Read: steps of eight, then four, then one, give the flat bytes. */
    method Read(a: Address, size: nat) returns (ok: bool, s: seq<byte>)
      requires Valid()
      modifies cache
      ensures Valid() && ok == AllMapped(a, size) && (ok ==> s == FlatBytes(a, size))
    {
      hide Valid, AllMapped;
      NoBytes(a);
      ok, s := ReadSteps(a, 8, size, []);
      if ok {
        ok, s := ReadSteps(a, 4, size, s);
      }
      if ok {
        ok, s := ReadSteps(a, 1, size, s);
      }
    }

    lemma NoBytes(a: Address)
      ensures FlatBytes(a, 0) == [] && AllMapped(a, 0)
    {
    }

    // ----- Whole runs -----

    ghost function FlatMemory(): (m: Memory)
      reads this`pages, Host()
    {
      imap b: Address :: Flat(b)
    }

    /** Accesses of sixteen bytes always go byte by byte. */
    method PerformRead(a: Address, w: nat) returns (r: Answer)
      requires Valid() && (0 < w <= 8 || w == 16)
      modifies cache
      ensures Valid() && r == Expected(Access.Read(a, w), FlatMemory(), pages.Keys)
    {
      hide Load, FirstUnmapped, FlatBytes, AllMapped, Valid;
      var ok, s, v;
      if w == 16 {
        ok, s := ReadBytes(a, w);
        v := Word(s);
      } else {
        ok, v := ReadWord(a, w);
      }
      LoadsSame(a, w);
      MappedSame(a, w);
      r := if ok then Value(v) else Error;
    }

    method PerformWrite(a: Address, w: nat, v: nat) returns (r: Answer)
      requires Valid() && (0 < w <= 8 || w == 16) && v < Limit(w)
      modifies cache, Host()
      ensures Valid() && r == Expected(Access.Write(a, w, v), old(FlatMemory()), pages.Keys)
      ensures FlatMemory() == After(Access.Write(a, w, v), old(FlatMemory()), pages.Keys)
    {
      hide Valid, FirstUnmapped, Bytes, Limit;
      var done;
      if w == 16 {
        done := WriteBytes(a, Bytes(v, w));
      } else {
        done := WriteWord(a, w, v);
      }
      FirstUnmappedIs(a, w, done);
      r := if done == w then Ok else Error;
    }

    method Perform(op: Access) returns (r: Answer)
      requires Valid() && op.Sound()
      modifies cache, Host()
      ensures Valid() && r == Expected(op, old(FlatMemory()), pages.Keys) && FlatMemory() == After(op, old(FlatMemory()), pages.Keys)
    {
      hide Valid;
      match op {
        case Read(a, w) => r := PerformRead(a, w);
        case Write(a, w, v) => r := PerformWrite(a, w, v);
        case Invalidate =>
          ValidIsSound();
          Invalidate();
          r := Ok;
      }
    }

    lemma ValidIsSound()
      requires Valid()
      ensures Sound()
    {
    }

    lemma {:induction false} LoadsSame(a: Address, n: nat)
      ensures FlatBytes(a, n) == Load(FlatMemory(), a, n)
    {
      if n > 0 {
        LoadsSame(a, n - 1);
      }
    }

    lemma {:induction false} MappedSame(a: Address, n: nat)
      ensures AllMapped(a, n) <==> FirstUnmapped(pages.Keys, a, n) == n
    {
      if n > 0 {
        MappedSame(a, n - 1);
      }
    }

    lemma {:induction false} FirstUnmappedIs(a: Address, n: nat, k: nat)
      requires k <= n && AllMapped(a, k) && (k < n ==> !Mapped(Add(a, k)))
      ensures FirstUnmapped(pages.Keys, a, n) == k
      decreases n
    {
      if n > 0 {
        if k < n {
          FirstUnmappedIs(a, n - 1, k);
        } else {
          FirstUnmappedIs(a, n - 1, n - 1);
        }
      }
    }

    /** Every run of accesses and invalidations answers as flat memory does. */
    method PerformAll(ops: seq<Access>) returns (answers: seq<Answer>)
      requires Valid() && forall i :: 0 <= i < |ops| ==> ops[i].Sound()
      modifies cache, Host()
      ensures Valid() && answers == Answers(ops, old(FlatMemory()), pages.Keys)
      ensures FlatMemory() == AfterAll(ops, old(FlatMemory()), pages.Keys)
    {
      answers := [];
      for i := 0 to |ops|
        invariant Valid()
        invariant answers == Answers(ops[..i], old(FlatMemory()), pages.Keys)
        invariant FlatMemory() == AfterAll(ops[..i], old(FlatMemory()), pages.Keys)
      {
        var r := Perform(ops[i]);
        answers := answers + [r];
        assert ops[..i + 1][..i] == ops[..i];
      }
      assert ops[..|ops|] == ops;
    }
  }

  // ----- Flat memory by itself -----

  type Memory = imap<Address, byte>

  datatype Access = Read(a: Address, w: nat) | Write(a: Address, w: nat, v: nat) | Invalidate {
    predicate Sound() {
      !Invalidate? ==> (0 < w <= 8 || w == 16) && (Write? ==> v < Limit(w))
    }
  }

  datatype Answer = Value(v: nat) | Ok | Error

  ghost function Load(m: Memory, a: Address, n: nat): (s: seq<byte>) {
    if n == 0 then [] else Load(m, a, n - 1) + [if Add(a, n - 1) in m then m[Add(a, n - 1)] else 0]
  }

  /** How many of n bytes from a on can be reached before one that is on no page. */
  ghost function FirstUnmapped(pages: set<nat>, a: Address, n: nat): (k: nat)
    ensures k <= n
  {
    if n == 0 then 0 else
      var k := FirstUnmapped(pages, a, n - 1);
      if k == n - 1 && PageIndex(Add(a, n - 1)) in pages then n else k
  }

  ghost function Store(m: Memory, a: Address, bytes: seq<byte>, n: nat): (r: Memory)
    requires n <= |bytes|
  {
    imap b: Address :: if Distance(a, b) < n then bytes[Distance(a, b)] else if b in m then m[b] else 0
  }

  ghost function Expected(op: Access, m: Memory, pages: set<nat>): (r: Answer) {
    match op
    case Read(a, w) => if FirstUnmapped(pages, a, w) == w then Value(Word(Load(m, a, w))) else Error
    case Write(a, w, v) => if FirstUnmapped(pages, a, w) == w then Ok else Error
    case Invalidate => Ok
  }

  ghost function After(op: Access, m: Memory, pages: set<nat>): (r: Memory) {
    match op
    case Write(a, w, v) => Store(m, a, Bytes(v, w), FirstUnmapped(pages, a, w))
    case _ => m
  }

  ghost function AfterAll(ops: seq<Access>, m: Memory, pages: set<nat>): (r: Memory) {
    if ops == [] then m else After(ops[|ops| - 1], AfterAll(ops[..|ops| - 1], m, pages), pages)
  }

  ghost function Answers(ops: seq<Access>, m: Memory, pages: set<nat>): (r: seq<Answer>) {
    if ops == [] then [] else
      Answers(ops[..|ops| - 1], m, pages) + [Expected(ops[|ops| - 1], AfterAll(ops[..|ops| - 1], m, pages), pages)]
  }

  ghost predicate Reachable(pages: set<nat>, a: Address, n: nat) {
    forall i :: 0 <= i < n ==> PageIndex(Add(a, i)) in pages
  }

  lemma {:induction false} FirstUnmappedMeans(pages: set<nat>, a: Address, n: nat)
    ensures var k := FirstUnmapped(pages, a, n);
      Reachable(pages, a, k) && (k < n ==> PageIndex(Add(a, k)) !in pages)
    decreases n
  {
    if n > 0 {
      FirstUnmappedMeans(pages, a, n - 1);
    }
  }

  ghost function At(m: Memory, a: Address): (v: byte) {
    if a in m then m[a] else 0
  }

  lemma {:induction false} LoadAt(m: Memory, a: Address, n: nat, i: nat)
    requires i < n
    ensures |Load(m, a, n)| == n && Load(m, a, n)[i] == At(m, Add(a, i))
    decreases n
  {
    hide Add;
    if i < n - 1 {
      LoadAt(m, a, n - 1, i);
    } else if n > 1 {
      LoadAt(m, a, n - 1, 0);
    }
  }

  /** A read fails if and only if some byte of it is on no page; otherwise the byte at a + i
      has weight 256 to the i in what it gives. */
  lemma ReadExpected(a: Address, w: nat, m: Memory, pages: set<nat>)
    requires 0 < w
    ensures var r := Expected(Read(a, w), m, pages);
      && (r == Error <==> !Reachable(pages, a, w))
      && (r != Error ==> r.Value? && r.v < Limit(w) && forall i: nat :: i < w ==> r.v / Limit(i) % 256 == At(m, Add(a, i)))
  {
    hide Load, Word, Limit, FirstUnmapped;
    FirstUnmappedMeans(pages, a, w);
    var s := Load(m, a, w);
    LoadAt(m, a, w, 0);
    BytesOfWord(s);
    forall i: nat | i < w ensures Word(s) / Limit(i) % 256 == At(m, Add(a, i)) {
      LoadAt(m, a, w, i);
      WordDigit(s, i);
    }
  }

  /** A write changes the byte at a + i to the digit of weight 256 to the i, for all bytes
      before the first that is on no page, and no other byte; it fails if there is one. */
  lemma WriteExpected(a: Address, w: nat, v: nat, m: Memory, pages: set<nat>, b: Address)
    ensures Expected(Write(a, w, v), m, pages) == if Reachable(pages, a, w) then Ok else Error
    ensures var i := Distance(a, b);
      At(After(Write(a, w, v), m, pages), b) ==
        if i < w && Reachable(pages, a, i + 1) then v / Limit(i) % 256 else At(m, b)
  {
    hide Bytes, Limit, FirstUnmapped, Add, Distance;
    FirstUnmappedMeans(pages, a, w);
    var i, k := Distance(a, b), FirstUnmapped(pages, a, w);
    if i < w {
      BytesDigit(v, w, i);
      if k <= i {
        assert PageIndex(Add(a, k)) !in pages;
      }
    }
  }

  /** A word written where there is memory is read back. */
  lemma WriteThenRead(a: Address, w: nat, v: nat, m: Memory, pages: set<nat>)
    requires w <= 16 && v < Limit(w) && FirstUnmapped(pages, a, w) == w
    ensures Expected(Read(a, w), After(Write(a, w, v), m, pages), pages) == Value(v)
  {
    var bytes := Bytes(v, w);
    LoadStored(m, a, bytes, w);
    assert bytes[..w] == bytes;
    WordOfBytes(v, w);
  }

  lemma {:induction false} LoadStored(m: Memory, a: Address, bytes: seq<byte>, n: nat)
    requires n <= |bytes| <= 16
    ensures Load(Store(m, a, bytes, |bytes|), a, n) == bytes[..n]
  {
    if n > 0 {
      LoadStored(m, a, bytes, n - 1);
      DistanceOf(a, Add(a, n - 1), n - 1);
    }
  }

  /** Which addresses an access within a page reaches. */
  lemma InAccess(a: Address, w: nat, b: Address)
    requires 0 < w <= PAGE_SIZE && PageIndex(a) == PageIndex(Add(a, w - 1))
    ensures (PageIndex(b) == PageIndex(a) && PageOffset(a) <= PageOffset(b) < PageOffset(a) + w) <==> Distance(a, b) < w
    ensures Distance(a, b) < w ==> PageOffset(b) - PageOffset(a) == Distance(a, b)
  {
    WithinPage(a, w, 0);
    if Distance(a, b) < w {
      DistanceOf(a, b, Distance(a, b));
      WithinPage(a, w, Distance(a, b));
    }
    if PageIndex(b) == PageIndex(a) && PageOffset(a) <= PageOffset(b) < PageOffset(a) + w {
      WithinPage(a, w, PageOffset(b) - PageOffset(a));
      assert b == PAGE_SIZE * PageIndex(b) + PageOffset(b) && a == PAGE_SIZE * PageIndex(a) + PageOffset(a);
      DistanceOf(a, b, PageOffset(b) - PageOffset(a));
    }
  }
}
