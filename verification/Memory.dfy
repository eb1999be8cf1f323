/** Guest memory: a sparse store of 64 KB pages (memoryLib/GuestMemory.cpp). */
module Memory {
  import opened Arithmetic

  const PAGE: nat := 0x1_0000

  type Page = s: seq<Cell> | |s| == PAGE
    witness seq(PAGE, i => 0)

  function ZeroPage(): Page { seq(PAGE, i => 0) }

  // ---- Little-endian values ----

  function Pow256(n: nat): (r: nat)
    ensures r >= 1
  {
    if n == 0 then 1 else 256 * Pow256(n - 1)
  }

  /** The value of the bytes, least significant first. */
  function Value(bs: seq<Cell>): nat {
    if bs == [] then 0 else bs[0] + 256 * Value(bs[1..])
  }

  /** The low n bytes of a value. */
  function LowBytes(v: nat, n: nat): (bs: seq<Cell>)
    ensures |bs| == n
    decreases n
  {
    if n == 0 then [] else [v % 256] + LowBytes(v / 256, n - 1)
  }

  lemma {:induction false} ValueOfLowBytes(v: nat, n: nat)
    ensures Value(LowBytes(v, n)) == v % Pow256(n)
    decreases n
  {
    if n > 0 {
      assert LowBytes(v, n)[1..] == LowBytes(v / 256, n - 1);
      ValueOfLowBytes(v / 256, n - 1);
      LowDigit(v, Pow256(n - 1));
    }
  }

  /** One more digit of a remainder. */
  lemma LowDigit(v: nat, p: Positive)
    ensures v % (256 * p) == v % 256 + 256 * (v / 256 % p)
  {
    var u := v / 256;
    Split(u, p);
    Regroup(u / p, p);
    QuotientIs(v, u / p, 256 * p);
  }

  lemma Regroup(q: nat, p: nat)
    ensures q * (256 * p) == 256 * (q * p)
  {
  }

  lemma {:induction false} ValueInjective(a: seq<Cell>, b: seq<Cell>)
    requires |a| == |b| && Value(a) == Value(b)
    ensures a == b
    decreases a
  {
    if a != [] {
      ValueInjective(a[1..], b[1..]);
      assert a == [a[0]] + a[1..] && b == [b[0]] + b[1..];
    }
  }

  // ---- The store, byte by byte ----

  /** The pages that have been allocated, and how many there can be. */
  datatype Store = Store(count: nat, pages: map<nat, Page>)

  /** An unallocated page, and an address past the last page, read as zero. */
  function ByteAt(m: Store, a: nat): Cell {
    if a / PAGE < m.count && a / PAGE in m.pages then m.pages[a / PAGE][a % PAGE] else 0
  }

  /** ensurePage. */
  function PageOf(m: Store, k: nat): Page { if k in m.pages then m.pages[k] else ZeroPage() }

  /** write1: past the last page it does nothing. */
  function PutByte(m: Store, a: nat, b: Cell): Store {
    if a / PAGE >= m.count then m
    else m.(pages := m.pages[a / PAGE := PageOf(m, a / PAGE)[a % PAGE := b]])
  }

  function GetBytes(m: Store, a: nat, n: nat): (bs: seq<Cell>)
    ensures |bs| == n
    ensures forall i | 0 <= i < n :: bs[i] == ByteAt(m, a + i)
    decreases n
  {
    if n == 0 then [] else [ByteAt(m, a)] + GetBytes(m, a + 1, n - 1)
  }

  function PutBytes(m: Store, a: nat, bs: seq<Cell>): Store
    decreases bs
  {
    if bs == [] then m else PutBytes(PutByte(m, a, bs[0]), a + 1, bs[1..])
  }

  predicate Backed(m: Store, a: nat) { a / PAGE < m.count }

  /** A memory of some size backs the addresses up to that size rounded up to
      whole 64 KB pages. */
  lemma BackedExtent(size: nat, a: nat)
    ensures Backed(Store((size + PAGE - 1) / PAGE, map[]), a) <==> a < (size + 0xFFFF) / 0x1_0000 * 0x1_0000
  {
  }

  lemma PutByteAt(m: Store, a: nat, b: Cell, x: nat)
    ensures ByteAt(PutByte(m, a, b), x) == if x == a && Backed(m, a) then b else ByteAt(m, x)
    ensures PutByte(m, a, b).count == m.count
  {
  }

  /** A store writes exactly the backed bytes of its range. */
  lemma {:induction false} PutBytesAt(m: Store, a: nat, bs: seq<Cell>, x: nat)
    ensures ByteAt(PutBytes(m, a, bs), x) == if a <= x < a + |bs| && Backed(m, x) then bs[x - a] else ByteAt(m, x)
    ensures PutBytes(m, a, bs).count == m.count
    decreases bs
  {
    if bs != [] {
      PutByteAt(m, a, bs[0], x);
      PutBytesAt(PutByte(m, a, bs[0]), a + 1, bs[1..], x);
    }
  }

  /** No page beyond the last one is ever allocated. */
  ghost predicate Contained(m: Store) { forall k | k in m.pages :: k < m.count }

  lemma {:induction false} PutBytesContained(m: Store, a: nat, bs: seq<Cell>)
    requires Contained(m)
    ensures Contained(PutBytes(m, a, bs))
    decreases bs
  {
    if bs != [] { PutBytesContained(PutByte(m, a, bs[0]), a + 1, bs[1..]); }
  }

  lemma GetAfterPut(m: Store, a: nat, bs: seq<Cell>)
    ensures forall i | 0 <= i < |bs| ::
              GetBytes(PutBytes(m, a, bs), a, |bs|)[i] == if Backed(m, a + i) then bs[i] else 0
  {
    forall i | 0 <= i < |bs|
      ensures GetBytes(PutBytes(m, a, bs), a, |bs|)[i] == if Backed(m, a + i) then bs[i] else 0
    {
      PutBytesAt(m, a, bs, a + i);
    }
  }

  /** Load after store: the value comes back if and only if every byte of it that
      falls past the last page is zero. */
  lemma LoadAfterStoreIff(m: Store, a: nat, v: nat, n: nat)
    ensures var r := PutBytes(m, a, LowBytes(v, n));
            Value(GetBytes(r, a, n)) == v % Pow256(n) <==>
            forall i | 0 <= i < n :: Backed(m, a + i) || LowBytes(v, n)[i] == 0
  {
    var bs := LowBytes(v, n);
    var r := PutBytes(m, a, bs);
    ValueOfLowBytes(v, n);
    GetAfterPut(m, a, bs);
    if forall i | 0 <= i < n :: Backed(m, a + i) || bs[i] == 0 {
      assert GetBytes(r, a, n) == bs;
    }
    if Value(GetBytes(r, a, n)) == Value(bs) {
      ValueInjective(GetBytes(r, a, n), bs);
    }
  }

  /** A load that does not overlap the store sees what it saw before. */
  lemma LoadElsewhere(m: Store, a: nat, bs: seq<Cell>, b: nat, n: nat)
    requires b + n <= a || a + |bs| <= b
    ensures GetBytes(PutBytes(m, a, bs), b, n) == GetBytes(m, b, n)
  {
    var r := PutBytes(m, a, bs);
    forall i | 0 <= i < n ensures GetBytes(r, b, n)[i] == GetBytes(m, b, n)[i] {
      PutBytesAt(m, a, bs, b + i);
    }
  }

  // ---- The in-page fast paths ----

  lemma SamePage(a: nat, i: nat)
    requires a % PAGE + i < PAGE
    ensures (a + i) / PAGE == a / PAGE && (a + i) % PAGE == a % PAGE + i
  {
  }

  /** Inside a page a load is a slice of it. */
  lemma GetInPage(m: Store, a: nat, n: nat)
    requires a % PAGE + n <= PAGE
    ensures GetBytes(m, a, n) ==
            if Backed(m, a) && a / PAGE in m.pages then m.pages[a / PAGE][a % PAGE..a % PAGE + n]
            else seq(n, i => 0)
  {
    var off := a % PAGE;
    forall i | 0 <= i < n
      ensures GetBytes(m, a, n)[i] == if Backed(m, a) && a / PAGE in m.pages then m.pages[a / PAGE][off + i] else 0
    {
      SamePage(a, i);
    }
  }

  /** A page with bytes laid over it. */
  function Splice(p: Page, off: nat, bs: seq<Cell>): Page
    requires off + |bs| <= PAGE
  {
    p[..off] + bs + p[off + |bs|..]
  }

  lemma SpliceFirst(p: Page, off: nat, bs: seq<Cell>)
    requires bs != [] && off + |bs| <= PAGE
    ensures Splice(p[off := bs[0]], off + 1, bs[1..]) == Splice(p, off, bs)
  {
  }

  /** Inside a page a store is one copy. */
  lemma {:induction false} PutInPage(m: Store, a: nat, bs: seq<Cell>)
    requires bs != [] && a % PAGE + |bs| <= PAGE
    ensures PutBytes(m, a, bs) ==
            if Backed(m, a) then m.(pages := m.pages[a / PAGE := Splice(PageOf(m, a / PAGE), a % PAGE, bs)]) else m
    decreases bs
  {
    var k, off, one := a / PAGE, a % PAGE, PutByte(m, a, bs[0]);
    if |bs| == 1 {
      assert bs[1..] == [];
      assert Splice(PageOf(m, k), off, bs) == PageOf(m, k)[off := bs[0]];
    } else {
      SamePage(a, 1);
      PutInPage(one, a + 1, bs[1..]);
      SpliceFirst(PageOf(m, k), off, bs);
      if Backed(m, a) {
        assert one.pages[k := Splice(PageOf(one, k), off + 1, bs[1..])] == m.pages[k := Splice(PageOf(m, k), off, bs)];
      }
    }
  }

  class GuestMemory {
    const pageCount: nat
    var pages: map<nat, Page>

    ghost function State(): Store
      reads this
    {
      Store(pageCount, pages)
    }

    constructor (sizeBytes: nat)
      ensures State() == Store((sizeBytes + PAGE - 1) / PAGE, map[]) && Contained(State())
    {
      pageCount := (sizeBytes + PAGE - 1) / PAGE;
      pages := map[];
    }

    method Read1(pa: nat) returns (b: Cell)
      ensures b == ByteAt(State(), pa)
    {
      if pa / PAGE >= pageCount || pa / PAGE !in pages { return 0; }
      return pages[pa / PAGE][pa % PAGE];
    }

    /** read2, read4 and read8: byte by byte across a page boundary, one copy
        inside a page. */
    method Read(pa: nat, n: nat) returns (v: nat)
      requires 1 <= n <= 8
      ensures v == Value(GetBytes(State(), pa, n))
    {
      var bs: seq<Cell> := [];
      if pa % PAGE > PAGE - n {
        for i := 0 to n
          invariant |bs| == i && forall j | 0 <= j < i :: bs[j] == ByteAt(State(), pa + j)
        {
          var b := Read1(pa + i);
          bs := bs + [b];
        }
        assert bs == GetBytes(State(), pa, n);
      } else {
        GetInPage(State(), pa, n);
        if pa / PAGE >= pageCount || pa / PAGE !in pages {
          bs := seq(n, i => 0);
        } else {
          bs := pages[pa / PAGE][pa % PAGE..pa % PAGE + n];
        }
      }
      v := Value(bs);
    }

    method Write1(pa: nat, b: Cell)
      modifies this
      ensures State() == PutByte(old(State()), pa, b)
    {
      if pa / PAGE >= pageCount { return; }
      var page := if pa / PAGE in pages then pages[pa / PAGE] else ZeroPage();
      pages := pages[pa / PAGE := page[pa % PAGE := b]];
    }

    /** Byte by byte, as across a page boundary. */
    method WriteEach(pa: nat, bs: seq<Cell>)
      modifies this
      ensures State() == PutBytes(old(State()), pa, bs)
    {
      for i := 0 to |bs|
        invariant PutBytes(State(), pa + i, bs[i..]) == PutBytes(old(State()), pa, bs)
      {
        assert bs[i..][1..] == bs[i + 1..];
        Write1(pa + i, bs[i]);
      }
    }

    /** One copy, as inside a page. */
    method WriteCopy(pa: nat, bs: seq<Cell>)
      requires bs != [] && pa % PAGE + |bs| <= PAGE
      modifies this
      ensures State() == PutBytes(old(State()), pa, bs)
    {
      PutInPage(State(), pa, bs);
      if pa / PAGE < pageCount {
        var page := if pa / PAGE in pages then pages[pa / PAGE] else ZeroPage();
        pages := pages[pa / PAGE := Splice(page, pa % PAGE, bs)];
      }
    }

    /** write2, write4 and write8. */
    method Write(pa: nat, n: nat, v: nat)
      requires 1 <= n <= 8
      modifies this
      ensures State() == PutBytes(old(State()), pa, LowBytes(v, n))
    {
      if pa % PAGE > PAGE - n {
        WriteEach(pa, LowBytes(v, n));
      } else {
        WriteCopy(pa, LowBytes(v, n));
      }
    }
  }
}
