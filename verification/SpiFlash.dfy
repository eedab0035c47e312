/**
 A NOR flash chip behind its driver. Programming can only clear bits and wraps inside one 256-byte page;
 erasing sets a whole sector to ones; every page program is verified by reading it back.
 */
module SpiFlash {
  import opened Bits

  const PAGE_SIZE := 0x100
  const SECTOR_SIZE := 0x1000
  const MAX_CAPACITY := 0x100_0000

  type Error = nat
  const ERROR_NONE: Error := 0x0
  const ERROR_MISALIGNED_PAGE: Error := 0x1
  const ERROR_LARGER_THAN_PAGE: Error := 0x2
  const ERROR_VERIFY_FAILED: Error := 0x4

  // ---------- The chip ----------

  /** The byte at q after programming data at address: bits are only cleared, and the address wraps inside its page. */
  function ProgrammedByte(m: seq<byte>, address: nat, data: seq<byte>, q: nat): (b: byte)
    requires q < |m|
  {
    var i := (q - address) % PAGE_SIZE;
    if q / PAGE_SIZE == address / PAGE_SIZE && i < |data| then AndByte(m[q], data[i]) else m[q]
  }

  function AndByte(x: byte, y: byte): byte {
    AndBound(x, y);
    And(x, y)
  }

  function Programmed(m: seq<byte>, address: nat, data: seq<byte>): (r: seq<byte>)
    ensures |r| == |m|
  {
    seq(|m|, q requires 0 <= q < |m| => ProgrammedByte(m, address, data, q))
  }

  function Ones(n: nat): (s: seq<byte>)
    ensures |s| == n && forall i :: 0 <= i < n ==> s[i] == 0xFF
  {
    if n == 0 then [] else [0xFF] + Ones(n - 1)
  }

  function Overwrite(m: seq<byte>, address: nat, data: seq<byte>): (r: seq<byte>)
    requires address + |data| <= |m|
    ensures |r| == |m|
  {
    m[..address] + data + m[address + |data|..]
  }

  // ---------- Writing ----------

  /** What `write` leaves in the chip and returns: page after page until one does not read back. */
  function WritePages(m: seq<byte>, address: nat, data: seq<byte>): (seq<byte>, Error)
    requires address + |data| <= |m|
    decreases |data|
  {
    if data == [] then (m, ERROR_NONE)
    else
      var n := if |data| < PAGE_SIZE then |data| else PAGE_SIZE;
      var m' := Programmed(m, address, data[..n]);
      if m'[address..address + n] != data[..n] then (m', ERROR_VERIFY_FAILED)
      else WritePages(m', address + n, data[n..])
  }

  function WriteResult(m: seq<byte>, address: nat, data: seq<byte>): (seq<byte>, Error)
    requires address + |data| <= |m|
  {
    if address % PAGE_SIZE != 0 && |data| > PAGE_SIZE then (m, ERROR_MISALIGNED_PAGE) else WritePages(m, address, data)
  }

  /** The data stays on the pages from its start on, without wrapping. */
  predicate NoWrap(address: nat, data: seq<byte>) {
    address % PAGE_SIZE == 0 || address % PAGE_SIZE + |data| <= PAGE_SIZE
  }

  /** The byte can be stored over the old one: no bit has to be set. */
  predicate Clears(before: byte, b: byte) {
    AndByte(before, b) == b
  }

  lemma {:induction false} WritePagesLength(m: seq<byte>, address: nat, data: seq<byte>)
    requires address + |data| <= |m|
    ensures |WritePages(m, address, data).0| == |m|
    decreases |data|
  {
    if data == [] {
    } else {
      var n := if |data| < PAGE_SIZE then |data| else PAGE_SIZE;
      var m' := Programmed(m, address, data[..n]);
      if m'[address..address + n] == data[..n] {
        WritePagesLength(m', address + n, data[n..]);
      }
    }
  }

  lemma ProgrammedOutside(m: seq<byte>, address: nat, data: seq<byte>, q: nat)
    requires NoWrap(address, data) && |data| <= PAGE_SIZE && q < |m|
    requires q < address || address + |data| <= q
    ensures Programmed(m, address, data)[q] == m[q]
  {
  }

  lemma ProgrammedInside(m: seq<byte>, address: nat, data: seq<byte>, i: nat)
    requires |data| <= PAGE_SIZE && i < |data| && address + i < |m|
    ensures Programmed(m, address, data)[address + i] ==
            if address % PAGE_SIZE + i < PAGE_SIZE then AndByte(m[address + i], data[i]) else m[address + i]
  {
    assert i < PAGE_SIZE ==> i % PAGE_SIZE == i;
  }

  /** A page that reads back as written was stored in place, and nothing else was touched. */
  lemma PageStored(m: seq<byte>, address: nat, page: seq<byte>)
    requires NoWrap(address, page) && |page| <= PAGE_SIZE && address + |page| <= |m|
    requires Programmed(m, address, page)[address..address + |page|] == page
    ensures Programmed(m, address, page) == Overwrite(m, address, page)
  {
    var m', r := Programmed(m, address, page), Overwrite(m, address, page);
    forall q | 0 <= q < |m|
      ensures m'[q] == r[q]
    {
      if address <= q < address + |page| {
        assert m'[q] == m'[address..address + |page|][q - address];
      } else {
        ProgrammedOutside(m, address, page, q);
      }
    }
  }

  lemma OverwriteTwice(m: seq<byte>, address: nat, x: seq<byte>, y: seq<byte>)
    requires address + |x| + |y| <= |m|
    ensures Overwrite(Overwrite(m, address, x), address + |x|, y) == Overwrite(m, address, x + y)
  {
  }

  /** Without wrapping, a write that succeeds stores exactly its data in exactly its range. */
  lemma {:induction false} WriteStores(m: seq<byte>, address: nat, data: seq<byte>)
    requires address + |data| <= |m| && NoWrap(address, data) && WritePages(m, address, data).1 == ERROR_NONE
    ensures WritePages(m, address, data).0 == Overwrite(m, address, data)
    decreases |data|
  {
    if data == [] {
    } else {
      var n := if |data| < PAGE_SIZE then |data| else PAGE_SIZE;
      var page, rest := data[..n], data[n..];
      PageStored(m, address, page);
      WriteStores(Overwrite(m, address, page), address + n, rest);
      OverwriteTwice(m, address, page, rest);
      assert page + rest == data;
    }
  }

  /** Without wrapping, a write changes no byte outside its range, whether it succeeds or not. */
  lemma {:induction false} WriteKeepsOutside(m: seq<byte>, address: nat, data: seq<byte>, q: nat)
    requires address + |data| <= |m| && NoWrap(address, data)
    requires q < |m| && !(address <= q < address + |data|)
    ensures |WriteResult(m, address, data).0| == |m| && WriteResult(m, address, data).0[q] == m[q]
    decreases |data|
  {
    WritePagesLength(m, address, data);
    if data == [] {
    } else {
      var n := if |data| < PAGE_SIZE then |data| else PAGE_SIZE;
      ProgrammedOutside(m, address, data[..n], q);
      if Programmed(m, address, data[..n])[address..address + n] == data[..n] {
        WriteKeepsOutside(Programmed(m, address, data[..n]), address + n, data[n..], q);
      }
    }
  }

  /** Whatever the chip held before, and wherever the data starts, a write that succeeds reads back as written. */
  lemma WriteReadsBack(m: seq<byte>, address: nat, data: seq<byte>)
    requires address + |data| <= |m| && WriteResult(m, address, data).1 == ERROR_NONE
    ensures |WriteResult(m, address, data).0| == |m|
    ensures WriteResult(m, address, data).0[address..address + |data|] == data
  {
    WritePagesLength(m, address, data);
    if NoWrap(address, data) {
      WriteStores(m, address, data);
    } else {
      assert data[..|data|] == data;
      assert WritePages(Programmed(m, address, data), address + |data|, data[|data|..]).1 == ERROR_NONE;
    }
  }

  /** Byte i of the data will read back: on its own page no bit has to be set; past the end of the page, where
      programming wraps but reading does not, the byte must already be there. */
  predicate Storable(m: seq<byte>, address: nat, data: seq<byte>, i: nat)
    requires address + |data| <= |m| && i < |data|
  {
    if address % PAGE_SIZE == 0 || address % PAGE_SIZE + i < PAGE_SIZE then Clears(m[address + i], data[i])
    else m[address + i] == data[i]
  }

  ghost predicate AllStorable(m: seq<byte>, address: nat, data: seq<byte>)
    requires address + |data| <= |m|
  {
    forall i :: 0 <= i < |data| ==> Storable(m, address, data, i)
  }

  lemma PageVerifies(m: seq<byte>, address: nat, page: seq<byte>)
    requires |page| <= PAGE_SIZE && address + |page| <= |m|
    ensures Programmed(m, address, page)[address..address + |page|] == page
            <==> AllStorable(m, address, page)
  {
    var r := Programmed(m, address, page)[address..address + |page|];
    forall i | 0 <= i < |page|
      ensures r[i] == page[i] <==> Storable(m, address, page, i)
    {
      ProgrammedInside(m, address, page, i);
    }
  }

  /** On whole pages the bytes of the first page and those of the rest are storable separately. */
  lemma StorableSplits(m: seq<byte>, m': seq<byte>, address: nat, page: seq<byte>, rest: seq<byte>)
    requires address + |page| + |rest| <= |m| == |m'| && address % PAGE_SIZE == |page| % PAGE_SIZE == 0
    requires m'[address + |page|..] == m[address + |page|..]
    ensures AllStorable(m, address, page + rest) <==> AllStorable(m, address, page) && AllStorable(m', address + |page|, rest)
  {
    var n, data := |page|, page + rest;
    assert (address + n) % PAGE_SIZE == 0;
    forall i | 0 <= i < n
      ensures Storable(m, address, data, i) == Storable(m, address, page, i)
    {
    }
    forall i | n <= i < |data|
      ensures Storable(m, address, data, i) == Storable(m', address + n, rest, i - n)
    {
      assert m'[address + i] == m'[address + n..][i - n] == m[address + n..][i - n];
    }
    if AllStorable(m, address, data) {
      var next := address + n;
      forall i | 0 <= i < |rest|
        ensures Storable(m', next, rest, i)
      {
        assert Storable(m, address, data, n + i);
      }
    }
  }

  lemma OnlyPageSucceeds(m: seq<byte>, address: nat, data: seq<byte>)
    requires address + |data| <= |m| && 0 < |data| < PAGE_SIZE
    ensures WritePages(m, address, data).1 == ERROR_NONE <==> AllStorable(m, address, data)
  {
    WriteOnePage(m, address, data, |data|);
    assert data[..|data|] == data && data[|data|..] == [];
    hide AllStorable, Programmed, WritePages;
    PageVerifies(m, address, data);
    NothingToWrite(Programmed(m, address, data), address + |data|);
  }

  lemma FirstPageSucceeds(m: seq<byte>, address: nat, data: seq<byte>, page: seq<byte>, rest: seq<byte>)
    requires address + |data| <= |m| && address % PAGE_SIZE == 0 && data == page + rest && |page| == PAGE_SIZE
    ensures var m' := Programmed(m, address, page);
            && (WritePages(m, address, data).1 == ERROR_NONE
                <==> AllStorable(m, address, page) && WritePages(m', address + PAGE_SIZE, rest).1 == ERROR_NONE)
            && (AllStorable(m, address, data)
                <==> AllStorable(m, address, page) && AllStorable(m', address + PAGE_SIZE, rest))
  {
    hide AllStorable, Programmed, WritePages;
    WriteOnePage(m, address, data, PAGE_SIZE);
    assert data[..PAGE_SIZE] == page && data[PAGE_SIZE..] == rest;
    PageVerifies(m, address, page);
    RestUntouched(m, address, page);
    StorableSplits(m, Programmed(m, address, page), address, page, rest);
  }

  lemma {:induction false} AlignedSucceeds(m: seq<byte>, address: nat, data: seq<byte>)
    requires address + |data| <= |m| && address % PAGE_SIZE == 0
    ensures WritePages(m, address, data).1 == ERROR_NONE <==> AllStorable(m, address, data)
    decreases |data|
  {
    if data == [] {
    } else if |data| < PAGE_SIZE {
      OnlyPageSucceeds(m, address, data);
    } else {
      hide AllStorable, Programmed, WritePages;
      var page, rest := data[..PAGE_SIZE], data[PAGE_SIZE..];
      FirstPageSucceeds(m, address, data, page, rest);
      AlignedSucceeds(Programmed(m, address, page), address + PAGE_SIZE, rest);
    }
  }

  lemma RestUntouched(m: seq<byte>, address: nat, page: seq<byte>)
    requires NoWrap(address, page) && |page| <= PAGE_SIZE && address + |page| <= |m|
    ensures Programmed(m, address, page)[address + |page|..] == m[address + |page|..]
  {
    forall q | address + |page| <= q < |m|
      ensures Programmed(m, address, page)[q] == m[q]
    {
      ProgrammedOutside(m, address, page, q);
    }
  }

  /** The first page of a write, and what is left to do after it. */
  lemma WriteOnePage(m: seq<byte>, address: nat, data: seq<byte>, n: nat)
    requires data != [] && address + |data| <= |m| && n == if |data| < PAGE_SIZE then |data| else PAGE_SIZE
    ensures var m' := Programmed(m, address, data[..n]);
            WritePages(m, address, data) ==
            if m'[address..address + n] == data[..n] then WritePages(m', address + n, data[n..]) else (m', ERROR_VERIFY_FAILED)
  {
  }

  /** A write succeeds exactly when it may start where it does and every byte can be stored. */
  lemma WriteSucceedsExactlyWhen(m: seq<byte>, address: nat, data: seq<byte>)
    requires address + |data| <= |m|
    ensures WriteResult(m, address, data).1 == ERROR_NONE
            <==> !(address % PAGE_SIZE != 0 && |data| > PAGE_SIZE) && AllStorable(m, address, data)
  {
    if address % PAGE_SIZE == 0 {
      AlignedSucceeds(m, address, data);
    } else if 0 < |data| <= PAGE_SIZE {
      PageVerifies(m, address, data);
      WriteOnePage(m, address, data, |data|);
      assert data[..|data|] == data && data[|data|..] == [];
    }
  }

  /** On an erased range a write without wrapping always succeeds. */
  lemma WriteOnErased(m: seq<byte>, address: nat, data: seq<byte>)
    requires address + |data| <= |m| && NoWrap(address, data)
    requires forall q :: address <= q < address + |data| ==> m[q] == 0xFF
    ensures WriteResult(m, address, data) == (Overwrite(m, address, data), ERROR_NONE)
  {
    forall i | 0 <= i < |data|
      ensures Storable(m, address, data, i)
    {
      AndOnes(data[i]);
    }
    WriteSucceedsExactlyWhen(m, address, data);
    WriteStores(m, address, data);
  }

  // ---------- What any write leaves behind ----------

  /** Every byte is as it was, or has lost some of its ones. */
  ghost predicate OnlyClears(m: seq<byte>, r: seq<byte>) {
    |r| == |m| && forall q: nat, i: nat :: q < |m| && Bit(r[q], i) ==> Bit(m[q], i)
  }

  /** The two chips agree outside the 256-byte pages from first to last. */
  ghost predicate PagesKept(m: seq<byte>, r: seq<byte>, first: nat, last: int) {
    |r| == |m| && forall q: nat :: q < |m| && !(first <= q / 0x100 <= last) ==> r[q] == m[q]
  }

  /** Where byte i of the data meets its page: counted round the end of the 256 bytes. */
  function Place(address: nat, i: nat): nat {
    address / 0x100 * 0x100 + (address + i) % 0x100
  }

  /** Programming one page: at the place of byte i exactly the bits stay set that are set in both. */
  lemma ProgrammedAt(m: seq<byte>, address: nat, data: seq<byte>, i: nat, b: nat)
    requires i < |data| <= 0x100 && |m| % 0x100 == 0 && address < |m|
    ensures Place(address, i) < |m|
    ensures Bit(Programmed(m, address, data)[Place(address, i)], b) <==> Bit(m[Place(address, i)], b) && Bit(data[i], b)
  {
    PagePlace(address, i, Place(address, i));
    AndBit(m[Place(address, i)], data[i], b);
  }

  /** A byte that is not the place of any byte of the data stays. */
  lemma ProgrammedNowhereElse(m: seq<byte>, address: nat, data: seq<byte>, q: nat)
    requires |data| <= 0x100 && q < |m| && forall i: nat :: i < |data| ==> Place(address, i) != q
    ensures Programmed(m, address, data)[q] == m[q]
  {
    if q / 0x100 == address / 0x100 { PlaceOf(address, (q - address) % 0x100, q); }
  }

  lemma PlaceOf(address: nat, i: nat, q: nat)
    requires q / 0x100 == address / 0x100 && i == (q - address) % 0x100
    ensures Place(address, i) == q
  {
    PagePlace(address, i, q);
  }

  lemma ProgrammedHarmless(m: seq<byte>, address: nat, data: seq<byte>)
    ensures OnlyClears(m, Programmed(m, address, data))
    ensures PagesKept(m, Programmed(m, address, data), address / 0x100, address / 0x100)
  {
    var r := Programmed(m, address, data);
    forall q: nat, i: nat | q < |m| && Bit(r[q], i)
      ensures Bit(m[q], i)
    {
      var k := (q - address) % PAGE_SIZE;
      if k < |data| { AndBit(m[q], data[k], i); }
    }
  }

  lemma {:induction false} PagesHarmless(m: seq<byte>, address: nat, data: seq<byte>)
    requires address + |data| <= |m| && (address % 0x100 == 0 || |data| <= 0x100)
    ensures OnlyClears(m, WritePages(m, address, data).0)
    ensures data != [] ==> PagesKept(m, WritePages(m, address, data).0, address / 0x100, (address + |data| - 1) / 0x100)
    decreases |data|
  {
    if data == [] {
    } else {
      var n := if |data| < PAGE_SIZE then |data| else PAGE_SIZE;
      var m1 := Programmed(m, address, data[..n]);
      WriteOnePage(m, address, data, n);
      ProgrammedHarmless(m, address, data[..n]);
      if n == |data| {
        NothingToWrite(m1, address + n);
      } else {
        PagesHarmless(m1, address + n, data[n..]);
      }
    }
  }

  /** Every write, refused, failed, wrapped or successful: the chip keeps its size, no bit goes from 0 to 1, and the
      pages that the data neither starts on nor runs over are as before. */
  lemma WriteHarmless(m: seq<byte>, address: nat, data: seq<byte>)
    requires address + |data| <= |m|
    ensures var r := WriteResult(m, address, data).0;
            && OnlyClears(m, r) && (data == [] ==> r == m)
            && (data != [] ==> PagesKept(m, r, address / 0x100, (address + |data| - 1) / 0x100))
  {
    if !(address % 0x100 != 0 && |data| > 0x100) { PagesHarmless(m, address, data); }
  }

  /** The code of a write: 1 exactly when it is refused, 0 exactly when every byte can be stored, otherwise 4; and a
      refused write has not touched the chip. */
  lemma WriteCode(m: seq<byte>, address: nat, data: seq<byte>)
    requires address + |data| <= |m|
    ensures var (r, e) := WriteResult(m, address, data);
            && (e == 0x1 <==> address % 0x100 != 0 && |data| > 0x100)
            && (e == 0x1 ==> r == m)
            && (e == 0x0 <==> !(address % 0x100 != 0 && |data| > 0x100) && AllStorable(m, address, data))
            && (e != 0x0 && e != 0x1 ==> e == 0x4)
  {
    WriteSucceedsExactlyWhen(m, address, data);
    PagesCode(m, address, data);
  }

  lemma {:induction false} PagesCode(m: seq<byte>, address: nat, data: seq<byte>)
    requires address + |data| <= |m|
    ensures WritePages(m, address, data).1 == 0x0 || WritePages(m, address, data).1 == 0x4
    decreases |data|
  {
    if data == [] {
    } else {
      var n := if |data| < PAGE_SIZE then |data| else PAGE_SIZE;
      WriteOnePage(m, address, data, n);
      if Programmed(m, address, data[..n])[address..address + n] == data[..n] {
        PagesCode(Programmed(m, address, data[..n]), address + n, data[n..]);
      }
    }
  }

  /** Byte q of the chip when the pages before page k of the data were stored, those of page k have lost the ones that
      the data does not have, and nothing behind it was touched. */
  function StoppedByte(m: seq<byte>, address: nat, data: seq<byte>, k: nat, q: nat): byte
    requires q < |m|
  {
    if q < address || address + |data| <= q || address + (k + 1) * 0x100 <= q then m[q]
    else if q < address + k * 0x100 then data[q - address]
    else AndByte(m[q], data[q - address])
  }

  ghost predicate StoppedAt(m: seq<byte>, r: seq<byte>, address: nat, data: seq<byte>, k: nat) {
    |r| == |m| && forall q: nat :: q < |m| ==> r[q] == StoppedByte(m, address, data, k, q)
  }

  /** Page k is the first one with a byte that cannot be stored. */
  ghost predicate FailsAt(m: seq<byte>, address: nat, data: seq<byte>, k: nat)
    requires address + |data| <= |m|
  {
    && (forall i :: 0 <= i < k * 0x100 && i < |data| ==> Storable(m, address, data, i))
    && exists i :: k * 0x100 <= i < (k + 1) * 0x100 && i < |data| && !Storable(m, address, data, i)
  }

  lemma FailsHere(m: seq<byte>, address: nat, data: seq<byte>, n: nat)
    requires data != [] && address + |data| <= |m| && address % 0x100 == 0
    requires n == if |data| < PAGE_SIZE then |data| else PAGE_SIZE
    ensures Programmed(m, address, data[..n])[address..address + n] != data[..n] <==> FailsAt(m, address, data, 0)
    ensures FailsAt(m, address, data, 0) <==> exists i :: 0 <= i < n && !Storable(m, address, data, i)
  {
    var page := data[..n];
    PageVerifies(m, address, page);
    hide Programmed, AndByte;
    forall i | 0 <= i < n
      ensures Storable(m, address, page, i) <==> Storable(m, address, data, i)
    {
    }
    if FailsAt(m, address, data, 0) {
      var i :| 0 <= i < n && !Storable(m, address, data, i);
      assert !Storable(m, address, page, i);
    }
  }

  lemma StoppedHere(m: seq<byte>, address: nat, data: seq<byte>, n: nat)
    requires address + |data| <= |m| && address % 0x100 == 0
    requires n == if |data| < PAGE_SIZE then |data| else PAGE_SIZE
    ensures StoppedAt(m, Programmed(m, address, data[..n]), address, data, 0)
  {
    forall q: nat | q < |m|
      ensures Programmed(m, address, data[..n])[q] == StoppedByte(m, address, data, 0, q)
    {
      if address <= q < address + n {
        ProgrammedInside(m, address, data[..n], q - address);
      } else {
        ProgrammedOutside(m, address, data[..n], q);
      }
    }
  }

  lemma StoredAbove(m: seq<byte>, m1: seq<byte>, address: nat, data: seq<byte>, i: nat)
    requires address + |data| <= |m| == |m1| && address % 0x100 == 0 && 0x100 <= i < |data|
    requires m1[address + i] == m[address + i]
    ensures Storable(m1, address + 0x100, data[0x100..], i - 0x100) <==> Storable(m, address, data, i)
  {
  }

  lemma FailsLater(m: seq<byte>, m1: seq<byte>, address: nat, data: seq<byte>, k: nat)
    requires address + |data| <= |m| == |m1| && address % 0x100 == 0 && |data| > 0x100
    requires forall q: nat :: address + 0x100 <= q < |m| ==> m1[q] == m[q]
    requires forall i :: 0 <= i < 0x100 ==> Storable(m, address, data, i)
    requires FailsAt(m1, address + 0x100, data[0x100..], k)
    ensures FailsAt(m, address, data, k + 1)
  {
    var rest := data[0x100..];
    forall i | 0x100 <= i < |data|
      ensures Storable(m1, address + 0x100, rest, i - 0x100) <==> Storable(m, address, data, i)
    {
      StoredAbove(m, m1, address, data, i);
    }
    var i :| k * 0x100 <= i < (k + 1) * 0x100 && i < |rest| && !Storable(m1, address + 0x100, rest, i);
    hide Storable;
    assert !Storable(m, address, data, i + 0x100);
  }

  lemma StoppedLater(m: seq<byte>, r: seq<byte>, address: nat, data: seq<byte>, k: nat)
    requires address + |data| <= |m| && |data| > 0x100
    requires StoppedAt(Overwrite(m, address, data[..0x100]), r, address + 0x100, data[0x100..], k)
    ensures StoppedAt(m, r, address, data, k + 1)
  {
    var m1, rest, at, next := Overwrite(m, address, data[..0x100]), data[0x100..], address + 0x100, k + 1;
    hide AndByte;
    forall q: nat | q < |m|
      ensures StoppedByte(m1, at, rest, k, q) == StoppedByte(m, address, data, next, q)
    {
    }
  }

  /** A write of at most a page, wherever it starts, programs that one page, whether it then reads back or not. */
  lemma ShortWriteLeaves(m: seq<byte>, address: nat, data: seq<byte>)
    requires address + |data| <= |m| && 0 < |data| <= 0x100
    ensures WriteResult(m, address, data).0 == Programmed(m, address, data)
  {
    WriteOnePage(m, address, data, |data|);
    assert data[..|data|] == data && data[|data|..] == [];
    NothingToWrite(Programmed(m, address, data), address + |data|);
  }

  /** A failing write fails on its first page or stores it and fails behind it. */
  lemma FirstPageOrLater(m: seq<byte>, address: nat, data: seq<byte>)
    requires address + |data| <= |m| && address % 0x100 == 0 && WriteResult(m, address, data).1 != 0x0
    ensures FailsAt(m, address, data, 0) ==> StoppedAt(m, WriteResult(m, address, data).0, address, data, 0)
    ensures !FailsAt(m, address, data, 0) ==>
              && |data| > 0x100 && (forall i :: 0 <= i < 0x100 ==> Storable(m, address, data, i))
              && WriteResult(m, address, data) == WriteResult(Overwrite(m, address, data[..0x100]), address + 0x100, data[0x100..])
  {
    var n := if |data| < PAGE_SIZE then |data| else PAGE_SIZE;
    WriteOnePage(m, address, data, n);
    FailsHere(m, address, data, n);
    StoppedHere(m, address, data, n);
    NothingToWrite(Programmed(m, address, data[..n]), address + n);
    hide Programmed, StoppedAt, Storable, FailsAt, WritePages;
    if !FailsAt(m, address, data, 0) { PageStored(m, address, data[..n]); }
  }

  /** What a write that starts on a page and does not read back leaves in the chip. */
  lemma {:induction false} FailedWriteLeaves(m: seq<byte>, address: nat, data: seq<byte>) returns (k: nat)
    requires address + |data| <= |m| && address % 0x100 == 0 && WriteResult(m, address, data).1 != 0x0
    ensures FailsAt(m, address, data, k) && StoppedAt(m, WriteResult(m, address, data).0, address, data, k)
    decreases |data|
  {
    k := 0;
    FirstPageOrLater(m, address, data);
    hide Storable, StoppedAt, WriteResult;
    if !FailsAt(m, address, data, 0) {
      var m1 := Overwrite(m, address, data[..0x100]);
      k := FailedWriteLeaves(m1, address + 0x100, data[0x100..]);
      FailsLater(m, m1, address, data, k);
      StoppedLater(m, WriteResult(m, address, data).0, address, data, k);
      k := k + 1;
    }
  }

  lemma SliceSplits(data: seq<byte>, i: nat, l: nat)
    requires i + l <= |data|
    ensures data[i..][..l] == data[i..i + l] && data[i..][l..] == data[i + l..]
  {
  }

  lemma WholePages(sectors: nat)
    ensures sectors * SECTOR_SIZE % PAGE_SIZE == 0
  {
    assert sectors * SECTOR_SIZE == sectors * 16 * PAGE_SIZE;
  }

  lemma SmallRemainder(n: nat)
    ensures n < PAGE_SIZE ==> n % PAGE_SIZE == n
  {
  }

  /** The chip after one sector was erased. */
  function Erased(m: seq<byte>, sector: nat): (r: seq<byte>)
    requires (sector + 1) * SECTOR_SIZE <= |m|
    ensures |r| == |m|
  {
    Overwrite(m, sector * SECTOR_SIZE, Ones(SECTOR_SIZE))
  }

  /** Byte i of the data goes to this place of the page, and no other byte of the page's 256 does. */
  lemma PagePlace(address: nat, i: nat, q: nat)
    requires i < PAGE_SIZE && q / PAGE_SIZE == address / PAGE_SIZE
    ensures (q - address) % PAGE_SIZE == i <==> q == address / PAGE_SIZE * PAGE_SIZE + (address + i) % PAGE_SIZE
  {
  }

  /** Programming the next byte of a page. */
  lemma ProgramOneMore(m: seq<byte>, address: nat, data: seq<byte>, i: nat)
    requires i < |data| <= PAGE_SIZE && |m| % PAGE_SIZE == 0 && address < |m|
    ensures var q := address / PAGE_SIZE * PAGE_SIZE + (address + i) % PAGE_SIZE;
            q < |m| && Programmed(m, address, data[..i + 1]) ==
                       Programmed(m, address, data[..i])[q := AndByte(Programmed(m, address, data[..i])[q], data[i])]
  {
    var q := address / PAGE_SIZE * PAGE_SIZE + (address + i) % PAGE_SIZE;
    PagePlace(address, i, q);
    forall p | 0 <= p < |m|
      ensures ProgrammedByte(m, address, data[..i + 1], p) ==
              if p == q then AndByte(m[q], data[i]) else ProgrammedByte(m, address, data[..i], p)
    {
      if p / PAGE_SIZE == address / PAGE_SIZE {
        PagePlace(address, i, p);
      }
    }
    assert ProgrammedByte(m, address, data[..i], q) == m[q];
  }

  lemma NothingToWrite(m: seq<byte>, address: nat)
    requires address <= |m|
    ensures WritePages(m, address, []) == (m, ERROR_NONE)
  {
  }

  // ---------- The driver ----------

  class SpiFlashMemory {
    const mem: array<byte>
    const sectors: nat

    constructor (sectors: nat)
      requires 0 < sectors * SECTOR_SIZE <= MAX_CAPACITY
      ensures Valid() && this.sectors == sectors && fresh(mem)
    {
      this.sectors := sectors;
      mem := new byte[sectors * SECTOR_SIZE];
    }

    /** The chip is a whole number of sectors, and its addresses have 24 bits. */
    ghost predicate Valid() {
      mem.Length == sectors * SECTOR_SIZE && 0 < mem.Length <= MAX_CAPACITY
    }

    /** `read`: bytes in address order, without wrapping. */
    method Read(address: nat, length: nat) returns (data: seq<byte>)
      requires address + length <= mem.Length
      ensures data == mem[address..address + length]
    {
      data := [];
      for i := 0 to length
        invariant data == mem[address..address + i]
      {
        data := data + [mem[address + i]];
      }
    }

    /** `sector_erase`: the whole sector that contains the address becomes ones. */
    method SectorErase(address: nat)
      requires Valid() && address < mem.Length
      modifies mem
      ensures mem[..] == Erased(old(mem[..]), address / SECTOR_SIZE)
      ensures forall q :: 0 <= q < mem.Length ==> mem[q] == if q / 0x1000 == address / 0x1000 then 0xFF else old(mem[q])
    {
      ghost var before := mem[..];
      var base := address / SECTOR_SIZE * SECTOR_SIZE;
      for i := 0 to SECTOR_SIZE
        invariant forall q :: 0 <= q < mem.Length ==> mem[q] == if base <= q < base + i then 0xFF else before[q]
      {
        mem[base + i] := 0xFF;
      }
      assert mem[..] == Erased(before, address / SECTOR_SIZE);
    }

    /** `chip_erase`. */
    method ChipErase()
      modifies mem
      ensures mem[..] == Ones(mem.Length)
    {
      for i := 0 to mem.Length
        invariant forall q :: 0 <= q < i ==> mem[q] == 0xFF
      {
        mem[i] := 0xFF;
      }
      assert mem[..] == Ones(mem.Length);
    }

    /** `page_program`: program at most a page and verify it by reading it back. */
    method PageProgram(address: nat, data: seq<byte>) returns (e: Error)
      requires Valid() && address + |data| <= mem.Length
      modifies mem
      ensures |data| > 0x100 ==> e == 0x2 && mem[..] == old(mem[..])
      ensures |data| <= PAGE_SIZE ==> mem[..] == Programmed(old(mem[..]), address, data)
      ensures |data| <= PAGE_SIZE ==>
                e == if mem[..][address..address + |data|] == data then ERROR_NONE else ERROR_VERIFY_FAILED
    {
      if |data| > PAGE_SIZE {
        return ERROR_LARGER_THAN_PAGE;
      }
      ghost var before := mem[..];
      var base := address / PAGE_SIZE * PAGE_SIZE;
      WholePages(sectors);
      assert Programmed(before, address, data[..0]) == before;
      for i := 0 to |data|
        invariant mem[..] == Programmed(before, address, data[..i])
      {
        var q := base + (address + i) % PAGE_SIZE;
        ProgramOneMore(before, address, data, i);
        mem[q] := AndByte(mem[q], data[i]);
      }
      assert data[..|data|] == data;
      var verify := Read(address, |data|);
      var differences := 0;
      for i := 0 to |data|
        invariant differences >= 0 && (differences == 0 <==> data[..i] == verify[..i])
      {
        if data[i] != verify[i] {
          differences := differences + 1;
        }
        assert data[..i + 1] == data[..i] + [data[i]] && verify[..i + 1] == verify[..i] + [verify[i]];
      }
      assert verify[..|data|] == verify == mem[..][address..address + |data|];
      e := if differences != 0 then ERROR_VERIFY_FAILED else ERROR_NONE;
    }

    /** One turn of the loop in `write`: the next page, or what is left of the data. */
    method WriteNext(address: nat, data: seq<byte>, i: nat, ghost at: nat, ghost rest: seq<byte>)
      returns (e: Error, ghost l: nat)
      requires Valid() && address + |data| <= mem.Length && i < |data|
      requires at == address + i && rest == data[i..]
      modifies mem
      ensures l == if |data| - i < PAGE_SIZE then |data| - i else PAGE_SIZE
      ensures e == ERROR_NONE ==> WritePages(old(mem[..]), at, rest) == WritePages(mem[..], at + l, rest[l..])
      ensures e != ERROR_NONE ==> WritePages(old(mem[..]), at, rest) == (mem[..], e)
    {
      var r := (|data| - i) % PAGE_SIZE;
      var length := if |data| - i < PAGE_SIZE then r else PAGE_SIZE;
      SmallRemainder(|data| - i);
      l := length;
      WriteOnePage(mem[..], at, rest, l);
      SliceSplits(data, i, l);
      e := PageProgram(address + i, data[i..i + length]);
    }

    /** The loop in `write`: page after page. */
    method WriteEach(address: nat, data: seq<byte>) returns (e: Error)
      requires Valid() && address + |data| <= mem.Length
      modifies mem
      ensures (mem[..], e) == WritePages(old(mem[..]), address, data)
    {
      hide WritePages;
      ghost var total, rest, at := WritePages(mem[..], address, data), data, address;
      e := ERROR_NONE;
      var i := 0;
      while i < |data|
        invariant 0 <= i && at + |rest| == address + |data|
        invariant i < |data| ==> at == address + i && rest == data[i..]
        invariant i >= |data| ==> rest == []
        invariant WritePages(mem[..], at, rest) == total
        decreases |data| - i
      {
        ghost var l;
        e, l := WriteNext(address, data, i, at, rest);
        if e != ERROR_NONE {
          return;
        }
        assert rest[l..] == data[i + l..];
        rest, at := rest[l..], at + l;
        i := i + PAGE_SIZE;
      }
      NothingToWrite(mem[..], at);
      e := ERROR_NONE;
    }

    /** `write`: data that starts inside a page must not be longer than a page. */
    method Write(address: nat, data: seq<byte>) returns (e: Error)
      requires Valid() && address + |data| <= mem.Length
      modifies mem
      ensures (mem[..], e) == WriteResult(old(mem[..]), address, data)
      ensures address % 0x100 != 0 && |data| > 0x100 ==> e == 0x1 && mem[..] == old(mem[..])
    {
      if address % PAGE_SIZE != 0 && |data| > PAGE_SIZE {
        return ERROR_MISALIGNED_PAGE;
      }
      e := WriteEach(address, data);
    }
  }
}
