/**
 The filesystem object: the chip, the RAM bitmap of used sectors, the count of used bytes and the directory iterator.
 Every method is tied to the function on the sequence of sectors that says what it does.
 */
module FlashFs {
  import opened Bits
  import opened SpiFlash
  import opened FlashDirectory
  import opened FlashFiles

  const ERROR_DIRECTORY_FULL := 0xFFFF_FFFF

  datatype Option<T> = None | Some(value: T)

  /** The entry reported for a sector that the bitmap does not list. */
  const NULL_ENTRY := DirectoryEntry(0, 0, 0, 0, 0, Zeros(FILENAME_LENGTH), 0, Zeros(16), 0)

  /** `RDID::is_valid`: the comparison of the first two bytes is compared, as 0 or 1, with the third. */
  predicate IdentificationValid(manufacturer: byte, kind: byte, capacity: byte) {
    capacity != 0 && !((if manufacturer == kind then 1 else 0) == capacity)
  }

  /** Every identification counts as valid except one with capacity 0 and one with capacity 1 and two equal bytes before
      it: in particular that of a chip that is not there and leaves the line high. */
  lemma IdentificationMeaning(manufacturer: byte, kind: byte, capacity: byte)
    ensures IdentificationValid(manufacturer, kind, capacity)
            <==> capacity != 0 && (capacity == 1 ==> manufacturer != kind)
    ensures IdentificationValid(0xFF, 0xFF, 0xFF) && !IdentificationValid(0, 0, 0)
  {
  }

  /** What the iterator reports for a sector that the bitmap lists exactly when it is used. */
  function Seen(x: Sector): DirectoryEntry {
    if Used(x) then x.entry else NULL_ENTRY
  }

  /** Which entries the loops in `remove` are after, as they see them. */
  lemma SeenHit(v: seq<Sector>, id: nat, n: nat)
    requires n < |v|
    ensures Seen(v[n]).magic == MAGIC_NUMBER && Seen(v[n]).id == id <==> Used(v[n]) && v[n].entry.id == id
  {
  }

  lemma SeenNamed(v: seq<Sector>, name: seq<byte>, n: nat)
    requires FsOk(v) && n < |v|
    ensures Seen(v[n]).magic == MAGIC_NUMBER && name == CString(Seen(v[n]).filename)
            <==> Used(v[n]) && v[n].entry.id == FileId(v, name)
  {
    hide FsOk, CString, FileId;
    if Used(v[n]) { NameMeansId(v, name, n); }
  }

  lemma SeenMeaning(x: Sector)
    ensures x.entry.magic == 0x947A_6E2E ==> Seen(x) == x.entry
    ensures x.entry.magic != 0x947A_6E2E ==> Seen(x) == DirectoryEntry(0, 0, 0, 0, 0, Zeros(80), 0, Zeros(16), 0)
  {
  }

  /** The chunks of the file that lie in the first n sectors. */
  ghost function SeenChunks(v: seq<Sector>, id: nat, n: nat): (seen: set<nat>)
    requires n <= |v|
    ensures forall i: nat :: i in seen <==> exists s: nat :: s < n && Holds(v, s, id) && v[s].entry.index == i
  {
    set s | 0 <= s < n && Holds(v, s, id) :: v[s].entry.index
  }

  /** The bytes of every chunk seen are in the buffer, and the rest of it is as it was. */
  ghost predicate Gathered(data: seq<byte>, before: seq<byte>, contents: seq<byte>, seen: set<nat>) {
    && |data| == |before| >= |contents|
    && (forall p :: 0 <= p < |contents| && p / USABLE in seen ==> data[p] == contents[p])
    && (forall p :: |contents| <= p < |data| ==> data[p] == before[p])
  }

  lemma GatheredAll(data: seq<byte>, before: seq<byte>, contents: seq<byte>, seen: set<nat>)
    requires Gathered(data, before, contents, seen) && forall p: nat :: p < |contents| ==> p / USABLE in seen
    ensures data == contents + before[|contents|..]
  {
  }

  lemma NothingGathered(before: seq<byte>, contents: seq<byte>)
    requires |contents| <= |before|
    ensures Gathered(before, before, contents, {})
  {
  }

  lemma StartReading(v: seq<Sector>, id: nat, length: nat)
    requires FsOk(v) && IsLive(v, id) && SameShape(LengthOf(v, id), length)
    ensures SeenChunks(v, id, 0) == {} && Unread(length, {}, Chunks(length)) == length > 0
  {
    UnreadNone(length, Chunks(length));
    var s: nat :| Holds(v, s, id);
    LengthOfAny(v, id, s);
  }

  /** What one turn of the reading loop meets in sector n. */
  lemma ReadingStep(v: seq<Sector>, id: nat, length: nat, n: nat)
    requires FsOk(v) && IsLive(v, id) && SameShape(LengthOf(v, id), length) && n < |v| && id != 0
    ensures Seen(v[n]).id == id <==> Holds(v, n, id)
    ensures !Holds(v, n, id) ==> SeenChunks(v, id, n + 1) == SeenChunks(v, id, n)
    ensures Holds(v, n, id) ==>
              var (e, seen) := (v[n].entry, SeenChunks(v, id, n));
              && Seen(v[n]) == e && EntryOk(e, n) && e.length == LengthOf(v, id)
              && PayloadIs(v[n].payload, FirstBytes(v, id, length), e.index)
              && SeenChunks(v, id, n + 1) == seen + {e.index} && e.md5 == Md5Of(v, id)
              && Unread(length, seen, Chunks(length)) ==
                 Unread(length, seen + {e.index}, Chunks(length)) + ChunkLength(length, e.index)
  {
    if Holds(v, n, id) {
      SectorHoldsChunk(v, id, n, length);
      var seen := SeenChunks(v, id, n);
      assert v[n].entry.index !in seen;
      UnreadMore(length, seen, v[n].entry.index, Chunks(length));
      var t: nat :| Holds(v, t, id) && v[t].entry.md5 == Md5Of(v, id);
      assert SameFile(v[n].entry, v[t].entry);
    }
  }

  lemma ReadingEnds(v: seq<Sector>, id: nat, length: nat, seen: set<nat>)
    requires FsOk(v) && IsLive(v, id) && SameShape(LengthOf(v, id), length)
    ensures Unread(length, seen, Chunks(length)) == 0 ==> forall p: nat :: p < length ==> p / USABLE in seen
    ensures seen == SeenChunks(v, id, |v|) ==> Unread(length, seen, Chunks(length)) == 0
  {
    UnreadZero(length, seen, Chunks(length));
    forall p: nat | p < length
      ensures p / USABLE < Chunks(length)
    {
      ChunkIndex(length, p);
    }
    if seen == SeenChunks(v, id, |v|) {
      forall i: nat | i < Chunks(length)
        ensures i in seen
      {
        AllChunksHeld(v, id, i);
        assert HasChunk(v, id, i);
      }
    }
  }

  lemma PlaceInChunk(length: nat, i: nat, p: nat)
    requires i < Chunks(length) && p < length && p / USABLE == i
    ensures i * USABLE <= p < i * USABLE + ChunkLength(length, i)
  {
  }

  lemma NextChunk(data: seq<byte>, written: nat)
    requires written < |data|
    ensures var (rest, size) := (data[written..], ChunkSize(data[written..]));
            && size == (if |data| - written < USABLE then |data| - written else USABLE)
            && rest[..size] == data[written..written + size] && rest[size..] == data[written + size..]
  {
  }

  /** One turn of the loop over chunks. */
  lemma ChunksStep(v: seq<Sector>, e: DirectoryEntry, f: nat, data: seq<byte>, written: nat)
    requires f < |v| && written < |data|
    ensures var size := if |data| - written < USABLE then |data| - written else USABLE;
            var x := Sector(e, Fill(data[written..written + size]));
            var n := FirstFree(v[f := x], 0);
            && CountUsed(v[f := x]) == CountUsed(v) + (if Used(x) then 1 else 0) - (if Used(v[f]) then 1 else 0)
            && WriteChunks(v, e, f, data[written..]) ==
               if n == |v| then (v[f := x], ERROR_FULL)
               else WriteChunks(v[f := x], e.(index := e.index + 1, address := n * SECTOR_SIZE), n, data[written + size..])
  {
    hide CountUsed, Fill, FirstFree, WriteChunks, Used;
    NextChunk(data, written);
    WriteChunksStep(v, e, f, data[written..]);
    CountUpdate(v, f, Sector(e, Fill(data[written..written + ChunkSize(data[written..])])));
  }

  lemma ChunksEnd(v: seq<Sector>, e: DirectoryEntry, f: nat, rest: seq<byte>)
    requires f < |v| && rest == []
    ensures WriteChunks(v, e, f, rest) == (v, ERROR_NONE)
  {
  }

  lemma SectorAligned(s: nat)
    ensures s * SECTOR_SIZE % PAGE_SIZE == 0 && (s * SECTOR_SIZE + ENTRY_SIZE) % PAGE_SIZE == 0
  {
    assert s * SECTOR_SIZE == s * 16 * PAGE_SIZE && s * SECTOR_SIZE + ENTRY_SIZE == (s * 16 + 1) * PAGE_SIZE;
  }

  /** Both writes into an erased sector succeed and store exactly their bytes. */
  lemma StoreOnErased(m: seq<byte>, n: nat, s: nat, e: DirectoryEntry, chunk: seq<byte>)
    requires Whole(m, n) && s < n && |chunk| <= USABLE && Sized(e)
    ensures var base := s * SECTOR_SIZE;
            var m2 := Overwrite(Erased(m, s), base + ENTRY_SIZE, chunk);
            && WriteResult(Erased(m, s), base + ENTRY_SIZE, chunk) == (m2, ERROR_NONE)
            && WriteResult(m2, base, EncodeEntry(e)) == (Stored(m, n, s, e, chunk), ERROR_NONE)
  {
    hide WriteResult, EncodeEntry;
    var base := s * SECTOR_SIZE;
    SectorAligned(s);
    WriteOnErased(Erased(m, s), base + ENTRY_SIZE, chunk);
    WriteOnErased(Overwrite(Erased(m, s), base + ENTRY_SIZE, chunk), base, EncodeEntry(e));
  }

  /** Without the named file there is still no free sector. */
  predicate NoneFree(v: seq<Sector>, name: seq<byte>) {
    CountUsed(Without(v, name)) == |v|
  }

  class SpiFlashMemoryFilesystem {
    const flash: SpiFlashMemory
    const md5: seq<byte> -> Hash
    var capacity: nat
    var used: nat
    var index: array<byte>
    var cursor: nat
    ghost var position: nat

    constructor (flash: SpiFlashMemory, md5: seq<byte> -> Hash)
      requires flash.Valid()
      ensures this.flash == flash && this.md5 == md5 && used == 0 && cursor == position * SECTOR_SIZE
    {
      this.flash, this.md5 := flash, md5;
      capacity, used, cursor, position := 0, 0, 0, 0;
      index := new byte[0];
    }

    // ---------- The state ----------

    /** Memory belongs together: the bitmap has one bit for each sector of the chip. */
    ghost predicate Valid()
      reads this
    {
      && flash.Valid() && capacity == flash.mem.Length && flash.sectors == 8 * index.Length
      && index != flash.mem && cursor == position * SECTOR_SIZE
    }

    ghost function V(): (v: seq<Sector>)
      requires flash.Valid()
      reads flash.mem
      ensures |v| == flash.sectors
    {
      View(flash.mem[..], flash.sectors)
    }

    ghost predicate Listed(s: nat)
      requires Valid() && s < flash.sectors
      reads this, index
    {
      Bit(index[s / 8], s % 8)
    }

    /** The bitmap lists exactly the sectors that hold a valid entry. */
    ghost predicate IndexOk()
      reads this, index, flash.mem
    {
      Valid() && forall s: nat :: s < flash.sectors ==> (Listed(s) <==> Used(V()[s]))
    }

    /** The whole invariant: bitmap, count and directory agree. */
    ghost predicate Ready()
      reads this, index, flash.mem
    {
      IndexOk() && used == SECTOR_SIZE * CountUsed(V()) && FsOk(V())
    }

    // ---------- The bitmap ----------

    method WriteIndex(address: nat, value: bool, ghost s: nat)
      requires Valid() && s < flash.sectors && address == s * SECTOR_SIZE
      modifies index
      ensures forall t: nat :: t < flash.sectors ==> Listed(t) == if t == s then value else old(Listed(t))
    {
      ghost var before := index[..];
      var i, bit := address / SECTOR_SIZE / 8, address / SECTOR_SIZE % 8;
      assert i == s / 8 && bit == s % 8;
      MaskBounds(index[i], bit);
      if value {
        index[i] := Or(index[i], Pow2(bit));
      } else {
        index[i] := And(index[i], 255 - Pow2(bit));
      }
      forall t: nat | t < flash.sectors
        ensures Listed(t) == if t == s then value else old(Listed(t))
      {
        SetClearBit(before[i], bit, t % 8);
      }
    }

    method ReadIndex(address: nat, ghost s: nat) returns (value: bool)
      requires Valid() && s < flash.sectors && address == s * SECTOR_SIZE
      ensures value == Listed(s)
    {
      var byteValue := index[address / SECTOR_SIZE / 8];
      ShiftedBit(byteValue, s % 8);
      value := And(ShiftRight(byteValue, address / SECTOR_SIZE % 8), 1) == 1;
    }

    // ---------- The directory ----------

    method ReadDirectory(address: nat, ghost s: nat) returns (entry: DirectoryEntry)
      requires flash.Valid() && s < flash.sectors && address == s * SECTOR_SIZE
      ensures entry == V()[s].entry
    {
      var bytes := flash.Read(address, ENTRY_SIZE);
      assert bytes == flash.mem[..][address..address + ENTRY_SIZE];
      entry := DecodeEntry(bytes);
    }

    /** The scan has listed the live sectors before s and, where every entry is in order, counted them on top of before. */
    ghost predicate Scanned(s: nat, before: nat)
      reads this, index, flash.mem
    {
      && Valid() && s <= flash.sectors
      && (forall t: nat :: t < flash.sectors ==>
            (Listed(t) <==> t < s && Used(V()[t]) && V()[t].entry.deleted != FILE_DELETED))
      && (EntriesOk(V()) ==> used == before + SECTOR_SIZE * CountUsed(V()[..s]))
    }

    /** One turn of the loop in `initialize`. */
    method ScanSector(address: nat, ghost s: nat, ghost before: nat)
      requires Scanned(s, before) && s < flash.sectors && address == s * SECTOR_SIZE
      modifies this`used, index
      ensures Scanned(s + 1, before)
    {
      hide View, CountUsed;
      var entry := ReadDirectory(address, s);
      CountNext(V(), s);
      if entry.magic == MAGIC_NUMBER && entry.deleted != FILE_DELETED {
        used := used + SECTOR_SIZE;
        assert forall t: nat :: t < flash.sectors ==> (Listed(t) <==> old(Listed(t)));
        WriteIndex(address, true, s);
        assert forall t: nat :: t < flash.sectors ==> (Listed(t) <==> t == s || old(Listed(t)));
      }
    }

    /** `initialize`: with files in order on the chip everything agrees afterwards, exactly if the count was zero before:
        a second call would count every sector again. */
    method Initialize(manufacturer: byte, kind: byte, code: byte) returns (ok: bool)
      requires flash.Valid() && cursor == position * SECTOR_SIZE
      requires IdentificationValid(manufacturer, kind, code) ==> Pow2(code) == flash.mem.Length && flash.sectors % 8 == 0
      modifies this
      ensures ok == IdentificationValid(manufacturer, kind, code) && (!ok ==> unchanged(this))
      ensures ok ==> fresh(index) && Scanned(flash.sectors, old(used))
      ensures ok && FsOk(V()) ==> IndexOk() && used == old(used) + SECTOR_SIZE * CountUsed(V())
      ensures ok && FsOk(V()) ==> (Ready() <==> old(used) == 0)
    {
      hide View, CountUsed, FsOk, Used, Pow2;
      if !(code != 0 && !((if manufacturer == kind then 1 else 0) == code)) {
        return false;
      }
      capacity := Pow2(code);
      var indexSize := capacity / SECTOR_SIZE / 8;
      index := new byte[indexSize](_ => 0);
      var address := 0;
      ghost var s := 0;
      NothingListed();
      NothingScanned();
      while address < capacity
        invariant fresh(index) && address == s * SECTOR_SIZE && Scanned(s, old(used))
        decreases capacity - address
      {
        ScanSector(address, s, old(used));
        address := address + SECTOR_SIZE;
        s := s + 1;
      }
      AllScanned(old(used));
      ok := true;
    }

    lemma NothingScanned()
      requires flash.Valid()
      ensures CountUsed(V()[..0]) == 0
    {
    }

    lemma AllScanned(before: nat)
      requires Scanned(flash.sectors, before)
      ensures FsOk(V()) ==> IndexOk() && used == before + SECTOR_SIZE * CountUsed(V()) && (Ready() <==> before == 0)
    {
      hide View, CountUsed;
      assert V()[..flash.sectors] == V();
      if FsOk(V()) {
        assert forall t: nat :: t < flash.sectors && Used(V()[t]) ==> EntryOk(V()[t].entry, t);
      }
    }

    lemma NothingListed()
      requires Valid() && forall i :: 0 <= i < index.Length ==> index[i] == 0
      ensures forall t: nat :: t < flash.sectors ==> !Listed(t)
    {
      forall t: nat | t < flash.sectors
        ensures !Listed(t)
      {
        ZeroBits(t % 8);
      }
    }

    /** `iterate_directory`: the next entry, or none after the last sector. */
    method IterateDirectory(reset: bool) returns (entry: Option<DirectoryEntry>)
      requires IndexOk()
      modifies this`cursor, this`position
      ensures Valid()
      ensures var s := if reset then 0 else old(position);
              if s < flash.sectors then entry == Some(Seen(V()[s])) && position == s + 1
              else entry == None && position == s
    {
      if reset {
        cursor, position := 0, 0;
      }
      hide View;
      if cursor >= capacity {
        return None;
      }
      ghost var s := position;
      var listed := ReadIndex(cursor, s);
      if listed {
        var e := ReadDirectory(cursor, s);
        if e.magic != MAGIC_NUMBER {
          e := e.(address := cursor);
        }
        cursor, position := cursor + SECTOR_SIZE, position + 1;
        return Some(e);
      } else {
        cursor, position := cursor + SECTOR_SIZE, position + 1;
        return Some(NULL_ENTRY);
      }
    }

    /** `get_free_sector`: the address of the first sector without a valid entry. */
    method GetFreeSector() returns (address: nat)
      requires Valid()
      ensures address == if FirstFree(V(), 0) == flash.sectors then 0xFFFF_FFFF else FirstFree(V(), 0) * 0x1000
    {
      hide View;
      var sector := 0;
      ghost var s := 0;
      while sector < capacity
        invariant sector == s * SECTOR_SIZE && s <= flash.sectors
        invariant FirstFree(V(), 0) == FirstFree(V(), s)
        decreases capacity - sector
      {
        var entry := ReadDirectory(sector, s);
        if entry.magic != MAGIC_NUMBER {
          return sector;
        }
        sector := sector + SECTOR_SIZE;
        s := s + 1;
      }
      address := ERROR_DIRECTORY_FULL;
    }

    /** `get_last_id`: the highest id in use. */
    method GetLastId() returns (lastId: nat)
      requires Valid()
      ensures lastId == MaxId(V(), flash.sectors)
    {
      hide View;
      lastId := 0;
      var i := 0;
      ghost var s := 0;
      while i < capacity
        invariant i == s * SECTOR_SIZE && s <= flash.sectors
        invariant lastId == MaxId(V(), s)
        decreases capacity - i
      {
        var entry := ReadDirectory(i, s);
        if entry.magic == MAGIC_NUMBER && entry.id > lastId {
          lastId := entry.id;
        }
        i := i + SECTOR_SIZE;
        s := s + 1;
      }
    }

    /** `get_fileid`: the id of the named file, 0 where the source would follow a null pointer. */
    method GetFileId(filename: seq<byte>) returns (id: nat)
      requires IndexOk()
      modifies this`cursor, this`position
      ensures Valid() && id == FileId(V(), filename)
    {
      hide View;
      var entry := IterateDirectory(true);
      ghost var s := 0;
      while entry.Some?
        invariant Valid() && s <= flash.sectors
        invariant entry == if s < flash.sectors then Some(Seen(V()[s])) else None
        invariant entry.Some? ==> position == s + 1
        invariant FindName(V(), filename, 0) == FindName(V(), filename, s)
        decreases flash.sectors - s
      {
        var e := entry.value;
        if e.magic == MAGIC_NUMBER && CString(e.filename) == filename && e.index == 0 && e.deleted == FILE_NOT_DELETED {
          return e.id;
        }
        entry := IterateDirectory(false);
        s := s + 1;
      }
      id := 0;
    }

    // ---------- Removing ----------

    /** `wipe`: an erased chip, an empty bitmap and a count of zero. */
    method Wipe()
      requires Valid()
      modifies this`used, index, flash.mem
      ensures Ready() && forall id :: !IsLive(V(), id)
      ensures forall q :: 0 <= q < flash.mem.Length ==> flash.mem[q] == 0xFF
    {
      hide View, CountUsed, FsOk;
      flash.ChipErase();
      for i := 0 to index.Length
        invariant flash.mem[..] == Ones(flash.mem.Length)
        invariant forall j :: 0 <= j < i ==> index[j] == 0
      {
        index[i] := 0;
      }
      used := 0;
      NothingListed();
      WipedView(flash.sectors);
      assert V() == View(Ones(flash.sectors * SECTOR_SIZE), flash.sectors);
    }

    /** Erases the sector of one entry and takes it off the bitmap and the count. */
    method Discard(address: nat, ghost s: nat)
      requires IndexOk() && s < flash.sectors && address == s * SECTOR_SIZE && Used(V()[s])
      requires used == SECTOR_SIZE * CountUsed(V())
      modifies this`used, index, flash.mem
      ensures IndexOk() && V() == old(V())[s := Blank()] && used == SECTOR_SIZE * CountUsed(V())
    {
      hide View, CountUsed, Blank, Erased;
      ghost var before := V();
      BlankUnused();
      CountUpdate(before, s, Blank());
      EraseView(flash.mem[..], flash.sectors, s);
      flash.SectorErase(address);
      assert V() == before[s := Blank()];
      assert forall t: nat :: t < flash.sectors ==> (Listed(t) <==> Used(before[t]));
      WriteIndex(address, false, s);
      used := used - SECTOR_SIZE;
      forall t: nat | t < flash.sectors
        ensures Listed(t) <==> Used(V()[t])
      {
        assert V()[t] == if t == s then Blank() else before[t];
      }
    }

    /** One turn of the loops in `remove`: an entry that is to go is erased. */
    method RemoveEntry(hit: bool, entry: DirectoryEntry, ghost v: seq<Sector>, ghost id: nat, ghost n: nat)
      requires IndexOk() && used == SECTOR_SIZE * CountUsed(V())
      requires n < |v| && V() == RemoveFirst(v, id, n) && FsOk(v) && entry == Seen(v[n])
      requires hit <==> Used(v[n]) && v[n].entry.id == id
      modifies this`used, index, flash.mem
      ensures IndexOk() && used == SECTOR_SIZE * CountUsed(V()) && V() == RemoveFirst(v, id, n + 1)
    {
      hide View, CountUsed, Blank, RemoveFirst, FilesAgree, NamesDistinct, FilesComplete;
      RemoveNext(v, id, n);
      if hit {
        assert EntryOk(v[n].entry, n);
        Discard(entry.address, n);
      }
    }

    /** `remove`: every sector of the file is erased; the loop reads each entry before it erases. */
    method Remove(id: nat)
      requires Ready()
      modifies this`used, this`cursor, this`position, index, flash.mem
      ensures V() == RemoveId(old(V()), id) && Ready()
    {
      hide View, CountUsed, Blank, RemoveFirst, RemoveId, FsOk, EntryOk, Seen, Used;
      ghost var v, n := V(), 0;
      RemoveKeepsOthers(v, id);
      RemoveBounds(v, id);
      var entry := IterateDirectory(true);
      while entry.Some?
        invariant IndexOk() && used == SECTOR_SIZE * CountUsed(V()) && n <= |v|
        invariant V() == RemoveFirst(v, id, n)
        invariant entry == if n < |v| then Some(Seen(v[n])) else None
        invariant entry.Some? ==> position == n + 1
        decreases |v| - n
      {
        var hit := entry.value.magic == MAGIC_NUMBER && entry.value.id == id;
        SeenHit(v, id, n);
        RemoveEntry(hit, entry.value, v, id, n);
        n := n + 1;
        if n < |v| { RemoveNext(v, id, n); }
        entry := IterateDirectory(false);
      }
    }

    /** `remove` by name. */
    method RemoveNamed(filename: seq<byte>)
      requires Ready()
      modifies this`used, this`cursor, this`position, index, flash.mem
      ensures V() == Without(old(V()), filename) && Ready()
    {
      hide View, CountUsed, Blank, RemoveFirst, RemoveId, FsOk, EntryOk, FileId, CString, Seen, Used;
      ghost var v, n := V(), 0;
      ghost var id := FileId(v, filename);
      RemoveKeepsOthers(v, id);
      RemoveBounds(v, id);
      RemoveNothing(v);
      var entry := IterateDirectory(true);
      while entry.Some?
        invariant IndexOk() && used == SECTOR_SIZE * CountUsed(V()) && n <= |v|
        invariant V() == RemoveFirst(v, id, n)
        invariant entry == if n < |v| then Some(Seen(v[n])) else None
        invariant entry.Some? ==> position == n + 1
        decreases |v| - n
      {
        var hit := entry.value.magic == MAGIC_NUMBER && filename == CString(entry.value.filename);
        SeenNamed(v, filename, n);
        RemoveEntry(hit, entry.value, v, id, n);
        n := n + 1;
        if n < |v| { RemoveNext(v, id, n); }
        entry := IterateDirectory(false);
      }
    }

    // ---------- Writing ----------

    /** One turn of the loop in `write_file`: erase the sector, list it, store the chunk and then its entry. */
    method StoreChunk(e: DirectoryEntry, chunk: seq<byte>, ghost s: nat) returns (err: Error)
      requires IndexOk() && s < flash.sectors && e.address == s * SECTOR_SIZE
      requires Sized(e) && e.magic == MAGIC_NUMBER && |chunk| <= USABLE
      modifies index, flash.mem
      ensures IndexOk() && err == ERROR_NONE && V() == old(V())[s := Sector(e, Fill(chunk))]
    {
      hide View, Fill, EncodeEntry, Stored, Erased, Overwrite, WriteResult;
      ghost var m, n := flash.mem[..], flash.sectors;
      StoreView(m, n, s, e, chunk);
      StoreOnErased(m, n, s, e, chunk);
      flash.SectorErase(e.address);
      WriteIndex(e.address, true, s);
      err := flash.Write(e.address + ENTRY_SIZE, chunk);
      if err != ERROR_NONE {
        return;
      }
      err := flash.Write(e.address, EncodeEntry(e));
    }

    /** The loop in `write_file`: chunk after chunk into the first free sector, which is looked up once more at the end. */
    method StoreChunks(firstEntry: DirectoryEntry, data: seq<byte>, ghost firstFree: nat) returns (e: Error)
      requires IndexOk() && used == SECTOR_SIZE * CountUsed(V())
      requires firstFree < flash.sectors && !Used(V()[firstFree]) && firstEntry.address == firstFree * SECTOR_SIZE
      requires Sized(firstEntry) && firstEntry.magic == MAGIC_NUMBER && firstEntry.index == 0 && |data| < WORD
      modifies this`used, index, flash.mem
      ensures IndexOk() && (V(), e) == WriteChunks(old(V()), firstEntry, firstFree, data)
      ensures e == ERROR_NONE ==> used == SECTOR_SIZE * CountUsed(V())
      ensures e != ERROR_NONE ==> e == ERROR_FULL && used + SECTOR_SIZE == SECTOR_SIZE * CountUsed(V())
    {
      hide View, WriteChunks, CountUsed, Fill;
      ghost var total := WriteChunks(V(), firstEntry, firstFree, data);
      ghost var f: nat := firstFree;
      var entry := firstEntry;
      var remaining: nat, written: nat := |data|, 0;
      assert data[written..] == data;
      while remaining > 0
        invariant IndexOk() && used == SECTOR_SIZE * CountUsed(V()) && remaining + written == |data|
        invariant f < flash.sectors && !Used(V()[f]) && entry.address == f * SECTOR_SIZE
        invariant Sized(entry) && entry.magic == MAGIC_NUMBER && entry.index <= written
        invariant WriteChunks(V(), entry, f, data[written..]) == total
        decreases remaining
      {
        var size := if remaining < USABLE then remaining else USABLE;
        ChunksStep(V(), entry, f, data, written);
        e := StoreChunk(entry, data[written..written + size], f);
        if e != ERROR_NONE {
          return;
        }
        entry := entry.(index := entry.index + 1);
        var next := GetFreeSector();
        entry := entry.(address := next);
        if entry.address == ERROR_DIRECTORY_FULL {
          return ERROR_FULL;
        }
        f := FirstFree(V(), 0);
        written := written + size;
        remaining := remaining - size;
        used := used + SECTOR_SIZE;
      }
      ChunksEnd(V(), entry, f, data[written..]);
      e := ERROR_NONE;
    }

    /** `write_file`: replace the named file. When the chip is full the count is one sector short, unless there was no free
        sector to begin with; so everything agrees afterwards exactly when no error is returned or nothing was written. */
    method WriteFile(filename: seq<byte>, data: seq<byte>) returns (e: Error)
      requires Ready() && IsName(filename) && |data| < WORD
      modifies this`used, this`cursor, this`position, index, flash.mem
      ensures IndexOk() && (V(), e) == FlashFiles.WriteFile(old(V()), filename, data, md5(data))
      ensures e == ERROR_NONE ==> used == SECTOR_SIZE * CountUsed(V())
      ensures e == 0 || e == 0x8000
      ensures e != ERROR_NONE ==>
                used == SECTOR_SIZE * CountUsed(V()) - if NoneFree(old(V()), filename) then 0 else SECTOR_SIZE
      ensures NextId(Without(old(V()), filename)) != 0 ==>
                (Ready() <==> e == ERROR_NONE || NoneFree(old(V()), filename))
      ensures NextId(Without(old(V()), filename)) != 0 ==>
                (FsOk(V()) <==> HasRoom(old(V()), filename, data) || NoneFree(old(V()), filename))
    {
      hide View, WriteChunks, CountUsed, FilesAgree, NamesDistinct, FilesComplete, FirstFree, FindName, RemoveId, EntryOk,
           NewEntry, NextId;
      ghost var v := V();
      var id := GetFileId(filename);
      if id != 0 {
        Remove(id);
      }
      assert V() == Without(v, filename);
      FullExactlyWhen(V());
      if NextId(V()) != 0 { WriteKeepsInvariantExactlyWhen(v, filename, data, md5(data)); }
      e := WriteNew(filename, data);
      if e == ERROR_NONE { SuccessHasRoom(v, filename, data, md5(data)); }
    }

    /** The part of `write_file` after the removal: the first free sector, the next id, and the chunks. */
    method WriteNew(filename: seq<byte>, data: seq<byte>) returns (e: Error)
      requires IndexOk() && used == SECTOR_SIZE * CountUsed(V()) && EntriesOk(V())
      requires IsName(filename) && |data| < WORD
      modifies this`used, index, flash.mem
      ensures IndexOk()
      ensures var (v, f) := (old(V()), FirstFree(old(V()), 0));
              (V(), e) == if f == |v| then (v, ERROR_FULL) else WriteChunks(v, NewEntry(v, filename, data, md5(data), f), f, data)
      ensures e == ERROR_NONE ==> used == SECTOR_SIZE * CountUsed(V())
      ensures e != ERROR_NONE ==> e == ERROR_FULL
      ensures e != ERROR_NONE ==>
                used == SECTOR_SIZE * CountUsed(V()) - if FirstFree(old(V()), 0) == flash.sectors then 0 else SECTOR_SIZE
    {
      hide View, WriteChunks, CountUsed, FirstFree, MaxId, EntryOk;
      var sectors := |data| / USABLE + 1;
      var freeSector := GetFreeSector();
      if freeSector == ERROR_DIRECTORY_FULL {
        return ERROR_FULL;
      }
      var lastId := GetLastId();
      var entry := DirectoryEntry(MAGIC_NUMBER, if lastId == WORD - 1 then 0 else lastId + 1, sectors, 0, freeSector,
                                  PadName(filename), |data|, md5(data), FILE_NOT_DELETED);
      MaxIdBound(V());
      e := StoreChunks(entry, data, FirstFree(V(), 0));
    }

    // ---------- Reading ----------

    method ReadPayload(address: nat, size: nat, ghost s: nat) returns (chunk: seq<byte>)
      requires flash.Valid() && s < flash.sectors && address == s * SECTOR_SIZE + ENTRY_SIZE && size <= USABLE
      ensures chunk == V()[s].payload[..size]
    {
      chunk := flash.Read(address, size);
      assert chunk == flash.mem[..][address..address + USABLE][..size];
    }

    /** Reads one chunk to its place in the buffer. */
    method GatherChunk(e: DirectoryEntry, data: array<byte>, length: nat, ghost s: nat, ghost contents: seq<byte>,
                       ghost seen: set<nat>, ghost before: seq<byte>) returns (size: nat)
      requires flash.Valid() && s < flash.sectors && EntryOk(e, s) && SameShape(e.length, length) && length == |contents|
      requires PayloadIs(V()[s].payload, contents, e.index)
      requires data != flash.mem && Gathered(data[..], before, contents, seen)
      modifies data
      ensures size == ChunkLength(length, e.index)
      ensures Gathered(data[..], before, contents, seen + {e.index})
    {
      hide View, Chunks, IsNameField;
      ReadSize(e.length, e.index, length);
      var target := e.index * USABLE;
      size := if e.index == e.sectors - 1 then length % USABLE else USABLE;
      var chunk := ReadPayload(e.address + ENTRY_SIZE, size, s);
      ghost var was := data[..];
      for k := 0 to size
        invariant forall p :: 0 <= p < data.Length ==>
                    data[p] == if target <= p < target + k then contents[p] else was[p]
      {
        assert chunk[k] == V()[s].payload[k] == contents[target + k];
        data[target + k] := chunk[k];
      }
      forall p | 0 <= p < |contents| && p / USABLE == e.index
        ensures target <= p < target + size
      {
        PlaceInChunk(length, e.index, p);
      }
    }

    /** The loop in `read_file`: chunk after chunk, in the order of the sectors, until nothing remains; the last entry read
        is returned. */
    method GatherFile(id: nat, data: array<byte>, length: nat) returns (last: DirectoryEntry)
      requires IndexOk() && FsOk(V()) && data != flash.mem && data != index
      requires id != 0 && IsLive(V(), id) && SameShape(LengthOf(V(), id), length) && length <= data.Length
      modifies this`cursor, this`position, data
      ensures IndexOk() && V() == old(V())
      ensures data[..] == FirstBytes(V(), id, length) + old(data[length..]) && last.md5 == Md5Of(V(), id)
    {
      hide View, FirstBytes, SameShape, SeenChunks, Unread, FsOk, Chunks, LengthOf, Md5Of, PayloadIs, EntryOk,
           Seen, Holds, Used, Gathered, IsLive;
      ghost var v, contents, before := V(), FirstBytes(V(), id, length), data[..];
      ghost var n: nat, seen: set<nat> := 0, {};
      var remaining: nat := length;
      StartReading(v, id, length);
      NothingGathered(before, contents);
      var entry := IterateDirectory(true);
      while entry.Some?
        invariant IndexOk() && V() == v && n <= |v|
        invariant entry == if n < |v| then Some(Seen(v[n])) else None
        invariant entry.Some? ==> position == n + 1
        invariant seen == SeenChunks(v, id, n) && Gathered(data[..], before, contents, seen)
        invariant remaining == Unread(length, seen, Chunks(length)) > 0
        decreases |v| - n
      {
        ReadingStep(v, id, length, n);
        last := entry.value;
        if last.id == id {
          var size := GatherChunk(last, data, length, n, contents, seen, before);
          remaining := remaining - size;
        }
        seen := SeenChunks(v, id, n + 1);
        if remaining == 0 {
          ReadingEnds(v, id, length, seen);
          GatheredAll(data[..], before, contents, seen);
          return;
        }
        entry := IterateDirectory(false);
        n := n + 1;
      }
      ReadingEnds(v, id, length, seen);
      last := NULL_ENTRY;
    }

    /** `read_file` by id, for a buffer that fits and a length that is split into the same sectors as the file: the bytes of
        every chunk reach their place, and the hash of the whole is compared with the stored one. */
    method ReadById(id: nat, data: array<byte>, length: nat) returns (e: Error)
      requires IndexOk() && FsOk(V()) && data != flash.mem && data != index
      requires id != 0 ==> IsLive(V(), id) && SameShape(LengthOf(V(), id), length) && length <= data.Length
      modifies this`cursor, this`position, data
      ensures IndexOk() && V() == old(V())
      ensures id == 0 ==> e == 0x1000 && data[..] == old(data[..])
      ensures id != 0 ==> data[..] == FirstBytes(V(), id, length) + old(data[length..])
      ensures id != 0 ==>
                e == if md5(FirstBytes(V(), id, length)) == Md5Of(V(), id) then 0 else 0x800
    {
      if id == 0 {
        return ERROR_INVALID_FILE_ID;
      }
      hide View, FirstBytes, SameShape, FsOk, LengthOf, Md5Of, IsLive, IndexOk;
      var last := GatherFile(id, data, length);
      var hash := md5(data[..length]);
      assert data[..length] == FirstBytes(V(), id, length);
      e := if hash != last.md5 then ERROR_FILE_CORRUPT else ERROR_NONE;
    }

    /** `read_file` by name. */
    method ReadFile(filename: seq<byte>, data: array<byte>, length: nat) returns (e: Error)
      requires IndexOk() && FsOk(V()) && data != flash.mem && data != index
      requires FileId(V(), filename) != 0 ==> IsLive(V(), FileId(V(), filename)) && length <= data.Length
                                              && SameShape(LengthOf(V(), FileId(V(), filename)), length)
      modifies this`cursor, this`position, data
      ensures IndexOk() && V() == old(V()) && e == ReadAs(V(), filename, md5, length).0
      ensures e == ERROR_FILE_NOT_FOUND ==> data[..] == old(data[..])
      ensures e == 0x2000 <==> FileId(V(), filename) == 0
      ensures e != ERROR_FILE_NOT_FOUND ==> data[..] == ReadAs(V(), filename, md5, length).1 + old(data[length..])
    {
      hide View, FirstBytes, SameShape, FsOk, Md5Of, IsLive, FileId;
      var id := GetFileId(filename);
      if id == 0 {
        return ERROR_FILE_NOT_FOUND;
      }
      e := ReadById(id, data, length);
    }
  }
}
