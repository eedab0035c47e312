/**
 The layout of the flash filesystem: every sector holds a 256-byte directory entry and one chunk of a file.
 Its operations as functions on the sequence of sectors.
 */
module FlashDirectory {
  import opened Bits
  import opened SpiFlash

  const MAGIC_NUMBER := 0x947A_6E2E
  const FILENAME_LENGTH := 80
  const ENTRY_SIZE := 256
  const USABLE := 3840           // SECTOR_SIZE - ENTRY_SIZE
  const FILE_NOT_DELETED: byte := 0x00
  const FILE_DELETED: byte := 0xFF
  const WORD := 0x1_0000_0000

  type Hash = h: seq<byte> | |h| == 16 witness [0, 0, 0, 0, 0, 0, 0, 0, 0, 0, 0, 0, 0, 0, 0, 0]

  datatype DirectoryEntry = DirectoryEntry(
    magic: nat, id: nat, sectors: nat, index: nat, address: nat,
    filename: seq<byte>, length: nat, md5: seq<byte>, deleted: byte)

  datatype Sector = Sector(entry: DirectoryEntry, payload: seq<byte>)

  // ---------- Entries as bytes ----------

  /** A 32-bit word, least significant byte first. */
  function Word(x: nat): (s: seq<byte>)
    ensures |s| == 4
  {
    var a := x / 256;
    var b := a / 256;
    var c := b / 256;
    [x % 256, a % 256, b % 256, c % 256]
  }

  function WordOf(s: seq<byte>): (x: nat)
    requires |s| == 4
    ensures x < WORD
  {
    s[0] as nat + 256 * (s[1] as nat) + 0x1_0000 * (s[2] as nat) + 0x100_0000 * (s[3] as nat)
  }

  lemma WordRoundTrip(x: nat)
    requires x < WORD
    ensures WordOf(Word(x)) == x
  {
  }

  function Zeros(n: nat): (s: seq<byte>)
    ensures |s| == n && forall i :: 0 <= i < n ==> s[i] == 0
  {
    if n == 0 then [] else [0] + Zeros(n - 1)
  }

  predicate Sized(e: DirectoryEntry) {
    && e.magic < WORD && e.id < WORD && e.sectors < WORD && e.index < WORD && e.address < WORD && e.length < WORD
    && |e.filename| == FILENAME_LENGTH && |e.md5| == 16
  }

  /** The 256 bytes of an entry: five words, the name, the length, the hash, the deletion mark and padding. */
  function EncodeEntry(e: DirectoryEntry): (s: seq<byte>)
    requires Sized(e)
    ensures |s| == ENTRY_SIZE
  {
    Word(e.magic) + Word(e.id) + Word(e.sectors) + Word(e.index) + Word(e.address)
    + e.filename + Word(e.length) + e.md5 + [e.deleted] + Zeros(135)
  }

  function DecodeEntry(s: seq<byte>): (e: DirectoryEntry)
    requires |s| == ENTRY_SIZE
    ensures Sized(e)
  {
    DirectoryEntry(WordOf(s[0..4]), WordOf(s[4..8]), WordOf(s[8..12]), WordOf(s[12..16]), WordOf(s[16..20]),
                   s[20..100], WordOf(s[100..104]), s[104..120], s[120])
  }

  lemma EntryRoundTrip(e: DirectoryEntry)
    requires Sized(e)
    ensures DecodeEntry(EncodeEntry(e)) == e
  {
    var s := EncodeEntry(e);
    assert s[0..4] == Word(e.magic) && s[4..8] == Word(e.id) && s[8..12] == Word(e.sectors);
    assert s[12..16] == Word(e.index) && s[16..20] == Word(e.address);
    assert s[20..100] == e.filename && s[100..104] == Word(e.length);
    assert s[104..120] == e.md5 && s[120] == e.deleted;
    WordRoundTrip(e.magic);
    WordRoundTrip(e.id);
    WordRoundTrip(e.sectors);
    WordRoundTrip(e.index);
    WordRoundTrip(e.address);
    WordRoundTrip(e.length);
  }

  /** The four bytes from o on are the word x, least significant byte first. */
  predicate WordAt(s: seq<byte>, o: nat, x: nat)
    requires o + 4 <= |s|
  {
    x == s[o] as int + 0x100 * s[o + 1] as int + 0x1_0000 * s[o + 2] as int + 0x100_0000 * s[o + 3] as int
  }

  /** Which of the 256 bytes an entry's fields are read from. */
  lemma DecodedLayout(s: seq<byte>)
    requires |s| == 0x100
    ensures var e := DecodeEntry(s);
            && WordAt(s, 0, e.magic) && WordAt(s, 4, e.id) && WordAt(s, 8, e.sectors) && WordAt(s, 12, e.index)
            && WordAt(s, 16, e.address) && e.filename == s[20..100] && WordAt(s, 100, e.length)
            && e.md5 == s[104..120] && e.deleted == s[120]
  {
  }

  /** And which they are written to; the rest is zero. */
  lemma EncodedLayout(e: DirectoryEntry)
    requires Sized(e)
    ensures var s := EncodeEntry(e);
            && |s| == 0x100 && WordAt(s, 0, e.magic) && WordAt(s, 4, e.id) && WordAt(s, 8, e.sectors)
            && WordAt(s, 12, e.index) && WordAt(s, 16, e.address) && s[20..100] == e.filename && WordAt(s, 100, e.length)
            && s[104..120] == e.md5 && s[120] == e.deleted && forall i :: 121 <= i < 0x100 ==> s[i] == 0
  {
    hide WordAt;
    EntryRoundTrip(e);
    DecodedLayout(EncodeEntry(e));
  }

  // ---------- The chip as sectors ----------

  predicate Whole(m: seq<byte>, n: nat) {
    |m| == n * SECTOR_SIZE
  }

  function SectorAt(m: seq<byte>, n: nat, s: nat): (x: Sector)
    requires Whole(m, n) && s < n
    ensures |x.payload| == USABLE && Sized(x.entry)
  {
    var base := s * SECTOR_SIZE;
    Sector(DecodeEntry(m[base..base + ENTRY_SIZE]), m[base + ENTRY_SIZE..base + SECTOR_SIZE])
  }

  /** A sector is 4096 bytes: the entry in the first 256, the payload in the others. It is in use exactly when it begins
      with the magic number. */
  lemma SectorLayout(m: seq<byte>, n: nat, s: nat)
    requires Whole(m, n) && s < n
    ensures (s + 1) * 0x1000 <= |m|
    ensures var x := SectorAt(m, n, s);
            && x.entry == DecodeEntry(m[s * 0x1000..s * 0x1000 + 0x100])
            && x.payload == m[s * 0x1000 + 0x100..(s + 1) * 0x1000]
            && (Used(x) <==> m[s * 0x1000..s * 0x1000 + 4] == [0x2E, 0x6E, 0x7A, 0x94])
  {
    var base := s * 0x1000;
    DecodedLayout(m[base..base + 0x100]);
    hide DecodeEntry;
    assert m[base..base + 0x100][..4] == m[base..base + 4];
  }

  function View(m: seq<byte>, n: nat): (v: seq<Sector>)
    requires Whole(m, n)
    ensures |v| == n
  {
    seq(n, s requires 0 <= s < n => SectorAt(m, n, s))
  }

  function Blank(): Sector {
    Sector(DecodeEntry(Ones(ENTRY_SIZE)), Ones(USABLE))
  }

  /** A chunk in a sector that was erased before. */
  function Fill(chunk: seq<byte>): (payload: seq<byte>)
    requires |chunk| <= USABLE
    ensures |payload| == USABLE
  {
    chunk + Ones(USABLE - |chunk|)
  }

  /** Sectors whose bytes are the same look the same. */
  lemma SameSector(m: seq<byte>, m': seq<byte>, n: nat, s: nat)
    requires Whole(m, n) && Whole(m', n) && s < n
    requires forall q :: s * SECTOR_SIZE <= q < (s + 1) * SECTOR_SIZE ==> m'[q] == m[q]
    ensures SectorAt(m', n, s) == SectorAt(m, n, s)
  {
    var base := s * SECTOR_SIZE;
    assert m'[base..base + ENTRY_SIZE] == m[base..base + ENTRY_SIZE];
    assert m'[base + ENTRY_SIZE..base + SECTOR_SIZE] == m[base + ENTRY_SIZE..base + SECTOR_SIZE];
  }

  /** A change inside one sector changes only that sector of the view. */
  lemma ViewChange(m: seq<byte>, m': seq<byte>, n: nat, s: nat, x: Sector)
    requires Whole(m, n) && Whole(m', n) && s < n && SectorAt(m', n, s) == x
    requires forall q :: 0 <= q < |m| && !(s * SECTOR_SIZE <= q < (s + 1) * SECTOR_SIZE) ==> m'[q] == m[q]
    ensures View(m', n) == View(m, n)[s := x]
  {
    forall t | 0 <= t < n
      ensures View(m', n)[t] == View(m, n)[s := x][t]
    {
      if t != s {
        SameSector(m, m', n, t);
      }
    }
  }

  /** What a slice sees of an overwrite that starts where the slice does, and of one that ends before it. */
  lemma OverwriteSlice(m: seq<byte>, a: nat, d: seq<byte>, b: nat)
    requires a + |d| <= b <= |m|
    ensures Overwrite(m, a, d)[a..b] == d + m[a + |d|..b]
    ensures Overwrite(m, a, d)[a + |d|..b] == m[a + |d|..b]
  {
  }

  lemma ErasedSector(m: seq<byte>, n: nat, s: nat)
    requires Whole(m, n) && s < n
    ensures SectorAt(Erased(m, s), n, s) == Blank()
    ensures forall q :: 0 <= q < |m| && !(s * SECTOR_SIZE <= q < (s + 1) * SECTOR_SIZE) ==> Erased(m, s)[q] == m[q]
  {
    hide DecodeEntry;
    var m', base := Erased(m, s), s * SECTOR_SIZE;
    assert m'[base..base + ENTRY_SIZE] == Ones(ENTRY_SIZE);
    assert m'[base + ENTRY_SIZE..base + SECTOR_SIZE] == Ones(USABLE);
  }

  lemma EraseView(m: seq<byte>, n: nat, s: nat)
    requires Whole(m, n) && s < n
    ensures View(Erased(m, s), n) == View(m, n)[s := Blank()]
  {
    hide View, SectorAt, Blank, Erased;
    ErasedSector(m, n, s);
    ViewChange(m, Erased(m, s), n, s, Blank());
  }

  /** Storing a chunk and then its entry in an erased sector. */
  function Stored(m: seq<byte>, n: nat, s: nat, e: DirectoryEntry, chunk: seq<byte>): (r: seq<byte>)
    requires Whole(m, n) && s < n && |chunk| <= USABLE && Sized(e)
    ensures |r| == |m|
  {
    Overwrite(Overwrite(Erased(m, s), s * SECTOR_SIZE + ENTRY_SIZE, chunk), s * SECTOR_SIZE, EncodeEntry(e))
  }

  lemma StoredOutside(m: seq<byte>, n: nat, s: nat, e: DirectoryEntry, chunk: seq<byte>)
    requires Whole(m, n) && s < n && |chunk| <= USABLE && Sized(e)
    ensures forall q :: 0 <= q < |m| && !(s * SECTOR_SIZE <= q < (s + 1) * SECTOR_SIZE) ==>
              Stored(m, n, s, e, chunk)[q] == m[q]
  {
  }

  lemma StoreView(m: seq<byte>, n: nat, s: nat, e: DirectoryEntry, chunk: seq<byte>)
    requires Whole(m, n) && s < n && |chunk| <= USABLE && Sized(e)
    ensures View(Stored(m, n, s, e, chunk), n) == View(m, n)[s := Sector(e, Fill(chunk))]
  {
    var base, end := s * SECTOR_SIZE, (s + 1) * SECTOR_SIZE;
    var m1 := Erased(m, s);
    var m2 := Overwrite(m1, base + ENTRY_SIZE, chunk);
    var m3 := Stored(m, n, s, e, chunk);
    assert m1[base + ENTRY_SIZE + |chunk|..end] == Ones(USABLE - |chunk|);
    OverwriteSlice(m1, base + ENTRY_SIZE, chunk, end);
    OverwriteSlice(m2, base, EncodeEntry(e), end);
    OverwriteSlice(m2, base, EncodeEntry(e), base + ENTRY_SIZE);
    assert m3[base..base + ENTRY_SIZE] == EncodeEntry(e) + [] == EncodeEntry(e);
    EntryRoundTrip(e);
    StoredOutside(m, n, s, e, chunk);
    ViewChange(m, m3, n, s, Sector(e, Fill(chunk)));
  }

  // ---------- Names ----------

  /** A C string: the bytes before the first NUL. */
  function CString(raw: seq<byte>): (name: seq<byte>)
    ensures |name| <= |raw| && 0 !in name
  {
    if raw == [] || raw[0] == 0 then [] else [raw[0]] + CString(raw[1..])
  }

  /** A name copied into the zeroed name field. */
  function PadName(name: seq<byte>): (raw: seq<byte>)
    requires |name| < FILENAME_LENGTH
    ensures |raw| == FILENAME_LENGTH
  {
    name + Zeros(FILENAME_LENGTH - |name|)
  }

  lemma {:induction false} CStringOfPadded(name: seq<byte>, n: nat)
    requires 0 !in name && n > 0
    ensures CString(name + Zeros(n)) == name
    decreases |name|
  {
    if name == [] {
    } else {
      assert (name + Zeros(n))[1..] == name[1..] + Zeros(n);
      CStringOfPadded(name[1..], n);
    }
  }

  predicate IsName(name: seq<byte>) {
    |name| < FILENAME_LENGTH && 0 !in name
  }

  predicate IsNameField(raw: seq<byte>) {
    IsName(CString(raw)) && raw == PadName(CString(raw))
  }

  lemma PadNameIsField(name: seq<byte>)
    requires IsName(name)
    ensures IsNameField(PadName(name)) && CString(PadName(name)) == name
  {
    CStringOfPadded(name, FILENAME_LENGTH - |name|);
  }

  // ---------- The filesystem ----------

  predicate Used(x: Sector) {
    x.entry.magic == MAGIC_NUMBER
  }

  function Chunks(length: nat): nat {
    (length + USABLE - 1) / USABLE
  }

  /** The bytes of chunk i of a file. */
  function Chunk(data: seq<byte>, i: nat): (c: seq<byte>)
    requires i < Chunks(|data|)
    ensures 0 < |c| <= USABLE
  {
    data[i * USABLE..if (i + 1) * USABLE <= |data| then (i + 1) * USABLE else |data|]
  }

  /** The entry of sector s describes a chunk of a file that lives there. */
  predicate EntryOk(e: DirectoryEntry, s: nat) {
    && e.address == s * SECTOR_SIZE && e.deleted == FILE_NOT_DELETED
    && 0 < e.id < WORD && IsNameField(e.filename)
    && 0 < e.length < WORD && e.sectors == e.length / USABLE + 1 && e.index < Chunks(e.length)
  }

  /** Two entries of the same file differ only in index and address. */
  predicate SameFile(e: DirectoryEntry, f: DirectoryEntry) {
    e.filename == f.filename && e.length == f.length && e.md5 == f.md5
  }

  predicate Holds(v: seq<Sector>, s: nat, id: nat) {
    s < |v| && Used(v[s]) && v[s].entry.id == id
  }

  ghost predicate EntriesOk(v: seq<Sector>) {
    forall s :: 0 <= s < |v| && Used(v[s]) ==> EntryOk(v[s].entry, s) && |v[s].payload| == USABLE
  }

  ghost predicate FilesAgree(v: seq<Sector>) {
    forall s, t :: 0 <= s < |v| && 0 <= t < |v| && Used(v[s]) && Used(v[t]) && v[s].entry.id == v[t].entry.id ==>
      SameFile(v[s].entry, v[t].entry) && (v[s].entry.index == v[t].entry.index ==> s == t)
  }

  ghost predicate NamesDistinct(v: seq<Sector>) {
    forall s, t :: 0 <= s < |v| && 0 <= t < |v| && Used(v[s]) && Used(v[t]) && v[s].entry.filename == v[t].entry.filename ==>
      v[s].entry.id == v[t].entry.id
  }

  /** Some sector holds chunk i of the file. */
  ghost predicate HasChunk(v: seq<Sector>, id: nat, i: nat) {
    exists s: nat :: Holds(v, s, id) && v[s].entry.index == i
  }

  ghost predicate FilesComplete(v: seq<Sector>) {
    forall s, i: nat :: 0 <= s < |v| && Used(v[s]) && i < Chunks(v[s].entry.length) ==> HasChunk(v, v[s].entry.id, i)
  }

  /** The filesystem's invariant: entries lie in their own sectors, each file has each of its chunks exactly once,
      and no two files share a name. */
  ghost predicate FsOk(v: seq<Sector>) {
    EntriesOk(v) && FilesAgree(v) && NamesDistinct(v) && FilesComplete(v)
  }

  function CountUsed(v: seq<Sector>): (n: nat)
    ensures n <= |v|
  {
    if v == [] then 0 else CountUsed(v[..|v| - 1]) + if Used(v[|v| - 1]) then 1 else 0
  }

  lemma {:induction false} CountUpdate(v: seq<Sector>, s: nat, x: Sector)
    requires s < |v|
    ensures CountUsed(v[s := x]) == CountUsed(v) + (if Used(x) then 1 else 0) - (if Used(v[s]) then 1 else 0)
    decreases |v|
  {
    var init := v[..|v| - 1];
    if s == |v| - 1 {
      assert v[s := x][..|v| - 1] == init;
    } else {
      assert v[s := x][..|v| - 1] == init[s := x];
      CountUpdate(init, s, x);
    }
  }

  lemma CountNext(v: seq<Sector>, s: nat)
    requires s < |v|
    ensures CountUsed(v[..s + 1]) == CountUsed(v[..s]) + if Used(v[s]) then 1 else 0
  {
    assert v[..s + 1][..s] == v[..s];
  }

  // ---------- Lookups ----------

  /** The first sector at or after s that holds no valid entry; the number of sectors if there is none. */
  function FirstFree(v: seq<Sector>, s: nat): (f: nat)
    requires s <= |v|
    ensures s <= f <= |v|
    ensures forall t :: s <= t < f ==> Used(v[t])
    ensures f < |v| ==> !Used(v[f])
    decreases |v| - s
  {
    if s == |v| || !Used(v[s]) then s else FirstFree(v, s + 1)
  }

  /** The highest id among the first n sectors, 0 if none is used. */
  function MaxId(v: seq<Sector>, n: nat): (id: nat)
    requires n <= |v|
    ensures forall s :: 0 <= s < n && Used(v[s]) ==> v[s].entry.id <= id
  {
    if n == 0 then 0
    else
      var id := MaxId(v, n - 1);
      if Used(v[n - 1]) && v[n - 1].entry.id > id then v[n - 1].entry.id else id
  }

  lemma {:induction false} MaxIdHeld(v: seq<Sector>, n: nat)
    requires n <= |v| && MaxId(v, n) > 0
    ensures exists s: nat :: s < n && Holds(v, s, MaxId(v, n))
    decreases n
  {
    if Used(v[n - 1]) && v[n - 1].entry.id > MaxId(v, n - 1) {
      assert Holds(v, n - 1, MaxId(v, n));
    } else {
      MaxIdHeld(v, n - 1);
    }
  }

  predicate IsFirstChunk(x: Sector, name: seq<byte>) {
    Used(x) && CString(x.entry.filename) == name && x.entry.index == 0 && x.entry.deleted == FILE_NOT_DELETED
  }

  /** The first sector at or after s with the first chunk of the named file; the number of sectors if there is none. */
  function FindName(v: seq<Sector>, name: seq<byte>, s: nat): (f: nat)
    requires s <= |v|
    ensures s <= f <= |v|
    ensures f < |v| ==> IsFirstChunk(v[f], name)
    ensures forall t :: s <= t < f ==> !IsFirstChunk(v[t], name)
    decreases |v| - s
  {
    if s == |v| || IsFirstChunk(v[s], name) then s else FindName(v, name, s + 1)
  }

  /** The id of the named file, 0 if there is none. */
  function FileId(v: seq<Sector>, name: seq<byte>): nat {
    var f := FindName(v, name, 0);
    if f == |v| then 0 else v[f].entry.id
  }

  /** The entry carries the magic number and the name, belongs to a first chunk, and is not marked as deleted. */
  ghost predicate Leads(e: DirectoryEntry, name: seq<byte>) {
    e.magic == 0x947A_6E2E && CString(e.filename) == name && e.index == 0 && e.deleted == 0x00
  }

  /** In any directory, also one that is not in order, a name leads to the id of the first entry that carries it, or to 0. */
  lemma FoundByName(v: seq<Sector>, name: seq<byte>)
    ensures (forall s :: 0 <= s < |v| ==> !Leads(v[s].entry, name)) ==> FileId(v, name) == 0
    ensures forall s :: 0 <= s < |v| && Leads(v[s].entry, name) && (forall t :: 0 <= t < s ==> !Leads(v[t].entry, name)) ==>
              FileId(v, name) == v[s].entry.id
  {
    assert forall s :: 0 <= s < |v| ==> (Leads(v[s].entry, name) <==> IsFirstChunk(v[s], name));
  }

  // ---------- Contents ----------

  /** The sector that holds chunk i of a file. */
  ghost function Where(v: seq<Sector>, id: nat, i: nat): (s: nat)
    requires HasChunk(v, id, i)
    ensures Holds(v, s, id) && v[s].entry.index == i
  {
    var s: nat :| Holds(v, s, id) && v[s].entry.index == i;
    s
  }

  ghost predicate IsLive(v: seq<Sector>, id: nat) {
    exists s: nat :: Holds(v, s, id)
  }

  ghost function LengthOf(v: seq<Sector>, id: nat): (n: nat)
    requires IsLive(v, id)
  {
    var s: nat :| Holds(v, s, id);
    v[s].entry.length
  }

  lemma LengthOfAny(v: seq<Sector>, id: nat, s: nat)
    requires FilesAgree(v) && Holds(v, s, id)
    ensures LengthOf(v, id) == v[s].entry.length
  {
  }

  lemma ChunkIndex(length: nat, p: nat)
    requires p < length
    ensures p / USABLE < Chunks(length)
  {
  }

  ghost function ByteAt(v: seq<Sector>, id: nat, p: nat): byte
    requires EntriesOk(v) && HasChunk(v, id, p / USABLE)
  {
    v[Where(v, id, p / USABLE)].payload[p % USABLE]
  }

  /** A file of n bytes is split like one of the given length. */
  predicate SameShape(length: nat, n: nat) {
    n / USABLE == length / USABLE && Chunks(n) == Chunks(length)
  }

  lemma ChunkThere(v: seq<Sector>, id: nat, p: nat, n: nat)
    requires FsOk(v) && IsLive(v, id) && SameShape(LengthOf(v, id), n) && p < n
    ensures HasChunk(v, id, p / USABLE)
  {
    var s: nat :| Holds(v, s, id);
    LengthOfAny(v, id, s);
    ChunkIndex(n, p);
  }

  /** The first n bytes of the sectors that hold the chunks of a file, for an n that needs the same sectors. */
  ghost function FirstBytes(v: seq<Sector>, id: nat, n: nat): (data: seq<byte>)
    requires FsOk(v) && IsLive(v, id) && SameShape(LengthOf(v, id), n)
    ensures |data| == n
  {
    seq(n, p requires 0 <= p < n => ChunkThere(v, id, p, n); ByteAt(v, id, p))
  }

  /** The bytes of a file. */
  ghost function Contents(v: seq<Sector>, id: nat): (data: seq<byte>)
    requires FsOk(v) && IsLive(v, id)
    ensures |data| == LengthOf(v, id)
  {
    FirstBytes(v, id, LengthOf(v, id))
  }

  /** As far as both go, they are the same bytes. */
  lemma FirstBytesAgree(v: seq<Sector>, id: nat, n: nat, p: nat)
    requires FsOk(v) && IsLive(v, id) && SameShape(LengthOf(v, id), n) && p < n && p < LengthOf(v, id)
    ensures FirstBytes(v, id, n)[p] == Contents(v, id)[p]
  {
    ChunkThere(v, id, p, n);
    hide FsOk;
  }

  // ---------- Removing a file ----------

  function RemoveId(v: seq<Sector>, id: nat): (r: seq<Sector>)
    ensures |r| == |v|
  {
    seq(|v|, s requires 0 <= s < |v| => if Used(v[s]) && v[s].entry.id == id then Blank() else v[s])
  }

  lemma BlankUnused()
    ensures !Used(Blank())
  {
    assert Ones(ENTRY_SIZE)[0..4] == [0xFF, 0xFF, 0xFF, 0xFF];
  }

  /** The sectors after the loop in `remove` has gone through the first n of them. */
  function RemoveFirst(v: seq<Sector>, id: nat, n: nat): (r: seq<Sector>)
    requires n <= |v|
    ensures |r| == |v|
  {
    RemoveId(v[..n], id) + v[n..]
  }

  lemma RemoveBounds(v: seq<Sector>, id: nat)
    ensures RemoveFirst(v, id, 0) == v && RemoveFirst(v, id, |v|) == RemoveId(v, id)
  {
    assert v[..|v|] == v;
  }

  lemma RemoveNext(v: seq<Sector>, id: nat, n: nat)
    requires n < |v|
    ensures RemoveFirst(v, id, n)[n] == v[n]
    ensures RemoveFirst(v, id, n + 1) ==
            if Used(v[n]) && v[n].entry.id == id then RemoveFirst(v, id, n)[n := Blank()] else RemoveFirst(v, id, n)
  {
    forall s | 0 <= s < n
      ensures RemoveId(v[..n + 1], id)[s] == RemoveId(v[..n], id)[s]
    {
      assert v[..n + 1][s] == v[..n][s];
    }
  }

  /** What removing a file leaves in each sector. */
  lemma RemovedAt(v: seq<Sector>, id: nat, s: nat)
    requires s < |v|
    ensures Used(RemoveId(v, id)[s]) <==> Used(v[s]) && v[s].entry.id != id
    ensures Used(RemoveId(v, id)[s]) ==> RemoveId(v, id)[s] == v[s]
    ensures !Holds(v, s, id) ==> RemoveId(v, id)[s] == v[s]
    ensures Holds(v, s, id) ==> RemoveId(v, id)[s].payload == Ones(0xF00)
  {
    BlankUnused();
  }

  /** The file is stored in the same sectors, unchanged. */
  ghost predicate Unchanged(v: seq<Sector>, v': seq<Sector>, id: nat) {
    |v| == |v'| && forall s: nat :: s < |v| ==> (Holds(v, s, id) <==> Holds(v', s, id)) && (Holds(v, s, id) ==> v'[s] == v[s])
  }

  lemma UnchangedChunks(v: seq<Sector>, v': seq<Sector>, id: nat, i: nat)
    requires Unchanged(v, v', id) && HasChunk(v, id, i)
    ensures HasChunk(v', id, i)
  {
    var s := Where(v, id, i);
    assert Holds(v', s, id) && v'[s].entry.index == i;
  }

  /** A file whose sectors are unchanged reads the same. */
  lemma UnchangedContents(v: seq<Sector>, v': seq<Sector>, id: nat)
    requires FsOk(v) && FsOk(v') && Unchanged(v, v', id) && IsLive(v, id)
    ensures IsLive(v', id) && Contents(v', id) == Contents(v, id)
  {
    var s: nat :| Holds(v, s, id);
    LengthOfAny(v, id, s);
    LengthOfAny(v', id, s);
    forall p | 0 <= p < LengthOf(v, id)
      ensures Contents(v', id)[p] == Contents(v, id)[p]
    {
      ChunkThere(v, id, p, LengthOf(v, id));
      ChunkThere(v', id, p, LengthOf(v', id));
      var a, b := Where(v, id, p / USABLE), Where(v', id, p / USABLE);
      assert Holds(v, b, id) && v'[b] == v[b];
      assert a == b;
    }
  }

  /** Removing a file keeps the invariant, frees all its sectors and leaves every other file unchanged. */
  lemma RemoveKeepsOthers(v: seq<Sector>, id: nat)
    requires FsOk(v)
    ensures FsOk(RemoveId(v, id)) && !IsLive(RemoveId(v, id), id)
    ensures forall other :: other != id ==> Unchanged(v, RemoveId(v, id), other)
  {
    var r := RemoveId(v, id);
    forall s | 0 <= s < |v|
      ensures Used(r[s]) <==> Used(v[s]) && v[s].entry.id != id
      ensures Used(r[s]) ==> r[s] == v[s]
    {
      RemovedAt(v, id, s);
    }
    forall s, i: nat | 0 <= s < |r| && Used(r[s]) && i < Chunks(r[s].entry.length)
      ensures HasChunk(r, r[s].entry.id, i)
    {
      assert HasChunk(v, v[s].entry.id, i);
      var t := Where(v, v[s].entry.id, i);
      assert Holds(r, t, r[s].entry.id) && r[t].entry.index == i;
    }
  }

  // ---------- An erased chip ----------

  lemma {:induction false} NoneUsed(v: seq<Sector>)
    requires forall s :: 0 <= s < |v| ==> !Used(v[s])
    ensures CountUsed(v) == 0
    decreases |v|
  {
    if v == [] {
    } else {
      NoneUsed(v[..|v| - 1]);
    }
  }

  lemma WipedView(n: nat)
    ensures var v := View(Ones(n * SECTOR_SIZE), n);
            && (forall s :: 0 <= s < n ==> !Used(v[s])) && CountUsed(v) == 0 && FsOk(v)
            && forall id :: !IsLive(v, id)
  {
    var m := Ones(n * SECTOR_SIZE);
    forall s | 0 <= s < n
      ensures SectorAt(m, n, s) == Blank()
    {
      var base := s * SECTOR_SIZE;
      assert m[base..base + ENTRY_SIZE] == Ones(ENTRY_SIZE);
      assert m[base + ENTRY_SIZE..base + SECTOR_SIZE] == Ones(USABLE);
    }
    BlankUnused();
    NoneUsed(View(m, n));
  }
}
