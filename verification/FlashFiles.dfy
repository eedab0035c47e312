/**
 Writing and reading whole files, as functions on the sequence of sectors, and what they keep and give back.
 */
module FlashFiles {
  import opened Bits
  import opened SpiFlash
  import opened FlashDirectory

  const ERROR_FULL: Error := 0x8000
  const ERROR_FILE_NOT_FOUND: Error := 0x2000
  const ERROR_INVALID_FILE_ID: Error := 0x1000
  const ERROR_FILE_CORRUPT: Error := 0x800

  // ---------- Writing ----------

  function ChunkSize(rest: seq<byte>): nat {
    if |rest| < USABLE then |rest| else USABLE
  }

  /** The loop in `write_file`: one chunk goes to sector f, then the next free sector is looked up, even after the
      last chunk. */
  function WriteChunks(v: seq<Sector>, e: DirectoryEntry, f: nat, rest: seq<byte>): (seq<Sector>, Error)
    requires f < |v|
    decreases |rest|
  {
    if rest == [] then (v, ERROR_NONE)
    else
      var v' := v[f := Sector(e, Fill(rest[..ChunkSize(rest)]))];
      var n := FirstFree(v', 0);
      if n == |v'| then (v', ERROR_FULL)
      else WriteChunks(v', e.(index := e.index + 1, address := n * SECTOR_SIZE), n, rest[ChunkSize(rest)..])
  }

  /** The directory without the named file. */
  function Without(v: seq<Sector>, name: seq<byte>): (r: seq<Sector>)
    ensures |r| == |v|
  {
    if FileId(v, name) != 0 then RemoveId(v, FileId(v, name)) else v
  }

  /** The id of the next file: one more than the highest in use, as a 32-bit number. */
  function NextId(v: seq<Sector>): nat {
    if MaxId(v, |v|) == WORD - 1 then 0 else MaxId(v, |v|) + 1
  }

  function NewEntry(v: seq<Sector>, name: seq<byte>, data: seq<byte>, md5: seq<byte>, f: nat): DirectoryEntry
    requires IsName(name)
  {
    DirectoryEntry(MAGIC_NUMBER, NextId(v), |data| / USABLE + 1, 0, f * SECTOR_SIZE, PadName(name), |data|, md5,
                   FILE_NOT_DELETED)
  }

  /** `write_file`. */
  function WriteFile(v: seq<Sector>, name: seq<byte>, data: seq<byte>, md5: seq<byte>): (seq<Sector>, Error)
    requires IsName(name)
  {
    var v1 := Without(v, name);
    var f := FirstFree(v1, 0);
    if f == |v1| then (v1, ERROR_FULL) else WriteChunks(v1, NewEntry(v1, name, data, md5, f), f, data)
  }

  /** Without the named file there is a free sector for every chunk. */
  predicate HasRoom(v: seq<Sector>, name: seq<byte>, data: seq<byte>) {
    |v| - CountUsed(Without(v, name)) >= Chunks(|data|)
  }

  // ---------- Where the chunks go ----------

  /** Chunk j of the data lies in sector g[j], which was free; nothing else changed. */
  ghost predicate Placed(v: seq<Sector>, v': seq<Sector>, e: DirectoryEntry, data: seq<byte>, g: seq<nat>) {
    && |v| == |v'| && |g| == Chunks(|data|)
    && (forall j :: 0 <= j < |g| ==> PlacedAt(v, v', e, data, g[j], j))
    && (forall i, j :: 0 <= i < j < |g| ==> g[i] != g[j])
    && (forall s :: 0 <= s < |v| && s !in g ==> v'[s] == v[s])
  }

  ghost predicate PlacedAt(v: seq<Sector>, v': seq<Sector>, e: DirectoryEntry, data: seq<byte>, s: nat, j: nat)
    requires j < Chunks(|data|)
  {
    && s < |v| && s < |v'| && !Used(v[s])
    && v'[s] == Sector(e.(index := e.index + j, address := s * SECTOR_SIZE), Fill(Chunk(data, j)))
  }

  lemma LaterChunk(data: seq<byte>, j: nat)
    requires |data| > USABLE && j < Chunks(|data| - USABLE)
    ensures Chunks(|data|) == Chunks(|data| - USABLE) + 1
    ensures Chunk(data, j + 1) == Chunk(data[USABLE..], j)
  {
    var rest, a := data[USABLE..], j * USABLE;
    var b := if a + USABLE <= |rest| then a + USABLE else |rest|;
    assert (j + 1) * USABLE == a + USABLE && (j + 2) * USABLE == a + 2 * USABLE;
    ChunksOf(|data|);
    assert Chunk(rest, j) == rest[a..b];
    assert Chunk(data, j + 1) == data[a + USABLE..b + USABLE];
    assert rest[a..b] == data[a + USABLE..b + USABLE];
  }

  lemma ChunksOf(n: nat)
    ensures n > USABLE ==> Chunks(n) == Chunks(n - USABLE) + 1
    ensures 0 < n <= USABLE ==> Chunks(n) == 1
    ensures n == 0 ==> Chunks(n) == 0
  {
  }

  lemma WriteChunksStep(v: seq<Sector>, e: DirectoryEntry, f: nat, rest: seq<byte>)
    requires f < |v| && rest != []
    ensures var (size, v1) := (ChunkSize(rest), v[f := Sector(e, Fill(rest[..ChunkSize(rest)]))]);
            var n := FirstFree(v1, 0);
            WriteChunks(v, e, f, rest) ==
            if n == |v| then (v1, ERROR_FULL)
            else WriteChunks(v1, e.(index := e.index + 1, address := n * SECTOR_SIZE), n, rest[size..])
  {
  }

  /** As long as there is a free sector for every chunk, all of them are placed, whatever is returned. */
  lemma {:induction false} WritePlaces(v: seq<Sector>, e: DirectoryEntry, f: nat, data: seq<byte>) returns (g: seq<nat>)
    requires f < |v| && !Used(v[f]) && e.magic == MAGIC_NUMBER && e.address == f * SECTOR_SIZE
    requires |v| - CountUsed(v) >= Chunks(|data|)
    ensures Placed(v, WriteChunks(v, e, f, data).0, e, data, g)
    decreases |data|
  {
    ChunksOf(|data|);
    if data == [] {
      g := [];
    } else {
      var size := ChunkSize(data);
      var rest := data[size..];
      var v1 := v[f := Sector(e, Fill(data[..size]))];
      var n := FirstFree(v1, 0);
      var e1 := e.(index := e.index + 1, address := n * SECTOR_SIZE);
      CountUpdate(v, f, Sector(e, Fill(data[..size])));
      WriteChunksStep(v, e, f, data);
      FullExactlyWhen(v1);
      hide WriteChunks, CountUsed, FirstFree, Chunk;
      var tail := [];
      if n < |v1| {
        tail := WritePlaces(v1, e1, n, rest);
        PlacedFirst(v, v1, WriteChunks(v1, e1, n, rest).0, e, e1, f, data, tail);
      } else {
        NoneLeft(rest);
        PlacedFirst(v, v1, v1, e, e1, f, data, []);
      }
      g := [f] + tail;
    }
  }

  lemma NoneLeft(rest: seq<byte>)
    requires Chunks(|rest|) == 0
    ensures rest == []
  {
  }

  /** Putting the first chunk in front of a placement of the others. */
  lemma PlacedFirst(v: seq<Sector>, v1: seq<Sector>, v': seq<Sector>, e: DirectoryEntry, e1: DirectoryEntry, f: nat,
                    data: seq<byte>, tail: seq<nat>)
    requires f < |v| && !Used(v[f]) && e.magic == MAGIC_NUMBER && e.address == f * SECTOR_SIZE && data != []
    requires v1 == v[f := Sector(e, Fill(data[..ChunkSize(data)]))]
    requires e1 == e.(index := e.index + 1, address := e1.address)
    requires Placed(v1, v', e1, data[ChunkSize(data)..], tail)
    ensures Placed(v, v', e, data, [f] + tail)
  {
    var rest, g := data[ChunkSize(data)..], [f] + tail;
    ChunksOf(|data|);
    assert |g| == Chunks(|data|);
    forall j | 0 <= j < |tail|
      ensures PlacedAt(v, v', e, data, tail[j], j + 1) && tail[j] != f
    {
      assert PlacedAt(v1, v', e1, rest, tail[j], j);
      LaterChunk(data, j);
    }
    assert v'[f] == v1[f];
    assert PlacedAt(v, v', e, data, f, 0);
    forall j | 0 <= j < |g|
      ensures PlacedAt(v, v', e, data, g[j], j)
    {
      if j > 0 { assert g[j] == tail[j - 1]; }
    }
    forall s | 0 <= s < |v| && s !in g
      ensures v'[s] == v[s]
    {
      assert s !in tail && s != f;
    }
  }

  // ---------- A new file among the others ----------

  /** The entry is that of a new file: neither its id nor its name is in use. */
  ghost predicate IsNew(v: seq<Sector>, e: DirectoryEntry, data: seq<byte>) {
    && e.magic == MAGIC_NUMBER && e.index == 0 && e.deleted == FILE_NOT_DELETED && IsNameField(e.filename)
    && e.id < WORD && 0 < e.length == |data| < WORD && e.sectors == |data| / USABLE + 1
    && !IsLive(v, e.id)
    && forall s :: 0 <= s < |v| && Used(v[s]) ==> v[s].entry.filename != e.filename
  }

  /** Every used sector afterwards holds either a chunk of the new file or what it held before. */
  lemma OldOrNew(v: seq<Sector>, v': seq<Sector>, e: DirectoryEntry, data: seq<byte>, g: seq<nat>, s: nat)
    requires Placed(v, v', e, data, g) && IsNew(v, e, data) && s < |v|
    ensures s in g ==> Used(v'[s]) && !Used(v[s])
    ensures s in g ==> exists j :: 0 <= j < |g| && g[j] == s && PlacedAt(v, v', e, data, s, j)
    ensures s !in g ==> v'[s] == v[s]
    ensures Holds(v', s, e.id) <==> s in g
  {
    if s in g {
      var j :| 0 <= j < |g| && g[j] == s;
      assert PlacedAt(v, v', e, data, g[j], j);
    } else {
      assert !Holds(v, s, e.id);
    }
  }

  lemma OthersUnchanged(v: seq<Sector>, v': seq<Sector>, e: DirectoryEntry, data: seq<byte>, g: seq<nat>, other: nat)
    requires Placed(v, v', e, data, g) && IsNew(v, e, data) && other != e.id
    ensures Unchanged(v, v', other)
  {
    forall s: nat | s < |v|
      ensures (Holds(v, s, other) <==> Holds(v', s, other)) && (Holds(v, s, other) ==> v'[s] == v[s])
    {
      OldOrNew(v, v', e, data, g, s);
    }
  }

  lemma NewEntriesOk(v: seq<Sector>, v': seq<Sector>, e: DirectoryEntry, data: seq<byte>, g: seq<nat>)
    requires Placed(v, v', e, data, g) && IsNew(v, e, data) && EntriesOk(v) && e.id > 0
    ensures EntriesOk(v')
  {
    forall s | 0 <= s < |v'| && Used(v'[s])
      ensures EntryOk(v'[s].entry, s) && |v'[s].payload| == USABLE
    {
      OldOrNew(v, v', e, data, g, s);
    }
  }

  lemma NewFilesAgree(v: seq<Sector>, v': seq<Sector>, e: DirectoryEntry, data: seq<byte>, g: seq<nat>)
    requires Placed(v, v', e, data, g) && IsNew(v, e, data) && FilesAgree(v)
    ensures FilesAgree(v')
  {
    forall s, t | 0 <= s < |v'| && 0 <= t < |v'| && Used(v'[s]) && Used(v'[t]) && v'[s].entry.id == v'[t].entry.id
      ensures SameFile(v'[s].entry, v'[t].entry) && (v'[s].entry.index == v'[t].entry.index ==> s == t)
    {
      OldOrNew(v, v', e, data, g, s);
      OldOrNew(v, v', e, data, g, t);
      assert Holds(v', s, e.id) <==> Holds(v', t, e.id);
    }
  }

  lemma NewNamesDistinct(v: seq<Sector>, v': seq<Sector>, e: DirectoryEntry, data: seq<byte>, g: seq<nat>)
    requires Placed(v, v', e, data, g) && IsNew(v, e, data) && NamesDistinct(v)
    ensures NamesDistinct(v')
  {
    forall s, t | 0 <= s < |v'| && 0 <= t < |v'| && Used(v'[s]) && Used(v'[t]) && v'[s].entry.filename == v'[t].entry.filename
      ensures v'[s].entry.id == v'[t].entry.id
    {
      OldOrNew(v, v', e, data, g, s);
      OldOrNew(v, v', e, data, g, t);
    }
  }

  lemma NewHasChunk(v: seq<Sector>, v': seq<Sector>, e: DirectoryEntry, data: seq<byte>, g: seq<nat>, i: nat)
    requires Placed(v, v', e, data, g) && IsNew(v, e, data) && i < Chunks(|data|)
    ensures HasChunk(v', e.id, i) && Holds(v', g[i], e.id) && v'[g[i]].entry.index == i
  {
    assert PlacedAt(v, v', e, data, g[i], i);
  }

  lemma NewFilesComplete(v: seq<Sector>, v': seq<Sector>, e: DirectoryEntry, data: seq<byte>, g: seq<nat>)
    requires Placed(v, v', e, data, g) && IsNew(v, e, data) && FilesComplete(v)
    ensures FilesComplete(v')
  {
    forall s, i: nat | 0 <= s < |v'| && Used(v'[s]) && i < Chunks(v'[s].entry.length)
      ensures HasChunk(v', v'[s].entry.id, i)
    {
      OldOrNew(v, v', e, data, g, s);
      if s in g {
        NewHasChunk(v, v', e, data, g, i);
      } else {
        OthersUnchanged(v, v', e, data, g, v[s].entry.id);
        assert HasChunk(v, v[s].entry.id, i);
        UnchangedChunks(v, v', v[s].entry.id, i);
      }
    }
  }

  lemma NewFsOk(v: seq<Sector>, v': seq<Sector>, e: DirectoryEntry, data: seq<byte>, g: seq<nat>)
    requires Placed(v, v', e, data, g) && IsNew(v, e, data) && FsOk(v) && e.id > 0
    ensures FsOk(v')
  {
    NewEntriesOk(v, v', e, data, g);
    NewFilesAgree(v, v', e, data, g);
    NewNamesDistinct(v, v', e, data, g);
    NewFilesComplete(v, v', e, data, g);
  }

  /** Byte p of the data is byte p % USABLE of chunk p / USABLE. */
  lemma ByteInChunk(data: seq<byte>, p: nat)
    requires p < |data|
    ensures p / USABLE < Chunks(|data|)
    ensures p % USABLE < |Chunk(data, p / USABLE)| && Chunk(data, p / USABLE)[p % USABLE] == data[p]
  {
    ChunkIndex(|data|, p);
    var i, k := p / USABLE, p % USABLE;
    assert p == i * USABLE + k && (i + 1) * USABLE == i * USABLE + USABLE;
  }

  lemma NewByte(v: seq<Sector>, v': seq<Sector>, e: DirectoryEntry, data: seq<byte>, g: seq<nat>, p: nat)
    requires Placed(v, v', e, data, g) && IsNew(v, e, data) && FilesAgree(v') && EntriesOk(v') && p < |data|
    ensures HasChunk(v', e.id, p / USABLE) && ByteAt(v', e.id, p) == data[p]
  {
    ByteInChunk(data, p);
    var i := p / USABLE;
    NewHasChunk(v, v', e, data, g, i);
    assert Where(v', e.id, i) == g[i];
    assert PlacedAt(v, v', e, data, g[i], i);
  }

  lemma ContentsAre(v: seq<Sector>, id: nat, data: seq<byte>)
    requires FsOk(v) && IsLive(v, id) && LengthOf(v, id) == |data|
    requires forall p :: 0 <= p < |data| ==> HasChunk(v, id, p / USABLE) && ByteAt(v, id, p) == data[p]
    ensures Contents(v, id) == data
  {
  }

  /** The new file's contents are the data it was written with. */
  lemma NewContents(v: seq<Sector>, v': seq<Sector>, e: DirectoryEntry, data: seq<byte>, g: seq<nat>)
    requires Placed(v, v', e, data, g) && IsNew(v, e, data) && FsOk(v')
    ensures IsLive(v', e.id) && Contents(v', e.id) == data
  {
    ChunksOf(|data|);
    NewHasChunk(v, v', e, data, g, 0);
    LengthOfAny(v', e.id, g[0]);
    forall p | 0 <= p < |data|
      ensures HasChunk(v', e.id, p / USABLE) && ByteAt(v', e.id, p) == data[p]
    {
      NewByte(v, v', e, data, g, p);
    }
    ContentsAre(v', e.id, data);
  }

  // ---------- Finding files by name ----------

  /** Any sector of a file leads to the id that a search for its name returns. */
  lemma NameLeadsToId(v: seq<Sector>, name: seq<byte>, s: nat)
    requires FsOk(v) && s < |v| && Used(v[s]) && CString(v[s].entry.filename) == name
    ensures FileId(v, name) == v[s].entry.id > 0
  {
    var id := v[s].entry.id;
    ChunksOf(v[s].entry.length);
    assert HasChunk(v, id, 0);
    var t := Where(v, id, 0);
    assert SameFile(v[s].entry, v[t].entry) && IsFirstChunk(v[t], name);
    var f := FindName(v, name, 0);
    assert f <= t;
    assert IsNameField(v[f].entry.filename) && IsNameField(v[s].entry.filename);
  }

  lemma NoFileNoName(v: seq<Sector>, name: seq<byte>, s: nat)
    requires FsOk(v) && FileId(v, name) == 0 && s < |v| && Used(v[s])
    ensures CString(v[s].entry.filename) != name
  {
    if CString(v[s].entry.filename) == name {
      NameLeadsToId(v, name, s);
    }
  }

  /** The entries with a name are the entries with the id that a search for the name returns. */
  lemma NameMeansId(v: seq<Sector>, name: seq<byte>, s: nat)
    requires FsOk(v) && s < |v| && Used(v[s])
    ensures CString(v[s].entry.filename) == name <==> v[s].entry.id == FileId(v, name)
  {
    if CString(v[s].entry.filename) == name {
      NameLeadsToId(v, name, s);
    }
    if v[s].entry.id == FileId(v, name) {
      assert EntryOk(v[s].entry, s);
      assert SameFile(v[s].entry, v[FindName(v, name, 0)].entry);
    }
  }

  lemma RemoveNothing(v: seq<Sector>)
    requires FsOk(v)
    ensures RemoveId(v, 0) == v
  {
    assert forall s :: 0 <= s < |v| && Used(v[s]) ==> EntryOk(v[s].entry, s);
  }

  /** Without a file, its name is free, and the rest is as before. */
  lemma WithoutFreesName(v: seq<Sector>, name: seq<byte>)
    requires FsOk(v)
    ensures var v1 := Without(v, name);
            && FsOk(v1) && FileId(v1, name) == 0
            && (forall other :: other != FileId(v, name) ==> Unchanged(v, v1, other))
  {
    var id, v1 := FileId(v, name), Without(v, name);
    if id != 0 {
      RemoveKeepsOthers(v, id);
      var f := FindName(v1, name, 0);
      if f < |v1| {
        RemovedAt(v, id, f);
        NameLeadsToId(v, name, f);
      }
    }
  }

  lemma MaxIdBound(v: seq<Sector>)
    requires EntriesOk(v)
    ensures MaxId(v, |v|) < WORD
  {
    if MaxId(v, |v|) > 0 {
      MaxIdHeld(v, |v|);
      var t: nat :| t < |v| && Holds(v, t, MaxId(v, |v|));
    }
  }

  lemma IdInRange(v: seq<Sector>, s: nat)
    requires EntriesOk(v) && s < |v| && Used(v[s])
    ensures 0 < v[s].entry.id <= MaxId(v, |v|)
  {
  }

  lemma NotLive(v: seq<Sector>, id: nat, max: nat)
    requires forall s :: 0 <= s < |v| && Used(v[s]) ==> 0 < v[s].entry.id <= max
    requires id == 0 || id > max
    ensures !IsLive(v, id)
  {
  }

  lemma NextIdFree(v: seq<Sector>)
    requires EntriesOk(v)
    ensures NextId(v) < WORD && !IsLive(v, NextId(v))
    ensures NextId(v) == 0 <==> MaxId(v, |v|) == WORD - 1
  {
    MaxIdBound(v);
    forall s | 0 <= s < |v| && Used(v[s])
      ensures 0 < v[s].entry.id <= MaxId(v, |v|)
    {
      IdInRange(v, s);
    }
    NotLive(v, NextId(v), MaxId(v, |v|));
  }

  lemma EntryIsNew(v: seq<Sector>, name: seq<byte>, data: seq<byte>, md5: seq<byte>, f: nat)
    requires FsOk(v) && IsName(name) && FileId(v, name) == 0 && 0 < |data| < WORD
    ensures IsNew(v, NewEntry(v, name, data, md5, f), data)
  {
    NextIdFree(v);
    PadNameIsField(name);
    forall s | 0 <= s < |v| && Used(v[s])
      ensures v[s].entry.filename != PadName(name)
    {
      NoFileNoName(v, name, s);
    }
  }

  // ---------- Reading ----------

  /** The hash stored with a file. */
  ghost function Md5Of(v: seq<Sector>, id: nat): seq<byte>
    requires IsLive(v, id)
  {
    var s: nat :| Holds(v, s, id);
    v[s].entry.md5
  }

  /** `read_file` by name: the contents, checked against the stored hash. */
  ghost function ReadByName(v: seq<Sector>, name: seq<byte>, md5: seq<byte> -> Hash): (r: (Error, seq<byte>))
    requires FsOk(v)
  {
    var id := FileId(v, name);
    if id == 0 then (ERROR_FILE_NOT_FOUND, [])
    else
      FileIdLive(v, name);
      (if md5(Contents(v, id)) == Md5Of(v, id) then ERROR_NONE else ERROR_FILE_CORRUPT, Contents(v, id))
  }

  /** `read_file` by name with a given length: that many bytes, checked against the stored hash. */
  ghost function ReadAs(v: seq<Sector>, name: seq<byte>, md5: seq<byte> -> Hash, n: nat): (r: (Error, seq<byte>))
    requires FsOk(v) && (FileId(v, name) != 0 ==> IsLive(v, FileId(v, name)) && SameShape(LengthOf(v, FileId(v, name)), n))
  {
    var id := FileId(v, name);
    if id == 0 then (ERROR_FILE_NOT_FOUND, [])
    else
      var data := FirstBytes(v, id, n);
      (if md5(data) == Md5Of(v, id) then ERROR_NONE else ERROR_FILE_CORRUPT, data)
  }

  /** With the file's own length that is its contents. */
  lemma ReadAsWhole(v: seq<Sector>, name: seq<byte>, md5: seq<byte> -> Hash)
    requires FsOk(v) && FileId(v, name) != 0
    ensures IsLive(v, FileId(v, name))
    ensures ReadAs(v, name, md5, LengthOf(v, FileId(v, name))) == ReadByName(v, name, md5)
  {
    FileIdLive(v, name);
  }

  lemma FileIdLive(v: seq<Sector>, name: seq<byte>)
    requires FileId(v, name) != 0
    ensures IsLive(v, FileId(v, name))
  {
    assert Holds(v, FindName(v, name, 0), FileId(v, name));
  }

  /** The length of chunk i. */
  function ChunkLength(length: nat, i: nat): (n: nat)
    requires i < Chunks(length)
    ensures 0 < n <= USABLE && i * USABLE + n <= length
  {
    if (i + 1) * USABLE <= length then USABLE else length - i * USABLE
  }

  /** The length of the last chunk as it is read, from the sector count that is one larger than the chunks of a file
      that fills its sectors exactly. */
  lemma ReadSize(length: nat, i: nat, n: nat)
    requires SameShape(length, n) && i < Chunks(n)
    ensures (if i == length / USABLE + 1 - 1 then n % USABLE else USABLE) == ChunkLength(n, i)
  {
  }

  /** The bytes of the first k chunks that are not among those seen. */
  function Unread(length: nat, seen: set<nat>, k: nat): nat
    requires k <= Chunks(length)
  {
    if k == 0 then 0 else Unread(length, seen, k - 1) + if k - 1 in seen then 0 else ChunkLength(length, k - 1)
  }

  lemma {:induction false} UnreadNone(length: nat, k: nat)
    requires k <= Chunks(length)
    ensures Unread(length, {}, k) == if k * USABLE <= length then k * USABLE else length
    decreases k
  {
    if k == 0 {
    } else {
      UnreadNone(length, k - 1);
    }
  }

  lemma {:induction false} UnreadMore(length: nat, seen: set<nat>, i: nat, k: nat)
    requires k <= Chunks(length) && i < Chunks(length) && i !in seen
    ensures Unread(length, seen, k) == Unread(length, seen + {i}, k) + if i < k then ChunkLength(length, i) else 0
    decreases k
  {
    if k == 0 {
    } else {
      UnreadMore(length, seen, i, k - 1);
    }
  }

  lemma {:induction false} UnreadZero(length: nat, seen: set<nat>, k: nat)
    requires k <= Chunks(length)
    ensures Unread(length, seen, k) == 0 <==> forall i: nat :: i < k ==> i in seen
    decreases k
  {
    if k == 0 {
    } else {
      UnreadZero(length, seen, k - 1);
    }
  }

  /** The payload starts with chunk i of the contents. */
  ghost predicate PayloadIs(payload: seq<byte>, contents: seq<byte>, i: nat) {
    && i < Chunks(|contents|) && |payload| == USABLE
    && forall k :: 0 <= k < ChunkLength(|contents|, i) ==> payload[k] == contents[i * USABLE + k]
  }

  lemma ByteHeld(v: seq<Sector>, id: nat, s: nat, k: nat, n: nat)
    requires FsOk(v) && IsLive(v, id) && SameShape(LengthOf(v, id), n) && Holds(v, s, id)
    requires v[s].entry.index < Chunks(n) && k < ChunkLength(n, v[s].entry.index)
    ensures |v[s].payload| == USABLE && v[s].payload[k] == FirstBytes(v, id, n)[v[s].entry.index * USABLE + k]
  {
    var i := v[s].entry.index;
    var p := i * USABLE + k;
    assert p / USABLE == i && p % USABLE == k;
    hide FilesComplete, NamesDistinct, EntryOk;
    ChunkThere(v, id, p, n);
    assert Where(v, id, i) == s;
  }

  lemma SectorHoldsChunk(v: seq<Sector>, id: nat, s: nat, n: nat)
    requires FsOk(v) && IsLive(v, id) && SameShape(LengthOf(v, id), n) && Holds(v, s, id)
    ensures EntryOk(v[s].entry, s) && v[s].entry.length == LengthOf(v, id)
    ensures PayloadIs(v[s].payload, FirstBytes(v, id, n), v[s].entry.index)
  {
    LengthOfAny(v, id, s);
    forall k | 0 <= k < ChunkLength(n, v[s].entry.index)
      ensures v[s].payload[k] == FirstBytes(v, id, n)[v[s].entry.index * USABLE + k]
    {
      ByteHeld(v, id, s, k, n);
    }
  }

  lemma AllChunksHeld(v: seq<Sector>, id: nat, i: nat)
    requires FsOk(v) && IsLive(v, id) && i < Chunks(LengthOf(v, id))
    ensures HasChunk(v, id, i)
  {
    var s: nat :| Holds(v, s, id);
    LengthOfAny(v, id, s);
  }

  // ---------- The laws ----------

  /** What a write of a non-empty file that has room does, in terms of where its chunks went. */
  lemma WriteOutcome(v: seq<Sector>, name: seq<byte>, data: seq<byte>, md5: seq<byte>) returns (e: DirectoryEntry, g: seq<nat>)
    requires FsOk(v) && IsName(name) && 0 < |data| < WORD && HasRoom(v, name, data)
    ensures var v1 := Without(v, name);
            && FsOk(v1) && FileId(v1, name) == 0
            && IsNew(v1, e, data) && Placed(v1, WriteFile(v, name, data, md5).0, e, data, g)
            && e.id == NextId(v1) && e.md5 == md5 && e.filename == PadName(name)
  {
    var v1 := Without(v, name);
    WithoutFreesName(v, name);
    FullExactlyWhen(v1);
    ChunksOf(|data|);
    var f := FirstFree(v1, 0);
    e := NewEntry(v1, name, data, md5, f);
    EntryIsNew(v1, name, data, md5, f);
    g := WritePlaces(v1, e, f, data);
  }

  /** A write that has room keeps the invariant, unless the 32-bit ids have run out. */
  lemma WriteKeepsInvariant(v: seq<Sector>, name: seq<byte>, data: seq<byte>, md5: seq<byte>)
    requires FsOk(v) && IsName(name) && |data| < WORD && HasRoom(v, name, data)
    requires NextId(Without(v, name)) != 0
    ensures FsOk(WriteFile(v, name, data, md5).0)
  {
    WithoutFreesName(v, name);
    if data != [] {
      var e, g := WriteOutcome(v, name, data, md5);
      NewFsOk(Without(v, name), WriteFile(v, name, data, md5).0, e, data, g);
    }
  }

  /** The loop in `write_file` only touches sectors that were free, and gives them the entry's id: whatever it returns. */
  lemma {:induction false} ChunksTouchFree(v: seq<Sector>, e: DirectoryEntry, f: nat, rest: seq<byte>, s: nat)
    requires f < |v| && !Used(v[f]) && e.magic == MAGIC_NUMBER && s < |v|
    ensures var v' := WriteChunks(v, e, f, rest).0;
            |v'| == |v| && (v'[s] == v[s] || (!Used(v[s]) && v'[s].entry.id == e.id))
    decreases |rest|
  {
    if rest == [] {
    } else {
      var v1 := v[f := Sector(e, Fill(rest[..ChunkSize(rest)]))];
      var n := FirstFree(v1, 0);
      if n < |v1| {
        ChunksTouchFree(v1, e.(index := e.index + 1, address := n * SECTOR_SIZE), n, rest[ChunkSize(rest)..], s);
      }
    }
  }

  lemma ChunksKeepFile(v: seq<Sector>, e: DirectoryEntry, f: nat, rest: seq<byte>, other: nat)
    requires f < |v| && !Used(v[f]) && e.magic == MAGIC_NUMBER && e.id != other
    ensures Unchanged(v, WriteChunks(v, e, f, rest).0, other)
  {
    ChunksTouchFree(v, e, f, rest, f);
    var v' := WriteChunks(v, e, f, rest).0;
    forall s: nat | s < |v|
      ensures (Holds(v, s, other) <==> Holds(v', s, other)) && (Holds(v, s, other) ==> v'[s] == v[s])
    {
      hide WriteChunks;
      ChunksTouchFree(v, e, f, rest, s);
    }
  }

  lemma UnchangedTwice(v: seq<Sector>, v1: seq<Sector>, v2: seq<Sector>, id: nat)
    requires Unchanged(v, v1, id) && Unchanged(v1, v2, id)
    ensures Unchanged(v, v2, id)
  {
    forall s: nat | s < |v|
      ensures (Holds(v, s, id) <==> Holds(v2, s, id)) && (Holds(v, s, id) ==> v2[s] == v[s])
    {
      assert Holds(v, s, id) <==> Holds(v1, s, id);
    }
  }

  lemma UnchangedLive(v: seq<Sector>, v': seq<Sector>, id: nat)
    requires IsLive(v, id) && Unchanged(v, v', id)
    ensures IsLive(v', id)
  {
    var s: nat :| Holds(v, s, id);
    assert Holds(v', s, id);
  }

  /** A write leaves every other file as it was, whether it succeeds or not. */
  lemma WriteKeepsOthers(v: seq<Sector>, name: seq<byte>, data: seq<byte>, md5: seq<byte>, other: nat)
    requires FsOk(v) && IsName(name) && IsLive(v, other) && other != FileId(v, name)
    ensures Unchanged(v, WriteFile(v, name, data, md5).0, other)
  {
    var v1 := Without(v, name);
    WithoutFreesName(v, name);
    assert Unchanged(v, v1, other);
    hide Without, WriteChunks, FilesAgree, NamesDistinct, FilesComplete, Unchanged, IsLive, Holds;
    UnchangedLive(v, v1, other);
    NextIdFree(v1);
    var f := FirstFree(v1, 0);
    if f < |v1| {
      var e := NewEntry(v1, name, data, md5, f);
      ChunksKeepFile(v1, e, f, data, other);
      UnchangedTwice(v, v1, WriteChunks(v1, e, f, data).0, other);
    }
  }

  /** After a write that has room a search for the name finds the new id. */
  lemma WriteNamesFile(v: seq<Sector>, name: seq<byte>, data: seq<byte>, md5: seq<byte>)
    requires FsOk(v) && IsName(name) && 0 < |data| < WORD && HasRoom(v, name, data)
    ensures FileId(WriteFile(v, name, data, md5).0, name) == NextId(Without(v, name))
  {
    var v1, v' := Without(v, name), WriteFile(v, name, data, md5).0;
    var e, g := WriteOutcome(v, name, data, md5);
    PadNameIsField(name);
    ChunksOf(|data|);
    NewHasChunk(v1, v', e, data, g, 0);
    assert PlacedAt(v1, v', e, data, g[0], 0);
    assert IsFirstChunk(v'[g[0]], name);
    var f := FindName(v', name, 0);
    OldOrNew(v1, v', e, data, g, f);
    if f !in g {
      NoFileNoName(v1, name, f);
    }
  }

  lemma WriteStoresContents(v: seq<Sector>, name: seq<byte>, data: seq<byte>, md5: seq<byte>)
    requires FsOk(v) && IsName(name) && 0 < |data| < WORD && HasRoom(v, name, data)
    requires FsOk(WriteFile(v, name, data, md5).0)
    ensures var (v', id) := (WriteFile(v, name, data, md5).0, NextId(Without(v, name)));
            IsLive(v', id) && Contents(v', id) == data && Md5Of(v', id) == md5
  {
    var e, g := WriteOutcome(v, name, data, md5);
    NewContents(Without(v, name), WriteFile(v, name, data, md5).0, e, data, g);
    NewMd5(Without(v, name), WriteFile(v, name, data, md5).0, e, data, g);
  }

  lemma ReadBack(v: seq<Sector>, name: seq<byte>, data: seq<byte>, md5: seq<byte> -> Hash)
    requires FsOk(v) && IsName(name) && 0 < |data| < WORD && HasRoom(v, name, data)
    requires NextId(Without(v, name)) != 0
    ensures FsOk(WriteFile(v, name, data, md5(data)).0)
    ensures ReadByName(WriteFile(v, name, data, md5(data)).0, name, md5) == (ERROR_NONE, data)
  {
    WriteKeepsInvariant(v, name, data, md5(data));
    ReadNamed(v, name, data, md5);
  }

  lemma ReadNamed(v: seq<Sector>, name: seq<byte>, data: seq<byte>, md5: seq<byte> -> Hash)
    requires FsOk(v) && IsName(name) && 0 < |data| < WORD && HasRoom(v, name, data)
    requires FsOk(WriteFile(v, name, data, md5(data)).0) && NextId(Without(v, name)) != 0
    ensures ReadByName(WriteFile(v, name, data, md5(data)).0, name, md5) == (ERROR_NONE, data)
  {
    WriteNamesFile(v, name, data, md5(data));
    WriteStoresContents(v, name, data, md5(data));
  }

  lemma IdsRunOut(v: seq<Sector>, name: seq<byte>)
    requires FsOk(v)
    ensures NextId(Without(v, name)) == 0 <==> MaxId(Without(v, name), |v|) == WORD - 1
    ensures MaxId(Without(v, name), |v|) < WORD
  {
    WithoutFreesName(v, name);
    NextIdFree(Without(v, name));
    MaxIdBound(Without(v, name));
  }

  /** Reading a file back after a write that has room returns exactly what was written, for every length; the one
      exception is a write that got the id 0 because the highest 32-bit id was in use. */
  lemma ReadBackExactlyWhen(v: seq<Sector>, name: seq<byte>, data: seq<byte>, md5: seq<byte> -> Hash)
    requires FsOk(v) && IsName(name) && 0 < |data| < WORD && HasRoom(v, name, data)
    ensures var v' := WriteFile(v, name, data, md5(data)).0;
            if MaxId(Without(v, name), |v|) < WORD - 1
            then FsOk(v') && ReadByName(v', name, md5) == (ERROR_NONE, data)
            else FileId(v', name) == 0
  {
    IdsRunOut(v, name);
    if NextId(Without(v, name)) != 0 {
      ReadBack(v, name, data, md5);
    } else {
      WriteNamesFile(v, name, data, md5(data));
    }
  }

  lemma NewMd5(v: seq<Sector>, v': seq<Sector>, e: DirectoryEntry, data: seq<byte>, g: seq<nat>)
    requires Placed(v, v', e, data, g) && IsNew(v, e, data) && IsLive(v', e.id)
    ensures Md5Of(v', e.id) == e.md5
  {
    forall s: nat | Holds(v', s, e.id)
      ensures v'[s].entry.md5 == e.md5
    {
      OldOrNew(v, v', e, data, g, s);
    }
  }

  /** Writing an empty file only erases: afterwards there is no file of that name. */
  lemma EmptyFileErases(v: seq<Sector>, name: seq<byte>, md5: seq<byte>)
    requires FsOk(v) && IsName(name)
    ensures WriteFile(v, name, [], md5).0 == Without(v, name) && FileId(WriteFile(v, name, [], md5).0, name) == 0
  {
    WithoutFreesName(v, name);
  }

  lemma UnchangedMd5(v: seq<Sector>, v': seq<Sector>, id: nat)
    requires FilesAgree(v') && Unchanged(v, v', id) && IsLive(v, id) && IsLive(v', id)
    ensures Md5Of(v', id) == Md5Of(v, id)
  {
    var s: nat :| Holds(v, s, id) && v[s].entry.md5 == Md5Of(v, id);
    var t: nat :| Holds(v', t, id) && v'[t].entry.md5 == Md5Of(v', id);
    assert Holds(v', s, id) && SameFile(v'[s].entry, v'[t].entry);
  }

  lemma UnchangedId(v: seq<Sector>, v': seq<Sector>, name: seq<byte>)
    requires FsOk(v') && FileId(v, name) != 0 && Unchanged(v, v', FileId(v, name))
    ensures FileId(v', name) == FileId(v, name)
  {
    var f := FindName(v, name, 0);
    assert Holds(v, f, FileId(v, name)) && v'[f] == v[f];
    NameLeadsToId(v', name, f);
  }

  /** Another file reads the same after a successful write, or after a removal. */
  lemma OtherFileReadsSame(v: seq<Sector>, v': seq<Sector>, name: seq<byte>, md5: seq<byte> -> Hash)
    requires FsOk(v) && FsOk(v') && FileId(v, name) != 0 && Unchanged(v, v', FileId(v, name))
    ensures ReadByName(v', name, md5) == ReadByName(v, name, md5)
  {
    FileIdLive(v, name);
    UnchangedId(v, v', name);
    UnchangedContents(v, v', FileId(v, name));
    UnchangedMd5(v, v', FileId(v, name));
  }

  // ---------- When a write succeeds ----------

  lemma {:induction false} AllUsed(v: seq<Sector>)
    requires forall s :: 0 <= s < |v| ==> Used(v[s])
    ensures CountUsed(v) == |v|
    decreases |v|
  {
    if v == [] {
    } else {
      AllUsed(v[..|v| - 1]);
    }
  }

  lemma {:induction false} OneFree(v: seq<Sector>, f: nat)
    requires f < |v| && !Used(v[f])
    ensures CountUsed(v) < |v|
    decreases |v|
  {
    if f == |v| - 1 {
    } else {
      OneFree(v[..|v| - 1], f);
    }
  }

  lemma FullExactlyWhen(v: seq<Sector>)
    ensures FirstFree(v, 0) == |v| <==> CountUsed(v) == |v|
  {
    if FirstFree(v, 0) == |v| { AllUsed(v); } else { OneFree(v, FirstFree(v, 0)); }
  }

  lemma {:induction false} ChunksSucceed(v: seq<Sector>, e: DirectoryEntry, f: nat, rest: seq<byte>)
    requires f < |v| && !Used(v[f]) && e.magic == MAGIC_NUMBER && rest != []
    ensures WriteChunks(v, e, f, rest).1 == ERROR_NONE <==> |v| - CountUsed(v) > Chunks(|rest|)
    decreases |rest|
  {
    var size := ChunkSize(rest);
    var x := Sector(e, Fill(rest[..size]));
    var v' := v[f := x];
    CountUpdate(v, f, x);
    FullExactlyWhen(v');
    ChunksOf(|rest|);
    var n := FirstFree(v', 0);
    if n < |v'| && rest[size..] != [] {
      ChunksSucceed(v', e.(index := e.index + 1, address := n * SECTOR_SIZE), n, rest[size..]);
    }
  }

  /** A write of a non-empty file succeeds exactly when there are more free sectors than it has chunks: one more than
      it needs, because the next free sector is looked up even after the last chunk. */
  lemma WriteSucceedsExactlyWhen(v: seq<Sector>, name: seq<byte>, data: seq<byte>, md5: seq<byte>)
    requires IsName(name) && data != []
    ensures var v1 := Without(v, name);
            WriteFile(v, name, data, md5).1 == ERROR_NONE <==> |v1| - CountUsed(v1) > Chunks(|data|)
  {
    var v1 := Without(v, name);
    FullExactlyWhen(v1);
    var f := FirstFree(v1, 0);
    if f < |v1| {
      ChunksSucceed(v1, NewEntry(v1, name, data, md5, f), f, data);
    }
  }

  lemma SuccessHasRoom(v: seq<Sector>, name: seq<byte>, data: seq<byte>, md5: seq<byte>)
    requires IsName(name) && WriteFile(v, name, data, md5).1 == ERROR_NONE
    ensures HasRoom(v, name, data)
  {
    if data != [] { WriteSucceedsExactlyWhen(v, name, data, md5); }
  }

  // ---------- When the chunks do not all find room ----------

  /** The chunks that are written before the free sectors run out have the first indices. */
  lemma {:induction false} ChunksReachIndex(v: seq<Sector>, e: DirectoryEntry, f: nat, rest: seq<byte>, s: nat)
    requires f < |v| && !Used(v[f]) && e.magic == MAGIC_NUMBER && s < |v|
    ensures var v' := WriteChunks(v, e, f, rest).0;
            |v'| == |v| && (v'[s] == v[s] || v'[s].entry.index < e.index + |v| - CountUsed(v))
    decreases |rest|
  {
    OneFree(v, f);
    if rest == [] {
    } else {
      var v1 := v[f := Sector(e, Fill(rest[..ChunkSize(rest)]))];
      var n := FirstFree(v1, 0);
      CountUpdate(v, f, v1[f]);
      WriteChunksStep(v, e, f, rest);
      hide WriteChunks, CountUsed, FirstFree, Fill;
      if n < |v1| {
        ChunksReachIndex(v1, e.(index := e.index + 1, address := n * SECTOR_SIZE), n, rest[ChunkSize(rest)..], s);
      }
    }
  }

  /** The first chunk of a non-empty file is always written if there is a free sector. */
  lemma {:induction false} FirstChunkStays(v: seq<Sector>, e: DirectoryEntry, f: nat, rest: seq<byte>)
    requires f < |v| && !Used(v[f]) && e.magic == MAGIC_NUMBER && rest != []
    ensures |WriteChunks(v, e, f, rest).0| == |v|
    ensures WriteChunks(v, e, f, rest).0[f] == Sector(e, Fill(rest[..ChunkSize(rest)]))
  {
    var v1 := v[f := Sector(e, Fill(rest[..ChunkSize(rest)]))];
    var n := FirstFree(v1, 0);
    WriteChunksStep(v, e, f, rest);
    hide WriteChunks, Fill;
    if n < |v1| {
      ChunksTouchFree(v1, e.(index := e.index + 1, address := n * SECTOR_SIZE), n, rest[ChunkSize(rest)..], f);
    }
  }

  lemma CutFileIncomplete(v: seq<Sector>, e: DirectoryEntry, f: nat, data: seq<byte>)
    requires f < |v| && IsNew(v, e, data) && !Used(v[f]) && |v| - CountUsed(v) < Chunks(|data|)
    ensures !FsOk(WriteChunks(v, e, f, data).0)
  {
    var v', k := WriteChunks(v, e, f, data).0, |v| - CountUsed(v);
    ChunksTouchFree(v, e, f, data, f);
    FirstChunkStays(v, e, f, data);
    forall s: nat | Holds(v', s, e.id)
      ensures v'[s].entry.index != k
    {
      ChunksReachIndex(v, e, f, data, s);
      assert !Holds(v, s, e.id);
    }
    assert !HasChunk(v', v'[f].entry.id, k);
  }

  /** A write keeps the invariant exactly when there is a free sector for every chunk, or none at all. */
  lemma WriteKeepsInvariantExactlyWhen(v: seq<Sector>, name: seq<byte>, data: seq<byte>, md5: seq<byte>)
    requires FsOk(v) && IsName(name) && |data| < WORD && NextId(Without(v, name)) != 0
    ensures FsOk(WriteFile(v, name, data, md5).0) <==> HasRoom(v, name, data) || CountUsed(Without(v, name)) == |v|
  {
    var v1 := Without(v, name);
    WithoutFreesName(v, name);
    FullExactlyWhen(v1);
    if HasRoom(v, name, data) {
      WriteKeepsInvariant(v, name, data, md5);
    } else if CountUsed(v1) < |v| {
      var f := FirstFree(v1, 0);
      ChunksOf(|data|);
      EntryIsNew(v1, name, data, md5, f);
      CutFileIncomplete(v1, NewEntry(v1, name, data, md5, f), f, data);
    }
  }

  /** A non-empty file is there, and reads back, after a write exactly when there was a free sector for every chunk:
      also when the last of them was taken and the write says that the chip is full. */
  lemma StoredExactlyWhen(v: seq<Sector>, name: seq<byte>, data: seq<byte>, md5: seq<byte> -> Hash)
    requires FsOk(v) && IsName(name) && 0 < |data| < WORD && NextId(Without(v, name)) != 0
    ensures var v' := WriteFile(v, name, data, md5(data)).0;
            FsOk(v') && ReadByName(v', name, md5) == (ERROR_NONE, data) <==> HasRoom(v, name, data)
  {
    var v1 := Without(v, name);
    WithoutFreesName(v, name);
    FullExactlyWhen(v1);
    WriteKeepsInvariantExactlyWhen(v, name, data, md5(data));
    ChunksOf(|data|);
    if HasRoom(v, name, data) {
      ReadBack(v, name, data, md5);
    }
  }

  /** With exactly as many free sectors as chunks, the write says that the chip is full, and the file is complete. */
  lemma FullButStored(v: seq<Sector>, name: seq<byte>, data: seq<byte>, md5: seq<byte> -> Hash)
    requires FsOk(v) && IsName(name) && 0 < |data| < WORD && NextId(Without(v, name)) != 0
    requires |v| - CountUsed(Without(v, name)) == Chunks(|data|)
    ensures var (v', e) := WriteFile(v, name, data, md5(data));
            e == ERROR_FULL && FsOk(v') && ReadByName(v', name, md5) == (ERROR_NONE, data)
  {
    WriteSucceedsExactlyWhen(v, name, data, md5(data));
    OnlyFull(v, name, data, md5(data));
    ReadBack(v, name, data, md5);
  }

  lemma OnlyFull(v: seq<Sector>, name: seq<byte>, data: seq<byte>, md5: seq<byte>)
    requires IsName(name)
    ensures WriteFile(v, name, data, md5).1 == ERROR_NONE || WriteFile(v, name, data, md5).1 == ERROR_FULL
  {
    var v1 := Without(v, name);
    var f := FirstFree(v1, 0);
    if f < |v1| { ChunksOnlyFull(v1, NewEntry(v1, name, data, md5, f), f, data); }
  }

  lemma {:induction false} ChunksOnlyFull(v: seq<Sector>, e: DirectoryEntry, f: nat, rest: seq<byte>)
    requires f < |v|
    ensures WriteChunks(v, e, f, rest).1 == ERROR_NONE || WriteChunks(v, e, f, rest).1 == ERROR_FULL
    decreases |rest|
  {
    if rest == [] {
    } else {
      var v1 := v[f := Sector(e, Fill(rest[..ChunkSize(rest)]))];
      var n := FirstFree(v1, 0);
      if n < |v1| {
        ChunksOnlyFull(v1, e.(index := e.index + 1, address := n * SECTOR_SIZE), n, rest[ChunkSize(rest)..]);
      }
    }
  }

  // ---------- What a write that is cut short leaves behind ----------

  ghost predicate NoneUnused(v: seq<Sector>) {
    forall s :: 0 <= s < |v| ==> Used(v[s])
  }

  lemma {:induction false} FullMeansFull(v: seq<Sector>, e: DirectoryEntry, f: nat, rest: seq<byte>)
    requires f < |v| && WriteChunks(v, e, f, rest).1 == ERROR_FULL
    ensures NoneUnused(WriteChunks(v, e, f, rest).0)
    decreases |rest|
  {
    var v1 := v[f := Sector(e, Fill(rest[..ChunkSize(rest)]))];
    var n := FirstFree(v1, 0);
    WriteChunksStep(v, e, f, rest);
    assert n == |v1| ==> NoneUnused(v1);
    hide WriteChunks, Fill, NoneUnused, Used;
    if n < |v1| {
      FullMeansFull(v1, e.(index := e.index + 1, address := n * SECTOR_SIZE), n, rest[ChunkSize(rest)..]);
    }
  }

  /** Data for which there is not room enough is written like as much of it as fills the free sectors. */
  lemma {:induction false} ChunksCut(v: seq<Sector>, e: DirectoryEntry, f: nat, data: seq<byte>, room: nat)
    requires f < |v| && !Used(v[f]) && e.magic == MAGIC_NUMBER && room == |v| - CountUsed(v) < Chunks(|data|)
    ensures 0 < room && room * USABLE < |data|
    ensures WriteChunks(v, e, f, data) == (WriteChunks(v, e, f, data[..room * USABLE]).0, ERROR_FULL)
    decreases |data|
  {
    OneFree(v, f);
    ChunksOf(|data|);
    assert room * USABLE < |data|;
    var cut := data[..room * USABLE];
    assert data[..USABLE] == cut[..USABLE];
    var v1 := v[f := Sector(e, Fill(data[..USABLE]))];
    var n := FirstFree(v1, 0);
    CountUpdate(v, f, v1[f]);
    FullExactlyWhen(v1);
    WriteChunksStep(v, e, f, data);
    WriteChunksStep(v, e, f, cut);
    hide WriteChunks, CountUsed, FirstFree, Fill;
    if n < |v1| {
      assert data[USABLE..][..(room - 1) * USABLE] == cut[USABLE..];
      ChunksCut(v1, e.(index := e.index + 1, address := n * SECTOR_SIZE), n, data[USABLE..], room - 1);
    }
  }

  /** Without room enough every sector is used afterwards: the free ones hold the first chunks of the data, in entries that
      announce the whole of it, and the others are as they were. The code says that the chip is full. */
  lemma CutWriteLeaves(v: seq<Sector>, name: seq<byte>, data: seq<byte>, md5: seq<byte>)
    returns (room: nat, e: DirectoryEntry, g: seq<nat>)
    requires FsOk(v) && IsName(name) && |data| < WORD && !HasRoom(v, name, data) && CountUsed(Without(v, name)) < |v|
    ensures var (v1, (v', code)) := (Without(v, name), WriteFile(v, name, data, md5));
            && room == |v| - CountUsed(v1) && room * USABLE < |data| && code == 0x8000 && |v'| == |v|
            && e.length == |data| && e.md5 == md5 && CString(e.filename) == name && e.id == NextId(v1) && e.index == 0
            && Placed(v1, v', e, data[..room * USABLE], g) && |g| == room
            && NoneUnused(v')
  {
    var v1 := Without(v, name);
    FullExactlyWhen(v1);
    var f := FirstFree(v1, 0);
    e := NewEntry(v1, name, data, md5, f);
    PadNameIsField(name);
    room := |v| - CountUsed(v1);
    hide WriteChunks, CountUsed, FirstFree, Placed, CString, PadName, FsOk;
    ChunksCut(v1, e, f, data, room);
    ChunksOfWhole(room);
    FullMeansFull(v1, e, f, data);
    g := WritePlaces(v1, e, f, data[..room * USABLE]);
    PlacedLength(v1, WriteChunks(v1, e, f, data).0, e, data[..room * USABLE], g);
  }

  lemma ChunksOfWhole(room: nat)
    ensures Chunks(room * USABLE) == room
  {
  }

  lemma PlacedLength(v: seq<Sector>, v': seq<Sector>, e: DirectoryEntry, data: seq<byte>, g: seq<nat>)
    requires Placed(v, v', e, data, g)
    ensures |v| == |v'| && |g| == Chunks(|data|)
  {
  }

  // ---------- A directory in which the ids have run out ----------

  function LastIdEntry(md5: Hash): DirectoryEntry {
    DirectoryEntry(MAGIC_NUMBER, WORD - 1, 1, 0, 0, PadName([0x41]), 1, md5, FILE_NOT_DELETED)
  }

  /** A chip of n sectors with one file, of the one byte 0 and with the highest id there is. */
  function LastIdUsed(n: nat, md5: Hash): (v: seq<Sector>)
    requires n > 0
    ensures |v| == n
  {
    [Sector(LastIdEntry(md5), Fill([0]))] + seq(n - 1, _ => Blank())
  }

  lemma OnlyId(v: seq<Sector>)
    requires v != [] && Used(v[0]) && v[0].entry.id > 0 && forall s :: 0 < s < |v| ==> !Used(v[s])
    ensures MaxId(v, |v|) == v[0].entry.id
  {
    MaxIdHeld(v, |v|);
  }

  lemma OneFileInOrder(v: seq<Sector>)
    requires v != [] && Used(v[0]) && EntryOk(v[0].entry, 0) && v[0].entry.length <= USABLE && |v[0].payload| == USABLE
    requires forall s :: 0 < s < |v| ==> !Used(v[s])
    ensures FsOk(v) && MaxId(v, |v|) == v[0].entry.id
  {
    hide IsNameField;
    var id := v[0].entry.id;
    assert Holds(v, 0, id);
    ChunksOf(v[0].entry.length);
    assert HasChunk(v, id, 0);
    OnlyId(v);
  }

  lemma OneUsed(v: seq<Sector>)
    requires v != [] && Used(v[0]) && forall s :: 0 < s < |v| ==> !Used(v[s])
    ensures CountUsed(v) == 1
  {
    assert v[..0] == [];
    CountNext(v, 0);
    for k := 1 to |v|
      invariant CountUsed(v[..k]) == 1
    {
      CountNext(v, k);
    }
    assert v[..|v|] == v;
  }

  lemma LastIdInOrder(n: nat, md5: Hash)
    requires n > 0
    ensures var v := LastIdUsed(n, md5);
            FsOk(v) && CountUsed(v) == 1 && MaxId(v, n) == WORD - 1 && FindName(v, [0x42], 0) == n
  {
    PadNameIsField([0x41]);
    BlankUnused();
    hide Blank, Fill, PadName, CString, IsNameField, FsOk, MaxId, CountUsed, FindName;
    var v := LastIdUsed(n, md5);
    assert forall s :: 0 < s < n ==> v[s] == Blank();
    OneUsed(v);
    OneFileInOrder(v);
  }

  /** On any chip with room for it, a write of another file then succeeds, and the file cannot be found. */
  lemma ReadBackFails(n: nat, data: seq<byte>, md5: seq<byte> -> Hash)
    requires 0 < |data| < WORD && n > Chunks(|data|) + 1
    ensures FsOk(LastIdUsed(n, md5([0])))
    ensures var (v', e) := WriteFile(LastIdUsed(n, md5([0])), [0x42], data, md5(data));
            e == ERROR_NONE && FileId(v', [0x42]) == 0
  {
    var v := LastIdUsed(n, md5([0]));
    LastIdInOrder(n, md5([0]));
    assert Without(v, [0x42]) == v;
    hide LastIdUsed, FsOk, FileId, CountUsed, MaxId, Without, WriteFile;
    WriteSucceedsExactlyWhen(v, [0x42], data, md5(data));
    ReadBackExactlyWhen(v, [0x42], data, md5);
  }
}
