/**
 Whole runs of the filesystem: as long as every write has room, it is a map from names to contents.
 */
module FlashRuns {
  import opened Bits
  import opened SpiFlash
  import opened FlashDirectory
  import opened FlashFiles

  type Name = n: seq<byte> | IsName(n) witness []

  datatype Op = Write(name: Name, data: seq<byte>) | Remove(name: Name)

  predicate Small(op: Op) {
    op.Write? ==> |op.data| < WORD
  }

  /** What an operation makes of the sectors, and the code it returns. */
  function Apply(v: seq<Sector>, op: Op, md5: seq<byte> -> Hash): (seq<Sector>, Error) {
    match op
    case Write(name, data) => WriteFile(v, name, data, md5(data))
    case Remove(name) => (Without(v, name), ERROR_NONE)
  }

  function Run(v: seq<Sector>, ops: seq<Op>, md5: seq<byte> -> Hash): seq<Sector> {
    if ops == [] then v else Apply(Run(v, ops[..|ops| - 1], md5), ops[|ops| - 1], md5).0
  }

  /** There is a free sector for every chunk that the operation writes. */
  predicate Fits(v: seq<Sector>, op: Op) {
    op.Write? ==> HasRoom(v, op.name, op.data)
  }

  predicate AllFit(v: seq<Sector>, ops: seq<Op>, md5: seq<byte> -> Hash) {
    ops == [] || (AllFit(v, ops[..|ops| - 1], md5) && Fits(Run(v, ops[..|ops| - 1], md5), ops[|ops| - 1]))
  }

  /** Every operation of the run returned no error. */
  predicate AllSucceed(v: seq<Sector>, ops: seq<Op>, md5: seq<byte> -> Hash) {
    ops == [] || (AllSucceed(v, ops[..|ops| - 1], md5)
                  && Apply(Run(v, ops[..|ops| - 1], md5), ops[|ops| - 1], md5).1 == ERROR_NONE)
  }

  /** Operations that return no error fit; so do writes that say that the chip is full when they took the last sector. */
  lemma {:induction false} SuccessFits(v: seq<Sector>, ops: seq<Op>, md5: seq<byte> -> Hash)
    requires AllSucceed(v, ops, md5)
    ensures AllFit(v, ops, md5)
    decreases |ops|
  {
    if ops == [] {
    } else {
      var init, last := ops[..|ops| - 1], ops[|ops| - 1];
      SuccessFits(v, init, md5);
      if last.Write? { SuccessHasRoom(Run(v, init, md5), last.name, last.data, md5(last.data)); }
    }
  }

  // ---------- The map ----------

  type Files = map<Name, seq<byte>>

  /** What an operation does to the files. An empty file is no file. */
  function Effect(files: Files, op: Op): Files {
    match op
    case Write(name, data) => if data == [] then files - {name} else files[name := data]
    case Remove(name) => files - {name}
  }

  function Effects(files: Files, ops: seq<Op>): Files {
    if ops == [] then files else Effect(Effects(files, ops[..|ops| - 1]), ops[|ops| - 1])
  }

  function Lookup(files: Files, name: Name): (Error, seq<byte>) {
    if name in files then (ERROR_NONE, files[name]) else (ERROR_FILE_NOT_FOUND, [])
  }

  /** The sectors are in order, and reading any name gives what the map says. */
  ghost predicate Represents(v: seq<Sector>, files: Files, md5: seq<byte> -> Hash) {
    FsOk(v) && forall name: Name :: ReadByName(v, name, md5) == Lookup(files, name)
  }

  // ---------- One operation ----------

  lemma DifferentNames(v: seq<Sector>, name: Name, other: Name)
    requires FsOk(v) && name != other && FileId(v, other) != 0
    ensures FileId(v, other) != FileId(v, name)
  {
    NameMeansId(v, name, FindName(v, other, 0));
  }

  /** A name that no entry has is not found. */
  lemma Absent(v: seq<Sector>, name: seq<byte>)
    requires forall s :: 0 <= s < |v| && Used(v[s]) ==> CString(v[s].entry.filename) != name
    ensures FileId(v, name) == 0
  {
  }

  lemma RemoveKeepsOtherNames(v: seq<Sector>, name: Name, other: Name, md5: seq<byte> -> Hash)
    requires FsOk(v) && name != other
    ensures FsOk(Without(v, name)) && ReadByName(Without(v, name), other, md5) == ReadByName(v, other, md5)
  {
    var v1 := Without(v, name);
    WithoutFreesName(v, name);
    if FileId(v, other) != 0 {
      DifferentNames(v, name, other);
      OtherFileReadsSame(v, v1, other, md5);
    } else {
      forall s | 0 <= s < |v1| && Used(v1[s])
        ensures CString(v1[s].entry.filename) != other
      {
        RemovedAt(v, FileId(v, name), s);
        NoFileNoName(v, other, s);
      }
      Absent(v1, other);
    }
  }

  /** Where the new file's sectors are its own, no other name appears. */
  lemma WriteAddsNoOtherName(v: seq<Sector>, name: Name, data: seq<byte>, md5: seq<byte>, other: Name)
    requires FsOk(v) && name != other && 0 < |data| < WORD && HasRoom(v, name, data)
    requires FileId(Without(v, name), other) == 0
    ensures FileId(WriteFile(v, name, data, md5).0, other) == 0
  {
    var v1, v' := Without(v, name), WriteFile(v, name, data, md5).0;
    var e, g := WriteOutcome(v, name, data, md5);
    PadNameIsField(name);
    forall s | 0 <= s < |v'| && Used(v'[s])
      ensures CString(v'[s].entry.filename) != other
    {
      OldOrNew(v1, v', e, data, g, s);
      if s !in g { NoFileNoName(v1, other, s); }
    }
    Absent(v', other);
  }

  lemma WriteKeepsOtherNames(v: seq<Sector>, name: Name, data: seq<byte>, other: Name, md5: seq<byte> -> Hash)
    requires FsOk(v) && name != other && 0 < |data| < WORD && HasRoom(v, name, data)
    requires FsOk(WriteFile(v, name, data, md5(data)).0)
    ensures ReadByName(WriteFile(v, name, data, md5(data)).0, other, md5) == ReadByName(v, other, md5)
  {
    if FileId(v, other) != 0 {
      DifferentNames(v, name, other);
      FileIdLive(v, other);
      WriteKeepsOthers(v, name, data, md5(data), FileId(v, other));
      OtherFileReadsSame(v, WriteFile(v, name, data, md5(data)).0, other, md5);
    } else {
      RemoveKeepsOtherNames(v, name, other, md5);
      WriteAddsNoOtherName(v, name, data, md5(data), other);
    }
  }

  lemma RemoveRepresents(v: seq<Sector>, files: Files, name: Name, md5: seq<byte> -> Hash)
    requires Represents(v, files, md5)
    ensures Represents(Without(v, name), files - {name}, md5)
  {
    WithoutFreesName(v, name);
    forall other: Name
      ensures ReadByName(Without(v, name), other, md5) == Lookup(files - {name}, other)
    {
      if other != name {
        RemoveKeepsOtherNames(v, name, other, md5);
        assert ReadByName(v, other, md5) == Lookup(files, other);
      }
    }
  }

  lemma WriteRepresents(v: seq<Sector>, files: Files, name: Name, data: seq<byte>, md5: seq<byte> -> Hash)
    requires Represents(v, files, md5) && 0 < |data| < WORD && HasRoom(v, name, data)
    requires NextId(Without(v, name)) != 0
    ensures Represents(WriteFile(v, name, data, md5(data)).0, files[name := data], md5)
  {
    ReadBack(v, name, data, md5);
    forall other: Name
      ensures ReadByName(WriteFile(v, name, data, md5(data)).0, other, md5) == Lookup(files[name := data], other)
    {
      if other != name {
        WriteKeepsOtherNames(v, name, data, other, md5);
        assert ReadByName(v, other, md5) == Lookup(files, other);
      }
    }
  }

  // ---------- Ids ----------

  lemma RemoveKeepsMaxId(v: seq<Sector>, name: seq<byte>)
    ensures MaxId(Without(v, name), |v|) <= MaxId(v, |v|)
  {
    var v1 := Without(v, name);
    if MaxId(v1, |v1|) > 0 {
      MaxIdHeld(v1, |v1|);
      var s: nat :| s < |v1| && Holds(v1, s, MaxId(v1, |v1|));
      RemovedAt(v, FileId(v, name), s);
      assert Used(v[s]) && v[s].entry.id == MaxId(v1, |v1|);
    }
  }

  lemma WriteRaisesMaxId(v: seq<Sector>, name: Name, data: seq<byte>, md5: seq<byte>)
    requires FsOk(v) && 0 < |data| < WORD && HasRoom(v, name, data)
    ensures |WriteFile(v, name, data, md5).0| == |v|
    ensures MaxId(WriteFile(v, name, data, md5).0, |v|) <= MaxId(v, |v|) + 1
  {
    var v1, v' := Without(v, name), WriteFile(v, name, data, md5).0;
    var e, g := WriteOutcome(v, name, data, md5);
    RemoveKeepsMaxId(v, name);
    if MaxId(v', |v'|) > 0 {
      MaxIdHeld(v', |v'|);
      var s: nat :| s < |v'| && Holds(v', s, MaxId(v', |v'|));
      OldOrNew(v1, v', e, data, g, s);
      if s !in g {
        assert Used(v1[s]) && v1[s].entry.id <= MaxId(v1, |v1|);
      }
    }
  }

  // ---------- Whole runs ----------

  lemma OneStep(v: seq<Sector>, files: Files, op: Op, md5: seq<byte> -> Hash)
    requires Represents(v, files, md5) && Small(op) && Fits(v, op) && MaxId(v, |v|) + 1 < WORD
    ensures var v' := Apply(v, op, md5).0;
            |v'| == |v| && Represents(v', Effect(files, op), md5) && MaxId(v', |v|) <= MaxId(v, |v|) + 1
  {
    hide Represents, FsOk, WriteFile, Without, MaxId;
    assert FsOk(v) by { StateInOrder(v, files, md5); }
    RemoveKeepsMaxId(v, op.name);
    match op
    case Write(name, data) =>
      if data == [] {
        EmptyFileErases(v, name, md5(data));
        RemoveRepresents(v, files, name, md5);
      } else {
        WriteRepresents(v, files, name, data, md5);
        WriteRaisesMaxId(v, name, data, md5(data));
      }
    case Remove(name) =>
      RemoveRepresents(v, files, name, md5);
  }

  lemma StateInOrder(v: seq<Sector>, files: Files, md5: seq<byte> -> Hash)
    requires Represents(v, files, md5)
    ensures FsOk(v)
  {
  }

  /** After any run of writes that have room and of removals, reading any name gives what the last of them that concerned it
      left, and the invariant holds. Fewer than 2^32 operations cannot use up the ids. */
  lemma {:induction false} RunRefines(v: seq<Sector>, files: Files, ops: seq<Op>, md5: seq<byte> -> Hash)
    requires Represents(v, files, md5) && AllFit(v, ops, md5) && (forall op :: op in ops ==> Small(op))
    requires MaxId(v, |v|) + |ops| < WORD
    ensures var v' := Run(v, ops, md5);
            |v'| == |v| && Represents(v', Effects(files, ops), md5) && MaxId(v', |v|) <= MaxId(v, |v|) + |ops|
    decreases |ops|
  {
    hide Represents, Apply, MaxId, Effect, Fits;
    if ops == [] {
    } else {
      var init, last := ops[..|ops| - 1], ops[|ops| - 1];
      RunRefines(v, files, init, md5);
      OneStep(Run(v, init, md5), Effects(files, init), last, md5);
    }
  }

  /** In particular from a wiped chip on. */
  lemma RunFromWiped(n: nat, ops: seq<Op>, md5: seq<byte> -> Hash)
    requires |ops| < WORD && forall op :: op in ops ==> Small(op)
    requires AllFit(View(Ones(n * SECTOR_SIZE), n), ops, md5)
    ensures Represents(Run(View(Ones(n * SECTOR_SIZE), n), ops, md5), Effects(map[], ops), md5)
  {
    var v := View(Ones(n * SECTOR_SIZE), n);
    WipedView(n);
    assert Represents(v, map[], md5) by {
      hide View;
      forall name: Name ensures FileId(v, name) == 0 { Absent(v, name); }
    }
    assert MaxId(v, |v|) == 0 by {
      hide View;
      if MaxId(v, |v|) > 0 { MaxIdHeld(v, |v|); }
    }
    hide View, Represents, Run, MaxId;
    RunRefines(v, map[], ops, md5);
  }
}
