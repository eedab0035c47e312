/**
 The 1-Wire master and the bus it sees. Everything the master learns about the devices arrives through
 wired-AND bits; `search` must find the ROMs from those alone.
 */
module OneWireBus {
  import opened Bits
  import opened RomSearch

  const OW_CMD_SEARCHROM := 0xF0
  const OW_CMD_ALARMSEARCH := 0xEC

  /** The bits of eight ROM bytes, in bus order. */
  function RomOf(bytes: seq<byte>): Rom
    requires |bytes| == 8
  {
    seq(ROM_BITS, k requires 0 <= k < ROM_BITS => Bit(bytes[k / 8], k % 8))
  }

  lemma RomOfInjective(a: seq<byte>, b: seq<byte>)
    requires |a| == |b| == 8 && RomOf(a) == RomOf(b)
    ensures a == b
  {
    forall j | 0 <= j < 8
      ensures a[j] == b[j]
    {
      PowersOfTwo();
      forall i: nat | i < 8
        ensures Bit(a[j], i) == Bit(b[j], i)
      {
        var k := 8 * j + i;
        assert k / 8 == j && k % 8 == i;
        assert RomOf(a)[k] == RomOf(b)[k];
      }
      SameBits(a[j], b[j], 8);
    }
  }

  /** The family byte is zero exactly when the ROM has no family bit. */
  lemma FamilyByte(bytes: seq<byte>)
    requires |bytes| == 8
    ensures bytes[0] != 0 <==> HasFamily(RomOf(bytes))
  {
    var r := RomOf(bytes);
    PowersOfTwo();
    assert forall i :: 0 <= i < FAMILY_BITS ==> r[i] == Bit(bytes[0], i);
    if bytes[0] == 0 {
      forall i: nat | i < FAMILY_BITS
        ensures !Bit(bytes[0], i)
      {
        ZeroBits(i);
      }
    } else if !HasFamily(r) {
      forall i: nat | i < 8
        ensures Bit(bytes[0], i) == Bit(0, i)
      {
        ZeroBits(i);
        assert !r[i];
      }
      SameBits(bytes[0], 0, 8);
    }
  }

  /** All the devices have the value v at bit k: what a wired AND over them can tell. */
  predicate Unanimous(devices: set<Rom>, k: nat, v: bool)
    requires k < ROM_BITS
  {
    forall d :: d in devices ==> d[k] == v
  }

  /** The devices on the wire. A search is in progress between the search command and the last direction bit:
      `listening` is the set of devices that have followed every direction so far. */
  class Bus {
    var devices: set<Rom>
    var alarmed: set<Rom>
    var listening: set<Rom>
    var slot: nat
    var complement: bool

    constructor (devices: set<Rom>, alarmed: set<Rom> := {})
      ensures this.devices == devices && this.alarmed == alarmed
    {
      this.devices, this.alarmed, listening, slot, complement := devices, alarmed, {}, 0, false;
    }

    /** The devices that take part in a search: all of them, or only those with an alarm. */
    function Responders(command: byte): (r: set<Rom>)
      reads this
      ensures command == 0xF0 ==> r == devices
      ensures command == 0xEC ==> r == devices * alarmed
    {
      if command == OW_CMD_ALARMSEARCH then devices * alarmed else devices
    }

    /** The reset pulse: some device answers with a presence pulse exactly when there is one. */
    method Reset() returns (presence: bool)
      modifies this`listening, this`slot, this`complement
      ensures presence == (devices != {})
    {
      listening, slot, complement := {}, 0, false;
      presence := devices != {};
    }

    /** After the search command the devices it addresses take part. */
    method SendSearch(command: byte)
      requires command == 0xF0 || command == 0xEC
      modifies this`listening, this`slot, this`complement
      ensures listening == Responders(command) && slot == 0 && !complement
    {
      listening, slot, complement := Responders(command), 0, false;
    }

    /** Wired AND of the current bit of the participating devices, then of its complement. */
    method ReceiveBit() returns (b: bool)
      requires slot < ROM_BITS
      modifies this`complement
      ensures complement == !old(complement) && b == Unanimous(listening, slot, !old(complement))
    {
      b := Unanimous(listening, slot, !complement);
      complement := !complement;
    }

    /** Devices whose current bit differs from the direction drop out. */
    method SendBit(b: bool)
      requires slot < ROM_BITS && !complement
      modifies this`listening, this`slot
      ensures listening == set d | d in old(listening) && d[old(slot)] == b
      ensures slot == old(slot) + 1
    {
      listening := set d | d in listening && d[slot] == b;
      slot := slot + 1;
    }
  }

  /** What the two bits read after the prefix say: both 1 exactly when nobody listens, both 0 exactly at a discrepancy. */
  lemma BitsRead(devices: set<Rom>, p: seq<bool>, rom: Rom, last: nat, idBit: bool, cmpIdBit: bool)
    requires |p| < ROM_BITS
    requires idBit == Unanimous(Agreeing(devices, p), |p|, true)
    requires cmpIdBit == Unanimous(Agreeing(devices, p), |p|, false)
    ensures idBit && cmpIdBit <==> Agreeing(devices, p) == {}
    ensures !idBit && !cmpIdBit <==> Splits(devices, p)
    ensures idBit != cmpIdBit ==> Direction(devices, rom, last, p) == idBit
  {
  }

  lemma ReadRomBit(bytes: seq<byte>, k: nat)
    requires |bytes| == 8 && k < ROM_BITS
    ensures And(bytes[k / 8], Pow2(k % 8)) > 0 <==> RomOf(bytes)[k]
  {
    TestMask(bytes[k / 8], k % 8);
  }

  /** What choosing bit k of the path adds to the record of zeros, the ROM and the set of participants. */
  lemma StepRecorded(devices: set<Rom>, path: Rom, rom: Rom, family: nat, k: nat)
    requires k < ROM_BITS
    ensures LastZero(devices, path, k + 1) ==
            if !path[k] && Splits(devices, path[..k]) then k + 1 else LastZero(devices, path, k)
    ensures Family(devices, path, k + 1, family) ==
            if !path[k] && Splits(devices, path[..k]) && k + 1 < 9 then k + 1 else Family(devices, path, k, family)
    ensures (path[..k] + rom[k..])[k := path[k]] == path[..k + 1] + rom[k + 1..]
    ensures (set d | d in Agreeing(devices, path[..k]) && d[k] == path[k]) == Agreeing(devices, path[..k + 1])
  {
    assert path[..k + 1] == path[..k] + [path[k]];
    forall d | d in devices
      ensures d in Agreeing(devices, path[..k]) && d[k] == path[k] <==> d in Agreeing(devices, path[..k + 1])
    {
      assert path[..k + 1] <= d ==> d[..k + 1][..k] == path[..k] && d[..k + 1][k] == path[k];
      assert d[..k + 1] == d[..k] + [d[k]];
    }
  }

  lemma WholePath(devices: set<Rom>, start: SearchState)
    ensures var path := Descend(devices, start.rom, start.last, []); path[..ROM_BITS] + start.rom[ROM_BITS..] == path
  {
  }

  lemma MaskAdvances(k: nat)
    ensures Pow2(k % 8) * 2 % 256 == if k % 8 == 7 then 0 else Pow2((k + 1) % 8)
    ensures Pow2(k % 8) * 2 % 256 == 0 <==> k % 8 == 7
    ensures (k + 1) / 8 == if k % 8 == 7 then k / 8 + 1 else k / 8
    ensures k % 8 == 7 ==> Pow2((k + 1) % 8) == 1
  {
    PowersOfTwo();
    if k % 8 < 7 {
      Pow2Monotone(k % 8 + 1, 8);
      assert (k + 1) % 8 == k % 8 + 1;
    }
  }

  lemma SomeoneListens(devices: set<Rom>, rom: Rom, last: nat, k: nat)
    requires devices != {} && k <= ROM_BITS
    ensures Agreeing(devices, Descend(devices, rom, last, [])[..k]) != {}
  {
    var d :| d in devices;
    assert d in Agreeing(devices, []);
    DescendPresent(devices, rom, last, []);
    var path := Descend(devices, rom, last, []);
    assert path in Agreeing(devices, path[..k]);
  }

  class OneWire {
    const bus: Bus
    var lastDiscrepancy: nat
    var lastFamilyDiscrepancy: nat
    var lastDeviceFlag: bool
    const romNo: array<byte>

    constructor (bus: Bus)
      ensures this.bus == bus && Valid() && fresh(romNo)
      ensures State() == Reset(State())
    {
      this.bus := bus;
      lastDiscrepancy, lastFamilyDiscrepancy, lastDeviceFlag := 0, 0, false;
      romNo := new byte[8](_ => 0);
    }

    ghost predicate Valid() {
      romNo.Length == 8
    }

    ghost function State(): SearchState
      reads this, romNo
      requires Valid()
    {
      SearchState(lastDiscrepancy, lastFamilyDiscrepancy, lastDeviceFlag, RomOf(romNo[..]))
    }

    method ResetSearch()
      requires Valid()
      modifies this
      ensures State() == Reset(old(State()))
      ensures lastDiscrepancy == 0 && lastFamilyDiscrepancy == 0 && lastDeviceFlag == false
    {
      lastDiscrepancy := 0;
      lastDeviceFlag := false;
      lastFamilyDiscrepancy := 0;
    }

    method First() returns (found: bool)
      requires Valid()
      modifies this, romNo, bus`listening, bus`slot, bus`complement
      ensures (State(), found) == RomSearch.Search(bus.devices, Reset(old(State())))
    {
      ResetSearch();
      found := Search(OW_CMD_SEARCHROM);
    }

    method Next() returns (found: bool)
      requires Valid()
      modifies this, romNo, bus`listening, bus`slot, bus`complement
      ensures (State(), found) == RomSearch.Search(bus.devices, old(State()))
    {
      found := Search(OW_CMD_SEARCHROM);
    }

    /** Writes bit k of the ROM through the byte number and mask; every other bit stays. */
    method WriteRomBit(number: nat, mask: nat, direction: bool, ghost k: nat)
      requires Valid() && k < ROM_BITS && number == k / 8 && mask == Pow2(k % 8)
      modifies romNo
      ensures RomOf(romNo[..]) == old(RomOf(romNo[..]))[k := direction]
    {
      ghost var before := romNo[..];
      MaskBounds(romNo[number], k % 8);
      if direction {
        romNo[number] := Or(romNo[number], mask);
      } else {
        romNo[number] := And(romNo[number], 255 - mask);
      }
      forall j | 0 <= j < ROM_BITS
        ensures RomOf(romNo[..])[j] == RomOf(before)[k := direction][j]
      {
        SetClearBit(before[number], k % 8, j % 8);
      }
    }

    /** The search that started in state `start` has sent k bits of its path. */
    ghost predicate Walking(devices: set<Rom>, start: SearchState, k: nat)
      reads this, romNo, bus
      requires k <= ROM_BITS
    {
      var path := Descend(devices, start.rom, start.last, []);
      && Valid()
      && bus.slot == k && !bus.complement
      && bus.listening == Agreeing(devices, path[..k])
      && State() == start.(family := Family(devices, path, k, start.family), rom := path[..k] + start.rom[k..])
    }

    /** The direction to take where both bits read 0, and what is recorded when it is 0. */
    method AtDiscrepancy(idBitNumber: nat, romByteNumber: nat, romByteMask: nat, lastZero: nat, ghost k: nat)
      returns (direction: bool, newLastZero: nat)
      requires Valid() && k < ROM_BITS
      requires idBitNumber == k + 1 && romByteNumber == k / 8 && romByteMask == Pow2(k % 8)
      modifies this`lastFamilyDiscrepancy
      ensures direction == if k + 1 < lastDiscrepancy then RomOf(romNo[..])[k] else k + 1 == lastDiscrepancy
      ensures newLastZero == if direction then lastZero else k + 1
      ensures lastFamilyDiscrepancy == if !direction && k + 1 < 9 then k + 1 else old(lastFamilyDiscrepancy)
    {
      newLastZero := lastZero;
      if idBitNumber < lastDiscrepancy {
        ReadRomBit(romNo[..], k);
        direction := And(romNo[romByteNumber], romByteMask) > 0;
      } else {
        direction := idBitNumber == lastDiscrepancy;
      }
      if !direction {
        newLastZero := idBitNumber;
        if newLastZero < 9 {
          lastFamilyDiscrepancy := newLastZero;
        }
      }
    }

    /** Reads a bit and its complement after the prefix p and chooses the direction; it reports whether nobody answered. */
    method ReadDirection(idBitNumber: nat, romByteNumber: nat, romByteMask: nat, lastZero: nat,
                         ghost devices: set<Rom>, ghost p: seq<bool>)
      returns (nobody: bool, direction: bool, newLastZero: nat)
      requires Valid() && |p| < ROM_BITS
      requires bus.listening == Agreeing(devices, p) && bus.slot == |p| && !bus.complement
      requires idBitNumber == |p| + 1 && romByteNumber == |p| / 8 && romByteMask == Pow2(|p| % 8)
      modifies this`lastFamilyDiscrepancy, bus`complement
      ensures !bus.complement && (nobody <==> Agreeing(devices, p) == {})
      ensures !nobody ==> direction == Direction(devices, RomOf(romNo[..]), lastDiscrepancy, p)
      ensures newLastZero == if !direction && Splits(devices, p) then |p| + 1 else lastZero
      ensures lastFamilyDiscrepancy ==
              if !direction && Splits(devices, p) && |p| + 1 < 9 then |p| + 1 else old(lastFamilyDiscrepancy)
    {
      newLastZero, direction, nobody := lastZero, false, false;
      var idBit := bus.ReceiveBit();
      var cmpIdBit := bus.ReceiveBit();
      BitsRead(devices, p, RomOf(romNo[..]), lastDiscrepancy, idBit, cmpIdBit);
      if idBit && cmpIdBit {
        nobody := true;
      } else if idBit != cmpIdBit {
        direction := idBit;
      } else {
        direction, newLastZero := AtDiscrepancy(idBitNumber, romByteNumber, romByteMask, lastZero, |p|);
      }
    }

    /** One turn of the search loop: choose a direction, record it and send it; or notice that nobody takes part. */
    method SearchBit(idBitNumber: nat, romByteNumber: nat, romByteMask: nat, lastZero: nat,
                     ghost devices: set<Rom>, ghost start: SearchState, ghost k: nat)
      returns (nobody: bool, newLastZero: nat)
      requires k < ROM_BITS && Walking(devices, start, k) && (devices == {} ==> k == 0)
      requires idBitNumber == k + 1 && romByteNumber == k / 8 && romByteMask == Pow2(k % 8)
      requires lastZero == LastZero(devices, Descend(devices, start.rom, start.last, []), k)
      modifies this`lastFamilyDiscrepancy, romNo, bus`listening, bus`slot, bus`complement
      ensures (nobody <==> devices == {}) && Walking(devices, start, if nobody then 0 else k + 1)
      ensures !nobody ==> newLastZero == LastZero(devices, Descend(devices, start.rom, start.last, []), k + 1)
    {
      ghost var path := Descend(devices, start.rom, start.last, []);
      DescendSteps(devices, start.rom, start.last, [], k);
      if devices != {} { SomeoneListens(devices, start.rom, start.last, k); }
      StepRecorded(devices, path, start.rom, start.family, k);
      assert RomOf(romNo[..])[k] == start.rom[k];
      var direction;
      nobody, direction, newLastZero :=
        ReadDirection(idBitNumber, romByteNumber, romByteMask, lastZero, devices, path[..k]);
      if nobody {
        return;
      }
      WriteRomBit(romByteNumber, romByteMask, direction, k);
      bus.SendBit(direction);
    }

    /** The search loop over all the bits; it returns how many were done, counted from 1, and the last zero chosen. It
        leaves at the first bit if nobody takes part. */
    method SearchBits(ghost devices: set<Rom>, ghost start: SearchState) returns (idBitNumber: nat, lastZero: nat)
      requires Walking(devices, start, 0)
      modifies this`lastFamilyDiscrepancy, romNo, bus`listening, bus`slot, bus`complement
      ensures devices == {} ==> idBitNumber == 1 && Walking(devices, start, 0)
      ensures devices != {} ==> idBitNumber == ROM_BITS + 1 && Walking(devices, start, ROM_BITS)
      ensures devices != {} ==> lastZero == LastZero(devices, Descend(devices, start.rom, start.last, []), ROM_BITS)
    {
      idBitNumber, lastZero := 1, 0;
      var romByteNumber, romByteMask := 0, 1;
      ghost var k := 0;
      while romByteNumber < 8
        invariant k <= ROM_BITS && idBitNumber == k + 1 && (devices == {} ==> k == 0)
        invariant romByteNumber == k / 8 && romByteMask == Pow2(k % 8)
        invariant Walking(devices, start, k)
        invariant lastZero == LastZero(devices, Descend(devices, start.rom, start.last, []), k)
        decreases ROM_BITS - k
      {
        var nobody;
        nobody, lastZero := SearchBit(idBitNumber, romByteNumber, romByteMask, lastZero, devices, start, k);
        if nobody {
          break;
        }
        MaskAdvances(k);
        idBitNumber := idBitNumber + 1;
        romByteMask := romByteMask * 2 % 256;
        if romByteMask == 0 {
          romByteNumber := romByteNumber + 1;
          romByteMask := 1;
        }
        k := k + 1;
      }
    }

    /** The search proper, after the search command: it leaves the state that follows from a descent. */
    method Descent(ghost devices: set<Rom>) returns (searchResult: bool)
      requires Valid() && !lastDeviceFlag
      requires bus.listening == devices && bus.slot == 0 && !bus.complement
      modifies this, romNo, bus`listening, bus`slot, bus`complement
      ensures searchResult <==> devices != {}
      ensures State() == if devices == {} then old(State()) else Descended(devices, old(State()))
    {
      ghost var start := State();
      assert start.rom == Descend(devices, start.rom, start.last, [])[..0] + start.rom[0..];
      var idBitNumber, lastZero := SearchBits(devices, start);
      WholePath(devices, start);
      searchResult := false;
      if !(idBitNumber < 65) {
        lastDiscrepancy := lastZero;
        if lastDiscrepancy == 0 {
          lastDeviceFlag := true;
        }
        searchResult := true;
      }
    }

    /** One search over the wire computes the search function of the set of devices that take part. */
    method Search(command: byte) returns (searchResult: bool)
      requires Valid() && (command == OW_CMD_SEARCHROM || command == OW_CMD_ALARMSEARCH)
      modifies this, romNo, bus`listening, bus`slot, bus`complement
      ensures (State(), searchResult) == RomSearch.Search(bus.Responders(command), old(State()))
      ensures !searchResult ==> lastDiscrepancy == 0 && lastFamilyDiscrepancy == 0 && lastDeviceFlag == false
      ensures old(lastDeviceFlag) || bus.Responders(command) == {} ==> RomOf(romNo[..]) == old(RomOf(romNo[..]))
    {
      searchResult := false;
      if !lastDeviceFlag {
        var presence := bus.Reset();
        if !presence {
          ResetSearch();
          return false;
        }
        bus.SendSearch(command);
        searchResult := Descent(bus.listening);
      }
      FamilyByte(romNo[..]);
      if !searchResult || romNo[0] == 0 {
        ResetSearch();
        searchResult := false;
      }
    }

    /** The eight bytes of the last ROM found. */
    method GetFullRom() returns (bytes: seq<byte>)
      requires Valid()
      ensures bytes == romNo[..]
    {
      bytes := romNo[..];
    }
  }
}
