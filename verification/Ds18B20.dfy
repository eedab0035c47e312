/**
 Discovery of the temperature sensors: the loop over the ROM search that fills the sensor table.
 */
module Ds18B20 {
  import opened Bits
  import opened Crc
  import opened CrcValues
  import opened RomSearch
  import opened OneWireBus

  const MAX_DS18B20_SENSORS := 3

  predicate CrcValid(bytes: seq<byte>)
    requires |bytes| == 8
  {
    Register(POLY_CRC8, 0, bytes[..7]) == bytes[7]
  }

  /** Of the 256 bytes that can follow the first seven, exactly one makes them valid. */
  lemma OneValidByte(bytes: seq<byte>) returns (crc: byte)
    requires |bytes| == 7
    ensures forall c: byte :: CrcValid(bytes + [c]) <==> c == crc
  {
    TopBits();
    PowersOfTwo();
    StepsBound(POLY_CRC8, 0, MessageBits(bytes), 8);
    crc := Register(POLY_CRC8, 0, bytes);
    assert forall c: byte :: (bytes + [c])[..7] == bytes;
  }

  lemma CancelledExactlyWhen(poly: nat, n: nat, s: nat, x: nat)
    requires TopBitSet(poly, n) && s < Pow2(n) && x < Pow2(n)
    ensures Steps(poly, s, LowBits(x, n)) == 0 <==> s == x
  {
    RegisterCancelled(poly, x, n);
    if Steps(poly, s, LowBits(x, n)) == 0 { StepsInjective(poly, n, s, x, LowBits(x, n)); }
  }

  /** Eight bytes are valid exactly when all of them together leave nothing in the register. */
  lemma ValidLeavesZero(bytes: seq<byte>)
    requires |bytes| == 8
    ensures CrcValid(bytes) <==> Register(POLY_CRC8, 0, bytes) == 0
  {
    TopBits();
    PowersOfTwo();
    StepsBound(POLY_CRC8, 0, MessageBits(bytes[..7]), 8);
    RegisterAppend(POLY_CRC8, 0, bytes[..7], bytes[7]);
    assert bytes[..7] + [bytes[7]] == bytes;
    CancelledExactlyWhen(POLY_CRC8, 8, Register(POLY_CRC8, 0, bytes[..7]), bytes[7]);
  }

  /** A valid ROM is no longer valid when bits change only inside a window of eight, or in an odd number of places. */
  lemma ChangedRomIsInvalid(bytes: seq<byte>, other: seq<byte>, p: nat, w: nat)
    requires |bytes| == |other| == 8 && CrcValid(bytes)
    requires (w <= 8 && DifferInWindow(bytes, other, p, w)) || OddError(bytes, other)
    ensures !CrcValid(other)
  {
    hide CrcValid, DifferInWindow, OddError, Register;
    ValidLeavesZero(bytes);
    ValidLeavesZero(other);
    if OddError(bytes, other) {
      OddErrorsDetected(bytes, other, 0);
    } else {
      PolynomialsDetectBursts(bytes, other, 0, p, w);
    }
  }

  /** For example these eight bytes are a valid ROM, and no others that begin with the same seven are. */
  lemma ValidRom(c: byte)
    ensures CrcValid([0x02, 0x1C, 0xB8, 0x01, 0x00, 0x00, 0x00] + [c]) <==> c == 0xA2
  {
    CheckValues();
    hide Register;
    assert ([0x02, 0x1C, 0xB8, 0x01, 0x00, 0x00, 0x00] + [c])[..7] == [0x02, 0x1C, 0xB8, 0x01, 0x00, 0x00, 0x00];
  }

  /** A device whose eight bytes carry their own checksum. */
  ghost predicate RomValid(r: Rom) {
    exists bytes: seq<byte> :: |bytes| == 8 && RomOf(bytes) == r && CrcValid(bytes)
  }

  lemma RomValidBytes(bytes: seq<byte>)
    requires |bytes| == 8
    ensures RomValid(RomOf(bytes)) <==> CrcValid(bytes)
  {
    if RomValid(RomOf(bytes)) {
      var b: seq<byte> :| |b| == 8 && RomOf(b) == RomOf(bytes) && CrcValid(b);
      RomOfInjective(b, bytes);
    }
  }

  /** The valid ROMs of a list, in its order. */
  ghost function ValidOnes(roms: seq<Rom>): (v: seq<Rom>)
    ensures |v| <= |roms|
    ensures forall r :: r in v <==> r in roms && RomValid(r)
  {
    if roms == [] then []
    else ValidOnes(roms[..|roms| - 1]) + if RomValid(roms[|roms| - 1]) then [roms[|roms| - 1]] else []
  }

  lemma {:induction false} ValidOnesPrefix(roms: seq<Rom>, n: nat)
    requires n <= |roms|
    ensures ValidOnes(roms[..n]) <= ValidOnes(roms)
    decreases |roms|
  {
    if n == |roms| {
      assert roms[..n] == roms;
    } else {
      assert roms[..|roms| - 1][..n] == roms[..n];
      ValidOnesPrefix(roms[..|roms| - 1], n);
    }
  }

  ghost function Take<T>(s: seq<T>, n: nat): (t: seq<T>)
    ensures t <= s && |t| == if |s| < n then |s| else n
  {
    if n <= |s| then s[..n] else s
  }

  /** What a run of searches yields: every ROM in ascending order, or nothing if some family byte is zero. */
  ghost function Discoverable(devices: set<Rom>): seq<Rom> {
    if AllHaveFamily(devices) then Ascending(devices) else []
  }

  /** The ROMs that the bytes stored in the table stand for. */
  function RomsOf(table: seq<seq<byte>>): (roms: seq<Rom>)
    requires forall i :: 0 <= i < |table| ==> |table[i]| == 8
    ensures |roms| == |table|
  {
    seq(|table|, i requires 0 <= i < |table| => RomOf(table[i]))
  }

  ghost predicate IsAscending(roms: seq<Rom>) {
    forall i, j :: 0 <= i < j < |roms| ==> Less(roms[i], roms[j])
  }

  /** The valid ROMs of an ascending list are ascending, so none repeats. */
  lemma {:induction false} ValidOnesAscending(roms: seq<Rom>)
    requires IsAscending(roms)
    ensures IsAscending(ValidOnes(roms))
    ensures forall i, j :: 0 <= i < j < |ValidOnes(roms)| ==> ValidOnes(roms)[i] != ValidOnes(roms)[j]
    decreases |roms|
  {
    if roms == [] {
    } else {
      var init, last := roms[..|roms| - 1], roms[|roms| - 1];
      ValidOnesAscending(init);
      forall r | r in ValidOnes(init)
        ensures Less(r, last)
      {
        var k :| 0 <= k < |init| && init[k] == r;
        assert Less(roms[k], roms[|roms| - 1]);
      }
      assert ValidOnes(roms) == ValidOnes(init) + if RomValid(last) then [last] else [];
      assert IsAscending(ValidOnes(roms));
    }
    forall i, j | 0 <= i < j < |ValidOnes(roms)|
      ensures ValidOnes(roms)[i] != ValidOnes(roms)[j]
    {
      LessIrreflexive(ValidOnes(roms)[i]);
    }
  }

  /** Call n of a run finds ROM n of the discoverable ones, and the call after the last one fails. */
  lemma RunFinds(devices: set<Rom>, s: SearchState, n: nat)
    requires n <= |Discoverable(devices)|
    ensures Finds(devices, s, n) == (n < |Discoverable(devices)|)
    ensures n < |Discoverable(devices)| ==> After(devices, s, n + 1).rom == Discoverable(devices)[n]
  {
    if AllHaveFamily(devices) {
      WholeRun(devices, Ascending(devices), s);
    } else {
      FirstSucceedsExactlyWhen(devices, s);
    }
  }

  lemma RunStart(devices: set<Rom>, s: SearchState)
    ensures Search(devices, Reset(s)) == (After(devices, s, 1), Finds(devices, s, 0))
  {
    assert After(devices, s, 0) == Reset(s);
  }

  lemma NoneValid(roms: seq<Rom>)
    requires roms == []
    ensures ValidOnes(roms) == []
  {
  }

  lemma OneMore(all: seq<Rom>, n: nat, before: seq<Rom>, was: seq<Rom>, now: seq<Rom>)
    requires n < |all| && was == before + ValidOnes(all[..n])
    requires now == was + if RomValid(all[n]) then [all[n]] else []
    ensures now == before + ValidOnes(all[..n + 1])
  {
    assert all[..n + 1][..n] == all[..n];
  }

  lemma FirstThatFit(all: seq<Rom>, n: nat, stored: nat)
    requires n <= |all| && stored + |ValidOnes(all[..n])| <= MAX_DS18B20_SENSORS
    requires stored + |ValidOnes(all[..n])| == MAX_DS18B20_SENSORS || n == |all|
    ensures ValidOnes(all[..n]) == Take(ValidOnes(all), MAX_DS18B20_SENSORS - stored)
  {
    ValidOnesPrefix(all, n);
    if n == |all| {
      assert all[..n] == all;
    }
  }

  class Sensors {
    const wire: OneWire
    var sensorsFound: nat
    const roms: array<seq<byte>>

    constructor (bus: Bus)
      ensures Valid() && wire.bus == bus && sensorsFound == 0
      ensures fresh(wire) && fresh(wire.romNo) && fresh(roms)
    {
      wire := new OneWire(bus);
      sensorsFound := 0;
      roms := new seq<byte>[MAX_DS18B20_SENSORS](_ => [0, 0, 0, 0, 0, 0, 0, 0]);
    }

    ghost predicate Valid()
      reads this, roms
    {
      && wire.Valid() && wire.romNo as object != roms as object
      && roms.Length == MAX_DS18B20_SENSORS && sensorsFound <= MAX_DS18B20_SENSORS
      && forall i :: 0 <= i < roms.Length ==> |roms[i]| == 8
    }

    /** The ROMs stored so far. */
    ghost function Stored(): seq<Rom>
      requires Valid()
      reads this, roms
    {
      RomsOf(roms[..sensorsFound])
    }

    /** Saves the last ROM found in the first free place, and keeps it if its checksum is right. */
    method Store()
      requires Valid() && sensorsFound < MAX_DS18B20_SENSORS
      modifies this, roms
      ensures Valid()
      ensures var r := RomOf(wire.romNo[..]);
              Stored() == old(Stored()) + if RomValid(r) then [r] else []
    {
      ghost var before := Stored();
      ghost var n := sensorsFound;
      var bytes := wire.GetFullRom();
      roms[sensorsFound] := bytes;
      RomValidBytes(bytes);
      var crc := Crc8(roms[sensorsFound][..7]);
      if crc == roms[sensorsFound][7] {
        sensorsFound := sensorsFound + 1;
      }
      assert forall i :: 0 <= i < n ==> roms[i] == old(roms[i]);
      assert Stored()[..n] == before;
    }

    /** The master has made n + 1 calls of the run that began in state s, and the last one said `found`. */
    ghost predicate Called(s: SearchState, n: nat, found: bool)
      reads wire, wire.romNo, wire.bus
    {
      wire.Valid() && wire.State() == After(wire.bus.devices, s, n + 1) && found == Finds(wire.bus.devices, s, n)
    }

    /** One turn of the discovery loop: store the ROM found and look for the next one. */
    method StoreAndGoOn(ghost s: SearchState, ghost n: nat) returns (found: bool)
      requires Valid() && sensorsFound < MAX_DS18B20_SENSORS
      requires Called(s, n, true)
      modifies this, roms, wire, wire.romNo, wire.bus`listening, wire.bus`slot, wire.bus`complement
      ensures Valid() && Called(s, n + 1, found)
      ensures var r := After(wire.bus.devices, s, n + 1).rom;
              Stored() == old(Stored()) + if RomValid(r) then [r] else []
    {
      assert RomOf(wire.romNo[..]) == After(wire.bus.devices, s, n + 1).rom;
      Store();
      ghost var stored := Stored();
      found := wire.Next();
      assert Stored() == stored;
    }

    /** The discovery loop: after the sensors already stored come the first CRC-valid ROMs of the bus in search order,
        as many as fit. */
    method Discover()
      requires Valid()
      modifies this, roms, wire, wire.romNo, wire.bus`listening, wire.bus`slot, wire.bus`complement
      ensures Valid()
      ensures Stored() == old(Stored()) +
                          Take(ValidOnes(Discoverable(wire.bus.devices)), 3 - old(sensorsFound))
    {
      hide RomsOf, ValidOnes, Discoverable, RomValid, Take, Search, Finds, After;
      ghost var devices, before, s, n := wire.bus.devices, Stored(), wire.State(), 0;
      ghost var all := Discoverable(devices);
      var status := wire.First();
      RunStart(devices, s);
      RunFinds(devices, s, 0);
      NoneValid(all[..0]);
      while status && sensorsFound < MAX_DS18B20_SENSORS
        invariant Valid() && Called(s, n, status) && wire.bus.devices == devices
        invariant n <= |all| && status == (n < |all|)
        invariant Stored() == before + ValidOnes(all[..n])
        decreases |all| - n
      {
        RunFinds(devices, s, n);
        ghost var was := Stored();
        status := StoreAndGoOn(s, n);
        OneMore(all, n, before, was, Stored());
        RunFinds(devices, s, n + 1);
        n := n + 1;
      }
      FirstThatFit(all, n, |before|);
    }
  }
}
