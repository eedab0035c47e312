/**
 The 1-Wire ROM search as a function on the set of devices, and what one call and a whole run of it find.
 ROMs are 64 bits, least significant bit of byte 0 first, which is the order in which they travel.
 */
module RomSearch {

  import opened Bits

  const ROM_BITS := 64
  const FAMILY_BITS := 8

  type Rom = r: seq<bool> | |r| == ROM_BITS witness seq(ROM_BITS, _ => true)

  // ---------- Order ----------

  /** `a` and `b` agree below `k`, where `a` has 0 and `b` has 1. */
  ghost predicate Diverge(a: Rom, b: Rom, k: nat) {
    k < ROM_BITS && a[..k] == b[..k] && !a[k] && b[k]
  }

  /** The order of bit strings read from the first bit. */
  ghost predicate Less(a: Rom, b: Rom) {
    exists k: nat :: Diverge(a, b, k)
  }

  lemma FirstDifference(a: Rom, b: Rom) returns (k: nat)
    requires a != b
    ensures k < ROM_BITS && a[..k] == b[..k] && a[k] != b[k]
  {
    k := 0;
    while k < ROM_BITS && a[k] == b[k]
      invariant k <= ROM_BITS && a[..k] == b[..k]
    {
      assert a[..k + 1] == a[..k] + [a[k]] && b[..k + 1] == b[..k] + [b[k]];
      k := k + 1;
    }
    assert a[..ROM_BITS] == a && b[..ROM_BITS] == b;
  }

  lemma LessIrreflexive(a: Rom)
    ensures !Less(a, a)
  {
  }

  lemma LessTransitive(a: Rom, b: Rom, c: Rom)
    requires Less(a, b) && Less(b, c)
    ensures Less(a, c)
  {
    var i: nat :| Diverge(a, b, i);
    var j: nat :| Diverge(b, c, j);
    var k := if i < j then i else j;
    assert a[..k] == a[..i][..k] && b[..k] == b[..i][..k] == b[..j][..k] && c[..k] == c[..j][..k];
    if i < j {
      assert c[i] == c[..j][i] == b[..j][i];
    } else if j < i {
      assert a[j] == a[..i][j] == b[..i][j];
    }
    assert Diverge(a, c, k);
  }

  // ---------- One call ----------

  /** The devices still participating once the bits `p` have been sent. */
  function Agreeing(devices: set<Rom>, p: seq<bool>): set<Rom> {
    set d | d in devices && p <= d
  }

  /** A discrepancy: both the bit and its complement read 0 after the prefix `p`. */
  predicate Splits(devices: set<Rom>, p: seq<bool>)
    requires |p| < ROM_BITS
  {
    (exists d :: d in Agreeing(devices, p) && d[|p|]) && (exists d :: d in Agreeing(devices, p) && !d[|p|])
  }

  /** The direction taken after the prefix `p`, when at least one device is participating. */
  function Direction(devices: set<Rom>, rom: Rom, last: nat, p: seq<bool>): bool
    requires |p| < ROM_BITS
  {
    if !Splits(devices, p) then forall d :: d in Agreeing(devices, p) ==> d[|p|]
    else if |p| + 1 < last then rom[|p|]
    else |p| + 1 == last
  }

  /** The ROM a search ends at, continuing from the prefix `p`. */
  function Descend(devices: set<Rom>, rom: Rom, last: nat, p: seq<bool>): (r: Rom)
    requires |p| <= ROM_BITS
    ensures p <= r
    decreases ROM_BITS - |p|
  {
    if |p| == ROM_BITS then p
    else Descend(devices, rom, last, p + [Direction(devices, rom, last, p)])
  }

  /** The last position, counted from 1 and at most `k`, where 0 was chosen at a discrepancy; 0 if there is none. */
  function LastZero(devices: set<Rom>, path: Rom, k: nat): (z: nat)
    requires k <= ROM_BITS
    ensures z <= k
  {
    if k == 0 then 0
    else if !path[k - 1] && Splits(devices, path[..k - 1]) then k
    else LastZero(devices, path, k - 1)
  }

  datatype SearchState = SearchState(last: nat, family: nat, done: bool, rom: Rom)

  /** What `reset_search` does: the last ROM stays. */
  function Reset(s: SearchState): SearchState {
    s.(last := 0, family := 0, done := false)
  }

  predicate HasFamily(r: Rom) {
    exists i :: 0 <= i < FAMILY_BITS && r[i]
  }

  ghost predicate AllHaveFamily(devices: set<Rom>) {
    forall d :: d in devices ==> HasFamily(d)
  }

  function Family(devices: set<Rom>, path: Rom, k: nat, before: nat): nat
    requires k <= ROM_BITS
  {
    var z := LastZero(devices, path, if k < FAMILY_BITS then k else FAMILY_BITS);
    if z == 0 then before else z
  }

  /** The state a descent leaves before the family byte is looked at. */
  function Descended(devices: set<Rom>, s: SearchState): SearchState {
    var rom := Descend(devices, s.rom, s.last, []);
    var last := LastZero(devices, rom, ROM_BITS);
    SearchState(last, Family(devices, rom, ROM_BITS, s.family), last == 0, rom)
  }

  /** One call of `search` on a fixed bus: the state it leaves and whether it found a device. */
  function Search(devices: set<Rom>, s: SearchState): (SearchState, bool) {
    if s.done || devices == {} then (Reset(s), false)
    else
      var found := Descended(devices, s);
      if HasFamily(found.rom) then (found, true) else (Reset(found), false)
  }

  // ---------- What one call finds ----------

  lemma {:induction false} DescendSteps(devices: set<Rom>, rom: Rom, last: nat, p: seq<bool>, k: nat)
    requires |p| <= k < ROM_BITS
    ensures var r := Descend(devices, rom, last, p); r[k] == Direction(devices, rom, last, r[..k])
    decreases ROM_BITS - |p|
  {
    var r := Descend(devices, rom, last, p);
    var q := p + [Direction(devices, rom, last, p)];
    assert r == Descend(devices, rom, last, q);
    if k == |p| {
      assert r[..k] == p && r[k] == q[k];
    } else {
      DescendSteps(devices, rom, last, q, k);
    }
  }

  lemma {:induction false} DescendPresent(devices: set<Rom>, rom: Rom, last: nat, p: seq<bool>)
    requires |p| <= ROM_BITS && Agreeing(devices, p) != {}
    ensures Descend(devices, rom, last, p) in devices
    decreases ROM_BITS - |p|
  {
    var d :| d in Agreeing(devices, p);
    if |p| == ROM_BITS {
      assert d == p;
    } else {
      var b := Direction(devices, rom, last, p);
      var e :| e in Agreeing(devices, p) && e[|p|] == b;
      assert p + [b] <= e;
      assert e in Agreeing(devices, p + [b]);
      DescendPresent(devices, rom, last, p + [b]);
    }
  }

  /** Every successful search ends at a device that is on the bus now, whatever the state before the call:
      in particular when devices joined or left since the previous call. */
  lemma SearchFindsPresent(devices: set<Rom>, s: SearchState)
    ensures var (s', found) := Search(devices, s); found ==> s'.rom in devices && HasFamily(s'.rom)
  {
    if devices != {} {
      var d :| d in devices;
      assert d in Agreeing(devices, []);
      DescendPresent(devices, s.rom, s.last, []);
    }
  }

  /** `last` is the last position where `rom` has 0 while a device agreeing on all earlier bits has 1. */
  ghost predicate IsLastDiscrepancy(devices: set<Rom>, rom: Rom, last: nat) {
    && last <= ROM_BITS
    && (last > 0 ==> exists d :: d in devices && Diverge(rom, d, last - 1))
    && forall d, k: nat :: d in devices && Diverge(rom, d, k) ==> k < last
  }

  lemma {:induction false} LastZeroMeaning(devices: set<Rom>, rom: Rom, k: nat)
    requires rom in devices && k <= ROM_BITS
    ensures var z := LastZero(devices, rom, k);
            && (z > 0 ==> exists d :: d in devices && Diverge(rom, d, z - 1))
            && forall d, j: nat :: d in devices && Diverge(rom, d, j) && j < k ==> j < z
  {
    if k == 0 {
    } else {
      LastZeroMeaning(devices, rom, k - 1);
      var p := rom[..k - 1];
      forall d | d in devices && Diverge(rom, d, k - 1)
        ensures Splits(devices, p)
      {
        assert d in Agreeing(devices, p) && rom in Agreeing(devices, p);
      }
      if !rom[k - 1] && Splits(devices, p) {
        var d :| d in Agreeing(devices, p) && d[k - 1];
        assert d[..k - 1] == p;
        assert Diverge(rom, d, k - 1);
      }
    }
  }

  /** The position recorded by a search is the last discrepancy of the ROM it found, and it is 0 exactly
      when that ROM is the greatest on the bus. */
  lemma LastDiscrepancyRecorded(devices: set<Rom>, rom: Rom)
    requires rom in devices
    ensures IsLastDiscrepancy(devices, rom, LastZero(devices, rom, ROM_BITS))
    ensures LastZero(devices, rom, ROM_BITS) == 0 <==> forall d :: d in devices ==> !Less(rom, d)
  {
    LastZeroMeaning(devices, rom, ROM_BITS);
  }

  /** The state after a successful search of a fixed bus. */
  ghost predicate At(devices: set<Rom>, s: SearchState) {
    && s.rom in devices
    && IsLastDiscrepancy(devices, s.rom, s.last)
    && s.done == (s.last == 0)
  }

  ghost predicate LeastAbove(devices: set<Rom>, rom: Rom, r: Rom) {
    r in devices && Less(rom, r) && forall d :: d in devices && Less(rom, d) ==> d == r || Less(r, d)
  }

  ghost predicate LeastOf(devices: set<Rom>, r: Rom) {
    r in devices && forall d :: d in devices ==> d == r || Less(r, d)
  }

  lemma SplitHere(devices: set<Rom>, a: Rom, b: Rom, k: nat)
    requires a in devices && b in devices && k < ROM_BITS && a[..k] == b[..k] && a[k] != b[k]
    ensures Splits(devices, a[..k])
  {
    assert a in Agreeing(devices, a[..k]) && b in Agreeing(devices, a[..k]);
  }

  /** Where the search meets no discrepancy it has no choice: it follows any participating device. */
  lemma FollowsUnanimity(devices: set<Rom>, rom: Rom, last: nat, d: Rom, k: nat)
    requires d in devices && k < ROM_BITS
    requires var r := Descend(devices, rom, last, []); r in devices && r[..k] == d[..k] && !Splits(devices, d[..k])
    ensures Descend(devices, rom, last, [])[k] == d[k]
  {
    var r := Descend(devices, rom, last, []);
    if r[k] != d[k] {
      SplitHere(devices, d, r, k);
    }
  }

  /** Up to the last discrepancy the search goes the way of the previous ROM, if some device e still does. */
  lemma {:induction false} RetracesPrefix(devices: set<Rom>, rom: Rom, last: nat, e: Rom, k: nat)
    requires e in devices && 0 < last <= ROM_BITS && k < last && e[..last - 1] == rom[..last - 1]
    ensures Descend(devices, rom, last, [])[..k] == rom[..k]
    decreases k
  {
    if k == 0 {
    } else {
      RetracesPrefix(devices, rom, last, e, k - 1);
      var r := Descend(devices, rom, last, []);
      assert e in Agreeing(devices, []);
      DescendPresent(devices, rom, last, []);
      DescendSteps(devices, rom, last, [], k - 1);
      assert e[..k - 1] == e[..last - 1][..k - 1] == rom[..k - 1] && e[k - 1] == e[..last - 1][k - 1] == rom[k - 1];
      if !Splits(devices, rom[..k - 1]) {
        FollowsUnanimity(devices, rom, last, e, k - 1);
      }
      assert r[..k] == r[..k - 1] + [r[k - 1]] && rom[..k] == rom[..k - 1] + [rom[k - 1]];
    }
  }

  /** Past the last discrepancy the search takes 0 whenever it can, so it ends at the least device
      that shares what was sent so far. */
  lemma TakesLeast(devices: set<Rom>, rom: Rom, last: nat, d: Rom)
    requires var r := Descend(devices, rom, last, []);
             d in devices && r in devices && last <= ROM_BITS && d[..last] == r[..last]
    ensures var r := Descend(devices, rom, last, []); d == r || Less(r, d)
  {
    var r := Descend(devices, rom, last, []);
    if d != r {
      var k := FirstDifference(r, d);
      SplitHere(devices, r, d, k);
      DescendSteps(devices, rom, last, [], k);
      assert Diverge(r, d, k);
    }
  }

  /** The first search of a run ends at the least ROM on the bus. */
  lemma SearchFromStart(devices: set<Rom>, rom: Rom)
    requires devices != {}
    ensures LeastOf(devices, Descend(devices, rom, 0, []))
  {
    var e :| e in devices;
    assert e in Agreeing(devices, []);
    DescendPresent(devices, rom, 0, []);
    forall d | d in devices
      ensures d == Descend(devices, rom, 0, []) || Less(Descend(devices, rom, 0, []), d)
    {
      TakesLeast(devices, rom, 0, d);
    }
  }

  /** With the last discrepancy of the ROM found on an old set of devices, and a device e that still shows it, the next
      search skips none of the old devices that are still there, whoever else joined or left. */
  lemma SearchMovesOn(before: set<Rom>, devices: set<Rom>, rom: Rom, last: nat, e: Rom)
    requires last > 0 && IsLastDiscrepancy(before, rom, last) && e in devices && Diverge(rom, e, last - 1)
    ensures var r := Descend(devices, rom, last, []);
            && r in devices && Less(rom, r)
            && forall d :: d in before && d in devices && Less(rom, d) ==> d == r || Less(r, d)
  {
    var r := Descend(devices, rom, last, []);
    var m := last - 1;
    assert e in Agreeing(devices, []);
    DescendPresent(devices, rom, last, []);
    RetracesPrefix(devices, rom, last, e, m);
    DescendSteps(devices, rom, last, [], m);
    if !Splits(devices, rom[..m]) { FollowsUnanimity(devices, rom, last, e, m); }
    assert Diverge(rom, r, m);
    forall d | d in before && d in devices && Less(rom, d)
      ensures d == r || Less(r, d)
    {
      var j: nat :| Diverge(rom, d, j);
      if j < m {
        assert r[..j] == r[..m][..j] == rom[..m][..j] == rom[..j];
        assert r[j] == r[..m][j] == rom[..m][j] == rom[j];
        assert Diverge(r, d, j);
      } else {
        assert j == m;
        assert d[..last] == d[..m] + [d[m]] && r[..last] == r[..m] + [r[m]];
        TakesLeast(devices, rom, last, d);
      }
    }
  }

  /** Every later search ends at the least ROM above the previous one. */
  lemma SearchMovesUp(devices: set<Rom>, rom: Rom, last: nat)
    requires rom in devices && last > 0 && IsLastDiscrepancy(devices, rom, last)
    ensures LeastAbove(devices, rom, Descend(devices, rom, last, []))
  {
    var e :| e in devices && Diverge(rom, e, last - 1);
    SearchMovesOn(devices, devices, rom, last, e);
  }

  /** One step of a run over a fixed bus. */
  lemma SearchStep(devices: set<Rom>, s: SearchState)
    requires At(devices, s) && !s.done
    requires AllHaveFamily(devices)
    ensures var (s', found) := Search(devices, s); found && At(devices, s') && LeastAbove(devices, s.rom, s'.rom)
  {
    SearchMovesUp(devices, s.rom, s.last);
    LastDiscrepancyRecorded(devices, Descend(devices, s.rom, s.last, []));
  }

  // ---------- The whole run ----------

  /** `roms` lists the devices in ascending order, each exactly once. */
  ghost predicate Enumerates(devices: set<Rom>, roms: seq<Rom>) {
    && (forall i, j :: 0 <= i < j < |roms| ==> Less(roms[i], roms[j]))
    && (forall d :: d in devices <==> d in roms)
  }

  lemma EnumeratesCons(devices: set<Rom>, least: Rom, rest: seq<Rom>)
    requires LeastOf(devices, least) && Enumerates(devices - {least}, rest)
    ensures Enumerates(devices, [least] + rest)
  {
    forall i, j | 0 <= i < j < |rest| + 1
      ensures Less(([least] + rest)[i], ([least] + rest)[j])
    {
      if i > 0 {
        assert Less(rest[i - 1], rest[j - 1]);
      } else {
        assert rest[j - 1] in rest && rest[j - 1] in devices;
      }
    }
    forall d
      ensures d in devices <==> d in [least] + rest
    {
      assert d in rest <==> d in devices - {least};
    }
  }

  /** The devices in ascending order. */
  ghost function Ascending(devices: set<Rom>): (roms: seq<Rom>)
    ensures Enumerates(devices, roms)
  {
    if devices == {} then []
    else
      var least := Descend(devices, seq(ROM_BITS, _ => false), 0, []);
      SearchFromStart(devices, seq(ROM_BITS, _ => false));
      var rest := Ascending(devices - {least});
      EnumeratesCons(devices, least, rest);
      [least] + rest
  }

  lemma NoEarlierAbove(roms: seq<Rom>, i: nat, n: nat)
    requires i <= n < |roms| && (i < n ==> Less(roms[i], roms[n]))
    ensures !Less(roms[n], roms[i])
  {
    LessIrreflexive(roms[i]);
    if i < n && Less(roms[n], roms[i]) {
      LessTransitive(roms[i], roms[n], roms[i]);
    }
  }

  lemma EnumeratedAt(devices: set<Rom>, roms: seq<Rom>, n: nat)
    requires Enumerates(devices, roms) && n < |roms|
    ensures n == 0 ==> LeastOf(devices, roms[n])
    ensures n > 0 ==> LeastAbove(devices, roms[n - 1], roms[n])
  {
    forall d | d in devices && (n > 0 ==> Less(roms[n - 1], d))
      ensures d == roms[n] || Less(roms[n], d)
    {
      var i :| 0 <= i < |roms| && roms[i] == d;
      if i < n {
        NoEarlierAbove(roms, i, n - 1);
      }
    }
  }

  lemma LeastUnique(a: Rom, b: Rom)
    requires a == b || Less(a, b)
    requires a == b || Less(b, a)
    ensures a == b
  {
    if a != b {
      LessTransitive(a, b, a);
      LessIrreflexive(a);
    }
  }

  /** The state after n calls on a fixed bus, the first of them made through `first`. */
  function After(devices: set<Rom>, s: SearchState, n: nat): SearchState {
    if n == 0 then Reset(s) else Search(devices, After(devices, s, n - 1)).0
  }

  /** Whether call n, counted from 0, finds a device. */
  predicate Finds(devices: set<Rom>, s: SearchState, n: nat) {
    Search(devices, After(devices, s, n)).1
  }

  /** Call `n` of the run found the device listed at `n`. */
  ghost predicate FoundAt(devices: set<Rom>, roms: seq<Rom>, s: SearchState, found: bool, n: nat) {
    found && At(devices, s) && n < |roms| && s.rom == roms[n]
  }

  lemma RunStarts(devices: set<Rom>, roms: seq<Rom>, s: SearchState)
    requires Enumerates(devices, roms) && roms != [] && AllHaveFamily(devices)
    requires s == Reset(s)
    ensures var (s', found) := Search(devices, s); FoundAt(devices, roms, s', found, 0)
  {
    assert roms[0] in devices;
    EnumeratedAt(devices, roms, 0);
    SearchFromStart(devices, s.rom);
    LeastUnique(Descend(devices, s.rom, 0, []), roms[0]);
    LastDiscrepancyRecorded(devices, roms[0]);
  }

  lemma RunContinues(devices: set<Rom>, roms: seq<Rom>, s: SearchState, n: nat)
    requires Enumerates(devices, roms) && n + 1 < |roms| && AllHaveFamily(devices)
    requires FoundAt(devices, roms, s, true, n)
    ensures var (s', found) := Search(devices, s); FoundAt(devices, roms, s', found, n + 1)
  {
    DoneAtGreatest(devices, roms, s, n);
    EnumeratedAt(devices, roms, n + 1);
    SearchStep(devices, s);
    LeastUnique(Search(devices, s).0.rom, roms[n + 1]);
  }

  lemma RunReaches(devices: set<Rom>, roms: seq<Rom>, s: SearchState, n: nat)
    requires Enumerates(devices, roms) && AllHaveFamily(devices) && n < |roms|
    ensures FoundAt(devices, roms, After(devices, s, n + 1), Finds(devices, s, n), n)
  {
    RunStarts(devices, roms, After(devices, s, 0));
    for i := 0 to n
      invariant FoundAt(devices, roms, After(devices, s, i + 1), Finds(devices, s, i), i)
    {
      RunContinues(devices, roms, After(devices, s, i + 1), i);
      assert After(devices, s, i + 2) == Search(devices, After(devices, s, i + 1)).0;
    }
  }

  lemma DoneAtGreatest(devices: set<Rom>, roms: seq<Rom>, s: SearchState, i: nat)
    requires Enumerates(devices, roms) && At(devices, s) && i < |roms| && s.rom == roms[i]
    ensures s.done == (i == |roms| - 1)
  {
    if i < |roms| - 1 {
      assert roms[i + 1] in devices && Less(roms[i], roms[i + 1]);
      var k: nat :| Diverge(roms[i], roms[i + 1], k);
    } else if s.last > 0 {
      var d :| d in devices && Diverge(s.rom, d, s.last - 1);
      var j :| 0 <= j < |roms| && roms[j] == d;
      NoEarlierAbove(roms, j, i);
      assert false;
    }
  }

  lemma NothingAfterGreatest(devices: set<Rom>, roms: seq<Rom>, s: SearchState)
    requires Enumerates(devices, roms) && |roms| > 0 && FoundAt(devices, roms, s, true, |roms| - 1)
    ensures Search(devices, s) == (Reset(s), false)
  {
    DoneAtGreatest(devices, roms, s, |roms| - 1);
  }

  lemma RunEnds(devices: set<Rom>, roms: seq<Rom>, s: SearchState)
    requires Enumerates(devices, roms) && AllHaveFamily(devices) && |roms| > 0
    ensures Search(devices, After(devices, s, |roms|)) == (Reset(After(devices, s, |roms|)), false)
  {
    hide Search, At, Enumerates, AllHaveFamily;
    RunReaches(devices, roms, s, |roms| - 1);
    NothingAfterGreatest(devices, roms, After(devices, s, |roms|));
  }

  /** A whole run over a fixed bus, started by `first`: the calls succeed for each device in ascending order; the call
      after them fails and leaves the search reset, so the next run repeats the same list. */
  lemma WholeRun(devices: set<Rom>, roms: seq<Rom>, s: SearchState)
    requires Enumerates(devices, roms) && AllHaveFamily(devices)
    ensures |roms| == |devices|
    ensures forall n: nat :: n < |roms| ==> Finds(devices, s, n) && After(devices, s, n + 1).rom == roms[n]
    ensures !Finds(devices, s, |roms|)
    ensures After(devices, s, |roms| + 1) == Reset(After(devices, s, |roms|))
  {
    EnumerationLength(devices, roms);
    forall n: nat | n < |roms|
      ensures Finds(devices, s, n) && After(devices, s, n + 1).rom == roms[n]
    {
      RunReaches(devices, roms, s, n);
    }
    if devices == {} {
      assert |roms| == 0;
    } else {
      RunEnds(devices, roms, s);
    }
  }

  lemma {:induction false} EnumerationLength(devices: set<Rom>, roms: seq<Rom>)
    requires Enumerates(devices, roms)
    ensures |roms| == |devices|
  {
    if roms == [] {
      assert devices == {};
    } else {
      var rest := roms[1..];
      LessIrreflexive(roms[0]);
      assert forall i :: 0 < i < |roms| ==> Less(roms[0], roms[i]);
      assert Enumerates(devices - {roms[0]}, rest);
      assert roms[0] in devices;
      EnumerationLength(devices - {roms[0]}, rest);
    }
  }

  /** A ROM whose family byte is zero comes before every other, so it stops the run at its first call:
      `first` finds a device exactly when there is one and no family byte is zero. */
  lemma FirstSucceedsExactlyWhen(devices: set<Rom>, s: SearchState)
    ensures Search(devices, Reset(s)).1 <==> devices != {} && AllHaveFamily(devices)
  {
    if devices != {} {
      var least := Descend(devices, s.rom, 0, []);
      SearchFromStart(devices, s.rom);
      forall d | d in devices && !HasFamily(d)
        ensures !HasFamily(least)
      {
        if least != d {
          var k: nat :| Diverge(least, d, k);
          assert k >= FAMILY_BITS;
          forall i | 0 <= i < FAMILY_BITS
            ensures !least[i]
          {
            assert least[i] == least[..k][i] == d[..k][i] == d[i];
          }
        }
      }
    }
  }

  lemma ZeroFamilyHidesDevices(d: Rom, e: Rom, s: SearchState)
    requires !HasFamily(d)
    ensures !Search({d, e}, Reset(s)).1
  {
    FirstSucceedsExactlyWhen({d, e}, s);
    assert d in {d, e};
  }

  // ---------- Calls that find nobody ----------

  /** A call finds nobody exactly when the run had ended, the bus is empty, or the ROM it arrives at has a zero family
      byte. It leaves every counter at zero, so that the next call starts afresh; the last ROM is forgotten only where
      a descent has taken place. */
  lemma FailureLeaves(devices: set<Rom>, s: SearchState)
    ensures var (s', found) := Search(devices, s);
            && (found <==> !s.done && devices != {} && exists i :: 0 <= i < 8 && s'.rom[i])
            && (!found ==> s'.last == 0 && s'.family == 0 && s'.done == false)
            && (s.done || devices == {} ==> s'.rom == s.rom)
            && (!s.done && devices != {} ==> s'.rom in devices)
  {
    if devices != {} {
      var d :| d in devices;
      assert d in Agreeing(devices, []);
      DescendPresent(devices, s.rom, s.last, []);
    }
  }

  /** The state after n further calls of `next` on a fixed bus. */
  function Continued(devices: set<Rom>, s: SearchState, n: nat): SearchState {
    if n == 0 then s else Search(devices, Continued(devices, s, n - 1)).0
  }

  lemma {:induction false} ContinuedAfresh(devices: set<Rom>, s: SearchState, n: nat)
    requires s == Reset(s)
    ensures Continued(devices, s, n) == After(devices, s, n)
    decreases n
  {
    if n == 0 {
    } else {
      ContinuedAfresh(devices, s, n - 1);
    }
  }

  /** After a call that found nobody, on whatever bus and in whatever state, further calls of `next` find the devices
      that are then there, the least first, as if the search had been reset. */
  lemma FailureStartsAfresh(before: set<Rom>, s: SearchState, devices: set<Rom>, roms: seq<Rom>)
    requires !Search(before, s).1 && Enumerates(devices, roms) && AllHaveFamily(devices)
    ensures var s' := Search(before, s).0;
            && (forall n: nat :: n < |roms| ==> Search(devices, Continued(devices, s', n)).1)
            && (forall n: nat :: n < |roms| ==> Continued(devices, s', n + 1).rom == roms[n])
            && (devices != {} ==> LeastOf(devices, Continued(devices, s', 1).rom))
  {
    FailureLeaves(before, s);
    var s' := Search(before, s).0;
    WholeRun(devices, roms, s');
    forall n: nat | n < |roms|
      ensures Search(devices, Continued(devices, s', n)).1 && Continued(devices, s', n + 1).rom == roms[n]
    {
      ContinuedAfresh(devices, s', n);
      ContinuedAfresh(devices, s', n + 1);
      assert Finds(devices, s', n);
    }
    if devices != {} {
      EnumeratedAt(devices, roms, 0);
    }
  }

  // ---------- The record for the family byte ----------

  /** A call that succeeds records the last of the first eight positions where the ROM found has 0 and a device agreeing
      before it has 1; if there is none, the record is what it was. */
  lemma FamilyDiscrepancyRecorded(devices: set<Rom>, s: SearchState)
    ensures var (s', found) := Search(devices, s);
            && (found && (exists d, k: nat :: d in devices && k < 8 && Diverge(s'.rom, d, k)) ==>
                  && 1 <= s'.family <= 8 && (exists d :: d in devices && Diverge(s'.rom, d, s'.family - 1))
                  && forall d, k: nat :: d in devices && k < 8 && Diverge(s'.rom, d, k) ==> k < s'.family)
            && (found && !(exists d, k: nat :: d in devices && k < 8 && Diverge(s'.rom, d, k)) ==> s'.family == s.family)
  {
    SearchFindsPresent(devices, s);
    var (s', found) := Search(devices, s);
    if found {
      LastZeroMeaning(devices, s'.rom, FAMILY_BITS);
    }
  }

  // ---------- Runs while devices join ----------

  /** The state after n calls, call i on the devices buses(i), the first of them made through `first`. */
  function AfterOn(buses: nat -> set<Rom>, s: SearchState, n: nat): SearchState {
    if n == 0 then Reset(s) else Search(buses(n - 1), AfterOn(buses, s, n - 1)).0
  }

  predicate FindsOn(buses: nat -> set<Rom>, s: SearchState, n: nat) {
    Search(buses(n), AfterOn(buses, s, n)).1
  }

  /** Devices join between calls and none leaves; all of them have a family. */
  ghost predicate OnlyJoin(buses: nat -> set<Rom>) {
    forall n: nat :: buses(n) <= buses(n + 1) && AllHaveFamily(buses(n))
  }

  lemma {:induction false} StayPresent(buses: nat -> set<Rom>, d: Rom, n: nat)
    requires OnlyJoin(buses) && d in buses(0)
    ensures d in buses(n)
    decreases n
  {
    if n == 0 {
    } else {
      StayPresent(buses, d, n - 1);
      assert buses(n - 1) <= buses(n - 1 + 1);
    }
  }

  /** The first n calls found something, and the run has not ended before the last of them. */
  ghost predicate Going(buses: nat -> set<Rom>, s: SearchState, n: nat) {
    forall i: nat :: i < n ==> FindsOn(buses, s, i) && !AfterOn(buses, s, i).done
  }

  lemma SearchLeaves(devices: set<Rom>, s: SearchState)
    requires devices != {} && AllHaveFamily(devices) && !s.done
    ensures var (s', found) := Search(devices, s);
            found && s' == Descended(devices, s) && At(devices, s') && s'.rom == Descend(devices, s.rom, s.last, [])
  {
    var d :| d in devices;
    assert d in Agreeing(devices, []);
    DescendPresent(devices, s.rom, s.last, []);
    LastDiscrepancyRecorded(devices, Descend(devices, s.rom, s.last, []));
  }

  /** A call in the middle of a run to which devices have been added. */
  lemma JoinStep(before: set<Rom>, devices: set<Rom>, s: SearchState)
    requires before <= devices && At(before, s) && !s.done && AllHaveFamily(devices)
    ensures var (s', found) := Search(devices, s);
            && found && At(devices, s') && Less(s.rom, s'.rom)
            && forall d :: d in before && Less(s.rom, d) ==> d == s'.rom || Less(s'.rom, d)
  {
    var e :| e in before && Diverge(s.rom, e, s.last - 1);
    SearchLeaves(devices, s);
    SearchMovesOn(before, devices, s.rom, s.last, e);
  }

  /** The device was found by one of the first n calls. */
  ghost predicate FoundBy(buses: nat -> set<Rom>, s: SearchState, d: Rom, n: nat) {
    exists i: nat :: 0 < i <= n && AfterOn(buses, s, i).rom == d
  }

  lemma FoundNow(buses: nat -> set<Rom>, s: SearchState, d: Rom, n: nat)
    requires 0 < n
    ensures AfterOn(buses, s, n).rom == d ==> FoundBy(buses, s, d, n)
    ensures FoundBy(buses, s, d, n - 1) ==> FoundBy(buses, s, d, n)
  {
    if FoundBy(buses, s, d, n - 1) {
      var i: nat :| 0 < i <= n - 1 && AfterOn(buses, s, i).rom == d;
      assert 0 < i <= n;
    }
  }

  lemma CallOn(buses: nat -> set<Rom>, s: SearchState, n: nat)
    ensures Search(buses(n), AfterOn(buses, s, n)) == (AfterOn(buses, s, n + 1), FindsOn(buses, s, n))
  {
  }

  lemma FirstOfRun(buses: nat -> set<Rom>, s: SearchState, d: Rom)
    requires OnlyJoin(buses) && d in buses(0)
    ensures FindsOn(buses, s, 0) && At(buses(0), AfterOn(buses, s, 1))
    ensures FoundBy(buses, s, d, 1) || Less(AfterOn(buses, s, 1).rom, d)
  {
    var start := AfterOn(buses, s, 0);
    assert start == Reset(s) && AllHaveFamily(buses(0));
    CallOn(buses, s, 0);
    FoundNow(buses, s, d, 1);
    hide Search, At, AllHaveFamily, FindsOn, AfterOn, FoundBy, OnlyJoin, Less;
    SearchLeaves(buses(0), start);
    SearchFromStart(buses(0), start.rom);
  }

  /** While a run goes on, every device that was there from the start has been found or is still ahead. */
  lemma {:induction false} FoundOrAhead(buses: nat -> set<Rom>, s: SearchState, d: Rom, n: nat)
    requires OnlyJoin(buses) && d in buses(0) && n > 0
    requires forall i: nat :: i < n ==> !AfterOn(buses, s, i).done
    ensures Going(buses, s, n) && At(buses(n - 1), AfterOn(buses, s, n))
    ensures FoundBy(buses, s, d, n) || Less(AfterOn(buses, s, n).rom, d)
    decreases n
  {
    if n == 1 {
      FirstOfRun(buses, s, d);
    } else {
      assert buses(n - 2) <= buses(n - 2 + 1) && AllHaveFamily(buses(n - 1));
      CallOn(buses, s, n - 1);
      FoundNow(buses, s, d, n);
      hide Search, At, AllHaveFamily, FindsOn, AfterOn, FoundBy, OnlyJoin, Less;
      FoundOrAhead(buses, s, d, n - 1);
      StayPresent(buses, d, n - 2);
      JoinStep(buses(n - 2), buses(n - 1), AfterOn(buses, s, n - 1));
    }
  }

  /** When the run ends, every device that was there from the start has been found, although others joined meanwhile. */
  lemma PresentAreFound(buses: nat -> set<Rom>, s: SearchState, d: Rom, n: nat)
    requires OnlyJoin(buses) && d in buses(0) && n > 0
    requires (forall i: nat :: i < n ==> !AfterOn(buses, s, i).done) && AfterOn(buses, s, n).done
    ensures Going(buses, s, n) && FoundBy(buses, s, d, n)
  {
    FoundOrAhead(buses, s, d, n);
    StayPresent(buses, d, n - 1);
    var t := AfterOn(buses, s, n);
    if Less(t.rom, d) {
      var k: nat :| Diverge(t.rom, d, k);
    }
  }

  /** The place of a string of bits in the order. */
  function Rank(bits: seq<bool>): nat {
    if bits == [] then 0 else (if bits[0] then Pow2(|bits| - 1) else 0) + Rank(bits[1..])
  }

  lemma {:induction false} RankBound(bits: seq<bool>)
    ensures Rank(bits) < Pow2(|bits|)
    decreases |bits|
  {
    if bits == [] {
    } else {
      RankBound(bits[1..]);
    }
  }

  lemma {:induction false} RankGrows(a: seq<bool>, b: seq<bool>, k: nat)
    requires |a| == |b| && k < |a| && a[..k] == b[..k] && !a[k] && b[k]
    ensures Rank(a) < Rank(b)
    decreases k
  {
    if k == 0 {
      RankBound(a[1..]);
    } else {
      assert a[0] == a[..k][0] == b[..k][0] == b[0];
      assert a[1..][..k - 1] == a[..k][1..] == b[..k][1..] == b[1..][..k - 1];
      RankGrows(a[1..], b[1..], k - 1);
    }
  }

  lemma {:induction false} RankReached(buses: nat -> set<Rom>, s: SearchState, d: Rom, n: nat)
    requires OnlyJoin(buses) && d in buses(0) && n > 0
    requires forall i: nat :: i < n ==> !AfterOn(buses, s, i).done
    ensures Rank(AfterOn(buses, s, n).rom) >= n - 1
    decreases n
  {
    if n == 1 {
    } else {
      RankReached(buses, s, d, n - 1);
      FoundOrAhead(buses, s, d, n - 1);
      var t := AfterOn(buses, s, n - 1);
      assert buses(n - 2) <= buses(n - 2 + 1) && AllHaveFamily(buses(n - 1));
      JoinStep(buses(n - 2), buses(n - 1), t);
      var k: nat :| Diverge(t.rom, AfterOn(buses, s, n).rom, k);
      RankGrows(t.rom, AfterOn(buses, s, n).rom, k);
    }
  }

  /** Every run ends, however many devices join, and no later than there are ROMs. */
  lemma RunStops(buses: nat -> set<Rom>, s: SearchState, d: Rom)
    requires OnlyJoin(buses) && d in buses(0)
    ensures exists n: nat :: 0 < n <= Pow2(ROM_BITS) && AfterOn(buses, s, n).done
  {
    var n := Pow2(ROM_BITS) + 1;
    if forall i: nat :: i < n ==> !AfterOn(buses, s, i).done {
      RankReached(buses, s, d, n);
      RankBound(AfterOn(buses, s, n).rom);
    }
  }

  /** A device that leaves can hide one that stays: after r is found with x present, r and x leave, and the next search
      goes past y to z and ends the run. */
  lemma LeaverHidesDevice(r: Rom, x: Rom, y: Rom, z: Rom, s: SearchState)
    requires r[..3] == [false, true, false] && x[..3] == [false, true, true]
    requires y[..2] == [true, false] && z[..2] == [true, true]
    ensures var (s1, found1) := Search({r, x, y, z}, Reset(s));
            var (s2, found2) := Search({y, z}, s1);
            found1 && s1.rom == r && found2 && s2.rom == z && s2.done
  {
    HiddenFirst(r, x, y, z, s);
    HiddenNext(r, y, z, Search({r, x, y, z}, Reset(s)).0);
  }

  lemma FirstBits(r: Rom, n: nat, i: nat)
    requires i < n <= ROM_BITS
    ensures r[..n][i] == r[i] && r[..n][..i] == r[..i]
  {
  }

  lemma DivergeOnce(a: Rom, b: Rom, j: nat, k: nat)
    requires Diverge(a, b, j) && Diverge(a, b, k)
    ensures j == k
  {
    if j < k {
      FirstBits(a, k, j);
      FirstBits(b, k, j);
    } else if k < j {
      FirstBits(a, j, k);
      FirstBits(b, j, k);
    }
  }

  lemma HiddenOrder(r: Rom, x: Rom, y: Rom, z: Rom)
    requires r[..3] == [false, true, false] && x[..3] == [false, true, true]
    requires y[..2] == [true, false] && z[..2] == [true, true]
    ensures Diverge(r, x, 2) && Diverge(r, y, 0) && Diverge(r, z, 0)
    ensures AllHaveFamily({r, x, y, z})
  {
    FirstBits(r, 3, 0);
    FirstBits(r, 3, 1);
    FirstBits(r, 3, 2);
    FirstBits(x, 3, 0);
    FirstBits(x, 3, 1);
    FirstBits(x, 3, 2);
    FirstBits(y, 2, 0);
    FirstBits(z, 2, 0);
    assert r[1] && x[1] && y[0] && z[0];
  }

  lemma HiddenLast(r: Rom, x: Rom, y: Rom, z: Rom, last: nat)
    requires Diverge(r, x, 2) && Diverge(r, y, 0) && Diverge(r, z, 0) && IsLastDiscrepancy({r, x, y, z}, r, last)
    ensures last == 3
  {
    assert last > 2;
    var d :| d in {r, x, y, z} && Diverge(r, d, last - 1);
    if d == x {
      DivergeOnce(r, x, 2, last - 1);
    } else if d != r {
      DivergeOnce(r, d, 0, last - 1);
    }
  }

  lemma HiddenFirst(r: Rom, x: Rom, y: Rom, z: Rom, s: SearchState)
    requires r[..3] == [false, true, false] && x[..3] == [false, true, true]
    requires y[..2] == [true, false] && z[..2] == [true, true]
    ensures var (s1, found1) := Search({r, x, y, z}, Reset(s)); found1 && s1.rom == r && s1.last == 3 && !s1.done
  {
    var devices := {r, x, y, z};
    HiddenOrder(r, x, y, z);
    SearchFromStart(devices, s.rom);
    var least := Descend(devices, s.rom, 0, []);
    LeastUnique(least, r);
    assert Reset(s).last == 0 && Reset(s).rom == s.rom && r in devices;
    hide Search, AllHaveFamily, Less, Diverge, Descend, LeastOf;
    SearchLeaves(devices, Reset(s));
    HiddenLast(r, x, y, z, Search(devices, Reset(s)).0.last);
  }

  lemma HiddenNext(r: Rom, y: Rom, z: Rom, s: SearchState)
    requires s.rom == r && s.last == 3 && !s.done && r[1] && y[..2] == [true, false] && z[..2] == [true, true]
    ensures var (s2, found2) := Search({y, z}, s); found2 && s2.rom == z && s2.done
  {
    var devices := {y, z};
    FirstBits(y, 2, 0);
    FirstBits(y, 2, 1);
    FirstBits(z, 2, 0);
    FirstBits(z, 2, 1);
    assert y[0] && z[0];
    SearchLeaves(devices, s);
    var t := Descend(devices, s.rom, s.last, []);
    DescendSteps(devices, s.rom, s.last, [], 1);
    assert t[..1] == [true] == y[..1] == z[..1];
    SplitHere(devices, y, z, 1);
    assert t == z;
    assert Diverge(y, z, 1);
    LastDiscrepancyRecorded(devices, z);
    LessIrreflexive(z);
    if Less(z, y) {
      LessTransitive(z, y, z);
    }
  }
}
