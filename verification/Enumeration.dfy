/** pcie_enumerate_devices (src/kernel/drivers/pcie.c): nested loops over buses, devices and functions
    that recurse behind every bridge they meet. */
module Enumeration {

  const MAX_DEVICES: nat := 1024

  /** Configuration space: the 32-bit register at an offset of (bus, device, function). */
  type Config = (nat, nat, nat, nat) -> nat

  datatype Record = Record(bus: nat, dev: nat, func: nat, vendor: nat, device: nat, class_: nat, subclass: nat)

  // ---------------------------------------------------------------- what the registers say

  predicate Present(c: Config, b: nat, d: nat, f: nat) { c(b, d, f, 0x00) % 0x1_0000 != 0xFFFF }

  /** 8 for a multi-function device, by bit 7 of the header type of function 0. */
  function Functions(c: Config, b: nat, d: nat): nat
  {
    if c(b, d, 0, 0x0C) / 0x1_0000 % 0x100 >= 0x80 then 8 else 1
  }

  function RecordOf(c: Config, b: nat, d: nat, f: nat): Record
  {
    var id, cls := c(b, d, f, 0x00), c(b, d, f, 0x08);
    Record(b, d, f, id % 0x1_0000, id / 0x1_0000 % 0x1_0000, cls / 0x100_0000 % 0x100, cls / 0x1_0000 % 0x100)
  }

  /** A function software can see: function 0 of its device answers, it is within the device's function
      count, and it answers itself. */
  predicate Visible(c: Config, b: nat, d: nat, f: nat)
  {
    d < 32 && Present(c, b, d, 0) && f < Functions(c, b, d) && Present(c, b, d, f)
  }

  function Secondary(c: Config, b: nat, d: nat, f: nat): (s: nat) ensures s < 0x100 { c(b, d, f, 0x18) / 0x100 % 0x100 }

  function Subordinate(c: Config, b: nat, d: nat, f: nat): (s: nat)
    ensures s < 0x100
  {
    c(b, d, f, 0x18) / 0x1_0000 % 0x100
  }

  /** A PCI-to-PCI bridge with a programmed bus range. */
  predicate Leads(c: Config, b: nat, d: nat, f: nat)
  {
    var r := RecordOf(c, b, d, f);
    r.class_ == 6 && r.subclass == 4 && Secondary(c, b, d, f) != 0 && Subordinate(c, b, d, f) >= Secondary(c, b, d, f)
  }

  predicate LeadsTo(c: Config, b: nat, d: nat, f: nat, bus: nat)
  {
    Visible(c, b, d, f) && Leads(c, b, d, f) && Secondary(c, b, d, f) <= bus <= Subordinate(c, b, d, f)
  }

  /** Bus numbers grow away from the root: without this the recursion need not end. */
  ghost predicate BusesGrow(c: Config)
  {
    forall b: nat, d: nat, f: nat :: b < 256 && Visible(c, b, d, f) && Leads(c, b, d, f) ==> b < Secondary(c, b, d, f)
  }

  // ---------------------------------------------------------------- the order of the visit

  ghost function OnBuses(c: Config, bus: nat, end: nat): seq<Record>
    requires BusesGrow(c) && end < 256
    decreases 256 - bus, 40, 0
  {
    if bus > end then [] else OnDevices(c, bus, 0) + OnBuses(c, bus + 1, end)
  }

  ghost function OnDevices(c: Config, b: nat, dev: nat): seq<Record>
    requires BusesGrow(c) && b < 256 && dev <= 32
    decreases 256 - b, 32 - dev, 10
  {
    if dev == 32 then []
    else (if Present(c, b, dev, 0) then OnFunctions(c, b, dev, 0) else []) + OnDevices(c, b, dev + 1)
  }

  ghost function OnFunctions(c: Config, b: nat, d: nat, f: nat): seq<Record>
    requires BusesGrow(c) && b < 256 && d < 32 && f <= 8 && Present(c, b, d, 0)
    decreases 256 - b, 32 - d, 8 - f
  {
    if f >= Functions(c, b, d) then []
    else (if Present(c, b, d, f) then OnFunction(c, b, d, f) else []) + OnFunctions(c, b, d, f + 1)
  }

  ghost function OnFunction(c: Config, b: nat, d: nat, f: nat): seq<Record>
    requires BusesGrow(c) && b < 256 && d < 32 && f < 8 && Visible(c, b, d, f)
    decreases 256 - b, 32 - d, 8 - f, 0
  {
    [RecordOf(c, b, d, f)]
    + if Leads(c, b, d, f) then OnBuses(c, Secondary(c, b, d, f), Subordinate(c, b, d, f)) else []
  }

  /** The table after more records: what does not fit is dropped. */
  function Filled(t: seq<Record>, more: seq<Record>): seq<Record>
  {
    if |t + more| <= MAX_DEVICES then t + more else (t + more)[..MAX_DEVICES]
  }

  lemma FilledThen(t: seq<Record>, a: seq<Record>, b: seq<Record>)
    requires |t| <= MAX_DEVICES
    ensures Filled(Filled(t, a), b) == Filled(t, a + b)
  {
    assert t + a + b == t + (a + b);
    if |t + a| > MAX_DEVICES {
      assert (t + (a + b))[..MAX_DEVICES] == (t + a)[..MAX_DEVICES];
    }
  }

  class Pcie {
    const config: Config
    const devices: array<Record>
    var count: nat

    ghost predicate Valid()
      reads this
    {
      devices.Length == MAX_DEVICES && count <= MAX_DEVICES
    }

    ghost function Table(): seq<Record>
      requires Valid()
      reads this, devices
    {
      devices[..count]
    }

    constructor (c: Config)
      ensures Valid() && config == c && Table() == [] && fresh(devices)
    {
      config, count := c, 0;
      devices := new Record[MAX_DEVICES](_ => Record(0, 0, 0, 0, 0, 0, 0));
    }

    /** The body of the innermost loop, for a function that answers. */
    method VisitFunction(b: nat, d: nat, f: nat)
      requires Valid() && BusesGrow(config) && b < 256 && d < 32 && f < 8 && Visible(config, b, d, f)
      modifies this`count, devices
      ensures Valid() && Table() == Filled(old(Table()), OnFunction(config, b, d, f))
      decreases 256 - b, 32 - d, 8 - f, 0
    {
      var r := RecordOf(config, b, d, f);
      if count < MAX_DEVICES {
        devices[count] := r;
        count := count + 1;
      }
      assert Table() == Filled(old(Table()), [r]);
      if r.class_ == 6 && r.subclass == 4 {
        var secondary, subordinate := Secondary(config, b, d, f), Subordinate(config, b, d, f);
        if secondary != 0 && subordinate >= secondary {
          FilledThen(old(Table()), [r], OnBuses(config, secondary, subordinate));
          EnumerateDevices(secondary, subordinate);
        }
      }
    }

    method VisitDevice(b: nat, d: nat)
      requires Valid() && BusesGrow(config) && b < 256 && d < 32 && Present(config, b, d, 0)
      modifies this`count, devices
      ensures Valid() && Table() == Filled(old(Table()), OnFunctions(config, b, d, 0))
      decreases 256 - b, 32 - d, 9
    {
      var maxFunctions := Functions(config, b, d);
      var f := 0;
      while f < maxFunctions
        invariant f <= maxFunctions && Valid()
        invariant Filled(Table(), OnFunctions(config, b, d, f)) == Filled(old(Table()), OnFunctions(config, b, d, 0))
      {
        if Present(config, b, d, f) {
          FilledThen(Table(), OnFunction(config, b, d, f), OnFunctions(config, b, d, f + 1));
          VisitFunction(b, d, f);
        } else {
          assert [] + OnFunctions(config, b, d, f + 1) == OnFunctions(config, b, d, f + 1);
        }
        f := f + 1;
      }
    }

    /** pcie_enumerate_devices: it ends, the table is never overrun, and it gains what the visit meets, in
        order, as far as there is room. */
    method EnumerateDevices(startBus: nat, endBus: nat)
      requires Valid() && BusesGrow(config) && endBus < 256
      modifies this`count, devices
      ensures Valid() && Table() == Filled(old(Table()), OnBuses(config, startBus, endBus))
      decreases 256 - startBus, 40
    {
      var bus := startBus;
      while bus <= endBus
        invariant startBus <= bus && Valid()
        invariant Filled(Table(), OnBuses(config, bus, endBus)) ==
                  Filled(old(Table()), OnBuses(config, startBus, endBus))
      {
        var dev := 0;
        ghost var t := Table();
        while dev < 32
          invariant dev <= 32 && Valid()
          invariant Filled(Table(), OnDevices(config, bus, dev)) == Filled(t, OnDevices(config, bus, 0))
        {
          if Present(config, bus, dev, 0) {
            FilledThen(Table(), OnFunctions(config, bus, dev, 0), OnDevices(config, bus, dev + 1));
            VisitDevice(bus, dev);
          } else {
            assert [] + OnDevices(config, bus, dev + 1) == OnDevices(config, bus, dev + 1);
          }
          dev := dev + 1;
        }
        FilledThen(t, OnDevices(config, bus, 0), OnBuses(config, bus + 1, endBus));
        bus := bus + 1;
      }
    }
  }

  // ---------------------------------------------------------------- which functions are recorded

  /** Buses that the visit of lo..hi gets to: those of the range, and those behind bridges it meets. */
  ghost predicate Reached(c: Config, lo: nat, hi: nat, bus: nat)
    decreases bus
  {
    || lo <= bus <= hi
    || exists b: nat, d: nat, f: nat {:trigger LeadsTo(c, b, d, f, bus)} ::
         b < bus && LeadsTo(c, b, d, f, bus) && Reached(c, lo, hi, b)
  }

  /** Every record describes a visible function on a bus reached. */
  ghost predicate Sound(c: Config, s: seq<Record>, lo: nat, hi: nat)
  {
    forall r <- s ::
      Reached(c, lo, hi, r.bus) && Visible(c, r.bus, r.dev, r.func) && r == RecordOf(c, r.bus, r.dev, r.func)
  }

  lemma {:induction false} BusesSound(c: Config, bus: nat, end: nat, lo: nat, hi: nat)
    requires BusesGrow(c) && end < 256
    requires forall b: nat {:trigger Reached(c, lo, hi, b)} :: bus <= b <= end ==> Reached(c, lo, hi, b)
    ensures Sound(c, OnBuses(c, bus, end), lo, hi)
    decreases 256 - bus, 40, 0
  {
    hide Reached, Visible;
    if bus <= end {
      DevicesSound(c, bus, 0, lo, hi);
      BusesSound(c, bus + 1, end, lo, hi);
    }
  }

  lemma {:induction false} DevicesSound(c: Config, b: nat, dev: nat, lo: nat, hi: nat)
    requires BusesGrow(c) && dev <= 32 && b < 256 && Reached(c, lo, hi, b)
    ensures Sound(c, OnDevices(c, b, dev), lo, hi)
    decreases 256 - b, 32 - dev, 10
  {
    hide Reached, Visible;
    if dev < 32 {
      if Present(c, b, dev, 0) {
        FunctionsSound(c, b, dev, 0, lo, hi);
      }
      DevicesSound(c, b, dev + 1, lo, hi);
    }
  }

  lemma {:induction false} FunctionsSound(c: Config, b: nat, d: nat, f: nat, lo: nat, hi: nat)
    requires BusesGrow(c) && d < 32 && f <= 8 && Present(c, b, d, 0) && b < 256 && Reached(c, lo, hi, b)
    ensures Sound(c, OnFunctions(c, b, d, f), lo, hi)
    decreases 256 - b, 32 - d, 8 - f
  {
    if f < Functions(c, b, d) {
      if Present(c, b, d, f) && Leads(c, b, d, f) {
        forall bus: nat | Secondary(c, b, d, f) <= bus <= Subordinate(c, b, d, f)
          ensures Reached(c, lo, hi, bus)
        {
          assert LeadsTo(c, b, d, f, bus);
        }
        BusesSound(c, Secondary(c, b, d, f), Subordinate(c, b, d, f), lo, hi);
      }
      FunctionsSound(c, b, d, f + 1, lo, hi);
    }
  }

  lemma {:induction false} FunctionsComplete(c: Config, b: nat, d: nat, f: nat, f': nat)
    requires BusesGrow(c) && b < 256 && d < 32 && f <= f' < 8 && Visible(c, b, d, f')
    ensures forall r <- OnFunction(c, b, d, f') :: r in OnFunctions(c, b, d, f)
    decreases 8 - f
  {
    if f < f' {
      FunctionsComplete(c, b, d, f + 1, f');
    }
  }

  lemma {:induction false} DevicesComplete(c: Config, b: nat, dev: nat, d: nat, f: nat)
    requires BusesGrow(c) && b < 256 && dev <= d < 32 && f < 8 && Visible(c, b, d, f)
    ensures forall r <- OnFunction(c, b, d, f) :: r in OnDevices(c, b, dev)
    decreases 32 - dev
  {
    if dev == d {
      FunctionsComplete(c, b, d, 0, f);
    } else {
      DevicesComplete(c, b, dev + 1, d, f);
    }
  }

  /** Every function visible on the buses of the range is recorded, with what is behind it. */
  lemma {:induction false} BusesComplete(c: Config, bus: nat, end: nat, b: nat, d: nat, f: nat)
    requires BusesGrow(c) && end < 256 && bus <= b <= end && Visible(c, b, d, f)
    ensures forall r <- OnFunction(c, b, d, f) :: r in OnBuses(c, bus, end)
    decreases 256 - bus
  {
    if bus == b {
      DevicesComplete(c, b, 0, d, f);
    } else {
      BusesComplete(c, bus + 1, end, b, d, f);
    }
  }

  /** Every function visible on a reached bus is recorded, with what is behind it. */
  lemma {:induction false} ReachedComplete(c: Config, start: nat, end: nat, b: nat, d: nat, f: nat)
    requires BusesGrow(c) && end < 256 && b < 256 && Reached(c, start, end, b) && Visible(c, b, d, f)
    ensures forall r <- OnFunction(c, b, d, f) :: r in OnBuses(c, start, end)
    decreases b
  {
    hide RecordOf, Present, Functions;
    if start <= b <= end {
      BusesComplete(c, start, end, b, d, f);
    } else {
      var b': nat, d': nat, f': nat :| b' < b && LeadsTo(c, b', d', f', b) && Reached(c, start, end, b');
      ReachedComplete(c, start, end, b', d', f');
      BusesComplete(c, Secondary(c, b', d', f'), Subordinate(c, b', d', f'), b, d, f);
    }
  }

  /** The visit meets exactly the visible functions on the buses of its range and behind their bridges. */
  lemma VisitIsExact(c: Config, start: nat, end: nat, r: Record)
    requires BusesGrow(c) && end < 256
    ensures r in OnBuses(c, start, end) <==>
            && Reached(c, start, end, r.bus) && Visible(c, r.bus, r.dev, r.func)
            && r == RecordOf(c, r.bus, r.dev, r.func)
  {
    BusesSound(c, start, end, start, end);
    if Reached(c, start, end, r.bus) && Visible(c, r.bus, r.dev, r.func) {
      ReachedComplete(c, start, end, r.bus, r.dev, r.func);
    }
  }

  /** A table with room left lists every visible function of the buses reached, and a full one lists
      visible functions only. */
  lemma TableIsExact(c: Config, start: nat, end: nat, r: Record)
    requires BusesGrow(c) && end < 256
    ensures var t, there := Filled([], OnBuses(c, start, end)),
                            Reached(c, start, end, r.bus) && Visible(c, r.bus, r.dev, r.func);
            && |t| <= MAX_DEVICES
            && (r in t ==> there && r == RecordOf(c, r.bus, r.dev, r.func))
            && (|t| < MAX_DEVICES && there ==> RecordOf(c, r.bus, r.dev, r.func) in t)
  {
    VisitIsExact(c, start, end, r);
    VisitIsExact(c, start, end, RecordOf(c, r.bus, r.dev, r.func));
    assert [] + OnBuses(c, start, end) == OnBuses(c, start, end);
  }

  /** No bridge on the buses lo..hi leads out of them. For 0..255 this always holds; for fewer, the
      source maps the configuration space of these buses only. */
  ghost predicate Contained(c: Config, lo: nat, hi: nat)
  {
    forall b: nat, d: nat, f: nat :: lo <= b <= hi && Visible(c, b, d, f) && Leads(c, b, d, f) ==>
      Subordinate(c, b, d, f) <= hi
  }

  // ---------------------------------------------------------------- which functions are recorded twice

  /** A function behind a bridge of the range is met in the recursion and again in the loop. */
  lemma {:induction false} RecordedTwice(c: Config, bus: nat, end: nat, b: nat, d: nat, f: nat, r: Record)
    requires BusesGrow(c) && end < 256 && bus <= b <= end && f < 8 && LeadsTo(c, b, d, f, r.bus) && r.bus <= end
    requires Visible(c, r.bus, r.dev, r.func) && r == RecordOf(c, r.bus, r.dev, r.func)
    ensures multiset(OnBuses(c, bus, end))[r] >= 2
    decreases b - bus
  {
    hide RecordOf, Present, Functions;
    var here, rest := OnDevices(c, bus, 0), OnBuses(c, bus + 1, end);
    assert multiset(OnBuses(c, bus, end)) == multiset(here) + multiset(rest);
    if bus == b {
      BusesComplete(c, Secondary(c, b, d, f), Subordinate(c, b, d, f), r.bus, r.dev, r.func);
      assert r in OnFunction(c, b, d, f);
      DevicesComplete(c, b, 0, d, f);
      BusesComplete(c, bus + 1, end, r.bus, r.dev, r.func);
      assert r in here && r in rest;
    } else {
      RecordedTwice(c, bus + 1, end, b, d, f, r);
    }
  }

  ghost predicate Populated(c: Config, bus: nat) { exists d: nat, f: nat :: Visible(c, bus, d, f) }

  ghost predicate LeadsToSomething(c: Config, b: nat, d: nat, f: nat)
  {
    exists p: nat :: LeadsTo(c, b, d, f, p) && Populated(c, p)
  }

  /** Some bridge on the buses lo..hi has a function on a bus behind it. */
  ghost predicate SomethingBehind(c: Config, lo: nat, hi: nat)
  {
    exists b: nat, d: nat, f: nat :: lo <= b <= hi && LeadsToSomething(c, b, d, f)
  }

  lemma {:induction false} NothingOnDevices(c: Config, b: nat, dev: nat)
    requires BusesGrow(c) && b < 256 && dev <= 32
    ensures OnDevices(c, b, dev) == [] || Populated(c, b)
    decreases 32 - dev
  {
    if dev < 32 {
      if Present(c, b, dev, 0) {
        assert Visible(c, b, dev, 0);
      } else {
        NothingOnDevices(c, b, dev + 1);
      }
    }
  }

  lemma {:induction false} NothingOnBuses(c: Config, bus: nat, end: nat)
    requires BusesGrow(c) && end < 256
    ensures OnBuses(c, bus, end) == [] || exists p: nat :: bus <= p <= end && Populated(c, p)
    decreases 256 - bus
  {
    if bus <= end {
      NothingOnDevices(c, bus, 0);
      NothingOnBuses(c, bus + 1, end);
    }
  }

  /** No record twice. */
  ghost predicate Once(s: seq<Record>) { forall r: Record :: multiset(s)[r] <= 1 }

  lemma OneOnce(r: Record)
    ensures Once([r])
  {
  }

  lemma OnceJoined(s: seq<Record>, t: seq<Record>)
    requires Once(s) && Once(t) && forall r <- s :: r !in t
    ensures Once(s + t)
  {
    forall r: Record ensures multiset(s + t)[r] <= 1 {
      assert r in s <==> r in multiset(s);
      assert r in t <==> r in multiset(t);
    }
  }

  lemma FunctionAlone(c: Config, b: nat, d: nat, f: nat, lo: nat, hi: nat)
    requires BusesGrow(c) && d < 32 && f < 8 && Visible(c, b, d, f) && lo <= b <= hi < 256
    requires !SomethingBehind(c, lo, hi)
    ensures OnFunction(c, b, d, f) == [RecordOf(c, b, d, f)]
  {
    hide RecordOf, Functions, Present;
    if Leads(c, b, d, f) {
      NothingOnBuses(c, Secondary(c, b, d, f), Subordinate(c, b, d, f));
      assert !LeadsToSomething(c, b, d, f);
      assert forall p: nat :: LeadsTo(c, b, d, f, p) ==> !Populated(c, p);
    }
  }

  lemma {:induction false} FunctionsOnce(c: Config, b: nat, d: nat, f: nat, lo: nat, hi: nat)
    requires BusesGrow(c) && d < 32 && f <= 8 && Present(c, b, d, 0) && lo <= b <= hi < 256
    requires !SomethingBehind(c, lo, hi)
    ensures Once(OnFunctions(c, b, d, f))
    ensures forall r <- OnFunctions(c, b, d, f) :: r.bus == b && r.dev == d && r.func >= f
    decreases 8 - f
  {
    if f < Functions(c, b, d) {
      var r, rest := RecordOf(c, b, d, f), OnFunctions(c, b, d, f + 1);
      FunctionsOnce(c, b, d, f + 1, lo, hi);
      assert r.bus == b && r.dev == d && r.func == f;
      if Present(c, b, d, f) {
        FunctionAlone(c, b, d, f, lo, hi);
        assert OnFunctions(c, b, d, f) == [r] + rest;
        hide *;
        OneOnce(r);
        OnceJoined([r], rest);
      } else {
        assert OnFunctions(c, b, d, f) == [] + rest == rest;
        hide *;
      }
    }
  }

  lemma {:induction false} DevicesOnce(c: Config, b: nat, dev: nat, lo: nat, hi: nat)
    requires BusesGrow(c) && dev <= 32 && lo <= b <= hi < 256 && !SomethingBehind(c, lo, hi)
    ensures Once(OnDevices(c, b, dev))
    ensures forall r <- OnDevices(c, b, dev) :: r.bus == b && r.dev >= dev
    decreases 32 - dev
  {
    if dev < 32 {
      DevicesOnce(c, b, dev + 1, lo, hi);
      if Present(c, b, dev, 0) {
        FunctionsOnce(c, b, dev, 0, lo, hi);
        OnceJoined(OnFunctions(c, b, dev, 0), OnDevices(c, b, dev + 1));
      } else {
        assert [] + OnDevices(c, b, dev + 1) == OnDevices(c, b, dev + 1);
      }
    }
  }

  lemma {:induction false} BusesOnce(c: Config, bus: nat, end: nat, lo: nat, hi: nat)
    requires BusesGrow(c) && lo <= bus && end <= hi < 256 && !SomethingBehind(c, lo, hi)
    ensures Once(OnBuses(c, bus, end))
    ensures forall r <- OnBuses(c, bus, end) :: r.bus >= bus
    decreases 256 - bus
  {
    if bus <= end {
      DevicesOnce(c, bus, 0, lo, hi);
      BusesOnce(c, bus + 1, end, lo, hi);
      OnceJoined(OnDevices(c, bus, 0), OnBuses(c, bus + 1, end));
    }
  }

  /** A visit records every function once exactly if no function sits behind a bridge: the loop over the
      whole bus range and the recursion behind each bridge visit the same buses. */
  lemma RecordedOnceIff(c: Config, start: nat, end: nat)
    requires BusesGrow(c) && end < 256 && Contained(c, start, end)
    ensures Once(OnBuses(c, start, end)) <==> !SomethingBehind(c, start, end)
  {
    if SomethingBehind(c, start, end) {
      var b: nat, d: nat, f: nat :| start <= b <= end && LeadsToSomething(c, b, d, f);
      var p: nat :| LeadsTo(c, b, d, f, p) && Populated(c, p);
      var d': nat, f': nat :| Visible(c, p, d', f');
      RecordedTwice(c, start, end, b, d, f, RecordOf(c, p, d', f'));
    } else {
      BusesOnce(c, start, end, start, end);
    }
  }

  // ---------------------------------------------------------------- what the records and registers mean

  lemma Halves(w: nat)
    requires w < 0x1_0000_0000
    ensures w % 0x1_0000 + 0x1_0000 * (w / 0x1_0000 % 0x1_0000) == w
    ensures w / 0x100_0000 % 0x100 * 0x100 + w / 0x1_0000 % 0x100 == w / 0x1_0000
  {
    var high := w / 0x1_0000;
    assert high < 0x1_0000;
    assert w / 0x100_0000 == high / 0x100;
  }

  lemma LowHalf(v: nat, i: nat)
    requires v < 0x1_0000
    ensures (v + 0x1_0000 * i) % 0x1_0000 == v
  {
  }

  lemma RecordHalves(c: Config, b: nat, d: nat, f: nat)
    ensures var r, id, cls := RecordOf(c, b, d, f), c(b, d, f, 0x00), c(b, d, f, 0x08);
            && r.vendor == id % 0x1_0000 && r.device == id / 0x1_0000 % 0x1_0000
            && r.class_ == cls / 0x100_0000 % 0x100 && r.subclass == cls / 0x1_0000 % 0x100
  {
  }

  /** Every record met carries its registers back: vendor and device are the halves of register 0, class
      and subclass the bytes of the upper half of register 8. */
  lemma RecordIsItsRegisters(c: Config, start: nat, end: nat, r: Record)
    requires BusesGrow(c) && end < 256 && r in OnBuses(c, start, end)
    requires c(r.bus, r.dev, r.func, 0x00) < 0x1_0000_0000 && c(r.bus, r.dev, r.func, 0x08) < 0x1_0000_0000
    ensures r.vendor < 0x1_0000 && r.vendor + 0x1_0000 * r.device == c(r.bus, r.dev, r.func, 0x00)
    ensures r.subclass < 0x100 && 0x100 * r.class_ + r.subclass == c(r.bus, r.dev, r.func, 0x08) / 0x1_0000
  {
    VisitIsExact(c, start, end, r);
    assert r == RecordOf(c, r.bus, r.dev, r.func);
    Halves(c(r.bus, r.dev, r.func, 0x00));
    Halves(c(r.bus, r.dev, r.func, 0x08));
    RecordHalves(c, r.bus, r.dev, r.func);
    hide *;
  }

  /** A 32-bit register by its bytes, the lowest first. */
  function Register(b0: nat, b1: nat, b2: nat, b3: nat): nat
  {
    b0 + 0x100 * b1 + 0x1_0000 * b2 + 0x100_0000 * b3
  }

  lemma RegisterBytes(b0: nat, b1: nat, b2: nat, b3: nat)
    requires b0 < 0x100 && b1 < 0x100 && b2 < 0x100 && b3 < 0x100
    ensures var w := Register(b0, b1, b2, b3);
            w / 0x100 % 0x100 == b1 && w / 0x1_0000 % 0x100 == b2 && w / 0x100_0000 % 0x100 == b3
  {
    var w := Register(b0, b1, b2, b3);
    assert w / 0x100 == b1 + 0x100 * b2 + 0x1_0000 * b3;
    assert w / 0x1_0000 == b2 + 0x100 * b3;
    assert w / 0x100_0000 == b3;
  }

  /** Only class 6, subclass 4 is followed, to the buses from its secondary to its subordinate bus number,
      bytes 1 and 2 of register 0x18, unless the secondary one is 0. */
  lemma LeadsByRegisters(c: Config, b: nat, d: nat, f: nat, cls: seq<nat>, buses: seq<nat>, bus: nat)
    requires Visible(c, b, d, f) && |cls| == |buses| == 4
    requires forall i :: 0 <= i < 4 ==> cls[i] < 0x100 && buses[i] < 0x100
    requires c(b, d, f, 0x08) == Register(cls[0], cls[1], cls[2], cls[3])
    requires c(b, d, f, 0x18) == Register(buses[0], buses[1], buses[2], buses[3])
    ensures LeadsTo(c, b, d, f, bus) <==>
            cls[3] == 6 && cls[2] == 4 && buses[1] != 0 && buses[1] <= bus <= buses[2]
  {
    RegisterBytes(cls[0], cls[1], cls[2], cls[3]);
    RegisterBytes(buses[0], buses[1], buses[2], buses[3]);
    hide Register, Visible;
  }

  /** Functions 1 to 7 are looked at exactly if bit 7 of the header type, byte 2 of register 0x0C of function
      0, is set; a function is there exactly if its vendor is not 0xFFFF. */
  lemma VisibleByRegisters(c: Config, b: nat, d: nat, f: nat, header: seq<nat>, v0: nat, i0: nat, v: nat, i: nat)
    requires d < 32 && f < 8 && |header| == 4 && forall k :: 0 <= k < 4 ==> header[k] < 0x100
    requires c(b, d, 0, 0x0C) == Register(header[0], header[1], header[2], header[3])
    requires v0 < 0x1_0000 && c(b, d, 0, 0x00) == v0 + 0x1_0000 * i0
    requires v < 0x1_0000 && c(b, d, f, 0x00) == v + 0x1_0000 * i
    ensures Visible(c, b, d, f) <==> v0 != 0xFFFF && v != 0xFFFF && (f == 0 || header[2] >= 0x80)
  {
    RegisterBytes(header[0], header[1], header[2], header[3]);
    hide Register;
    LowHalf(v0, i0);
    LowHalf(v, i);
  }

  // ---------------------------------------------------------------- one configuration space

  /** On bus 0 a host bridge, a bridge to bus 1 and a device with functions 0 and 3; on bus 1 one device. Its
      header type does not say multi-function, so its function 1 is out of sight. */
  function Sample(b: nat, d: nat, f: nat, offset: nat): nat
  {
    match (b, d, f, offset)
    case (0, 0, 0, 0x00) => 0x29C0_8086
    case (0, 0, 0, 0x08) => 0x0600_0002
    case (0, 0, 0, 0x0C) => 0
    case (0, 1, 0, 0x00) => 0x000C_1B36
    case (0, 1, 0, 0x08) => 0x0604_0000
    case (0, 1, 0, 0x0C) => 0x0001_0000
    case (0, 1, 0, 0x18) => 0x0001_0100
    case (0, 31, 0, 0x00) => 0x2918_8086
    case (0, 31, 0, 0x08) => 0x0601_0002
    case (0, 31, 0, 0x0C) => 0x0080_0000
    case (0, 31, 3, 0x00) => 0x2930_8086
    case (0, 31, 3, 0x08) => 0x0C05_0002
    case (1, 0, 0, 0x00) => 0x10D3_8086
    case (1, 0, 0, 0x08) => 0x0200_0000
    case (1, 0, 0, 0x0C) => 0
    case (1, 0, 1, 0x00) => 0x10D3_8086
    case _ => 0xFFFF_FFFF
  }

  /** Devices from dev up to dev' do not answer. */
  lemma {:induction false} SkipDevices(c: Config, b: nat, dev: nat, dev': nat)
    requires BusesGrow(c) && b < 256 && dev <= dev' <= 32
    requires forall d: nat {:trigger Present(c, b, d, 0)} :: dev <= d < dev' ==> !Present(c, b, d, 0)
    ensures OnDevices(c, b, dev) == OnDevices(c, b, dev')
    decreases dev' - dev
  {
    if dev < dev' {
      SkipDevices(c, b, dev + 1, dev');
      assert [] + OnDevices(c, b, dev + 1) == OnDevices(c, b, dev + 1);
    }
  }

  lemma {:induction false} SkipFunctions(c: Config, b: nat, d: nat, f: nat, f': nat)
    requires BusesGrow(c) && b < 256 && d < 32 && f <= f' <= Functions(c, b, d) && Present(c, b, d, 0)
    requires forall g: nat {:trigger Present(c, b, d, g)} :: f <= g < f' ==> !Present(c, b, d, g)
    ensures OnFunctions(c, b, d, f) == OnFunctions(c, b, d, f')
    decreases f' - f
  {
    if f < f' {
      SkipFunctions(c, b, d, f + 1, f');
      assert [] + OnFunctions(c, b, d, f + 1) == OnFunctions(c, b, d, f + 1);
    }
  }

  lemma SampleGrows()
    ensures BusesGrow(Sample)
  {
    forall b: nat, d: nat, f: nat | b < 256 && Visible(Sample, b, d, f) && Leads(Sample, b, d, f)
      ensures b < Secondary(Sample, b, d, f)
    {
      assert b == 0 && d == 1 && f == 0;
    }
  }

  const HOST: Record := Record(0, 0, 0, 0x8086, 0x29C0, 6, 0)
  const BRIDGE: Record := Record(0, 1, 0, 0x1B36, 0x000C, 6, 4)
  const NETWORK: Record := Record(1, 0, 0, 0x8086, 0x10D3, 2, 0)
  const LPC: Record := Record(0, 31, 0, 0x8086, 0x2918, 6, 1)
  const SMBUS: Record := Record(0, 31, 3, 0x8086, 0x2930, 0x0C, 5)

  lemma SampleBehindBridge()
    requires BusesGrow(Sample)
    ensures OnBuses(Sample, 1, 1) == [NETWORK]
  {
    SkipDevices(Sample, 1, 1, 32);
    assert OnFunction(Sample, 1, 0, 0) == [NETWORK];
    assert OnFunctions(Sample, 1, 0, 0) == [NETWORK];
    assert OnBuses(Sample, 2, 1) == [];
  }

  lemma SampleMultiFunction()
    requires BusesGrow(Sample)
    ensures OnFunctions(Sample, 0, 31, 0) == [LPC, SMBUS]
  {
    assert Functions(Sample, 0, 31) == 8;
    SkipFunctions(Sample, 0, 31, 1, 3);
    SkipFunctions(Sample, 0, 31, 4, 8);
    assert OnFunction(Sample, 0, 31, 0) == [LPC] && OnFunction(Sample, 0, 31, 3) == [SMBUS];
  }

  lemma DeviceThen(c: Config, b: nat, dev: nat)
    requires BusesGrow(c) && b < 256 && dev < 32 && Present(c, b, dev, 0)
    ensures OnDevices(c, b, dev) == OnFunctions(c, b, dev, 0) + OnDevices(c, b, dev + 1)
    ensures OnDevices(c, b, 32) == []
  {
  }

  lemma SampleAbsent()
    ensures forall d: nat {:trigger Present(Sample, 0, d, 0)} :: 2 <= d < 31 ==> !Present(Sample, 0, d, 0)
    ensures Present(Sample, 0, 0, 0) && Present(Sample, 0, 1, 0) && Present(Sample, 0, 31, 0)
  {
  }

  lemma SampleHost()
    requires BusesGrow(Sample)
    ensures OnFunctions(Sample, 0, 0, 0) == [HOST]
  {
    assert OnFunction(Sample, 0, 0, 0) == [HOST];
  }

  lemma SampleBridgeLeads()
    ensures Visible(Sample, 0, 1, 0) && Functions(Sample, 0, 1) == 1 && RecordOf(Sample, 0, 1, 0) == BRIDGE
    ensures Leads(Sample, 0, 1, 0) && Secondary(Sample, 0, 1, 0) == 1 && Subordinate(Sample, 0, 1, 0) == 1
  {
  }

  lemma SampleBridge()
    requires BusesGrow(Sample)
    ensures OnFunctions(Sample, 0, 1, 0) == [BRIDGE, NETWORK]
  {
    SampleBehindBridge();
    SampleBridgeLeads();
    hide Sample, BusesGrow, OnDevices, Present, Functions, RecordOf, Secondary, Subordinate, Leads, OnBuses;
    assert OnFunction(Sample, 0, 1, 0) == [BRIDGE, NETWORK];
    assert OnFunctions(Sample, 0, 1, 1) == [];
  }

  lemma SampleBus()
    requires BusesGrow(Sample)
    ensures OnDevices(Sample, 0, 0) == [HOST, BRIDGE, NETWORK, LPC, SMBUS]
  {
    SampleHost();
    SampleBridge();
    SampleMultiFunction();
    SampleAbsent();
    hide *;
    SkipDevices(Sample, 0, 2, 31);
    DeviceThen(Sample, 0, 31);
    DeviceThen(Sample, 0, 1);
    DeviceThen(Sample, 0, 0);
  }

  /** What the visit meets there, in its order: bus 1 directly after the bridge; and once more in the loop if
      the loop runs to bus 1. */
  lemma SampleVisit()
    ensures BusesGrow(Sample)
    ensures OnBuses(Sample, 0, 0) == [HOST, BRIDGE, NETWORK, LPC, SMBUS]
    ensures OnBuses(Sample, 0, 1) == [HOST, BRIDGE, NETWORK, LPC, SMBUS, NETWORK]
  {
    SampleGrows();
    SampleBus();
    SampleBehindBridge();
    hide Sample, BusesGrow, OnDevices;
    assert OnBuses(Sample, 1, 0) == [];
    assert OnBuses(Sample, 0, 1) == OnDevices(Sample, 0, 0) + OnBuses(Sample, 1, 1);
  }

  /** A table of 1024 records with room for one more function takes one more, and a full one none. */
  lemma RoomFor1024(t: seq<Record>, r: Record)
    ensures |t| < 1024 ==> Filled(t, [r]) == t + [r]
    ensures |t| == 1024 ==> Filled(t, [r]) == t
  {
    assert |t| == 1024 ==> (t + [r])[..1024] == t;
  }
}
