/** src/kernel/drivers/pci/pci.c: depth-first enumeration of the functions behind every reachable bus.
    Configuration space is a fixed function from bus, slot, function and register offset to a 32-bit value. */
module Pci {

  const MAX_DEVICES := 256
  const BUSES: nat := 256

  type Config = (nat, nat, nat, nat) -> nat

  datatype Fn = Fn(bus: nat, slot: nat, func: nat)
  datatype Device = Device(fn: Fn, headerType: nat)

  // ---- registers ----

  function Vendor(cfg: Config, f: Fn): nat {
    cfg(f.bus, f.slot, f.func, 0x00) % 0x1_0000
  }

  function HeaderByte(cfg: Config, f: Fn): nat {
    cfg(f.bus, f.slot, f.func, 0x0C) / 0x1_0000 % 0x100
  }

  function HeaderType(cfg: Config, f: Fn): nat {
    HeaderByte(cfg, f) % 0x80
  }

  predicate IsBridge(cfg: Config, f: Fn) {
    HeaderType(cfg, f) == 1
  }

  function Secondary(cfg: Config, f: Fn): (r: nat)
    ensures r < BUSES
  {
    cfg(f.bus, f.slot, f.func, 0x18) / 0x100 % 0x100
  }

  function Subordinate(cfg: Config, f: Fn): (r: nat)
    ensures r < BUSES
  {
    cfg(f.bus, f.slot, f.func, 0x18) / 0x1_0000 % 0x100
  }

  /** Functions a slot is probed for: bit 7 of the header byte of function 0 marks a multi-function device. */
  function FunctionCount(cfg: Config, bus: nat, slot: nat): (r: nat)
    ensures r == 1 || r == 8
  {
    if HeaderByte(cfg, Fn(bus, slot, 0)) >= 0x80 then 8 else 1
  }

  /** A function that answers a scan of its bus (PCI Local Bus Specification 3.0, section 6.2.1). */
  predicate Present(cfg: Config, f: Fn) {
    && f.bus < BUSES && f.slot < 32
    && Vendor(cfg, Fn(f.bus, f.slot, 0)) != 0xFFFF
    && f.func < FunctionCount(cfg, f.bus, f.slot)
    && Vendor(cfg, f) != 0xFFFF
  }

  // ---- reachability ----

  /** Bus `b` is in the range of a bridge on bus `a`. */
  ghost predicate Linked(cfg: Config, a: nat, b: nat) {
    exists f: Fn :: f.bus == a && Present(cfg, f) && IsBridge(cfg, f) && Secondary(cfg, f) <= b <= Subordinate(cfg, f)
  }

  /** A chain of buses, each linked to the next. */
  ghost predicate Path(cfg: Config, p: seq<nat>) {
    p != [] && forall i :: 0 <= i < |p| - 1 ==> Linked(cfg, p[i], p[i + 1])
  }

  ghost predicate Reachable(cfg: Config, root: nat, b: nat) {
    exists p :: Path(cfg, p) && p[0] == root && p[|p| - 1] == b
  }

  /** What a complete scan from `root` has to find. */
  ghost predicate Wanted(cfg: Config, root: nat, f: Fn) {
    Present(cfg, f) && Reachable(cfg, root, f.bus)
  }

  /** Where the code's byte-sized loop over a bridge's range ends. */
  ghost predicate RangesEnd(cfg: Config, root: nat) {
    forall f :: Wanted(cfg, root, f) && IsBridge(cfg, f) ==> Subordinate(cfg, f) < 255
  }

  lemma RootReachable(cfg: Config, root: nat)
    ensures Reachable(cfg, root, root)
  {
    assert Path(cfg, [root]) && [root][0] == root;
  }

  lemma ReachFurther(cfg: Config, root: nat, a: nat, b: nat)
    requires Reachable(cfg, root, a) && Linked(cfg, a, b)
    ensures Reachable(cfg, root, b)
  {
    var p :| Path(cfg, p) && p[0] == root && p[|p| - 1] == a;
    var q := p + [b];
    forall i | 0 <= i < |q| - 1
      ensures Linked(cfg, q[i], q[i + 1])
    {
      if i < |p| - 1 {
        assert Linked(cfg, p[i], p[i + 1]);
      }
    }
    assert Path(cfg, q) && q[0] == root && q[|q| - 1] == b;
  }

  lemma BehindBridge(cfg: Config, root: nat, f: Fn, b: nat)
    requires Wanted(cfg, root, f) && IsBridge(cfg, f) && Secondary(cfg, f) <= b <= Subordinate(cfg, f)
    ensures Reachable(cfg, root, b)
  {
    assert Linked(cfg, f.bus, b);
    ReachFurther(cfg, root, f.bus, b);
  }

  /** A set of buses that holds the root and is closed under links holds every reachable bus. */
  lemma {:induction false} ClosedHoldsPath(cfg: Config, s: set<nat>, p: seq<nat>, n: nat)
    requires Path(cfg, p) && p[0] in s && n < |p|
    requires forall a, b :: a in s && Linked(cfg, a, b) ==> b in s
    ensures p[n] in s
  {
    if n == 0 {
    } else {
      ClosedHoldsPath(cfg, s, p, n - 1);
      assert Linked(cfg, p[n - 1], p[n - 1 + 1]);
    }
  }

  // ---- the table ----

  ghost function Fns(devices: seq<Device>): set<Fn> {
    set d | d in devices :: d.fn
  }

  ghost predicate NoRepeats(devices: seq<Device>) {
    forall i, j :: 0 <= i < j < |devices| ==> devices[i].fn != devices[j].fn
  }

  lemma Extended(devices: seq<Device>, d: Device)
    ensures Fns(devices + [d]) == Fns(devices) + {d.fn}
    ensures NoRepeats(devices) && d.fn !in Fns(devices) ==> NoRepeats(devices + [d])
  {
    var next := devices + [d];
    assert forall x :: x in next <==> x in devices || x == d;
    assert forall i :: 0 <= i < |devices| ==> devices[i] in devices && devices[i].fn in Fns(devices);
  }

  /** The successor of a bus number in a byte. */
  function Following(b: nat): nat {
    (b + 1) % 0x100
  }

  lemma FollowingSteps(b: nat)
    requires b < 255
    ensures Following(b) == b + 1
  {
  }

  /** The bus number after `n` turns of the loop over a bridge's range. */
  function Advanced(b: nat, n: nat): nat {
    if n == 0 then b else Following(Advanced(b, n - 1))
  }

  lemma AdvancedIsByte(b: nat, n: nat)
    requires b < BUSES
    ensures Advanced(b, n) < BUSES
  {
  }

  lemma {:induction false} AdvancedAdds(b: nat, n: nat)
    requires b + n <= 255
    ensures Advanced(b, n) == b + n
  {
    hide Following;
    if n == 0 {
    } else {
      AdvancedAdds(b, n - 1);
      FollowingSteps(b + n - 1);
    }
  }

  /** The loop counts in a byte: it leaves a range exactly when the range does not end at the last bus. */
  lemma RangeEndsIff(sec: nat, sub: nat)
    requires sec < BUSES && sub < BUSES
    ensures (exists n: nat :: Advanced(sec, n) > sub) <==> sub < 255
  {
    if sub < 255 {
      var n := if sec <= sub then sub + 1 - sec else 0;
      AdvancedAdds(sec, n);
      assert Advanced(sec, n) > sub;
    } else {
      forall n: nat
        ensures Advanced(sec, n) <= sub
      {
        AdvancedIsByte(sec, n);
      }
    }
  }

  ghost predicate AllIn(s: set<nat>, lo: nat, hi: nat) {
    forall x: nat :: lo <= x < hi ==> x in s
  }

  lemma NoneIn(s: set<nat>, lo: nat)
    ensures AllIn(s, lo, lo)
  {
  }

  lemma OneMoreIn(s: set<nat>, s': set<nat>, lo: nat, hi: nat)
    requires AllIn(s, lo, hi) && s <= s' && hi in s'
    ensures AllIn(s', lo, hi + 1)
  {
  }

  /** The function comes before slot `slot`, function `func` in the order of the scan. */
  predicate Before(f: Fn, slot: nat, func: nat) {
    f.slot < slot || (f.slot == slot && f.func < func)
  }

  class Scanner {
    const cfg: Config
    ghost const root: nat
    const scanned: array<bool>
    const decoded: array3<bool>
    var devices: seq<Device>
    /** Buses marked scanned, and functions registered. */
    ghost var marked: set<nat>
    ghost var fns: set<Fn>

    ghost predicate Marks()
      reads this, scanned
    {
      && scanned.Length == BUSES
      && (forall b :: b in marked ==> b < BUSES && Reachable(cfg, root, b))
      && (forall b :: 0 <= b < BUSES ==> (scanned[b] <==> b in marked))
    }

    ghost predicate Decodes()
      reads this, decoded
    {
      && decoded.Length0 == BUSES && decoded.Length1 == 32 && decoded.Length2 == 8
      && (forall b, s, f :: 0 <= b < BUSES && 0 <= s < 32 && 0 <= f < 8 && decoded[b, s, f] ==> Fn(b, s, f) in fns)
    }

    ghost predicate Table()
      reads this
    {
      && fns == Fns(devices) && NoRepeats(devices) && |devices| <= MAX_DEVICES
      && (forall f :: f in fns ==> Wanted(cfg, root, f) && f.bus in marked)
      && (forall d :: d in devices ==> d.headerType == HeaderType(cfg, d.fn))
    }

    ghost predicate Valid()
      reads this, scanned, decoded
    {
      Marks() && Decodes() && Table()
    }

    ghost predicate FnDone(f: Fn)
      reads this
    {
      && f in fns
      && (IsBridge(cfg, f) ==> forall b :: Secondary(cfg, f) <= b <= Subordinate(cfg, f) ==> b in marked)
    }

    /** Everything on bus `b` was registered and every bus behind its bridges marked, unless the table is full. */
    ghost predicate Done(b: nat)
      reads this
    {
      |devices| < MAX_DEVICES ==> forall f: Fn :: f.bus == b && Present(cfg, f) ==> FnDone(f)
    }

    /** Every marked bus outside `open`, the buses still being scanned, is done. */
    ghost predicate AllDone(open: set<nat>)
      reads this
    {
      open <= marked && forall b :: b in marked && b !in open ==> Done(b)
    }

    /** The scan of `bus` has reached slot `slot`, function `func`. */
    ghost predicate Progress(bus: nat, slot: nat, func: nat)
      reads this
    {
      && (forall g :: g in fns && g.bus == bus ==> Before(g, slot, func))
      && (|devices| < MAX_DEVICES ==>
            forall g: Fn :: g.bus == bus && Present(cfg, g) && Before(g, slot, func) ==> FnDone(g))
    }

    ghost function Unmarked(): set<nat>
      reads this
    {
      set b: nat | b < BUSES && b !in marked
    }

    /** A finished scan with room left in the table registered every reachable function. */
    lemma NothingMissed()
      requires Table() && AllDone({}) && root == 0 && 0 in marked && |devices| < MAX_DEVICES
      ensures AllWanted(cfg) <= fns
    {
      hide IsBridge, Secondary, Subordinate, Present, HeaderType;
      forall a: nat, b: nat | a in marked && Linked(cfg, a, b)
        ensures b in marked
      {
        var f: Fn :| f.bus == a && Present(cfg, f) && IsBridge(cfg, f) && Secondary(cfg, f) <= b <= Subordinate(cfg, f);
        assert Done(a) && FnDone(f);
      }
      forall f | f in AllWanted(cfg)
        ensures f in fns
      {
        var p :| Path(cfg, p) && p[0] == 0 && p[|p| - 1] == f.bus;
        ClosedHoldsPath(cfg, marked, p, |p| - 1);
        assert Done(f.bus) && FnDone(f);
      }
    }

    constructor (cfg: Config, ghost root: nat)
      ensures Valid() && this.cfg == cfg && this.root == root && devices == [] && marked == {} && fns == {}
      ensures fresh(scanned) && fresh(decoded)
    {
      this.cfg, this.root := cfg, root;
      scanned := new bool[BUSES](_ => false);
      decoded := new bool[BUSES, 32, 8]((_, _, _) => false);
      devices, marked, fns := [], {}, {};
    }

    /** `pci_register_device`. */
    method Register(f: Fn, ghost open: set<nat>)
      requires Valid() && AllDone(open) && RangesEnd(cfg, root)
      requires Present(cfg, f) && f.bus in open && f !in fns
      modifies this, scanned, decoded
      ensures Valid() && AllDone(open)
      ensures old(marked) <= marked && old(fns) <= fns && |old(devices)| <= |devices|
      ensures |devices| < MAX_DEVICES ==> FnDone(f)
      ensures forall g :: g in fns && g !in old(fns) ==> g == f || g.bus !in old(marked)
      decreases Unmarked(), 2
    {
      hide Reachable, RangesEnd, HeaderByte;
      if |devices| >= MAX_DEVICES {
        return;
      }
      if decoded[f.bus, f.slot, f.func] {
        return;
      }
      Append(f, open);
      if HeaderType(cfg, f) == 1 {
        ScanRange(f, open);
      }
    }

    /** The loop over the buses behind a bridge. */
    method ScanRange(f: Fn, ghost open: set<nat>)
      requires Valid() && AllDone(open) && RangesEnd(cfg, root)
      requires Present(cfg, f) && IsBridge(cfg, f) && f in fns
      modifies this, scanned, decoded
      ensures Valid() && AllDone(open)
      ensures old(marked) <= marked && old(fns) <= fns && |old(devices)| <= |devices|
      ensures FnDone(f)
      ensures forall g :: g in fns && g !in old(fns) ==> g.bus !in old(marked)
      decreases Unmarked(), 1
    {
      assert Wanted(cfg, root, f) && Subordinate(cfg, f) < 255;
      hide Scanner.Valid, Scanner.AllDone, Wanted, IsBridge, Secondary, Subordinate, RangesEnd, HeaderType, Present,
        Following, AllIn;
      var b, sub := Secondary(cfg, f), Subordinate(cfg, f);
      NoneIn(marked, b);
      while b <= sub
        invariant Valid() && AllDone(open) && Secondary(cfg, f) <= b
        invariant old(marked) <= marked && old(fns) <= fns && |old(devices)| <= |devices|
        invariant AllIn(marked, Secondary(cfg, f), b)
        invariant forall g :: g in fns && g !in old(fns) ==> g.bus !in old(marked)
        decreases sub as int - b
      {
        BehindBridge(cfg, root, f, b);
        ghost var before := marked;
        Scan(b, open);
        OneMoreIn(before, marked, Secondary(cfg, f), b);
        FollowingSteps(b);
        b := Following(b);
      }
      RangeDone(f, b);
    }

    lemma RangeDone(f: Fn, b: nat)
      requires f in fns && AllIn(marked, Secondary(cfg, f), b) && Subordinate(cfg, f) < b
      ensures FnDone(f)
    {
      hide Secondary, Subordinate;
    }

    /** Takes the next entry of the device table and decodes into it. */
    method Append(f: Fn, ghost open: set<nat>)
      requires Valid() && AllDone(open) && |devices| < MAX_DEVICES
      requires Present(cfg, f) && f.bus in marked && f !in fns
      modifies this`devices, this`fns, decoded
      ensures Valid() && AllDone(open)
      ensures devices == old(devices) + [Device(f, HeaderType(cfg, f))] && fns == old(fns) + {f}
    {
      Extended(devices, Device(f, HeaderType(cfg, f)));
      devices := devices + [Device(f, HeaderType(cfg, f))];
      fns := fns + {f};
      if HeaderType(cfg, f) <= 2 {
        decoded[f.bus, f.slot, f.func] := true;
      }
    }

    /** `pci_scan_bus`. */
    method Scan(bus: nat, ghost open: set<nat>)
      requires Valid() && AllDone(open) && RangesEnd(cfg, root)
      requires bus < BUSES && Reachable(cfg, root, bus)
      modifies this, scanned, decoded
      ensures Valid() && AllDone(open) && bus in marked
      ensures old(marked) <= marked && old(fns) <= fns && |old(devices)| <= |devices|
      ensures forall g :: g in fns && g !in old(fns) ==> g.bus !in old(marked)
      decreases Unmarked(), 0
    {
      if scanned[bus] {
        return;
      }
      ghost var inner := open + {bus};
      Mark(bus, open);
      var slot := 0;
      while slot < 32
        invariant 0 <= slot <= 32 && Valid() && AllDone(inner)
        invariant old(marked) + {bus} <= marked && old(fns) <= fns && |old(devices)| <= |devices|
        invariant forall g :: g in fns && g !in old(fns) ==> g.bus !in old(marked)
        invariant Progress(bus, slot, 0)
      {
        ScanSlot(bus, slot, inner);
        slot := slot + 1;
      }
    }

    method Mark(bus: nat, ghost open: set<nat>)
      requires Valid() && AllDone(open) && bus < BUSES && bus !in marked && Reachable(cfg, root, bus)
      modifies this`marked, scanned
      ensures Valid() && AllDone(open + {bus}) && marked == old(marked) + {bus}
      ensures Unmarked() == old(Unmarked()) - {bus} && bus in old(Unmarked())
    {
      scanned[bus] := true;
      marked := marked + {bus};
    }

    /** One slot of a bus: function 0, and the rest if the device is multi-function. */
    method ScanSlot(bus: nat, slot: nat, ghost open: set<nat>)
      requires Valid() && AllDone(open) && RangesEnd(cfg, root)
      requires bus in open && bus < BUSES && slot < 32 && Progress(bus, slot, 0)
      modifies this, scanned, decoded
      ensures Valid() && AllDone(open) && Progress(bus, slot + 1, 0)
      ensures old(marked) <= marked && old(fns) <= fns && |old(devices)| <= |devices|
      ensures forall g :: g in fns && g !in old(fns) ==> g.bus == bus || g.bus !in old(marked)
      decreases Unmarked(), 4
    {
      hide Scanner.Valid, Scanner.AllDone, RangesEnd, Vendor, FunctionCount, Scanner.Progress;
      if Vendor(cfg, Fn(bus, slot, 0)) == 0xFFFF {
        EmptySlot(bus, slot);
        return;
      }
      var functions := FunctionCount(cfg, bus, slot);
      var func := 0;
      while func < functions
        invariant 0 <= func <= functions && Valid() && AllDone(open) && Progress(bus, slot, func)
        invariant old(marked) <= marked && old(fns) <= fns && |old(devices)| <= |devices|
        invariant forall g :: g in fns && g !in old(fns) ==> g.bus == bus || g.bus !in old(marked)
      {
        Probe(bus, slot, func, open);
        func := func + 1;
      }
      SlotFinished(bus, slot);
    }

    lemma EmptySlot(bus: nat, slot: nat)
      requires Progress(bus, slot, 0) && Vendor(cfg, Fn(bus, slot, 0)) == 0xFFFF
      ensures Progress(bus, slot + 1, 0)
    {
      hide Vendor, FunctionCount, Scanner.FnDone;
    }

    lemma SlotFinished(bus: nat, slot: nat)
      requires Progress(bus, slot, FunctionCount(cfg, bus, slot))
      ensures Progress(bus, slot + 1, 0)
    {
      hide Vendor, FunctionCount, Scanner.FnDone;
    }

    /** One function of a slot. */
    method Probe(bus: nat, slot: nat, func: nat, ghost open: set<nat>)
      requires Valid() && AllDone(open) && RangesEnd(cfg, root)
      requires bus in open && bus < BUSES && slot < 32 && Vendor(cfg, Fn(bus, slot, 0)) != 0xFFFF
      requires func < FunctionCount(cfg, bus, slot) && Progress(bus, slot, func)
      modifies this, scanned, decoded
      ensures Valid() && AllDone(open) && Progress(bus, slot, func + 1)
      ensures old(marked) <= marked && old(fns) <= fns && |old(devices)| <= |devices|
      ensures forall g :: g in fns && g !in old(fns) ==> g.bus == bus || g.bus !in old(marked)
      decreases Unmarked(), 3
    {
      hide Scanner.Valid, RangesEnd, Vendor, FunctionCount, IsBridge, Secondary, Subordinate;
      if Vendor(cfg, Fn(bus, slot, func)) != 0xFFFF {
        Register(Fn(bus, slot, func), open);
      }
    }
  }

  // ---- the whole enumeration ----

  ghost function AllWanted(cfg: Config): set<Fn> {
    set b: nat, s: nat, f: nat | b < BUSES && s < 32 && f < 8 && Wanted(cfg, 0, Fn(b, s, f)) :: Fn(b, s, f)
  }

  /** Each entry is a reachable function, decoded from its own registers, none twice; and unless the table is
      full every reachable function is there. */
  ghost predicate Enumerated(cfg: Config, devices: seq<Device>) {
    && NoRepeats(devices) && |devices| <= MAX_DEVICES
    && (forall d :: d in devices ==> Wanted(cfg, 0, d.fn) && d.headerType == HeaderType(cfg, d.fn))
    && (|devices| < MAX_DEVICES ==> AllWanted(cfg) <= Fns(devices))
  }

  /** `pci_scan_bus(0)` at boot. */
  method Enumerate(cfg: Config) returns (devices: seq<Device>)
    requires RangesEnd(cfg, 0)
    ensures Enumerated(cfg, devices)
  {
    var scanner := new Scanner(cfg, 0);
    RootReachable(cfg, 0);
    scanner.Scan(0, {});
    devices := scanner.devices;
    if |devices| < MAX_DEVICES {
      scanner.NothingMissed();
    }
  }

  lemma {:induction false} CountFns(devices: seq<Device>)
    requires NoRepeats(devices)
    ensures |Fns(devices)| == |devices|
  {
    if devices == [] {
    } else {
      var k := |devices| - 1;
      var d, front := devices[k], devices[..k];
      CountFns(front);
      assert devices == front + [d];
      Extended(front, d);
      assert d.fn !in Fns(front);
    }
  }

  /** The enumeration finds exactly the reachable functions if and only if there are at most 256 of them. */
  lemma ExactIff(cfg: Config, devices: seq<Device>)
    requires Enumerated(cfg, devices)
    ensures Fns(devices) == AllWanted(cfg) <==> |AllWanted(cfg)| <= MAX_DEVICES
  {
    hide Wanted;
    CountFns(devices);
    var found, all := Fns(devices), AllWanted(cfg);
    assert found <= all by { FoundAreWanted(cfg, devices); }
    if |all| <= MAX_DEVICES && |devices| == MAX_DEVICES {
      SameSize(found, all);
    }
  }

  lemma FoundAreWanted(cfg: Config, devices: seq<Device>)
    requires Enumerated(cfg, devices)
    ensures Fns(devices) <= AllWanted(cfg)
  {
    forall f | f in Fns(devices)
      ensures f in AllWanted(cfg)
    {
      var d :| d in devices && d.fn == f;
      assert Wanted(cfg, 0, Fn(f.bus, f.slot, f.func));
    }
  }

  lemma SameSize(s: set<Fn>, t: set<Fn>)
    requires s <= t && |s| >= |t|
    ensures s == t
  {
    var rest := t - s;
    assert t == s + rest;
  }

  // ---- what the bytes of the registers mean ----

  /** The bytes of a register, lowest offset first. */
  predicate OfBytes(w: nat, b0: nat, b1: nat, b2: nat, b3: nat) {
    && b0 < 0x100 && b1 < 0x100 && b2 < 0x100 && b3 < 0x100
    && w == b0 + 0x100 * b1 + 0x1_0000 * b2 + 0x100_0000 * b3
  }

  lemma ByteOfWord(w: nat, b0: nat, b1: nat, b2: nat, b3: nat)
    requires OfBytes(w, b0, b1, b2, b3)
    ensures w / 0x100 % 0x100 == b1 && w / 0x1_0000 % 0x100 == b2
  {
    assert w / 0x100 == b1 + 0x100 * b2 + 0x1_0000 * b3;
    assert w / 0x1_0000 == b2 + 0x100 * b3;
  }

  /** Offset 0x18 of a bridge: primary, secondary and subordinate bus and a latency, a byte each. */
  lemma BridgeRegister(cfg: Config, f: Fn, primary: nat, secondary: nat, subordinate: nat, latency: nat)
    requires OfBytes(cfg(f.bus, f.slot, f.func, 0x18), primary, secondary, subordinate, latency)
    ensures Secondary(cfg, f) == secondary && Subordinate(cfg, f) == subordinate
  {
    ByteOfWord(cfg(f.bus, f.slot, f.func, 0x18), primary, secondary, subordinate, latency);
  }

  /** Offset 0x0C: cache line size, latency, header type and self test. Bit 7 of the header type byte says of a slot
      that it has up to eight functions, the other bits say which header follows. */
  lemma HeaderRegister(cfg: Config, f: Fn, line: nat, latency: nat, layout: nat, multi: bool, bist: nat)
    requires layout < 0x80
    requires OfBytes(cfg(f.bus, f.slot, f.func, 0x0C), line, latency, layout + (if multi then 0x80 else 0), bist)
    ensures HeaderType(cfg, f) == layout && (IsBridge(cfg, f) <==> layout == 1)
    ensures f.func == 0 ==> FunctionCount(cfg, f.bus, f.slot) == if multi then 8 else 1
  {
    var byte := layout + if multi then 0x80 else 0;
    ByteOfWord(cfg(f.bus, f.slot, f.func, 0x0C), line, latency, byte, bist);
    if f.func == 0 {
      assert f == Fn(f.bus, f.slot, 0);
    }
  }

  /** The register at offset 0x00 holds `vendor` in its low half. */
  ghost predicate HasVendor(cfg: Config, f: Fn, vendor: nat) {
    vendor <= 0xFFFF && exists device: nat :: cfg(f.bus, f.slot, f.func, 0x00) == vendor + Upper(device)
  }

  ghost function Upper(n: nat): nat {
    n * 0x1_0000
  }

  /** A function is probed and answers exactly when its slot answers, the function itself answers, and it is function
      0 or the header type byte of function 0 has bit 7 set. */
  lemma PresentIff(cfg: Config, f: Fn, first: nat, vendor: nat, line: nat, latency: nat, layout: nat, multi: bool,
                   bist: nat)
    requires f.bus < 256 && f.slot < 32 && f.func < 8 && layout < 0x80
    requires HasVendor(cfg, Fn(f.bus, f.slot, 0), first) && HasVendor(cfg, f, vendor)
    requires OfBytes(cfg(f.bus, f.slot, 0, 0x0C), line, latency, layout + (if multi then 0x80 else 0), bist)
    ensures Present(cfg, f) <==> first != 0xFFFF && vendor != 0xFFFF && (f.func == 0 || multi)
  {
    HeaderRegister(cfg, Fn(f.bus, f.slot, 0), line, latency, layout, multi, bist);
    VendorIs(cfg, Fn(f.bus, f.slot, 0), first);
    VendorIs(cfg, f, vendor);
  }

  lemma VendorIs(cfg: Config, f: Fn, vendor: nat)
    requires HasVendor(cfg, f, vendor)
    ensures Vendor(cfg, f) == vendor
  {
  }

  /** Behind a bridge that was found, every function on its secondary bus, its subordinate bus or a bus between is
      found, unless the table is full. */
  lemma FoundBehindBridge(cfg: Config, devices: seq<Device>, bridge: Fn, f: Fn, primary: nat, secondary: nat,
                          subordinate: nat, latency: nat)
    requires Enumerated(cfg, devices) && |devices| < 256
    requires bridge in Fns(devices) && IsBridge(cfg, bridge)
    requires OfBytes(cfg(bridge.bus, bridge.slot, bridge.func, 0x18), primary, secondary, subordinate, latency)
    requires secondary <= f.bus <= subordinate && Present(cfg, f)
    ensures f in Fns(devices)
  {
    hide Present, IsBridge, Secondary, Subordinate, OfBytes;
    BridgeRegister(cfg, bridge, primary, secondary, subordinate, latency);
    FoundAreWanted(cfg, devices);
    assert bridge in AllWanted(cfg);
    BehindBridge(cfg, 0, bridge, f.bus);
    IsWanted(cfg, f);
  }

  lemma IsWanted(cfg: Config, f: Fn)
    requires Wanted(cfg, 0, f)
    ensures f in AllWanted(cfg)
  {
  }

  /** One bridge on bus 0, told by its registers to forward bus 1 alone: the function in slot 0 of bus 1 is found. */
  lemma OneBridgeFound(cfg: Config, devices: seq<Device>, slot: nat, vendor: nat, far: nat, latency: nat, header: nat)
    requires Enumerated(cfg, devices) && |devices| < 256 && slot < 32
    requires vendor < 0xFFFF && HasVendor(cfg, Fn(0, slot, 0), vendor)
    requires far < 0xFFFF && HasVendor(cfg, Fn(1, 0, 0), far)
    requires OfBytes(cfg(0, slot, 0, 0x0C), 0, 0, 1, 0) && OfBytes(cfg(0, slot, 0, 0x18), 0, 1, 1, latency)
    requires header < 0x80 && OfBytes(cfg(1, 0, 0, 0x0C), 0, 0, header, 0)
    ensures Fn(0, slot, 0) in Fns(devices) && Fn(1, 0, 0) in Fns(devices)
  {
    hide Present, IsBridge, Secondary, Subordinate, OfBytes, HasVendor;
    var bridge, f := Fn(0, slot, 0), Fn(1, 0, 0);
    PresentIff(cfg, bridge, vendor, vendor, 0, 0, 1, false, 0);
    PresentIff(cfg, f, far, far, 0, 0, header, false, 0);
    HeaderRegister(cfg, bridge, 0, 0, 1, false, 0);
    RootReachable(cfg, 0);
    IsWanted(cfg, bridge);
    FoundBehindBridge(cfg, devices, bridge, f, 0, 1, 1, latency);
  }
}
