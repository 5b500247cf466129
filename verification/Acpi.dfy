/** The interrupt tables of ACPI: the search of the XSDT for the MADT, and the walk over the MADT's entries
    (section 5.2.12 of the ACPI specification 6.3). */
module Acpi {
  import opened Bits
  import opened Wire
  import opened Boot

  const IO_APIC: nat := 1
  const OVERRIDE: nat := 2
  const IRQS: nat := 16
  const HEADER_SIZE: nat := 36

  // ----- the entries and their serialised form -----

  datatype Entry =
    | IoApic(id: byte, reserved: byte, addr: u32, gsiBase: u32)
    | Override(bus: byte, source: byte, gsi: u32, flags: seq<byte>)
    | OtherEntry(kind: byte, data: seq<byte>)

  predicate ProperEntry(e: Entry) {
    match e
    case IoApic(_, _, _, _) => true
    case Override(_, _, _, flags) => |flags| == 2
    case OtherEntry(kind, data) => kind != IO_APIC && kind != OVERRIDE && |data| <= 253
  }

  function EntryKind(e: Entry): byte {
    match e
    case IoApic(_, _, _, _) => IO_APIC
    case Override(_, _, _, _) => OVERRIDE
    case OtherEntry(kind, _) => kind
  }

  function EntryData(e: Entry): seq<byte> {
    match e
    case IoApic(id, reserved, addr, gsiBase) => [id, reserved] + Put32(addr) + Put32(gsiBase)
    case Override(bus, source, gsi, flags) => [bus, source] + Put32(gsi) + flags
    case OtherEntry(_, data) => data
  }

  ghost predicate AllEntries(es: seq<Entry>) {
    forall e :: e in es ==> ProperEntry(e)
  }

  /** Type, length, data. */
  function PutMadtEntry(e: Entry): (s: seq<byte>)
    requires ProperEntry(e)
    ensures |s| == 2 + |EntryData(e)| && s[0] == EntryKind(e) && s[1] == |s|
  {
    [EntryKind(e), 2 + |EntryData(e)|] + EntryData(e)
  }

  function PutMadtEntries(es: seq<Entry>): seq<byte>
    requires AllEntries(es)
  {
    if es == [] then [] else assert es[0] in es; PutMadtEntry(es[0]) + PutMadtEntries(es[1..])
  }

  /** The bytes of the entries, numbers lowest byte first. */
  lemma MadtLayout(e: Entry)
    requires ProperEntry(e)
    ensures e.Override? ==>
              PutMadtEntry(e) ==
                [2, 10, e.bus, e.source, e.gsi % 0x100, e.gsi / 0x100 % 0x100, e.gsi / 0x1_0000 % 0x100,
                 e.gsi / 0x100_0000] + e.flags && |e.flags| == 2
    ensures e.IoApic? ==>
              PutMadtEntry(e) ==
                [1, 12, e.id, e.reserved,
                 e.addr % 0x100, e.addr / 0x100 % 0x100, e.addr / 0x1_0000 % 0x100, e.addr / 0x100_0000,
                 e.gsiBase % 0x100, e.gsiBase / 0x100 % 0x100, e.gsiBase / 0x1_0000 % 0x100, e.gsiBase / 0x100_0000]
    ensures e.OtherEntry? ==> PutMadtEntry(e) == [e.kind, 2 + |e.data|] + e.data && e.kind != 1 && e.kind != 2
  {
  }

  // ----- what the entries mean -----

  /** The interrupt line of an IRQ: that of its last override, else the IRQ itself. */
  function GsiOf(es: seq<Entry>, irq: nat): nat {
    if es == [] then irq
    else
      var last := es[|es| - 1];
      if last.Override? && last.source == irq then last.gsi else GsiOf(es[..|es| - 1], irq)
  }

  /** Where the last I/O APIC entry stands when the entries start at p; otherwise what was known before. */
  function IoApicAt(es: seq<Entry>, p: nat, before: nat): nat {
    if es == [] then before
    else IoApicAt(es[1..], p + 2 + |EntryData(es[0])|, if es[0].IoApic? then p else before)
  }

  /** An IRQ that no entry overrides keeps its number; else the last override counts. */
  lemma {:induction false} GsiExactly(es: seq<Entry>, irq: nat, k: nat)
    ensures (forall e :: e in es ==> !(e.Override? && e.source == irq)) ==> GsiOf(es, irq) == irq
    ensures k < |es| && es[k].Override? && es[k].source == irq &&
            (forall j :: k < j < |es| ==> !(es[j].Override? && es[j].source == irq)) ==>
              GsiOf(es, irq) == es[k].gsi
  {
    if es != [] {
      var n := |es| - 1;
      assert es[n] in es;
      GsiExactly(es[..n], irq, k);
    }
  }

  /** Without an I/O APIC entry nothing changes; else the last one counts. */
  lemma {:induction false} IoApicExactly(es: seq<Entry>, p: nat, before: nat, k: nat)
    requires AllEntries(es)
    ensures (forall e :: e in es ==> !e.IoApic?) ==> IoApicAt(es, p, before) == before
    ensures k < |es| && es[k].IoApic? && (forall j :: k < j < |es| ==> !es[j].IoApic?) ==>
              IoApicAt(es, p, before) == p + |PutMadtEntries(es[..k])|
  {
    hide EntryData, EntryKind, PutMadtEntry;
    if es != [] {
      assert es[0] in es;
      if k < |es| && es[k].IoApic? && forall j :: k < j < |es| ==> !es[j].IoApic? {
        if k == 0 {
          IoApicExactly(es[1..], p + 2 + |EntryData(es[0])|, p, 0);
          assert es[..0] == [] && forall e :: e in es[1..] ==> !e.IoApic?;
        } else {
          IoApicExactly(es[1..], p + 2 + |EntryData(es[0])|, if es[0].IoApic? then p else before, k - 1);
          assert es[..k][0] == es[0] && es[..k][1..] == es[1..][..k - 1];
        }
      } else {
        IoApicExactly(es[1..], p + 2 + |EntryData(es[0])|, if es[0].IoApic? then p else before, |es|);
      }
    }
  }

  lemma EntryFront(mem: seq<byte>, p: nat, es: seq<Entry>)
    requires AllEntries(es) && es != [] && Boot.Holds(mem, p, PutMadtEntries(es))
    ensures var e := es[0];
            p + 2 + |EntryData(e)| <= |mem| && mem[p] == EntryKind(e) && mem[p + 1] == 2 + |EntryData(e)| &&
            (EntryKind(e) == IO_APIC <==> e.IoApic?) && (EntryKind(e) == OVERRIDE <==> e.Override?) &&
            (e.Override? ==> |EntryData(e)| == 8 && mem[p + 3] == e.source && Get32(mem, p + 4) == e.gsi) &&
            AllEntries(es[1..]) && |PutMadtEntries(es)| == 2 + |EntryData(e)| + |PutMadtEntries(es[1..])| &&
            Boot.Holds(mem, p + 2 + |EntryData(e)|, PutMadtEntries(es[1..]))
  {
    hide Put32, Get32, PutMadtEntry;
    assert es[0] in es;
    HoldsBoth(mem, p, PutMadtEntry(es[0]), PutMadtEntries(es[1..]));
    OneEntry(mem, p, es[0]);
  }

  lemma OneEntry(mem: seq<byte>, p: nat, e: Entry)
    requires ProperEntry(e) && Boot.Holds(mem, p, PutMadtEntry(e))
    ensures p + 2 + |EntryData(e)| <= |mem| && mem[p] == EntryKind(e) && mem[p + 1] == 2 + |EntryData(e)|
    ensures e.Override? ==> |EntryData(e)| == 8 && mem[p + 3] == e.source && Get32(mem, p + 4) == e.gsi
  {
    hide Put32, Get32;
    var s := PutMadtEntry(e);
    var m := mem[p..p + |s|];
    assert mem[p] == m[0] && mem[p + 1] == m[1];
    if e.Override? {
      PutLength(e.gsi);
      var front := [OVERRIDE, 10, e.bus, e.source];
      assert s == front + Put32(e.gsi) + e.flags;
      assert mem[p + 3] == m[3];
      HoldsBoth(mem, p, front + Put32(e.gsi), e.flags);
      HoldsBoth(mem, p, front, Put32(e.gsi));
      GetPut32(mem, p + 4, e.gsi);
    }
  }

  /** The outcome of the walk, over the entries themselves. */
  lemma WalkMeans(gsi: seq<u32>, ioApic: nat, es: seq<Entry>, p: nat, before: nat)
    requires AllEntries(es) && |gsi| == IRQS && ioApic == IoApicAt(es, p, before)
    requires forall irq :: 0 <= irq < IRQS ==> gsi[irq] == GsiOf(es, irq)
    ensures forall irq :: 0 <= irq < 16 && (forall e :: e in es ==> !(e.Override? && e.source == irq)) ==>
              gsi[irq] == irq
    ensures forall irq, k ::
              0 <= irq < 16 && 0 <= k < |es| && es[k].Override? && es[k].source == irq &&
              (forall j :: k < j < |es| ==> !(es[j].Override? && es[j].source == irq))
              ==> gsi[irq] == es[k].gsi
    ensures (forall e :: e in es ==> !e.IoApic?) ==> ioApic == before
    ensures forall k :: 0 <= k < |es| && es[k].IoApic? && (forall j :: k < j < |es| ==> !es[j].IoApic?) ==>
              ioApic == p + |PutMadtEntries(es[..k])|
  {
    hide GsiOf, IoApicAt, PutMadtEntries;
    forall irq | 0 <= irq < 16 && forall e :: e in es ==> !(e.Override? && e.source == irq) ensures gsi[irq] == irq {
      GsiExactly(es, irq, |es|);
    }
    forall irq, k | 0 <= irq < 16 && 0 <= k < |es| && es[k].Override? && es[k].source == irq &&
                    forall j :: k < j < |es| ==> !(es[j].Override? && es[j].source == irq)
      ensures gsi[irq] == es[k].gsi
    {
      GsiExactly(es, irq, k);
    }
    IoApicExactly(es, p, before, |es|);
    forall k: nat | k < |es| && es[k].IoApic? && forall j :: k < j < |es| ==> !es[j].IoApic?
      ensures ioApic == p + |PutMadtEntries(es[..k])|
    {
      IoApicExactly(es, p, before, k);
    }
  }

  class Tables {
    const irqToGsi: array<u32>
    var ioApic: nat

    constructor ()
      ensures irqToGsi.Length == IRQS && ioApic == 0 && fresh(irqToGsi)
    {
      irqToGsi := new u32[IRQS](_ => 0);
      ioApic := 0;
    }

    /** The walk over the entries of the MADT between cur and end. */
    method WalkMadt(mem: seq<byte>, cur0: nat, end: nat, ghost es: seq<Entry>)
      requires irqToGsi.Length == IRQS && AllEntries(es)
      requires Boot.Holds(mem, cur0, PutMadtEntries(es)) && end == cur0 + |PutMadtEntries(es)|
      modifies this, irqToGsi
      ensures forall irq :: 0 <= irq < IRQS ==> irqToGsi[irq] == GsiOf(es, irq)
      ensures ioApic == IoApicAt(es, cur0, old(ioApic))
      ensures forall irq :: 0 <= irq < 16 && (forall e :: e in es ==> !(e.Override? && e.source == irq)) ==>
                irqToGsi[irq] == irq
      ensures forall irq, k ::
                0 <= irq < 16 && 0 <= k < |es| && es[k].Override? && es[k].source == irq &&
                (forall j :: k < j < |es| ==> !(es[j].Override? && es[j].source == irq))
                ==> irqToGsi[irq] == es[k].gsi
      ensures (forall e :: e in es ==> !e.IoApic?) ==> ioApic == old(ioApic)
      ensures forall k :: 0 <= k < |es| && es[k].IoApic? && (forall j :: k < j < |es| ==> !es[j].IoApic?) ==>
                ioApic == cur0 + |PutMadtEntries(es[..k])|
    {
      hide Get32, Boot.Holds, EntryData, EntryKind;
      var i := 0;
      while i < IRQS
        invariant 0 <= i <= IRQS && ioApic == old(ioApic)
        invariant forall irq :: 0 <= irq < i ==> irqToGsi[irq] == irq
      {
        irqToGsi[i] := i;
        i := i + 1;
      }
      var cur: nat := cur0;
      ghost var k: nat := 0;
      assert es[0..] == es && es[..0] == [];
      while cur < end
        invariant k <= |es| && AllEntries(es[k..]) && Boot.Holds(mem, cur, PutMadtEntries(es[k..]))
        invariant end == cur + |PutMadtEntries(es[k..])|
        invariant IoApicAt(es[k..], cur, ioApic) == IoApicAt(es, cur0, old(ioApic))
        invariant forall irq :: 0 <= irq < IRQS ==> irqToGsi[irq] == GsiOf(es[..k], irq)
        decreases |es| - k
      {
        ghost var e := es[k];
        EntryFront(mem, cur, es[k..]);
        assert es[k..][1..] == es[k + 1..] && es[..k + 1][..k] == es[..k];
        var length := mem[cur + 1];
        if length == 0 { break; }
        if mem[cur] == IO_APIC {
          ioApic := cur;
        }
        if mem[cur] == OVERRIDE {
          var source := mem[cur + 3];
          if source < IRQS {
            irqToGsi[source] := Get32(mem, cur + 4);
          }
        }
        cur := cur + length;
        k := k + 1;
      }
      assert k == |es| ==> es[..k] == es && es[k..] == [];
      WalkMeans(irqToGsi[..], ioApic, es, cur0, old(ioApic));
      assert forall irq :: 0 <= irq < 16 ==> irqToGsi[irq] == irqToGsi[..][irq];
    }
  }

  // ----- the search of the XSDT -----

  /** The table at p has the signature APIC. */
  predicate IsMadt(mem: seq<byte>, p: nat) {
    p + 4 <= |mem| && mem[p] == 0x41 && mem[p + 1] == 0x50 && mem[p + 2] == 0x49 && mem[p + 3] == 0x43
  }

  lemma IsMadtFields(mem: seq<byte>, p: nat)
    requires p + 4 <= |mem|
    ensures IsMadt(mem, p) <==>
              mem[p] == 'A' as int && mem[p + 1] == 'P' as int && mem[p + 2] == 'I' as int && mem[p + 3] == 'C' as int
  {
  }

  lemma IsMadtExactly(mem: seq<byte>, p: nat)
    ensures IsMadt(mem, p) <==> p + 4 <= |mem| && forall i :: 0 <= i < 4 ==> mem[p + i] == "APIC"[i] as int
  {
    var t := "APIC";
    assert t[0] as int == 0x41 && t[1] as int == 0x50 && t[2] as int == 0x49 && t[3] as int == 0x43;
    if p + 4 <= |mem| {
      assert mem[p + 0] == mem[p];
      assert (forall i :: 0 <= i < 4 ==> mem[p + i] == t[i] as int) <==>
             mem[p + 0] == t[0] as int && mem[p + 1] == t[1] as int && mem[p + 2] == t[2] as int &&
             mem[p + 3] == t[3] as int;
    }
  }

  /** The pointers of the XSDT, each to a table in memory. */
  ghost predicate Pointers(mem: seq<byte>, xsdt: nat, ptrs: seq<nat>) {
    xsdt + HEADER_SIZE + 8 * |ptrs| <= |mem| &&
    forall i :: 0 <= i < |ptrs| ==> Get64(mem, xsdt + HEADER_SIZE + 8 * i) == ptrs[i] && ptrs[i] + 4 <= |mem|
  }

  /** The last table with the signature, or 0. */
  method FindMadt(mem: seq<byte>, xsdt: nat, length: nat, ghost ptrs: seq<nat>) returns (madt: nat)
    requires length == HEADER_SIZE + 8 * |ptrs| && Pointers(mem, xsdt, ptrs) && forall p :: p in ptrs ==> p > 0
    ensures madt == 0 <==> forall p :: p in ptrs ==> !IsMadt(mem, p)
    ensures madt != 0 ==>
              exists k :: 0 <= k < |ptrs| && ptrs[k] == madt && IsMadt(mem, madt) &&
                          forall j :: k < j < |ptrs| ==> !IsMadt(mem, ptrs[j])
  {
    hide Get64, IsMadt;
    var entries := (length - HEADER_SIZE) / 8;
    madt := 0;
    var i := 0;
    ghost var k := -1;
    while i < entries
      invariant 0 <= i <= entries == |ptrs| && -1 <= k < i
      invariant if madt == 0 then k == -1 else k >= 0 && ptrs[k] == madt && IsMadt(mem, madt)
      invariant forall j :: k < j < i ==> !IsMadt(mem, ptrs[j])
    {
      var h := Get64(mem, xsdt + HEADER_SIZE + 8 * i);
      assert h == ptrs[i] && ptrs[i] in ptrs;
      IsMadtFields(mem, h);
      if mem[h] == 'A' as int && mem[h + 1] == 'P' as int && mem[h + 2] == 'I' as int && mem[h + 3] == 'C' as int {
        madt := h;
        k := i;
      }
      i := i + 1;
    }
    assert k >= 0 ==> ptrs[k] in ptrs;
  }
}
