/** The boot loader's information: the walk over the Multiboot2 tags (section 3.6 of the Multiboot2 specification) and
    the memory map that the page allocator starts from. */
module Boot {
  import opened Bits
  import opened Options
  import opened Wire
  import Pmm

  const END_TAG: nat := 0
  const MMAP_TAG: nat := 6
  const ACPI_NEW_TAG: nat := 15
  const AVAILABLE: nat := 1
  const MAX_ENTRIES: nat := 256
  const RSDP_SIZE: nat := 36
  const ENTRY_SIZE: nat := 24

  // ----- the tags and their serialised form -----

  /** An entry of the memory map; a later version of the format may have more fields at its end. */
  datatype MapEntry = MapEntry(addr: u64, len: u64, kind: u32, zero: u32, more: seq<byte>)

  datatype Tag =
    | MemoryMap(entrySize: u32, version: u32, entries: seq<MapEntry>)
    | AcpiNew(rsdp: seq<byte>)
    | Other(kind: u32, body: seq<byte>)

  /** The entries are all of this size. */
  ghost predicate Uniform(es: seq<MapEntry>, size: nat) {
    forall e :: e in es ==> ENTRY_SIZE + |e.more| == size
  }

  /** What section 3.6 demands of a tag that is not the end tag; a map whose entries are larger than the code's must be
      one of which the code counts the entries right (EntryCountExactly). */
  ghost predicate Proper(t: Tag) {
    match t
    case MemoryMap(size, _, entries) =>
      ENTRY_SIZE <= size && Uniform(entries, size) && |entries| * (size - ENTRY_SIZE) < ENTRY_SIZE
    case AcpiNew(rsdp) => |rsdp| >= RSDP_SIZE
    case Other(kind, _) => kind != END_TAG && kind != MMAP_TAG && kind != ACPI_NEW_TAG
  }

  function Kind(t: Tag): u32 {
    match t
    case MemoryMap(_, _, _) => MMAP_TAG
    case AcpiNew(_) => ACPI_NEW_TAG
    case Other(kind, _) => kind
  }

  function PutEntry(e: MapEntry): (s: seq<byte>)
    ensures |s| == ENTRY_SIZE + |e.more|
  {
    Put64(e.addr) + Put64(e.len) + Put32(e.kind) + Put32(e.zero) + e.more
  }

  function PutEntries(es: seq<MapEntry>): seq<byte> {
    if es == [] then [] else PutEntry(es[0]) + PutEntries(es[1..])
  }

  function Body(t: Tag): seq<byte> {
    match t
    case MemoryMap(size, version, entries) => Put32(size) + Put32(version) + PutEntries(entries)
    case AcpiNew(rsdp) => rsdp
    case Other(_, body) => body
  }

  function Zeros(n: nat): (s: seq<byte>)
    ensures |s| == n
  {
    if n == 0 then [] else Zeros(n - 1) + [0]
  }

  /** The size a tag takes with its padding. */
  function Padded(size: nat): nat { (size + 7) / 8 * 8 }

  /** A tag: type, size, body, and zeros up to a multiple of 8. */
  function PutTag(t: Tag): (s: seq<byte>)
    requires |Body(t)| + 8 < 0xFFFF_FFF8
    ensures |s| == Padded(8 + |Body(t)|)
  {
    var size := 8 + |Body(t)|;
    Put32(Kind(t)) + Put32(size) + Body(t) + Zeros(Padded(size) - size)
  }

  ghost predicate AllProper(tags: seq<Tag>) {
    forall t :: t in tags ==> Proper(t) && |Body(t)| + 8 < 0xFFFF_FFF8
  }

  function PutTags(tags: seq<Tag>): seq<byte>
    requires AllProper(tags)
  {
    if tags == [] then Put32(END_TAG) + Put32(8)
    else assert tags[0] in tags; PutTag(tags[0]) + PutTags(tags[1..])
  }

  /** The whole information: its size, a reserved word, the tags, and the end tag. */
  ghost predicate IsInfo(mem: seq<byte>, tags: seq<Tag>) {
    AllProper(tags) && |mem| < 0x1_0000_0000 &&
    exists reserved: u32 :: mem == Put32(|mem|) + Put32(reserved) + PutTags(tags)
  }

  // ----- what the tags mean -----

  /** The available entries that do not start in the first page. */
  function Usable(es: seq<MapEntry>): seq<Pmm.Entry> {
    if es == [] then []
    else
      var e := es[0];
      (if e.kind == AVAILABLE && e.addr >= 0x1000 then [Pmm.Entry(e.addr, e.len, Pmm.USABLE)] else []) + Usable(es[1..])
  }

  function Take<T>(s: seq<T>, n: nat): seq<T> { if |s| <= n then s else s[..n] }

  /** The memory map of the last map tag: its first 256 usable entries, in order. */
  function MapOf(tags: seq<Tag>): Option<seq<Pmm.Entry>> {
    if tags == [] then None
    else
      var later := MapOf(tags[1..]);
      if later.None? && tags[0].MemoryMap? then Some(Take(Usable(tags[0].entries), MAX_ENTRIES)) else later
  }

  /** The root pointer of the last tag that carries one. */
  function RsdpOf(tags: seq<Tag>): Option<seq<byte>> {
    if tags == [] then None
    else
      var later := RsdpOf(tags[1..]);
      if later.None? && tags[0].AcpiNew? then Some(Take(tags[0].rsdp, RSDP_SIZE)) else later
  }

  /** The code counts entries of 24 bytes but steps by the tag's entry size: with n entries of another size it reads
      the right number exactly if the difference adds up to less than one entry. Three entries of 32 bytes count as
      four. */
  lemma EntryCountExactly(n: nat, entrySize: nat)
    requires entrySize >= ENTRY_SIZE
    ensures n * entrySize / ENTRY_SIZE == n <==> n * (entrySize - ENTRY_SIZE) < ENTRY_SIZE
    ensures 3 * 32 / ENTRY_SIZE == 4
  {
    assert n * entrySize == n * ENTRY_SIZE + n * (entrySize - ENTRY_SIZE);
  }

  lemma UsableSnoc(es: seq<MapEntry>, k: nat)
    requires k < |es|
    ensures Usable(es[..k + 1]) == Usable(es[..k]) + Usable([es[k]])
  {
    UsableSplit(es[..k], [es[k]]);
    assert es[..k + 1] == es[..k] + [es[k]];
  }

  lemma UsableStep(es: seq<MapEntry>)
    ensures Usable([]) == [] && (es != [] ==> Usable(es) == Usable([es[0]]) + Usable(es[1..]))
  {
  }

  lemma {:induction false} UsableSplit(a: seq<MapEntry>, b: seq<MapEntry>)
    ensures Usable(a + b) == Usable(a) + Usable(b)
  {
    hide Usable;
    UsableStep(a);
    if a == [] {
      assert a + b == b;
    } else {
      UsableSplit(a[1..], b);
      UsableStep(a + b);
      assert (a + b)[1..] == a[1..] + b;
      assert Usable([a[0]]) + (Usable(a[1..]) + Usable(b)) == Usable([a[0]]) + Usable(a[1..]) + Usable(b);
    }
  }

  // ----- reading serialised tags -----

  /** The bytes from p on start with s. */
  predicate Holds(mem: seq<byte>, p: nat, s: seq<byte>) {
    p + |s| <= |mem| && mem[p..p + |s|] == s
  }

  lemma HoldsBoth(mem: seq<byte>, p: nat, a: seq<byte>, b: seq<byte>)
    requires Holds(mem, p, a + b)
    ensures Holds(mem, p, a) && Holds(mem, p + |a|, b)
  {
    var s := mem[p..p + |a + b|];
    assert s[..|a|] == a && s[|a|..] == b;
    assert mem[p..p + |a|] == s[..|a|] && mem[p + |a|..p + |a| + |b|] == s[|a|..];
  }

  lemma TagFields(mem: seq<byte>, p: nat, t: Tag)
    requires |Body(t)| + 8 < 0xFFFF_FFF8 && Holds(mem, p, PutTag(t))
    ensures p + 8 + |Body(t)| <= p + Padded(8 + |Body(t)|) <= |mem|
    ensures Get32(mem, p) == Kind(t) && Get32(mem, p + 4) == 8 + |Body(t)| && Holds(mem, p + 8, Body(t))
  {
    hide Put32, Get32, Kind, Body;
    var size := 8 + |Body(t)|;
    PutLength(Kind(t)); PutLength(size);
    HoldsBoth(mem, p, Put32(Kind(t)) + Put32(size) + Body(t), Zeros(Padded(size) - size));
    HoldsBoth(mem, p, Put32(Kind(t)) + Put32(size), Body(t));
    HoldsBoth(mem, p, Put32(Kind(t)), Put32(size));
    GetPut32(mem, p, Kind(t));
    GetPut32(mem, p + 4, size);
  }

  lemma PutLength(w: u32)
    ensures |Put32(w)| == 4
  {
  }

  lemma {:induction false} EntriesLength(es: seq<MapEntry>, size: nat)
    requires Uniform(es, size)
    ensures |PutEntries(es)| == size * |es|
  {
    hide PutEntry;
    if es != [] {
      assert es[0] in es;
      EntriesLength(es[1..], size);
      assert size * |es| == size + size * (|es| - 1);
    }
  }

  lemma {:induction false} EntryHeld(mem: seq<byte>, p: nat, es: seq<MapEntry>, size: nat, i: nat)
    requires Uniform(es, size) && Holds(mem, p, PutEntries(es)) && i < |es|
    ensures Holds(mem, p + size * i, PutEntry(es[i]))
    decreases i
  {
    hide PutEntry;
    assert es[0] in es;
    HoldsBoth(mem, p, PutEntry(es[0]), PutEntries(es[1..]));
    if i > 0 {
      EntryHeld(mem, p + size, es[1..], size, i - 1);
      assert p + size * i == p + size + size * (i - 1);
    }
  }

  lemma EntryFields(mem: seq<byte>, p: nat, e: MapEntry)
    requires Holds(mem, p, PutEntry(e))
    ensures p + ENTRY_SIZE <= |mem| && Get64(mem, p) == e.addr && Get64(mem, p + 8) == e.len &&
            Get32(mem, p + 16) == e.kind
  {
    hide Get32, Get64, Put32;
    PutLength(e.kind); PutLength(e.zero);
    PutLength64(e.addr); PutLength64(e.len);
    HoldsBoth(mem, p, Put64(e.addr) + Put64(e.len) + Put32(e.kind) + Put32(e.zero), e.more);
    HoldsBoth(mem, p, Put64(e.addr) + Put64(e.len) + Put32(e.kind), Put32(e.zero));
    HoldsBoth(mem, p, Put64(e.addr) + Put64(e.len), Put32(e.kind));
    HoldsBoth(mem, p, Put64(e.addr), Put64(e.len));
    GetPut64(mem, p, e.addr);
    GetPut64(mem, p + 8, e.len);
    GetPut32(mem, p + 16, e.kind);
  }

  lemma PutLength64(n: u64)
    ensures |Put64(n)| == 8
  {
  }

  lemma MapBody(mem: seq<byte>, p: nat, t: Tag)
    requires t.MemoryMap? && Proper(t) && Holds(mem, p, Body(t))
    ensures p + 4 <= |mem| && |Body(t)| >= 8
    ensures (|Body(t)| - 8) / ENTRY_SIZE == |t.entries|
    ensures Get32(mem, p) == t.entrySize && Holds(mem, p + 8, PutEntries(t.entries)) && Uniform(t.entries, t.entrySize)
  {
    hide Put32, Get32, PutEntries;
    EntriesLength(t.entries, t.entrySize);
    EntryCountExactly(|t.entries|, t.entrySize);
    PutLength(t.entrySize); PutLength(t.version);
    HoldsBoth(mem, p, Put32(t.entrySize) + Put32(t.version), PutEntries(t.entries));
    HoldsBoth(mem, p, Put32(t.entrySize), Put32(t.version));
    GetPut32(mem, p, t.entrySize);
  }

  /** The form of a tag, byte for byte: a multiple of 8 in length, as short as holds it, with type and size first. */
  lemma TagLayout(t: Tag)
    requires |Body(t)| + 8 < 0xFFFF_FFF8
    ensures var s := PutTag(t);
            |s| % 8 == 0 && 8 + |Body(t)| <= |s| < 16 + |Body(t)| &&
            Get32(s, 0) == (match t case MemoryMap(_, _, _) => 6 case AcpiNew(_) => 15 case Other(kind, _) => kind) &&
            Get32(s, 4) == 8 + |Body(t)| && s[8..8 + |Body(t)|] == Body(t)
    ensures t.AcpiNew? ==> Body(t) == t.rsdp
    ensures t.Other? ==> Body(t) == t.body
  {
    hide Put32, Get32;
    var s := PutTag(t);
    assert Holds(s, 0, s) by { assert s[0..0 + |s|] == s; }
    TagFields(s, 0, t);
  }

  lemma MapLength(t: Tag)
    requires t.MemoryMap? && Proper(t)
    ensures |Body(t)| == 8 + t.entrySize * |t.entries|
  {
    EntriesLength(t.entries, t.entrySize);
  }

  /** The form of a memory map: entry size and version, and then the fields of each entry. */
  lemma MapLayout(t: Tag, i: nat)
    requires t.MemoryMap? && Proper(t) && i < |t.entries|
    ensures var b, p, e := Body(t), 8 + t.entrySize * i, t.entries[i];
            |b| == 8 + t.entrySize * |t.entries| && p + 24 <= |b| && Get32(b, 0) == t.entrySize &&
            Get64(b, p) == e.addr && Get64(b, p + 8) == e.len && Get32(b, p + 16) == e.kind
  {
    hide Put32, Get32, Get64, PutEntries, PutEntry, Body;
    var b := Body(t);
    assert Holds(b, 0, b) by { assert b[0..0 + |b|] == b; }
    MapBody(b, 0, t);
    MapLength(t);
    EntryHeld(b, 8, t.entries, t.entrySize, i);
    EntryFields(b, 8 + t.entrySize * i, t.entries[i]);
  }

  /** The next entry of a map, and what it adds to the table. */
  lemma EntryStep(mem: seq<byte>, p: nat, es: seq<MapEntry>, size: nat, i: nat)
    requires Uniform(es, size) && i < |es| && Holds(mem, p, PutEntries(es[i..]))
    ensures var e := es[i];
            p + ENTRY_SIZE <= |mem| && Get64(mem, p) == e.addr && Get64(mem, p + 8) == e.len &&
            Get32(mem, p + 16) == e.kind && Holds(mem, p + size, PutEntries(es[i + 1..])) &&
            Usable(es[..i + 1])
            == Usable(es[..i])
               + if e.kind == AVAILABLE && e.addr >= 0x1000 then [Pmm.Entry(e.addr, e.len, Pmm.USABLE)] else []
  {
    hide Get32, Get64, PutEntry, Holds, Usable;
    assert es[i] in es && es[i..][1..] == es[i + 1..];
    HoldsBoth(mem, p, PutEntry(es[i]), PutEntries(es[i + 1..]));
    EntryFields(mem, p, es[i]);
    UsableSnoc(es, i);
    UsableOne(es[i]);
  }

  /** Once the table is full, later entries make no difference. */
  lemma FullTable(es: seq<MapEntry>, i: nat)
    requires i <= |es| && |Usable(es[..i])| == MAX_ENTRIES
    ensures Take(Usable(es), MAX_ENTRIES) == Usable(es[..i])
  {
    UsableSplit(es[..i], es[i..]);
    assert es == es[..i] + es[i..];
  }

  class BootInfo {
    var hasMap: bool
    var count: nat
    const entries: array<Pmm.Entry>
    var rsdp: Option<seq<byte>>

    constructor ()
      ensures Valid() && Map() == None && rsdp == None && fresh(entries)
    {
      hasMap, count := false, 0;
      entries := new Pmm.Entry[MAX_ENTRIES](_ => Pmm.Entry(0, 0, 0));
      rsdp := None;
    }

    predicate Valid()
      reads this
    {
      entries.Length == MAX_ENTRIES && count <= MAX_ENTRIES
    }

    /** The memory map that the page allocator gets to see. */
    function Map(): Option<seq<Pmm.Entry>>
      requires Valid()
      reads this, entries
    {
      if hasMap then Some(entries[..count]) else None
    }

    /** Reads the entries of a map tag at curr into the table, skipping those that start in the first page. The index
        is an unsigned word: at zero its decrement wraps round, and the increment wraps it back. */
    method ReadMap(mem: seq<byte>, curr: nat, size: nat, ghost t: Tag)
      requires Valid() && t.MemoryMap? && Proper(t) && curr + 8 <= |mem| && size == 8 + |Body(t)| &&
               Holds(mem, curr + 8, Body(t))
      modifies this, entries
      ensures Valid() && Map() == Some(Take(Usable(t.entries), MAX_ENTRIES)) && rsdp == old(rsdp)
    {
      hide Body, PutEntries, Get32, Get64, Usable, Holds, PutEntry, Proper, Uniform;
      hasMap := true;
      MapBody(mem, curr + 8, t);
      ghost var es := t.entries;
      var n := (size - 16) / ENTRY_SIZE;
      var entrySize := Get32(mem, curr + 8);
      var ep: nat, idx: nat, i := curr + 16, 0, 0;
      NoneUsable(es);
      assert es[0..] == es;
      while i < n
        invariant 0 <= i <= n == |es| && Holds(mem, ep, PutEntries(es[i..])) && Valid() && rsdp == old(rsdp) && hasMap
        invariant idx == |Usable(es[..i])| <= MAX_ENTRIES && entries[..idx] == Usable(es[..i])
      {
        if idx >= MAX_ENTRIES {
          FullTable(es, i);
          break;
        }
        EntryStep(mem, ep, es, entrySize, i);
        if Get32(mem, ep + 16) == AVAILABLE {
          entries[idx] := Pmm.Entry(Get64(mem, ep), Get64(mem, ep + 8), Pmm.USABLE);
          if Get64(mem, ep) < 0x1000 {
            idx := if idx == 0 then WORD64 - 1 else idx - 1;
          }
          idx := (idx + 1) % WORD64;
        }
        ep := ep + entrySize;
        i := i + 1;
      }
      assert i == n ==> es[..i] == es;
      // The clamp to MAX_ENTRIES has nothing to do here: the invariant keeps idx within it.
      count := idx;
    }

    /** The loop over the tags. It visits the tags one by one, ends at the end tag, and leaves what they mean. */
    method WalkTags(mem: seq<byte>, ghost tags: seq<Tag>)
      returns (ended: bool, ghost stops: seq<nat>)
      requires Valid() && Map() == None && rsdp == None && IsInfo(mem, tags)
      modifies this, entries
      ensures ended && |stops| == |tags| + 1 && stops[..|tags|] == Offsets(tags, 8) && Steps(mem, tags, stops)
      ensures var last := stops[|tags|]; last + 8 == |mem| && Get32(mem, last) == 0 && Get32(mem, last + 4) == 8
      ensures Valid() && Map() == MapOf(tags) && rsdp == RsdpOf(tags)
    {
      hide Get32, Put32, Body, Kind, PutTag, PutTags, Holds, Usable, Zeros, MapOf, RsdpOf, Offsets, Proper, Take, Steps;
      InfoStart(mem, tags);
      FirstStep(mem, tags);
      var curr: nat, end: nat := 8, Get32(mem, 0);
      ended := false;
      ghost var visited: seq<nat> := [];
      ghost var k: nat := 0;
      WalkStart(tags);
      while curr < end
        invariant k <= |tags| && end == |mem| && AllProper(tags) && AllProper(tags[k..]) &&
                  Holds(mem, curr, PutTags(tags[k..]))
        invariant !ended && visited + Offsets(tags[k..], curr) == Offsets(tags, 8)
        invariant curr + |PutTags(tags[k..])| == |mem|
        invariant curr % 8 == 0 && |visited| == k && Steps(mem, tags, visited + [curr])
        invariant Valid() && Map() == MapOf(tags[..k]) && rsdp == RsdpOf(tags[..k])
        decreases |tags| - k
      {
        TagFront(mem, curr, tags, k);
        var tagSize := Get32(mem, curr + 4);
        var kind := Get32(mem, curr);
        if tagSize < 8 { break; }
        if kind == END_TAG {
          ended := true;
          WalkEnd(tags, curr);
          EndTag(mem, curr);
          break;
        }
        if kind == MMAP_TAG {
          ReadMap(mem, curr, tagSize, tags[k]);
        } else if kind == ACPI_NEW_TAG {
          RsdpHeld(mem, curr + 8, tags[k]);
          rsdp := Some(mem[curr + 8..curr + 8 + RSDP_SIZE]);
        }
        WalkStep(tags, k, curr);
        EightUp(curr, tagSize);
        NextStep(mem, tags, visited + [curr], curr + (tagSize + 7) % 0x1_0000_0000 / 8 * 8);
        visited := visited + [curr];
        curr := curr + (tagSize + 7) % 0x1_0000_0000 / 8 * 8;
        k := k + 1;
      }
      if !ended {
        TagFront(mem, curr, tags, k);
        assert false;
      }
      stops := visited + [curr];
    }

    /** The walk over the tags. It stops at the tags one by one, each at the first multiple of 8 at or after the end
        of the one before it, last at the end tag, and leaves what they mean. */
    method Walk(mem: seq<byte>, ghost tags: seq<Tag>)
      returns (ended: bool, ghost stops: seq<nat>)
      requires Valid() && Map() == None && rsdp == None && IsInfo(mem, tags)
      modifies this, entries
      ensures ended && |stops| == |tags| + 1 && stops[..|tags|] == Offsets(tags, 8)
      ensures stops[0] == 8 && forall k :: 0 <= k < |stops| ==> stops[k] % 8 == 0
      ensures forall k :: 0 <= k < |tags| ==>
                stops[k] + 8 <= |mem| && Get32(mem, stops[k]) == Kind(tags[k]) &&
                Get32(mem, stops[k] + 4) == 8 + |Body(tags[k])| &&
                stops[k] + 8 + |Body(tags[k])| <= stops[k + 1] < stops[k] + 16 + |Body(tags[k])|
      ensures var last := stops[|tags|]; last + 8 == |mem| && Get32(mem, last) == 0 && Get32(mem, last + 4) == 8
      ensures Valid() && Map() == MapOf(tags) && rsdp == RsdpOf(tags)
      ensures (forall t :: t in tags ==> !t.MemoryMap?) ==> Map() == None
      ensures forall k ::
                0 <= k < |tags| && tags[k].MemoryMap? && (forall j :: k < j < |tags| ==> !tags[j].MemoryMap?)
                ==> Map() == Some(Take(Usable(tags[k].entries), 256))
    {
      hide Get32, Body, Kind, Usable, Take, MapOf, RsdpOf, Offsets, IsInfo, Steps;
      ended, stops := WalkTags(mem, tags);
      StepsMean(mem, tags, stops);
      LastMap(tags);
    }
  }

  /** Where the tags stand, the first at p. */
  function Offsets(tags: seq<Tag>, p: nat): seq<nat> {
    if tags == [] then [] else [p] + Offsets(tags[1..], p + Padded(8 + |Body(tags[0])|))
  }

  /** The positions of the walk so far. */
  ghost predicate Steps(mem: seq<byte>, tags: seq<Tag>, stops: seq<nat>) {
    0 < |stops| <= |tags| + 1 && stops[0] == 8 && (forall k :: 0 <= k < |stops| ==> stops[k] % 8 == 0) &&
    forall k :: 0 <= k < |stops| - 1 ==>
      stops[k] + 8 <= |mem| && Get32(mem, stops[k]) == Kind(tags[k]) &&
      Get32(mem, stops[k] + 4) == 8 + |Body(tags[k])| &&
      stops[k] + 8 + |Body(tags[k])| <= stops[k + 1] < stops[k] + 16 + |Body(tags[k])|
  }

  lemma FirstStep(mem: seq<byte>, tags: seq<Tag>)
    ensures Steps(mem, tags, [] + [8])
  {
  }

  lemma EightUp(p: nat, size: nat)
    requires p % 8 == 0 && size < 0xFFFF_FFF8
    ensures var next := p + (size + 7) % 0x1_0000_0000 / 8 * 8; next % 8 == 0 && p + size <= next < p + size + 8
  {
  }

  lemma NextStep(mem: seq<byte>, tags: seq<Tag>, stops: seq<nat>, next: nat)
    requires Steps(mem, tags, stops) && |stops| <= |tags|
    requires var k := |stops| - 1;
             stops[k] + 8 <= |mem| && Get32(mem, stops[k]) == Kind(tags[k]) &&
             Get32(mem, stops[k] + 4) == 8 + |Body(tags[k])| && next % 8 == 0 &&
             stops[k] + 8 + |Body(tags[k])| <= next < stops[k] + 16 + |Body(tags[k])|
    ensures Steps(mem, tags, stops + [next])
  {
    hide Get32, Body, Kind;
  }

  lemma StepsMean(mem: seq<byte>, tags: seq<Tag>, stops: seq<nat>)
    requires Steps(mem, tags, stops) && |stops| == |tags| + 1
    ensures stops[0] == 8 && forall k :: 0 <= k < |stops| ==> stops[k] % 8 == 0
    ensures forall k :: 0 <= k < |tags| ==>
              stops[k] + 8 <= |mem| && Get32(mem, stops[k]) == Kind(tags[k]) &&
              Get32(mem, stops[k] + 4) == 8 + |Body(tags[k])| &&
              stops[k] + 8 + |Body(tags[k])| <= stops[k + 1] < stops[k] + 16 + |Body(tags[k])|
  {
    hide Get32, Body, Kind;
  }

  /** The end tag is the end of the information. */
  lemma EndTag(mem: seq<byte>, p: nat)
    requires p + 8 <= |mem| && Holds(mem, p, PutTags([]))
    ensures |PutTags([])| == 8
  {
    hide Put32;
    PutLength(END_TAG); PutLength(8);
  }

  /** Without a map tag there is no map; else the last one counts. */
  lemma LastMap(tags: seq<Tag>)
    ensures (forall t :: t in tags ==> !t.MemoryMap?) ==> MapOf(tags) == None
    ensures forall k ::
              0 <= k < |tags| && tags[k].MemoryMap? && (forall j :: k < j < |tags| ==> !tags[j].MemoryMap?)
              ==> MapOf(tags) == Some(Take(Usable(tags[k].entries), 256))
  {
    hide Usable, Take;
    if forall t :: t in tags ==> !t.MemoryMap? { MapExactly(tags, |tags|); }
    forall k | 0 <= k < |tags| && tags[k].MemoryMap? && forall j :: k < j < |tags| ==> !tags[j].MemoryMap?
      ensures MapOf(tags) == Some(Take(Usable(tags[k].entries), 256))
    {
      MapExactly(tags, k);
    }
  }

  lemma {:induction false} MapExactly(tags: seq<Tag>, k: nat)
    requires k <= |tags| && (k < |tags| ==> tags[k].MemoryMap?) && forall j :: k < j < |tags| ==> !tags[j].MemoryMap?
    requires k == |tags| ==> forall t :: t in tags ==> !t.MemoryMap?
    ensures MapOf(tags) == if k == |tags| then None else Some(Take(Usable(tags[k].entries), 256))
  {
    hide Usable, Take;
    if tags != [] {
      assert tags[0] in tags;
      if k == 0 {
        assert forall t :: t in tags[1..] ==> !t.MemoryMap?;
        MapExactly(tags[1..], |tags| - 1);
      } else {
        MapExactly(tags[1..], k - 1);
      }
    }
  }

  /** The same for the root pointer. */
  lemma {:induction false} RsdpExactly(tags: seq<Tag>, k: nat)
    requires k <= |tags| && (k < |tags| ==> tags[k].AcpiNew?) && forall j :: k < j < |tags| ==> !tags[j].AcpiNew?
    requires k == |tags| ==> forall t :: t in tags ==> !t.AcpiNew?
    ensures RsdpOf(tags) == if k == |tags| then None else Some(Take(tags[k].rsdp, 36))
  {
    hide Take;
    if tags != [] {
      assert tags[0] in tags;
      if k == 0 {
        assert forall t :: t in tags[1..] ==> !t.AcpiNew?;
        RsdpExactly(tags[1..], |tags| - 1);
      } else {
        RsdpExactly(tags[1..], k - 1);
      }
    }
  }

  lemma TakeExactly<T>(s: seq<T>, n: nat)
    ensures |Take(s, n)| == (if |s| < n then |s| else n) && Take(s, n) <= s
  {
  }

  lemma InfoStart(mem: seq<byte>, tags: seq<Tag>)
    requires IsInfo(mem, tags)
    ensures |mem| >= 4 && Get32(mem, 0) == |mem| && Holds(mem, 8, PutTags(tags)) && AllProper(tags)
    ensures |mem| == 8 + |PutTags(tags)|
  {
    hide Put32, Get32;
    var reserved: u32 :| mem == Put32(|mem|) + Put32(reserved) + PutTags(tags);
    PutLength(|mem|); PutLength(reserved);
    assert mem[0..4] == Put32(|mem|) && mem[8..] == PutTags(tags);
    GetPut32(mem, 0, |mem|);
  }

  lemma WalkStart(tags: seq<Tag>)
    ensures tags[0..] == tags && tags[..0] == [] && MapOf([]) == None && RsdpOf([]) == None
    ensures [] + Offsets(tags, 8) == Offsets(tags, 8)
  {
  }

  lemma WalkEnd(tags: seq<Tag>, p: nat)
    ensures Offsets([], p) == [] && tags[..|tags|] == tags && tags[|tags|..] == []
  {
  }

  /** What stands at the current position: the next tag, or the end tag after the last one. */
  lemma TagFront(mem: seq<byte>, p: nat, tags: seq<Tag>, k: nat)
    requires k <= |tags| && AllProper(tags) && AllProper(tags[k..]) && Holds(mem, p, PutTags(tags[k..]))
    ensures p + 8 <= |mem|
    ensures k == |tags| ==> Get32(mem, p) == END_TAG && Get32(mem, p + 4) == 8
    ensures k < |tags| ==>
              var t := tags[k];
              Proper(t) && Get32(mem, p) == Kind(t) != END_TAG && Get32(mem, p + 4) == 8 + |Body(t)| < 0xFFFF_FFF8 &&
              Holds(mem, p + 8, Body(t)) && (Kind(t) == MMAP_TAG <==> t.MemoryMap?) &&
              (Kind(t) == ACPI_NEW_TAG <==> t.AcpiNew?) &&
              AllProper(tags[k + 1..]) && |PutTags(tags[k..])| == Padded(8 + |Body(t)|) + |PutTags(tags[k + 1..])| &&
              Holds(mem, p + Padded(8 + |Body(t)|), PutTags(tags[k + 1..])) &&
              (t.AcpiNew? ==> |Body(t)| >= RSDP_SIZE)
  {
    hide Put32, Get32;
    var rest := tags[k..];
    if k == |tags| {
      PutLength(END_TAG); PutLength(8);
      HoldsBoth(mem, p, Put32(END_TAG), Put32(8));
      GetPut32(mem, p, END_TAG);
      GetPut32(mem, p + 4, 8);
    } else {
      var t := tags[k];
      assert rest[0] == t && t in tags && rest[1..] == tags[k + 1..];
      HoldsBoth(mem, p, PutTag(t), PutTags(rest[1..]));
      TagFields(mem, p, t);
    }
  }

  lemma RsdpHeld(mem: seq<byte>, p: nat, t: Tag)
    requires t.AcpiNew? && |Body(t)| >= RSDP_SIZE && Holds(mem, p, Body(t))
    ensures p + RSDP_SIZE <= |mem| && mem[p..p + RSDP_SIZE] == Take(t.rsdp, RSDP_SIZE)
  {
    assert mem[p..p + |t.rsdp|][..RSDP_SIZE] == mem[p..p + RSDP_SIZE];
  }

  lemma WalkStep(tags: seq<Tag>, k: nat, p: nat)
    requires k < |tags|
    ensures Offsets(tags[k..], p) == [p] + Offsets(tags[k + 1..], p + Padded(8 + |Body(tags[k])|))
    ensures MapOf(tags[..k + 1])
         == if tags[k].MemoryMap? then Some(Take(Usable(tags[k].entries), MAX_ENTRIES)) else MapOf(tags[..k])
    ensures RsdpOf(tags[..k + 1]) == if tags[k].AcpiNew? then Some(Take(tags[k].rsdp, RSDP_SIZE)) else RsdpOf(tags[..k])
  {
    hide Usable, Take, MapOf, RsdpOf, Body;
    assert tags[k..][1..] == tags[k + 1..];
    LastWins(tags[..k], tags[k]);
    assert tags[..k + 1] == tags[..k] + [tags[k]];
  }

  lemma {:induction false} LastWins(tags: seq<Tag>, t: Tag)
    ensures MapOf(tags + [t]) == if t.MemoryMap? then Some(Take(Usable(t.entries), MAX_ENTRIES)) else MapOf(tags)
    ensures RsdpOf(tags + [t]) == if t.AcpiNew? then Some(Take(t.rsdp, RSDP_SIZE)) else RsdpOf(tags)
  {
    hide Usable, Take;
    if tags == [] {
      assert ([] + [t])[1..] == [];
    } else {
      LastWins(tags[1..], t);
      assert (tags + [t])[1..] == tags[1..] + [t];
    }
  }

  lemma NoneUsable(es: seq<MapEntry>)
    ensures Usable(es[..0]) == []
  {
  }

  /** An entry counts if it is available and does not start in the first page. With UsableSplit this says what the
      usable entries of any map are. */
  lemma UsableOne(e: MapEntry)
    ensures Usable([]) == []
    ensures Usable([e]) == if e.kind == 1 && e.addr >= 0x1000 then [Pmm.Entry(e.addr, e.len, 0)] else []
  {
    assert [e][1..] == [];
  }
}
