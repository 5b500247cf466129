/** Little-endian numbers in memory, as the firmware tables hold them. */
module Wire {
  import opened Bits
  import opened Memory

  function Put32(w: u32): seq<byte> { [Byte0(w), Byte1(w), Byte2(w), Byte3(w)] }

  function Get32(mem: seq<byte>, p: nat): u32
    requires p + 4 <= |mem|
  {
    WordAt(mem, p)
  }

  function Put64(n: u64): seq<byte> { Put32(n % 0x1_0000_0000) + Put32(n / 0x1_0000_0000) }

  function Get64(mem: seq<byte>, p: nat): u64
    requires p + 8 <= |mem|
  {
    Get32(mem, p) + 0x1_0000_0000 * (Get32(mem, p + 4) as nat)
  }

  /** What is written is read back, wherever it stands. */
  lemma GetPut32(mem: seq<byte>, p: nat, w: u32)
    requires p + 4 <= |mem| && mem[p..p + 4] == Put32(w)
    ensures Get32(mem, p) == w
  {
    var s := mem[p..p + 4];
    assert s[0] == mem[p] && s[1] == mem[p + 1] && s[2] == mem[p + 2] && s[3] == mem[p + 3];
    WordOfBytes(w);
  }

  lemma WordOfBytes(w: u32)
    ensures Word(Byte0(w), Byte1(w), Byte2(w), Byte3(w)) == w
  {
    assert w / 0x100 / 0x100 == w / 0x1_0000 && w / 0x1_0000 / 0x100 == w / 0x100_0000;
  }

  lemma GetPut64(mem: seq<byte>, p: nat, n: u64)
    requires p + 8 <= |mem| && mem[p..p + 8] == Put64(n)
    ensures Get64(mem, p) == n
  {
    var s := mem[p..p + 8];
    assert mem[p..p + 4] == s[..4] == Put32(n % 0x1_0000_0000);
    assert mem[p + 4..p + 8] == s[4..] == Put32(n / 0x1_0000_0000);
    GetPut32(mem, p, n % 0x1_0000_0000);
    GetPut32(mem, p + 4, n / 0x1_0000_0000);
  }

  /** Numbers stand lowest byte first. */
  lemma LittleEndian(mem: seq<byte>, p: nat)
    requires p + 8 <= |mem|
    ensures var b0: nat, b1: nat, b2: nat, b3: nat := mem[p], mem[p + 1], mem[p + 2], mem[p + 3];
            Get32(mem, p) == b0 + 0x100 * b1 + 0x1_0000 * b2 + 0x100_0000 * b3
    ensures var low: nat, high: nat := Get32(mem, p), Get32(mem, p + 4); Get64(mem, p) == low + 0x1_0000_0000 * high
  {
  }
}
