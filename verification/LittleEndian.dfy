/** Numbers as bytes, least significant first. */
module LittleEndian {
  import opened Bits

  /** The low `n` bytes of a number. */
  function LeBytes(v: nat, n: nat): (s: seq<byte>)
    ensures |s| == n
    decreases n
  {
    if n == 0 then [] else [v % 256] + LeBytes(v / 256, n - 1)
  }

  function FromLe(s: seq<byte>): u32
    requires |s| == 4
  {
    var b0: nat, b1: nat, b2: nat, b3: nat := s[0], s[1], s[2], s[3];
    b0 + 0x100 * b1 + 0x1_0000 * b2 + 0x100_0000 * b3
  }

  lemma LeFour(v: nat)
    ensures LeBytes(v, 4) == [v % 256, v / 0x100 % 256, v / 0x1_0000 % 256, v / 0x100_0000 % 256]
  {
    assert v / 256 / 256 == v / 0x1_0000 && v / 256 / 256 / 256 == v / 0x100_0000;
    assert LeBytes(v / 0x100_0000, 1) == [v / 0x100_0000 % 256] + LeBytes(v / 0x100_0000 / 256, 0);
    assert LeBytes(v / 0x1_0000, 2) == [v / 0x1_0000 % 256] + LeBytes(v / 0x1_0000 / 256, 1);
    assert LeBytes(v / 256, 3) == [v / 256 % 256] + LeBytes(v / 256 / 256, 2);
  }

  /** A word survives being stored and loaded. */
  lemma RoundTrip32(v: u32)
    ensures FromLe(LeBytes(v, 4)) == v
  {
    hide LeBytes;
    LeFour(v);
    assert v / 256 / 256 == v / 0x1_0000 && v / 0x1_0000 / 256 == v / 0x100_0000;
  }
}
