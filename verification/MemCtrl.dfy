/**
 * Byte-order helpers of src/general/inc/memctrl.h: the exclusive-or swap that reverses
 * a field in place, and the big-endian store and load built on it.
 */
module MemCtrl {
  import opened Bits

  function XorByte(a: byte, b: byte): byte {
    Pow2Values(); XorFits(a, b, 8);
    Xor(a, b)
  }

  /** _byte_order_change: reverses p[base..base + len] with three exclusive-ors a pair. */
  method ByteOrderChange(p: array<byte>, base: nat, len: nat)
    requires base + len <= p.Length
    modifies p
    ensures forall k :: 0 <= k < p.Length ==>
              p[k] == if base <= k < base + len then old(p[2 * base + len - 1 - k]) else old(p[k])
  {
    var i := 0;
    while i < len / 2
      invariant 0 <= i <= len / 2
      invariant forall k :: 0 <= k < p.Length ==>
                  p[k] == if base <= k < base + i || base + len - i <= k < base + len
                          then old(p[2 * base + len - 1 - k]) else old(p[k])
    {
      var hi, lo := base + len - i - 1, base + i;
      SwapByXor(p[hi], p[lo]);
      p[hi] := XorByte(p[hi], p[lo]);
      p[lo] := XorByte(p[lo], p[hi]);
      p[hi] := XorByte(p[hi], p[lo]);
      i := i + 1;
    }
  }

  /** The three assignments of the exclusive-or swap exchange the two bytes. */
  lemma SwapByXor(x: byte, y: byte)
    ensures XorByte(y, XorByte(x, y)) == x
    ensures XorByte(XorByte(x, y), x) == y
  {
    hide Xor;
    XorCancel(x, y);
    XorCancel(y, x);
    XorComm(x, y);
    XorComm(y, Xor(x, y));
  }

  // ------------------------------------------------------------ sixteen-bit fields

  function Big16(hi: byte, lo: byte): u16 { 256 * hi + lo }

  /** A two-byte field as the frame carries it, most significant byte first. */
  function BigBytes(v: u16): (s: seq<byte>)
    ensures |s| == 2 && Big16(s[0], s[1]) == v
  {
    [v / 256, v % 256]
  }

  lemma BigBytesUnique(v: u16, s: seq<byte>)
    requires |s| == 2
    ensures s == BigBytes(v) <==> Big16(s[0], s[1]) == v
  {
  }

  /** SET_MEM_VAL_TYPE_SYSTEM_TO_BIG for uint16_t: a host-order store, reversed on a little-endian host. */
  method StoreBig16(p: array<byte>, at: nat, v: u16, bigHost: bool)
    requires at + 2 <= p.Length
    modifies p
    ensures p[at..at + 2] == BigBytes(v)
    ensures forall k :: 0 <= k < p.Length && !(at <= k < at + 2) ==> p[k] == old(p[k])
  {
    if bigHost {
      p[at], p[at + 1] := v / 256, v % 256;
    } else {
      p[at], p[at + 1] := v % 256, v / 256;
      ByteOrderChange(p, at, 2);
      assert p[at] == v / 256 && p[at + 1] == v % 256;
    }
  }

  /** SET_MEM_VAL_TYPE_BIG_TO_SYSTEM for uint16_t, reading through a host-order copy. */
  method LoadBig16(p: array<byte>, at: nat, bigHost: bool) returns (v: u16)
    requires at + 2 <= p.Length
    ensures v == Big16(p[at], p[at + 1])
  {
    var copy := new byte[2];
    copy[0], copy[1] := p[at], p[at + 1];
    if bigHost {
      v := Big16(copy[0], copy[1]);
    } else {
      ByteOrderChange(copy, 0, 2);
      v := Big16(copy[1], copy[0]);
    }
  }
}
