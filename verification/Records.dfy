/**
 * The sixteen-bit length arithmetic of src/regwr_cb.c: how many bytes or records a transfer
 * asks for, given what the size register answered.
 */
module Records {
  import opened Bits

  const INT_MAX := 0x7FFF_FFFF

  function Min(a: nat, b: nat): nat { if a < b then a else b }

  /** (uint16_t)n */
  function U16(n: nat): u16 { n % 0x1_0000 }

  /** How many bytes a transfer of `want` asks for when the query answered `seen`. */
  function TakeLen(seen: nat, want: nat): u16 { Min(U16(want), seen) }

  /** How many whole records it asks for, and the 16-bit byte count that goes on the line. */
  function GranCount(seen: nat, gran: nat, nmemb: nat): u16
    requires gran > 0
  {
    Min(U16(nmemb), seen / gran)
  }

  function GranLen(seen: nat, gran: nat, nmemb: nat): u16
    requires gran > 0
  {
    U16(GranCount(seen, gran, nmemb) * gran)
  }

  // ------------------------------------------------------------ record arithmetic

  lemma GranFits(seen: nat, gran: nat, nmemb: nat)
    requires gran > 0
    ensures GranCount(seen, gran, nmemb) * gran <= seen
    ensures GranLen(seen, gran, nmemb) <= seen
    ensures GranCount(seen, gran, nmemb) * gran <= U16(nmemb) * gran
  {
    var n, most := GranCount(seen, gran, nmemb), U16(nmemb);
    MulMonotone(n, seen / gran, gran);
    MulMonotone(n, most, gran);
    assert seen / gran * gran + seen % gran == seen;
    ModSmaller(n * gran);
  }

  /** The count and the length as the code computes them. */
  lemma Computed(seen: nat, gran: nat, nmemb: nat)
    requires gran > 0
    ensures GranCount(seen, gran, nmemb) == if seen / gran > U16(nmemb) then U16(nmemb) else seen / gran
    ensures GranLen(seen, gran, nmemb) == U16(GranCount(seen, gran, nmemb) * gran)
    ensures GranLen(seen, gran, nmemb) <= seen && GranLen(seen, gran, nmemb) <= U16(nmemb) * gran
    ensures seen == 0 ==> GranCount(seen, gran, nmemb) == 0
    ensures GranCount(seen, gran, nmemb) == 0 ==> GranLen(seen, gran, nmemb) == 0
  {
    GranFits(seen, gran, nmemb);
    ModSmaller(GranCount(seen, gran, nmemb) * gran);
  }

  lemma ModSmaller(n: nat)
    ensures n % 0x1_0000 <= n
  {
  }

  /** The byte count covers whole records in every answer of the ring exactly when the request is under 64 KiB. */
  lemma WholeRecords(gran: nat, nmemb: nat)
    requires 0 < gran <= INT_MAX
    ensures (forall seen: nat :: seen <= INT_MAX ==>
               GranLen(seen, gran, nmemb) == GranCount(seen, gran, nmemb) * gran)
            <==> U16(nmemb) * gran < 0x1_0000
  {
    hide GranCount, GranLen;
    if U16(nmemb) * gran < 0x1_0000 {
      forall seen: nat | seen <= INT_MAX
        ensures GranLen(seen, gran, nmemb) == GranCount(seen, gran, nmemb) * gran
      {
        GranFits(seen, gran, nmemb);
        Computed(seen, gran, nmemb);
        Unwrapped(GranCount(seen, gran, nmemb) * gran);
      }
    } else {
      var n := Overflowing(gran, U16(nmemb));
      var seen := n * gran;
      DivModUnique(seen, n, 0, gran);
      Computed(seen, gran, nmemb);
      assert GranCount(seen, gran, nmemb) == n && GranLen(seen, gran, nmemb) < 0x1_0000 <= seen;
    }
  }

  lemma Unwrapped(n: nat)
    requires n < 0x1_0000
    ensures U16(n) == n
  {
  }

  /** Some count within the request already needs more than sixteen bits. */
  lemma Overflowing(gran: nat, most: u16) returns (n: nat)
    requires 0 < gran <= INT_MAX && most * gran >= 0x1_0000
    ensures 0 < n <= most && 0x1_0000 <= n * gran <= INT_MAX
    ensures n == 1 || (n - 1) * gran < 0x1_0000
  {
    n := 1;
    while n * gran < 0x1_0000
      invariant 1 <= n <= most && (n == 1 || (n - 1) * gran < 0x1_0000)
      decreases most - n
    {
      if n == most { assert false; }
      n := n + 1;
    }
    if n > 1 {
      assert n * gran == (n - 1) * gran + gran;
      if gran >= 0x1_0000 {
        MulMonotone(1, n - 1, gran);
        assert false;
      }
    }
  }

  // ------------------------------------------------------------ record boundaries

  /** No answer of the ring can make a request for `nmemb` records end inside a record. */
  predicate KeepsBoundaries(gran: nat, nmemb: nat)
    requires gran > 0
  {
    U16(nmemb) * gran < 0x1_0000 || 0x1_0000 % gran == 0 || gran % 0x1_0000 == 0 || gran > INT_MAX
  }

  /** The byte count of a transfer is a multiple of the granularity whenever the request keeps boundaries. */
  lemma WholeMultiple(seen: nat, gran: nat, nmemb: nat) returns (k: nat)
    requires gran > 0 && seen <= INT_MAX && KeepsBoundaries(gran, nmemb)
    ensures GranLen(seen, gran, nmemb) == k * gran
  {
    GranFits(seen, gran, nmemb);
    Computed(seen, gran, nmemb);
    var n := GranCount(seen, gran, nmemb);
    hide GranCount, GranLen;
    if U16(nmemb) * gran < 0x1_0000 {
      Unwrapped(n * gran);
      hide U16;
      k := n;
    } else if gran > INT_MAX {
      NoneFits(n, gran, seen);
      k := 0;
    } else if gran % 0x1_0000 == 0 {
      WholeWraps(n, gran);
      k := 0;
    } else {
      k := WrapsWhole(n, gran);
    }
  }

  lemma NoneFits(n: nat, gran: nat, seen: nat)
    requires n * gran <= seen < gran
    ensures n == 0
  {
    if n > 0 {
      MulMonotone(1, n, gran);
    }
  }

  /** A granularity that is itself a multiple of 2^16 always wraps to nothing. */
  lemma WholeWraps(n: nat, gran: nat)
    requires gran % 0x1_0000 == 0
    ensures U16(n * gran) == 0
  {
    var g := gran / 0x1_0000;
    assert n * gran == n * g * 0x1_0000;
    DivModUnique(n * gran, n * g, 0, 0x1_0000);
  }

  lemma NotNegative(x: int, gran: nat)
    requires x * gran >= 0 && gran > 0
    ensures x >= 0
  {
  }

  /** A granularity that divides 2^16 wraps by whole records. */
  lemma WrapsWhole(n: nat, gran: nat) returns (k: nat)
    requires gran > 0 && 0x1_0000 % gran == 0
    ensures U16(n * gran) == k * gran
  {
    var m, t := 0x1_0000 / gran, n * gran / 0x1_0000;
    assert m * gran == 0x1_0000 by { assert 0x1_0000 == m * gran + 0x1_0000 % gran; }
    assert U16(n * gran) == n * gran - t * 0x1_0000;
    assert t * 0x1_0000 == t * m * gran by { assert t * (m * gran) == t * m * gran; }
    assert (n - t * m) * gran == n * gran - t * m * gran;
    NotNegative(n - t * m, gran);
    k := n - t * m;
  }

  /** Otherwise some answer makes the byte count end inside a record. */
  lemma EndsInside(gran: nat, nmemb: nat) returns (seen: nat)
    requires gran > 0 && !KeepsBoundaries(gran, nmemb)
    ensures seen <= INT_MAX && 0 < GranCount(seen, gran, nmemb) && GranLen(seen, gran, nmemb) % gran != 0
  {
    var n := Overflowing(gran, U16(nmemb));
    seen := n * gran;
    DivModUnique(seen, n, 0, gran);
    assert GranCount(seen, gran, nmemb) == n;
    RemainderInside(n, gran);
  }

  lemma RemainderInside(n: nat, gran: nat)
    requires 0 < n && 0 < gran && 0x1_0000 <= n * gran && (n == 1 || (n - 1) * gran < 0x1_0000)
    requires 0x1_0000 % gran != 0 && gran % 0x1_0000 != 0
    ensures U16(n * gran) % gran != 0
  {
    if n == 1 {
      var r := gran % 0x1_0000;
      DivModUnique(r, 0, r, gran);
    } else {
      assert n * gran == (n - 1) * gran + gran;
      var r := n * gran - 0x1_0000;
      assert 0 <= r < gran;
      if gran > 0x1_0000 {
        MulMonotone(1, n - 1, gran);
        assert false;
      }
      DivModUnique(n * gran, 1, r, 0x1_0000);
      if r == 0 {
        DivModUnique(0x1_0000, n, 0, gran);
        assert false;
      }
      DivModUnique(r, 0, r, gran);
    }
  }

  /** The records of this program never lose their boundaries; twelve-byte ones would. */
  lemma SixteenAndTwelve(nmemb: nat)
    ensures KeepsBoundaries(16, nmemb) && !KeepsBoundaries(12, 5462)
  {
  }
}
