/**
 * Per-endpoint mode flags: a `uint8` bit set with one defined flag,
 * MODE_HEADERS_ONLY (main.go:49-56).
 */
module Flags {

  type Bits = bv8

  /** `1 << iota` with iota = 0. */
  const HeadersOnly: Bits := 1

  /** `b | flag`: every bit of `flag` becomes set, other bits keep their value. */
  function Set(b: Bits, flag: Bits): (r: Bits)
    ensures r & flag == flag
    ensures r & !flag == b & !flag
  {
    b | flag
  }

  /** `b &^ flag`: every bit of `flag` becomes clear, other bits keep their value. */
  function Clear(b: Bits, flag: Bits): (r: Bits)
    ensures r & flag == 0
    ensures r & !flag == b & !flag
  {
    b & !flag
  }

  /** `b ^ flag`: every bit of `flag` is inverted, other bits keep their value. */
  function Toggle(b: Bits, flag: Bits): (r: Bits)
    ensures r & flag == !b & flag
    ensures r & !flag == b & !flag
  {
    b ^ flag
  }

  /** The single-bit mask of bit `i`, `1 << i`. */
  function Bit(i: nat): Bits
    requires i < 8
  {
    if i == 0 then 1 else if i == 1 then 2 else if i == 2 then 4 else if i == 3 then 8
    else if i == 4 then 16 else if i == 5 then 32 else if i == 6 then 64 else 128
  }

  /** `b & flag != 0`: some bit of `flag` is set in `b`. */
  function Has(b: Bits, flag: Bits): bool
  {
    b & flag != 0
  }

  /** `Has` bit by bit: some bit position is set both in `b` and in `flag`. */
  lemma HasSharedBit(b: Bits, flag: Bits)
    ensures Has(b, flag) <==> exists i: nat | i < 8 :: b & Bit(i) != 0 && flag & Bit(i) != 0
  {
    NonZeroHasBit(b & flag);
    forall i: nat | i < 8
      ensures (b & flag) & Bit(i) != 0 <==> b & Bit(i) != 0 && flag & Bit(i) != 0
    {
      AndBit(b, flag, i);
    }
  }

  /** A byte is non-zero exactly when one of its eight bits is set. */
  lemma NonZeroHasBit(x: Bits)
    ensures x != 0 <==> exists i: nat | i < 8 :: x & Bit(i) != 0
  {
    if x != 0 {
      if x & 1 != 0 {
        assert x & Bit(0) != 0;
      } else if x & 2 != 0 {
        assert x & Bit(1) != 0;
      } else if x & 4 != 0 {
        assert x & Bit(2) != 0;
      } else if x & 8 != 0 {
        assert x & Bit(3) != 0;
      } else if x & 16 != 0 {
        assert x & Bit(4) != 0;
      } else if x & 32 != 0 {
        assert x & Bit(5) != 0;
      } else if x & 64 != 0 {
        assert x & Bit(6) != 0;
      } else {
        assert x & Bit(7) != 0;
      }
    }
  }

  /** Bit `i` is set in `b & flag` exactly when it is set in both. */
  lemma AndBit(b: Bits, flag: Bits, i: nat)
    requires i < 8
    ensures (b & flag) & Bit(i) != 0 <==> b & Bit(i) != 0 && flag & Bit(i) != 0
  {
  }

  /** The mode byte `addUrl` attaches to a record (main.go:60-64). */
  function ModeFor(headersOnly: bool): (m: Bits)
    ensures Has(m, HeadersOnly) == headersOnly
    ensures m & !HeadersOnly == 0
  {
    if headersOnly then HeadersOnly else 0
  }

  lemma SetThenHas(b: Bits, flag: Bits)
    requires flag != 0
    ensures Has(Set(b, flag), flag)
  {
  }

  lemma ClearThenNotHas(b: Bits, flag: Bits)
    ensures !Has(Clear(b, flag), flag)
  {
  }

  lemma ToggleInvolution(b: Bits, flag: Bits)
    ensures Toggle(Toggle(b, flag), flag) == b
  {
  }

  /** Setting, clearing or toggling one flag does not affect a disjoint flag. */
  lemma OtherFlagsUnaffected(b: Bits, flag: Bits, other: Bits)
    requires flag & other == 0
    ensures Has(Set(b, flag), other) == Has(b, other)
    ensures Has(Clear(b, flag), other) == Has(b, other)
    ensures Has(Toggle(b, flag), other) == Has(b, other)
  {
    DisjointMasks(b, flag, other);
  }

  /** With `flag` and `other` disjoint, or-ing, masking out or xor-ing `flag` keeps the bits of `other`. */
  lemma DisjointMasks(b: Bits, flag: Bits, other: Bits)
    requires flag & other == 0
    ensures (b | flag) & other == b & other
    ensures (b & !flag) & other == b & other
    ensures (b ^ flag) & other == b & other
  {
  }
}
