/**
 * Byte strings. A Go `string` and a Go `[]byte` are both sequences of bytes;
 * the model writes both as `Bytes`. `Index` and `Contains` are the byte-level
 * search of Go's `strings.Index` and `strings.Contains`.
 */
module Bytes {
  import opened Wrappers

  newtype byte = b: int | 0 <= b < 256

  type Bytes = seq<byte>

  const LF: byte := 10
  const SP: byte := 32

  /**
   * The bytes of a literal such as a header name. The model applies it to
   * ASCII literals only, whose characters are their own byte values.
   */
  function Ascii(s: string): (r: Bytes)
    ensures |r| == |s|
    ensures forall i | 0 <= i < |s| && s[i] as int < 256 :: r[i] as int == s[i] as int
  {
    seq(|s|, i requires 0 <= i < |s| => if s[i] as int < 256 then s[i] as int as byte else 0)
  }

  function Min(a: int, b: int): (m: int)
    ensures m <= a && m <= b && (m == a || m == b)
  {
    if a <= b then a else b
  }

  /** `sub` occurs in `s` starting at position `i`. */
  predicate OccursAt(s: Bytes, sub: Bytes, i: int)
  {
    0 <= i && i + |sub| <= |s| && s[i..i + |sub|] == sub
  }

  lemma OccursInMiddle(a: Bytes, m: Bytes, c: Bytes)
    ensures OccursAt(a + m + c, m, |a|)
  {
    assert (a + m + c)[|a|..|a| + |m|] == m;
  }

  /** Go's `strings.Index`: the first position at which `sub` occurs in `s`. */
  function Index(s: Bytes, sub: Bytes): (r: Option<nat>)
    ensures r.Some? ==> OccursAt(s, sub, r.value)
    ensures r.Some? ==> forall j | 0 <= j < r.value :: !OccursAt(s, sub, j)
    ensures r.None? ==> forall j :: !OccursAt(s, sub, j)
    decreases |s|
  {
    if |s| < |sub| then None
    else if s[..|sub|] == sub then Some(0)
    else
      var rest := Index(s[1..], sub);
      forall j | 1 <= j ensures OccursAt(s, sub, j) == OccursAt(s[1..], sub, j - 1) {
        if j + |sub| <= |s| {
          assert s[1..][j - 1..j - 1 + |sub|] == s[j..j + |sub|];
        }
      }
      match rest
      case None => None
      case Some(k) => Some(k + 1)
  }

  /** Go's `strings.Contains`: `sub` occurs somewhere in `s`. */
  function Contains(s: Bytes, sub: Bytes): (r: bool)
    ensures r <==> exists i :: OccursAt(s, sub, i)
  {
    Index(s, sub).Some?
  }
}
