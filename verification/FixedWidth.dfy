/**
 Fixed-width big-endian integers: the r || s form of an ECDSA signature
 (XML Signature 1.1 section 6.4.3; RFC 8017 section 4.1).
 */
module FixedWidth {
  import opened Common
  import opened Bytes

  function Pow256(w: nat): nat {
    if w == 0 then 1 else 256 * Pow256(w - 1)
  }

  function Pow2(n: nat): nat {
    if n == 0 then 1 else 2 * Pow2(n - 1)
  }

  function BitLen(n: nat): nat {
    if n == 0 then 0 else 1 + BitLen(n / 2)
  }

  function Width(order: nat): nat {
    (BitLen(order) + 7) / 8
  }

  /** I2OSP: the last byte is the least significant. */
  function BigEndian(v: nat, w: nat): (b: bytes)
    ensures |b| == w
  {
    if w == 0 then [] else BigEndian(v / 256, w - 1) + [v % 256]
  }

  /** OS2IP. */
  function Value(b: bytes): nat {
    if b == [] then 0 else 256 * Value(b[..|b| - 1]) + b[|b| - 1]
  }

  lemma {:induction false} ValueInvertsBigEndian(v: nat, w: nat)
    requires v < Pow256(w)
    ensures Value(BigEndian(v, w)) == v
  {
    if w > 0 {
      ValueInvertsBigEndian(v / 256, w - 1);
      assert BigEndian(v, w)[..w - 1] == BigEndian(v / 256, w - 1);
    }
  }

  /** Octets by place value: those in front weigh 256 to the number of those behind, and one octet is itself. */
  lemma {:induction false} ValueByPlace(a: bytes, b: bytes)
    ensures Value(a + b) == Value(a) * Pow256(|b|) + Value(b)
    ensures |b| == 1 ==> Value(b) == b[0]
    decreases |b|
  {
    if b == [] {
      assert a + b == a;
    } else {
      var front, last := b[..|b| - 1], b[|b| - 1];
      ValueByPlace(a, front);
      assert (a + b)[..|a + b| - 1] == a + front && (a + b)[|a + b| - 1] == last;
      Shifted(Value(a), Pow256(|front|), Value(front));
    }
  }

  lemma Shifted(x: nat, p: nat, y: nat)
    ensures 256 * (x * p + y) == x * (256 * p) + 256 * y
  {
    assert 256 * (x * p) == x * (256 * p);
  }

  lemma {:induction false} BitLenBounds(n: nat)
    ensures n < Pow2(BitLen(n))
    ensures n > 0 ==> BitLen(n) > 0 && Pow2(BitLen(n) - 1) <= n
  {
    if n > 1 {
      BitLenBounds(n / 2);
    }
  }

  lemma {:induction false} Pow2Grows(m: nat, n: nat)
    requires m <= n
    ensures Pow2(m) <= Pow2(n)
    decreases n
  {
    if m < n {
      Pow2Grows(m, n - 1);
    }
  }

  lemma {:induction false} BytesAreEightBits(w: nat)
    ensures Pow256(w) == Pow2(8 * w)
  {
    if w > 0 {
      BytesAreEightBits(w - 1);
      var n := 8 * (w - 1);
      assert Pow2(n + 1) == 2 * Pow2(n) && Pow2(n + 2) == 2 * Pow2(n + 1);
      assert Pow2(n + 3) == 2 * Pow2(n + 2) && Pow2(n + 4) == 2 * Pow2(n + 3);
      assert Pow2(n + 5) == 2 * Pow2(n + 4) && Pow2(n + 6) == 2 * Pow2(n + 5);
      assert Pow2(n + 7) == 2 * Pow2(n + 6) && Pow2(n + 8) == 2 * Pow2(n + 7);
    }
  }

  /** The width is exactly enough: the order fits, and would not fit in one byte less. */
  lemma WidthIsTight(order: nat)
    requires order > 0
    ensures Width(order) > 0 && Pow256(Width(order) - 1) <= order < Pow256(Width(order))
  {
    var w := Width(order);
    BitLenBounds(order);
    BytesAreEightBits(w);
    BytesAreEightBits(w - 1);
    Pow2Grows(BitLen(order), 8 * w);
    Pow2Grows(8 * (w - 1), BitLen(order) - 1);
  }

  /** Fills a[lo..hi] from the end; the caller owes that the value fits. */
  method FillBytes(a: array<byte>, lo: nat, hi: nat, value: nat)
    requires lo <= hi <= a.Length && value < Pow256(hi - lo)
    modifies a
    ensures a[..] == old(a[..lo]) + BigEndian(value, hi - lo) + old(a[hi..])
  {
    var v := value;
    var i := hi;
    while i > lo
      invariant lo <= i <= hi
      invariant a[..i] == old(a[..i])
      invariant BigEndian(value, hi - lo) == BigEndian(v, i - lo) + a[i..hi]
      invariant a[hi..] == old(a[hi..])
    {
      i := i - 1;
      ghost var tail := a[i + 1..hi];
      a[i] := v % 256;
      assert a[i + 1..hi] == tail;
      assert a[i..hi] == [v % 256] + tail;
      v := v / 256;
    }
    assert a[..] == a[..lo] + a[lo..hi] + a[hi..];
  }

  /** An ECDSA signature as r || s, each half as wide as the group order; refused unless 0 < r, s < order. */
  method EncodeRS(r: int, s: int, order: nat) returns (signature: Option<bytes>)
    ensures signature.Some? <==> 0 < r < order && 0 < s < order
    ensures signature.Some? ==> var w := Width(order);
      && |signature.value| == 2 * w
      && Value(signature.value[..w]) == r && Value(signature.value[w..]) == s
  {
    if r <= 0 || s <= 0 || r >= order || s >= order {
      return None;
    }
    WidthIsTight(order);
    var width := Width(order);
    var buffer := new byte[2 * width](_ => 0);
    FillBytes(buffer, 0, width, r);
    assert buffer[..width] == BigEndian(r, width);
    FillBytes(buffer, width, 2 * width, s);
    signature := Some(buffer[..]);
    HalvesRecovered(signature.value, r, s, width);
  }

  lemma HalvesRecovered(signature: bytes, r: nat, s: nat, width: nat)
    requires signature == BigEndian(r, width) + BigEndian(s, width)
    requires r < Pow256(width) && s < Pow256(width)
    ensures Value(signature[..width]) == r && Value(signature[width..]) == s
  {
    ValueInvertsBigEndian(r, width);
    ValueInvertsBigEndian(s, width);
    assert signature[..width] == BigEndian(r, width) && signature[width..] == BigEndian(s, width);
  }
}
