/**
 * The byte transforms of the reconstruction: XOR of two pixel buffers,
 * per-byte circular rotation to the left and to the right, and the modular
 * addition of a mask into a window of an image.
 *
 * Every transform allocates a fresh buffer and fills it in a loop; each method
 * is proved against a function on sequences, and the properties of the
 * transforms (self-inverse XOR, rotation round trips) are lemmas about those
 * functions.
 */
module Operaciones {
  import opened Wrappers

  type Bytes = seq<bv8>

  /** The largest rotation the classifier tries (operaciones.h). */
  const MAX_BITS: nat := 8

  /** The contents of a possibly null buffer, read up to `n` bytes. */
  function Prefix(a: array?<bv8>, n: nat): (r: Option<Bytes>)
    reads a
    requires a != null ==> a.Length >= n
  {
    if a == null then None else Some(a[..n])
  }

  /** The contents of a possibly null array. */
  function View<T>(a: array?<T>): (r: Option<seq<T>>)
    reads a
  {
    if a == null then None else Some(a[..])
  }

  /**
   * The number of mask bytes the loop `for k < maskSize && seed + k < total`
   * visits: exactly the k with k < maskSize and seed + k < total.
   */
  function CoveredCount(seed: nat, total: nat, maskSize: nat): (r: nat)
    ensures r <= maskSize
    ensures r > 0 ==> seed + r <= total
    ensures r == maskSize || seed + r >= total
  {
    if seed >= total then 0
    else if maskSize <= total - seed then maskSize
    else total - seed
  }

  // ---------------------------------------------------------------------------
  // Byte level

  /**
   * `(x << n) | (x >> (8 - n))` as the C++ computes it: the byte is promoted to
   * int, shifted, and the result truncated to 8 bits on assignment. Truncation
   * distributes over `|`, so the 8-bit shifts below give the same byte; for
   * n == 8 the promoted `x << 8` loses all its bits in the truncation.
   */
  function RotlByte(x: bv8, n: nat): bv8
    requires n <= 8
  {
    (x << n) | (x >> (8 - n))
  }

  /** `(x >> n) | (x << (8 - n))`, promoted and truncated in the same way. */
  function RotrByte(x: bv8, n: nat): bv8
    requires n <= 8
  {
    (x >> n) | (x << (8 - n))
  }

  /** Below the full width, the shift-or formulas are the circular rotations of the byte. */
  lemma ShiftOrIsRotation(x: bv8, n: nat)
    requires n < 8
    ensures RotlByte(x, n) == x.RotateLeft(n)
    ensures RotrByte(x, n) == x.RotateRight(n)
  {
    if n == 0 {
    } else if n == 1 {
    } else if n == 2 {
    } else if n == 3 {
    } else if n == 4 {
    } else if n == 5 {
    } else if n == 6 {
    } else {
    }
  }

  lemma RotlThenRotrByte(x: bv8, n: nat)
    requires n <= 8
    ensures RotrByte(RotlByte(x, n), n) == x
    ensures RotlByte(RotrByte(x, n), n) == x
  {
    if n == 0 {
    } else if n == 1 {
    } else if n == 2 {
    } else if n == 3 {
    } else if n == 4 {
    } else if n == 5 {
    } else if n == 6 {
    } else if n == 7 {
    } else {
    }
  }

  // ---------------------------------------------------------------------------
  // Buffer level: the specifications of the transforms

  /** `(x + m) % 256` computed in int and truncated back to a byte. */
  function AddModByte(x: bv8, m: bv8): bv8
  {
    ((x as int + m as int) % 256) as bv8
  }

  function XorBytes(a: Bytes, b: Bytes): (r: Bytes)
    requires |a| == |b|
  {
    seq(|a|, i requires 0 <= i < |a| => a[i] ^ b[i])
  }

  /** DoXOR on possibly null operands: null when either operand is null. */
  function XorOpt(a: Option<Bytes>, b: Option<Bytes>): (r: Option<Bytes>)
    requires a.Some? && b.Some? ==> |a.value| == |b.value|
  {
    if a.None? || b.None? then None else Some(XorBytes(a.value, b.value))
  }

  function RotateLeftBytes(s: Bytes, n: nat): (r: Bytes)
    requires n <= 8
  {
    seq(|s|, i requires 0 <= i < |s| => RotlByte(s[i], n))
  }

  function RotateRightBytes(s: Bytes, n: nat): (r: Bytes)
    requires n <= 8
  {
    seq(|s|, i requires 0 <= i < |s| => RotrByte(s[i], n))
  }

  /**
   * The image with `mask[k]` added modulo 256 to the byte at `offset + k`
   * for every k < maskSize that stays inside the image.
   */
  function AddMaskModular(img: Bytes, mask: Bytes, offset: nat, maskSize: nat): (r: Bytes)
    requires |mask| >= CoveredCount(offset, |img|, maskSize)
  {
    seq(|img|, i requires 0 <= i < |img| =>
      if offset <= i && i - offset < maskSize
      then AddModByte(img[i], mask[i - offset])
      else img[i])
  }

  // ---------------------------------------------------------------------------
  // Properties of the transforms

  /** XOR with the same operand undoes itself. */
  lemma XorSelfInverse(a: Bytes, b: Bytes)
    requires |a| == |b|
    ensures XorBytes(XorBytes(a, b), b) == a
  {
    var x := XorBytes(a, b);
    forall i | 0 <= i < |a|
      ensures XorBytes(x, b)[i] == a[i]
    {
      assert x[i] == a[i] ^ b[i];
    }
  }

  /** Rotating right by n undoes rotating left by n, and the other way round. */
  lemma RotationRoundTrip(s: Bytes, n: nat)
    requires n <= 8
    ensures RotateRightBytes(RotateLeftBytes(s, n), n) == s
    ensures RotateLeftBytes(RotateRightBytes(s, n), n) == s
  {
    var l, r := RotateLeftBytes(s, n), RotateRightBytes(s, n);
    forall i | 0 <= i < |s|
      ensures RotateRightBytes(l, n)[i] == s[i] && RotateLeftBytes(r, n)[i] == s[i]
    {
      RotlThenRotrByte(s[i], n);
    }
  }

  /** A rotation by the full byte width leaves every byte as it is. */
  lemma FullWidthRotationIsIdentity(s: Bytes)
    ensures RotateLeftBytes(s, 8) == s
    ensures RotateRightBytes(s, 8) == s
  {
  }

  /** For 1 <= n <= 7, rotating left by n is rotating right by 8 - n. */
  lemma LeftIsComplementRight(s: Bytes, n: nat)
    requires 1 <= n <= 7
    ensures RotateLeftBytes(s, n) == RotateRightBytes(s, 8 - n)
  {
  }

  /** Inside the window the mask is added modulo 256; outside it the image is kept. */
  lemma AddMaskModularAt(img: Bytes, mask: Bytes, offset: nat, maskSize: nat)
    requires |mask| >= CoveredCount(offset, |img|, maskSize)
    ensures |AddMaskModular(img, mask, offset, maskSize)| == |img|
    ensures forall k :: 0 <= k < maskSize && offset + k < |img| ==>
      AddMaskModular(img, mask, offset, maskSize)[offset + k] == AddModByte(img[offset + k], mask[k])
    ensures forall i :: 0 <= i < |img| && !(offset <= i < offset + maskSize) ==>
      AddMaskModular(img, mask, offset, maskSize)[i] == img[i]
  {
    var r := AddMaskModular(img, mask, offset, maskSize);
    forall k | 0 <= k < maskSize && offset + k < |img|
      ensures r[offset + k] == AddModByte(img[offset + k], mask[k])
    {
      var i := offset + k;
      assert i - offset == k;
    }
  }

  /**
   * A buffer that holds the image outside the first k window bytes and the
   * modular sums inside them is AddMaskModular once k covers the window.
   */
  lemma WindowAddedIsAddMaskModular(r: Bytes, img: Bytes, mask: Bytes, offset: nat, maskSize: nat, k: nat)
    requires |r| == |img|
    requires |mask| >= CoveredCount(offset, |img|, maskSize)
    requires k == CoveredCount(offset, |img|, maskSize)
    requires forall j :: 0 <= j < |img| && !(offset <= j < offset + k) ==> r[j] == img[j]
    requires forall j :: 0 <= j < k ==> r[offset + j] == AddModByte(img[offset + j], mask[j])
    ensures r == AddMaskModular(img, mask, offset, maskSize)
  {
    var spec := AddMaskModular(img, mask, offset, maskSize);
    forall i | 0 <= i < |img|
      ensures r[i] == spec[i]
    {
      if offset <= i && i - offset < maskSize {
        assert r[offset + (i - offset)] == AddModByte(img[i], mask[i - offset]);
      }
    }
  }

  // ---------------------------------------------------------------------------
  // The transforms as the C++ runs them

  /** DoXOR (operaciones.cpp:15-25). */
  method DoXor(img1: array?<bv8>, img2: array?<bv8>, width: nat, height: nat) returns (result: array?<bv8>)
    requires img1 != null && img2 != null ==> img1.Length >= width * height * 3 && img2.Length >= width * height * 3
    ensures img1 == null || img2 == null ==> result == null
    ensures img1 != null && img2 != null ==>
      result != null && fresh(result) && result[..] == XorBytes(img1[..width * height * 3], img2[..width * height * 3])
  {
    if img1 == null || img2 == null {
      return null;
    }
    var totalPixels := width * height * 3;
    var r := new bv8[totalPixels];
    for i := 0 to totalPixels
      invariant forall j :: 0 <= j < i ==> r[j] == img1[j] ^ img2[j]
    {
      r[i] := img1[i] ^ img2[i];
    }
    assert r[..] == XorBytes(img1[..totalPixels], img2[..totalPixels]);
    return r;
  }

  /** RotarDerecha (operaciones.cpp:37-43). */
  method RotarDerecha(img: array<bv8>, numPixels: nat, n: nat) returns (result: array<bv8>)
    requires n <= 8
    requires img.Length >= numPixels * 3
    ensures fresh(result)
    ensures result[..] == RotateRightBytes(img[..numPixels * 3], n)
  {
    result := new bv8[numPixels * 3];
    for i := 0 to numPixels * 3
      invariant forall j :: 0 <= j < i ==> result[j] == RotrByte(img[j], n)
    {
      result[i] := (img[i] >> n) | (img[i] << (8 - n));
    }
  }

  /** RotarIzquierda (operaciones.cpp:54-60). */
  method RotarIzquierda(img: array<bv8>, numPixels: nat, n: nat) returns (result: array<bv8>)
    requires n <= 8
    requires img.Length >= numPixels * 3
    ensures fresh(result)
    ensures result[..] == RotateLeftBytes(img[..numPixels * 3], n)
  {
    result := new bv8[numPixels * 3];
    for i := 0 to numPixels * 3
      invariant forall j :: 0 <= j < i ==> result[j] == RotlByte(img[j], n)
    {
      result[i] := (img[i] << n) | (img[i] >> (8 - n));
    }
  }

  /** SumarMascara (operaciones.cpp:78-96): copy the image, then add the mask into the window. */
  method SumarMascara(img: array<bv8>, mask: array<bv8>, width: nat, height: nat, maskWidth: nat, maskHeight: nat, offset: nat)
    returns (result: array<bv8>)
    requires img.Length >= width * height * 3
    requires mask.Length >= CoveredCount(offset, width * height * 3, maskWidth * maskHeight * 3)
    ensures fresh(result)
    ensures result[..] == AddMaskModular(img[..width * height * 3], mask[..], offset, maskWidth * maskHeight * 3)
  {
    result := CopyAndAddWindow(img, mask, width * height * 3, maskWidth * maskHeight * 3, offset);
  }

  /** The two loops of SumarMascara, over the byte counts of the image and of the mask. */
  method CopyAndAddWindow(img: array<bv8>, mask: array<bv8>, totalPixels: nat, maskSize: nat, offset: nat)
    returns (result: array<bv8>)
    requires img.Length >= totalPixels
    requires mask.Length >= CoveredCount(offset, totalPixels, maskSize)
    ensures fresh(result)
    ensures result[..] == AddMaskModular(img[..totalPixels], mask[..], offset, maskSize)
  {
    result := new bv8[totalPixels];
    for i := 0 to totalPixels
      invariant forall j :: 0 <= j < i ==> result[j] == img[j]
    {
      result[i] := img[i];
    }
    ghost var src := img[..totalPixels];
    ghost var msk := mask[..];
    var pos := offset;
    var k := 0;
    while k < maskSize && pos + k < totalPixels
      invariant 0 <= k <= CoveredCount(offset, totalPixels, maskSize)
      invariant forall j :: 0 <= j < totalPixels && !(pos <= j < pos + k) ==> result[j] == src[j]
      invariant forall j :: 0 <= j < k ==> result[pos + j] == AddModByte(src[pos + j], msk[j])
    {
      result[pos + k] := AddModByte(img[pos + k], mask[k]);
      k := k + 1;
    }
    WindowAddedIsAddMaskModular(result[..], src, msk, offset, maskSize, k);
  }
}
