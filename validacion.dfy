/**
 * The mask-sum validator and the three validators that compose one transform
 * with it.
 *
 * A stage's check compares, for every mask byte k that lands inside the image
 * (position `seed + k`), the plain sum `image[seed + k] + mask[k]` against the
 * expected value loaded for that stage. The sum is NOT reduced modulo 256.
 */
module Validacion {
  import opened Wrappers
  import opened Operaciones

  /** The expected values are `unsigned int` in the source. */
  type uint32 = x: int | 0 <= x < 0x1_0000_0000

  /**
   * The data of one stage's check: the mask image, the expected sums (either
   * may be a null pointer), the seed offset and the mask size in bytes
   * (mask width * mask height * 3).
   */
  datatype MaskCheck = MaskCheck(mask: Option<Bytes>, expected: Option<seq<uint32>>, seed: nat, maskSize: nat)
  {
    /**
     * The validator reads `mask[k]` and `expected[k]` for every covered k, so
     * both must be at least that long when present (shorter arrays are
     * undefined behaviour in the source).
     */
    predicate SizedFor(total: nat)
    {
      mask.Some? && expected.Some? ==>
        |mask.value| >= CoveredCount(seed, total, maskSize) && |expected.value| >= CoveredCount(seed, total, maskSize)
    }
  }

  /** The check a validator call performs, read from its (possibly null) mask and expected-data arrays. */
  function CheckOf(mask: array?<bv8>, datosMascara: array?<uint32>, semilla: nat, maskAncho: nat, maskAlto: nat): (c: MaskCheck)
    reads mask, datosMascara
  {
    MaskCheck(View(mask), View(datosMascara), semilla, maskAncho * maskAlto * 3)
  }

  /** The plain int sum of the image byte at `seed + k` and mask byte k, as the validator computes it. */
  function CoveredSum(img: Bytes, mask: Bytes, seed: nat, k: nat): int
    requires seed + k < |img| && k < |mask|
  {
    img[seed + k] as int + mask[k] as int
  }

  /** Every covered byte has exactly the expected (unreduced) sum. */
  predicate MaskSumHolds(img: Bytes, mask: Bytes, expected: seq<uint32>, seed: nat, maskSize: nat)
    requires |mask| >= CoveredCount(seed, |img|, maskSize)
    requires |expected| >= CoveredCount(seed, |img|, maskSize)
  {
    forall k {:trigger CoveredSum(img, mask, seed, k)} :: 0 <= k < maskSize && seed + k < |img| ==>
      CoveredSum(img, mask, seed, k) == expected[k] as int
  }

  /** ValidarSumaMascara as a predicate: false when any of the three buffers is null. */
  predicate MaskSumValid(buf: Option<Bytes>, c: MaskCheck)
    requires buf.Some? ==> c.SizedFor(|buf.value|)
  {
    buf.Some? && c.mask.Some? && c.expected.Some? &&
    MaskSumHolds(buf.value, c.mask.value, c.expected.value, c.seed, c.maskSize)
  }

  /** validarXOR: XOR the current image with I_M, then check the mask sum. */
  predicate XorPasses(cur: Option<Bytes>, im: Option<Bytes>, c: MaskCheck)
    requires cur.Some? && im.Some? ==> |cur.value| == |im.value|
    requires cur.Some? ==> c.SizedFor(|cur.value|)
  {
    MaskSumValid(XorOpt(cur, im), c)
  }

  /** validarRotarIzquierda: rotate every byte left by `bits`, then check. */
  predicate RotateLeftPasses(cur: Bytes, bits: nat, c: MaskCheck)
    requires bits <= 8
    requires c.SizedFor(|cur|)
  {
    MaskSumValid(Some(RotateLeftBytes(cur, bits)), c)
  }

  /** validarRotarDerecha: rotate every byte right by `bits`, then check. */
  predicate RotateRightPasses(cur: Bytes, bits: nat, c: MaskCheck)
    requires bits <= 8
    requires c.SizedFor(|cur|)
  {
    MaskSumValid(Some(RotateRightBytes(cur, bits)), c)
  }

  /** The expected sums that a correct stage file holds for `img`: `img[seed + k] + mask[k]`. */
  function ConstructedExpected(img: Bytes, mask: Bytes, seed: nat, maskSize: nat): (e: seq<uint32>)
    requires |mask| >= CoveredCount(seed, |img|, maskSize)
    ensures |e| == CoveredCount(seed, |img|, maskSize)
  {
    seq(CoveredCount(seed, |img|, maskSize), k requires 0 <= k < CoveredCount(seed, |img|, maskSize) =>
      img[seed + k] as int + mask[k] as int)
  }

  // ---------------------------------------------------------------------------
  // Properties of the validator

  /** Expected data built from the image itself always passes. */
  lemma ConstructedExpectedPasses(img: Bytes, mask: Bytes, seed: nat, maskSize: nat)
    requires |mask| >= CoveredCount(seed, |img|, maskSize)
    ensures MaskSumHolds(img, mask, ConstructedExpected(img, mask, seed, maskSize), seed, maskSize)
  {
    var e := ConstructedExpected(img, mask, seed, maskSize);
    forall k | 0 <= k < maskSize && seed + k < |img|
      ensures CoveredSum(img, mask, seed, k) == e[k] as int
    {
      assert k < CoveredCount(seed, |img|, maskSize);
    }
  }

  /** A seed at or past the end of the image covers no byte, so the check succeeds vacuously. */
  lemma SeedPastEndPasses(img: Bytes, mask: Bytes, expected: seq<uint32>, seed: nat, maskSize: nat)
    requires seed >= |img|
    ensures MaskSumHolds(img, mask, expected, seed, maskSize)
  {
  }

  /** The sum is not reduced modulo 256: 200 + 100 matches 300 and does not match 300 % 256. */
  lemma SumIsNotReduced()
    ensures MaskSumHolds([200 as bv8], [100 as bv8], [300], 0, 1)
    ensures !MaskSumHolds([200 as bv8], [100 as bv8], [44], 0, 1)
  {
    var img: Bytes, mask: Bytes := [200], [100];
    assert CoveredSum(img, mask, 0, 0) == 300;
  }

  // ---------------------------------------------------------------------------
  // The validators as the C++ runs them

  /** ValidarSumaMascara (validacion.cpp:23-46): early-exit loop over the covered bytes. */
  method ValidarSumaMascara(imgTransformada: array?<bv8>, mask: array?<bv8>, datosMascara: array?<uint32>,
                            semilla: nat, anchoImg: nat, altoImg: nat, maskAncho: nat, maskAlto: nat)
    returns (ok: bool)
    requires imgTransformada != null ==> imgTransformada.Length >= anchoImg * altoImg * 3
    requires mask != null && datosMascara != null ==>
      mask.Length >= CoveredCount(semilla, anchoImg * altoImg * 3, maskAncho * maskAlto * 3) &&
      datosMascara.Length >= CoveredCount(semilla, anchoImg * altoImg * 3, maskAncho * maskAlto * 3)
    ensures imgTransformada == null || mask == null || datosMascara == null ==> !ok
    ensures ok == MaskSumValid(Prefix(imgTransformada, anchoImg * altoImg * 3),
                               CheckOf(mask, datosMascara, semilla, maskAncho, maskAlto))
  {
    if imgTransformada == null || mask == null || datosMascara == null {
      return false;
    }
    var maskSize := maskAncho * maskAlto * 3;
    var totalPixels := anchoImg * altoImg * 3;
    var pos := semilla;
    ghost var img := imgTransformada[..totalPixels];
    var k := 0;
    while k < maskSize && pos + k < totalPixels
      invariant k <= CoveredCount(semilla, totalPixels, maskSize)
      invariant forall j :: 0 <= j < k ==> CoveredSum(img, mask[..], pos, j) == datosMascara[j] as int
    {
      var suma := imgTransformada[pos + k] as int + mask[k] as int;
      if suma != datosMascara[k] as int {
        assert !MaskSumHolds(img, mask[..], datosMascara[..], semilla, maskSize) by {
          assert CoveredSum(img, mask[..], pos, k) != datosMascara[..][k] as int;
        }
        return false;
      }
      k := k + 1;
    }
    assert MaskSumHolds(img, mask[..], datosMascara[..], semilla, maskSize) by {
      forall j | 0 <= j < maskSize && semilla + j < |img|
        ensures CoveredSum(img, mask[..], semilla, j) == datosMascara[..][j] as int
      {
        assert j < k;
      }
    }
    return true;
  }

  /** validarXOR (validacion.cpp:66-72). */
  method ValidarXor(actualImg: array?<bv8>, im: array?<bv8>, mask: array?<bv8>, datosMascara: array?<uint32>,
                    semilla: nat, anchoImg: nat, altoImg: nat, maskAncho: nat, maskAlto: nat)
    returns (ok: bool)
    requires actualImg != null ==> actualImg.Length >= anchoImg * altoImg * 3
    requires im != null ==> im.Length >= anchoImg * altoImg * 3
    requires CheckOf(mask, datosMascara, semilla, maskAncho, maskAlto).SizedFor(anchoImg * altoImg * 3)
    ensures im == null ==> !ok
    ensures ok == XorPasses(Prefix(actualImg, anchoImg * altoImg * 3), Prefix(im, anchoImg * altoImg * 3),
                            CheckOf(mask, datosMascara, semilla, maskAncho, maskAlto))
  {
    var xorResult := DoXor(actualImg, im, anchoImg, altoImg);
    assert xorResult != null ==> xorResult[..anchoImg * altoImg * 3] == xorResult[..];
    ok := ValidarSumaMascara(xorResult, mask, datosMascara, semilla, anchoImg, altoImg, maskAncho, maskAlto);
  }

  /** validarRotarIzquierda (validacion.cpp:90-97). */
  method ValidarRotarIzquierda(actualImg: array<bv8>, mask: array?<bv8>, datosMascara: array?<uint32>,
                               semilla: nat, anchoImg: nat, altoImg: nat, maskAncho: nat, maskAlto: nat, bits: nat)
    returns (ok: bool)
    requires bits <= 8
    requires actualImg.Length >= anchoImg * altoImg * 3
    requires CheckOf(mask, datosMascara, semilla, maskAncho, maskAlto).SizedFor(anchoImg * altoImg * 3)
    ensures ok == RotateLeftPasses(actualImg[..anchoImg * altoImg * 3], bits,
                                   CheckOf(mask, datosMascara, semilla, maskAncho, maskAlto))
  {
    var totalPixeles := anchoImg * altoImg;
    var rotado := RotarIzquierda(actualImg, totalPixeles, bits);
    assert rotado[..anchoImg * altoImg * 3] == rotado[..];
    ok := ValidarSumaMascara(rotado, mask, datosMascara, semilla, anchoImg, altoImg, maskAncho, maskAlto);
  }

  /** validarRotarDerecha (validacion.cpp:115-122). */
  method ValidarRotarDerecha(actualImg: array<bv8>, mask: array?<bv8>, datosMascara: array?<uint32>,
                             semilla: nat, anchoImg: nat, altoImg: nat, maskAncho: nat, maskAlto: nat, bits: nat)
    returns (ok: bool)
    requires bits <= 8
    requires actualImg.Length >= anchoImg * altoImg * 3
    requires CheckOf(mask, datosMascara, semilla, maskAncho, maskAlto).SizedFor(anchoImg * altoImg * 3)
    ensures ok == RotateRightPasses(actualImg[..anchoImg * altoImg * 3], bits,
                                    CheckOf(mask, datosMascara, semilla, maskAncho, maskAlto))
  {
    var totalPixeles := anchoImg * altoImg;
    var rotado := RotarDerecha(actualImg, totalPixeles, bits);
    assert rotado[..anchoImg * altoImg * 3] == rotado[..];
    ok := ValidarSumaMascara(rotado, mask, datosMascara, semilla, anchoImg, altoImg, maskAncho, maskAlto);
  }
}
