/**
 * The operation classifier and the application of the detected inverse.
 *
 * For one stage, the classifier tries the candidate inverse transforms in a
 * fixed priority order (XOR with I_M first, then for each bit count from 1 to
 * 8 a left rotation and then a right rotation) and reports the first one whose
 * result passes the stage's mask-sum check, as an integer code: 1 for XOR,
 * 20 + bits for a left rotation, 30 + bits for a right rotation, -1 when no
 * candidate passes.
 */
module Clasificador {
  import opened Wrappers
  import opened Operaciones
  import opened Validacion

  /** An inverse transform that undoes one stage. */
  datatype Operation = Xor | RotateLeft(bits: nat) | RotateRight(bits: nat)
  {
    /** The operations the classifier can report: rotations by 1..MAX_BITS bits. */
    predicate Valid()
    {
      match this
      case Xor => true
      case RotateLeft(b) => 1 <= b <= MAX_BITS
      case RotateRight(b) => 1 <= b <= MAX_BITS
    }
  }

  /** The integer code of an operation, as DeterminarOperacionInversa returns it. */
  function Encode(op: Operation): (code: int)
    requires op.Valid()
    ensures code == 1 || 21 <= code <= 28 || 31 <= code <= 38
  {
    match op
    case Xor => 1
    case RotateLeft(b) => 20 + b
    case RotateRight(b) => 30 + b
  }

  /** Reading a classifier code back; -1 and every other number stand for no operation. */
  function Decode(code: int): (r: Option<Operation>)
    ensures r.Some? ==> r.value.Valid()
  {
    if code == 1 then Some(Xor)
    else if 21 <= code <= 28 then Some(RotateLeft(code - 20))
    else if 31 <= code <= 38 then Some(RotateRight(code - 30))
    else None
  }

  lemma DecodeEncode(op: Operation)
    requires op.Valid()
    ensures Decode(Encode(op)) == Some(op)
  {
  }

  lemma EncodeDecode(code: int)
    requires Decode(code).Some?
    ensures Encode(Decode(code).value) == code
  {
  }

  /**
   * C++ integer division, which truncates toward zero: the remainder
   * a - d * q has the sign of a and is smaller than d in magnitude, so
   * -1 / 10 == 0.
   */
  function CppQuot(a: int, d: int): (q: int)
    requires d > 0
    ensures a >= 0 ==> 0 <= a - d * q < d
    ensures a < 0 ==> -d < a - d * q <= 0
  {
    if a >= 0 then a / d else -((-a) / d)
  }

  /**
   * The switch of aplicarOperacionInversa: `operation / 10` selects the
   * transform and `operation % 10` the bit count. In the rotation branches the
   * code is between 20 and 39, so C++'s % agrees with Dafny's.
   */
  function Dispatch(code: int): (r: Option<Operation>)
  {
    match CppQuot(code, 10)
    case 0 => Some(Xor)
    case 2 => Some(RotateLeft(code % 10))
    case 3 => Some(RotateRight(code % 10))
    case _ => None
  }

  /**
   * The codes aplicarOperacionInversa can run without undefined behaviour: a
   * rotation by 9 bits (codes 29 and 39) shifts by a negative amount.
   */
  predicate Executable(code: int)
  {
    Dispatch(code).Some? && !Dispatch(code).value.Xor? ==> Dispatch(code).value.bits <= 8
  }

  /** The buffer an operation produces from the current image (null for XOR with a null I_M). */
  function ApplyOperation(op: Operation, cur: Bytes, im: Option<Bytes>): (r: Option<Bytes>)
    requires !op.Xor? ==> op.bits <= 8
    requires im.Some? ==> |im.value| == |cur|
  {
    match op
    case Xor => XorOpt(Some(cur), im)
    case RotateLeft(b) => Some(RotateLeftBytes(cur, b))
    case RotateRight(b) => Some(RotateRightBytes(cur, b))
  }

  /** What aplicarOperacionInversa returns for a code. */
  function InverseImage(code: int, cur: Bytes, im: Option<Bytes>): (r: Option<Bytes>)
    requires Executable(code)
    requires im.Some? ==> |im.value| == |cur|
  {
    match Dispatch(code)
    case None => None
    case Some(op) => ApplyOperation(op, cur, im)
  }

  /** Every code the classifier produces is dispatched to the operation it encodes. */
  lemma DispatchAgreesWithDecode(code: int)
    requires Decode(code).Some?
    ensures Dispatch(code) == Decode(code)
    ensures Executable(code)
  {
    var q := CppQuot(code, 10);
    if code == 1 {
      assert q == 0;
    } else if code <= 28 {
      assert q == 2;
    } else {
      assert q == 3;
    }
  }

  /**
   * Because C++ division truncates, the failure code -1 would be dispatched to
   * XOR, as would 0 and every code from -9 to 9.
   */
  lemma SmallCodesDispatchToXor(code: int)
    requires -9 <= code <= 9
    ensures Dispatch(code) == Some(Xor)
  {
    assert CppQuot(code, 10) == 0;
  }

  // ---------------------------------------------------------------------------
  // The classifier's specification: first match in a fixed priority list

  /** The validator each candidate is tried with. */
  predicate Passes(op: Operation, cur: Bytes, im: Option<Bytes>, c: MaskCheck)
    requires op.Valid()
    requires im.Some? ==> |im.value| == |cur|
    requires c.SizedFor(|cur|)
  {
    match op
    case Xor => XorPasses(Some(cur), im, c)
    case RotateLeft(b) => RotateLeftPasses(cur, b, c)
    case RotateRight(b) => RotateRightPasses(cur, b, c)
  }

  /** A candidate passes exactly when the buffer it produces passes the check. */
  lemma PassesIsCheckOfResult(op: Operation, cur: Bytes, im: Option<Bytes>, c: MaskCheck)
    requires op.Valid()
    requires im.Some? ==> |im.value| == |cur|
    requires c.SizedFor(|cur|)
    ensures ApplyOperation(op, cur, im).Some? ==> |ApplyOperation(op, cur, im).value| == |cur|
    ensures Passes(op, cur, im, c) == MaskSumValid(ApplyOperation(op, cur, im), c)
  {
  }

  /**
   * Whether the classifier accepts a candidate: the verdict of the validator
   * it is tried with (false for anything the classifier never tries).
   */
  predicate Verdict(op: Operation, cur: Bytes, im: Option<Bytes>, c: MaskCheck)
    requires im.Some? ==> |im.value| == |cur|
    requires c.SizedFor(|cur|)
  {
    op.Valid() && Passes(op, cur, im, c)
  }

  /** The classifier's acceptance test for one current image and one stage's check. */
  function Trial(cur: Bytes, im: Option<Bytes>, c: MaskCheck): (accepts: Operation -> bool)
    requires im.Some? ==> |im.value| == |cur|
    requires c.SizedFor(|cur|)
  {
    op => Verdict(op, cur, im, c)
  }

  /**
   * The rotation search from `b` bits on: left by b, then right by b, then
   * the same from b + 1; the first rotation accepted, if any.
   */
  function SearchFrom(b: nat, accepts: Operation -> bool): (r: Option<Operation>)
    requires 1 <= b <= MAX_BITS + 1
    ensures r.Some? ==> accepts(r.value) && r.value.Valid() && !r.value.Xor? && b <= r.value.bits
    decreases MAX_BITS + 1 - b
  {
    if b > MAX_BITS then None
    else if accepts(RotateLeft(b)) then Some(RotateLeft(b))
    else if accepts(RotateRight(b)) then Some(RotateRight(b))
    else SearchFrom(b + 1, accepts)
  }

  /** The whole search: XOR first, then the rotations from 1 bit on. */
  function Search(accepts: Operation -> bool): (r: Option<Operation>)
    ensures r.Some? ==> accepts(r.value) && r.value.Valid()
  {
    if accepts(Xor) then Some(Xor) else SearchFrom(1, accepts)
  }

  /** The code DeterminarOperacionInversa returns: the first candidate that validates, encoded. */
  function Classify(cur: Bytes, im: Option<Bytes>, c: MaskCheck): (code: int)
    requires im.Some? ==> |im.value| == |cur|
    requires c.SizedFor(|cur|)
  {
    match Search(Trial(cur, im, c))
    case None => -1
    case Some(op) => Encode(op)
  }

  /** No candidate before the rotations by `b` bits passes. */
  predicate FailsBefore(b: nat, cur: Bytes, im: Option<Bytes>, c: MaskCheck)
    requires b <= MAX_BITS + 1
    requires im.Some? ==> |im.value| == |cur|
    requires c.SizedFor(|cur|)
  {
    !XorPasses(Some(cur), im, c) &&
    forall x :: 1 <= x < b ==> !RotateLeftPasses(cur, x, c) && !RotateRightPasses(cur, x, c)
  }

  // The rotation search, for any acceptance test.

  /** The search from b bits on finds nothing exactly when no rotation from b bits on is accepted. */
  lemma {:induction false} SearchFromNone(b: nat, accepts: Operation -> bool)
    requires 1 <= b <= MAX_BITS + 1
    ensures SearchFrom(b, accepts).None? <==>
      forall x :: b <= x <= MAX_BITS ==> !accepts(RotateLeft(x)) && !accepts(RotateRight(x))
    decreases MAX_BITS + 1 - b
  {
    if b <= MAX_BITS {
      SearchFromNone(b + 1, accepts);
    }
  }

  /** The search from b bits on finds left by n exactly when everything before it failed and it is accepted. */
  lemma {:induction false} SearchFromLeft(b: nat, n: nat, accepts: Operation -> bool)
    requires 1 <= b <= n <= MAX_BITS
    ensures SearchFrom(b, accepts) == Some(RotateLeft(n)) <==>
      (forall x :: b <= x < n ==> !accepts(RotateLeft(x)) && !accepts(RotateRight(x))) && accepts(RotateLeft(n))
    decreases n - b
  {
    if b < n {
      SearchFromLeft(b + 1, n, accepts);
    }
  }

  /** The search from b bits on finds right by n exactly when everything before it, and left by n, failed. */
  lemma {:induction false} SearchFromRight(b: nat, n: nat, accepts: Operation -> bool)
    requires 1 <= b <= n <= MAX_BITS
    ensures SearchFrom(b, accepts) == Some(RotateRight(n)) <==>
      (forall x :: b <= x < n ==> !accepts(RotateLeft(x)) && !accepts(RotateRight(x))) &&
      !accepts(RotateLeft(n)) && accepts(RotateRight(n))
    decreases n - b
  {
    if b < n {
      SearchFromRight(b + 1, n, accepts);
    }
  }

  // ---------------------------------------------------------------------------
  // Properties of the classifier

  /** The code is -1 or the code of the operation found, so it is one of 1, 21..28, 31..38, -1. */
  lemma ClassifyDecodes(cur: Bytes, im: Option<Bytes>, c: MaskCheck)
    requires im.Some? ==> |im.value| == |cur|
    requires c.SizedFor(|cur|)
    ensures var r := Search(Trial(cur, im, c));
      (Classify(cur, im, c) == -1 <==> r.None?) &&
      (r.Some? ==> r.value.Valid() && Decode(Classify(cur, im, c)) == r)
    ensures var code := Classify(cur, im, c); code == -1 || code == 1 || 21 <= code <= 28 || 31 <= code <= 38
  {
    var r := Search(Trial(cur, im, c));
    if r.Some? {
      DecodeEncode(r.value);
    }
  }

  /** XOR wins whenever it validates, whatever the rotations would give. */
  lemma ClassifyXorFirst(cur: Bytes, im: Option<Bytes>, c: MaskCheck)
    requires im.Some? ==> |im.value| == |cur|
    requires c.SizedFor(|cur|)
    ensures Classify(cur, im, c) == 1 <==> XorPasses(Some(cur), im, c)
  {
    ClassifyDecodes(cur, im, c);
  }

  /** No rotation by fewer than `b` bits is accepted. */
  predicate RejectsBefore(b: nat, accepts: Operation -> bool)
  {
    forall x :: 1 <= x < b ==> !accepts(RotateLeft(x)) && !accepts(RotateRight(x))
  }

  /** The classifier's acceptance test is the validator of each candidate. */
  lemma VerdictIsValidator(cur: Bytes, im: Option<Bytes>, c: MaskCheck, b: nat)
    requires 1 <= b <= MAX_BITS + 1
    requires im.Some? ==> |im.value| == |cur|
    requires c.SizedFor(|cur|)
    ensures Verdict(Xor, cur, im, c) == XorPasses(Some(cur), im, c)
    ensures b <= MAX_BITS ==>
      Verdict(RotateLeft(b), cur, im, c) == RotateLeftPasses(cur, b, c) &&
      Verdict(RotateRight(b), cur, im, c) == RotateRightPasses(cur, b, c)
    ensures FailsBefore(b, cur, im, c) <==>
      !Verdict(Xor, cur, im, c) && RejectsBefore(b, Trial(cur, im, c))
  {
    var accepts := Trial(cur, im, c);
    if FailsBefore(b, cur, im, c) {
      forall x | 1 <= x < b
        ensures !accepts(RotateLeft(x)) && !accepts(RotateRight(x))
      {
        assert !RotateLeftPasses(cur, x, c) && !RotateRightPasses(cur, x, c);
      }
    }
    if RejectsBefore(b, accepts) {
      forall x | 1 <= x < b
        ensures !RotateLeftPasses(cur, x, c) && !RotateRightPasses(cur, x, c)
      {
        assert !accepts(RotateLeft(x)) && !accepts(RotateRight(x));
      }
    }
  }

  /** The search stops at left by b exactly when XOR and all shorter rotations are rejected and left by b is accepted. */
  lemma SearchIsLeft(b: nat, accepts: Operation -> bool)
    requires 1 <= b <= MAX_BITS
    ensures Search(accepts) == Some(RotateLeft(b)) <==>
      !accepts(Xor) && RejectsBefore(b, accepts) && accepts(RotateLeft(b))
  {
    SearchFromLeft(1, b, accepts);
  }

  /** The search stops at right by b exactly when, in addition, left by b is rejected and right by b accepted. */
  lemma SearchIsRight(b: nat, accepts: Operation -> bool)
    requires 1 <= b <= MAX_BITS
    ensures Search(accepts) == Some(RotateRight(b)) <==>
      !accepts(Xor) && RejectsBefore(b, accepts) && !accepts(RotateLeft(b)) && accepts(RotateRight(b))
  {
    SearchFromRight(1, b, accepts);
  }

  /** The search finds nothing exactly when every candidate is rejected. */
  lemma SearchIsNone(accepts: Operation -> bool)
    ensures Search(accepts).None? <==> !accepts(Xor) && RejectsBefore(MAX_BITS + 1, accepts)
  {
    SearchFromNone(1, accepts);
  }

  /** The classifier returns the code of `op` exactly when the search stops at `op`. */
  lemma ClassifyFinds(op: Operation, cur: Bytes, im: Option<Bytes>, c: MaskCheck)
    requires op.Valid()
    requires im.Some? ==> |im.value| == |cur|
    requires c.SizedFor(|cur|)
    ensures Classify(cur, im, c) == Encode(op) <==> Search(Trial(cur, im, c)) == Some(op)
  {
    var r := Search(Trial(cur, im, c));
    if r.Some? {
      DecodeEncode(r.value);
      DecodeEncode(op);
    }
  }

  /** 20 + b: XOR and every rotation by fewer bits failed, and left by b passed. */
  lemma ClassifyLeft(b: nat, cur: Bytes, im: Option<Bytes>, c: MaskCheck)
    requires 1 <= b <= MAX_BITS
    requires im.Some? ==> |im.value| == |cur|
    requires c.SizedFor(|cur|)
    ensures Classify(cur, im, c) == 20 + b <==> FailsBefore(b, cur, im, c) && RotateLeftPasses(cur, b, c)
  {
    ClassifyFinds(RotateLeft(b), cur, im, c);
    SearchIsLeft(b, Trial(cur, im, c));
    VerdictIsValidator(cur, im, c, b);
  }

  /** 30 + b: as for 20 + b, except that left by b failed too and right by b passed. */
  lemma ClassifyRight(b: nat, cur: Bytes, im: Option<Bytes>, c: MaskCheck)
    requires 1 <= b <= MAX_BITS
    requires im.Some? ==> |im.value| == |cur|
    requires c.SizedFor(|cur|)
    ensures Classify(cur, im, c) == 30 + b <==>
      FailsBefore(b, cur, im, c) && !RotateLeftPasses(cur, b, c) && RotateRightPasses(cur, b, c)
  {
    ClassifyFinds(RotateRight(b), cur, im, c);
    SearchIsRight(b, Trial(cur, im, c));
    VerdictIsValidator(cur, im, c, b);
  }

  /** -1 exactly when none of the 17 candidates validates. */
  lemma ClassifyUnknown(cur: Bytes, im: Option<Bytes>, c: MaskCheck)
    requires im.Some? ==> |im.value| == |cur|
    requires c.SizedFor(|cur|)
    ensures Classify(cur, im, c) == -1 <==> FailsBefore(MAX_BITS + 1, cur, im, c)
  {
    SearchIsNone(Trial(cur, im, c));
    ClassifyDecodes(cur, im, c);
    VerdictIsValidator(cur, im, c, MAX_BITS + 1);
  }

  /**
   * Soundness: when the classifier reports an operation, applying that code as
   * aplicarOperacionInversa does gives a buffer that passes the stage's check.
   */
  lemma ClassifySound(cur: Bytes, im: Option<Bytes>, c: MaskCheck)
    requires im.Some? ==> |im.value| == |cur|
    requires c.SizedFor(|cur|)
    requires Classify(cur, im, c) != -1
    ensures Executable(Classify(cur, im, c))
    ensures InverseImage(Classify(cur, im, c), cur, im).Some?
    ensures |InverseImage(Classify(cur, im, c), cur, im).value| == |cur|
    ensures MaskSumValid(InverseImage(Classify(cur, im, c), cur, im), c)
  {
    var code := Classify(cur, im, c);
    ClassifyDecodes(cur, im, c);
    var op := Search(Trial(cur, im, c)).value;
    DispatchAgreesWithDecode(code);
    PassesIsCheckOfResult(op, cur, im, c);
  }

  // ---------------------------------------------------------------------------
  // The classifier and the inverse application as the C++ runs them

  /** DeterminarOperacionInversa (main.cpp:48-78): XOR, then left/right rotations by 1..8 bits. */
  method DeterminarOperacionInversa(actualImg: array<bv8>, im: array?<bv8>, m: array?<bv8>, datosMascara: array?<uint32>,
                                    semilla: nat, anchoImg: nat, altoImg: nat, maskAncho: nat, maskAlto: nat)
    returns (code: int)
    requires actualImg.Length >= anchoImg * altoImg * 3
    requires im != null ==> im.Length >= anchoImg * altoImg * 3
    requires CheckOf(m, datosMascara, semilla, maskAncho, maskAlto).SizedFor(anchoImg * altoImg * 3)
    ensures code == Classify(actualImg[..anchoImg * altoImg * 3], Prefix(im, anchoImg * altoImg * 3),
                             CheckOf(m, datosMascara, semilla, maskAncho, maskAlto))
  {
    ghost var cur := actualImg[..anchoImg * altoImg * 3];
    ghost var imv := Prefix(im, anchoImg * altoImg * 3);
    ghost var c := CheckOf(m, datosMascara, semilla, maskAncho, maskAlto);
    ghost var accepts := Trial(cur, imv, c);

    var xorOk := ValidarXor(actualImg, im, m, datosMascara, semilla, anchoImg, altoImg, maskAncho, maskAlto);
    ClassifyXorFirst(cur, imv, c);
    if xorOk {
      return 1;
    }
    VerdictIsValidator(cur, imv, c, 1);
    for bits := 1 to MAX_BITS + 1
      invariant Search(accepts) == SearchFrom(bits, accepts)
    {
      VerdictIsValidator(cur, imv, c, bits);
      var leftOk := ValidarRotarIzquierda(actualImg, m, datosMascara, semilla, anchoImg, altoImg, maskAncho, maskAlto, bits);
      if leftOk {
        ClassifyFinds(RotateLeft(bits), cur, imv, c);
        return 20 + bits;
      }
      var rightOk := ValidarRotarDerecha(actualImg, m, datosMascara, semilla, anchoImg, altoImg, maskAncho, maskAlto, bits);
      if rightOk {
        ClassifyFinds(RotateRight(bits), cur, imv, c);
        return 30 + bits;
      }
    }
    ClassifyDecodes(cur, imv, c);
    return -1;
  }

  /** aplicarOperacionInversa (main.cpp:215-240): a switch on `operation / 10`; null for any other quotient. */
  method AplicarOperacionInversa(actualImg: array<bv8>, im: array?<bv8>, operation: int, anchoImg: nat, altoImg: nat)
    returns (result: array?<bv8>)
    requires actualImg.Length >= anchoImg * altoImg * 3
    requires im != null ==> im.Length >= anchoImg * altoImg * 3
    requires Executable(operation)
    ensures result != null ==> fresh(result)
    ensures View(result) == InverseImage(operation, actualImg[..anchoImg * altoImg * 3], Prefix(im, anchoImg * altoImg * 3))
  {
    var quot := CppQuot(operation, 10);
    if quot == 0 {
      result := DoXor(actualImg, im, anchoImg, altoImg);
    } else if quot == 2 {
      result := RotarIzquierda(actualImg, anchoImg * altoImg, operation % 10);
    } else if quot == 3 {
      result := RotarDerecha(actualImg, anchoImg * altoImg, operation % 10);
    } else {
      result := null;
    }
  }
}
