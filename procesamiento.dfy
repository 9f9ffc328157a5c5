/**
 * The small decoders around the reconstruction: the label printed for an
 * operation code, the reading of a stage's seed-and-masking file, and the
 * final validated copy of the original image.
 *
 * The text file is modelled by the sequence of tokens that `>>` extraction
 * sees: a token is either an integer or something else, at which extraction
 * fails and the stream stops delivering values.
 */
module Procesamiento {
  import opened Wrappers
  import opened Operaciones
  import opened Validacion
  import opened Clasificador

  // ---------------------------------------------------------------------------
  // printOperationDescription

  /**
   * The label printed for a code. It names the FORWARD operation of the
   * stage: code 2b (undone by a left rotation) is printed as a right rotation.
   */
  datatype Description = XorWithIM | RotationRight(bits: int) | RotationLeft(bits: int) | Unknown(code: int)

  /**
   * printOperationDescription (procesamiento.cpp:85-99): a switch on the
   * truncating `code / 10`. Codes -9..9 are XOR, 20..29 and 30..39 the
   * rotations by `code % 10`, anything else unknown.
   */
  function Describe(code: int): (d: Description)
    ensures d == XorWithIM <==> -9 <= code <= 9
    ensures d.RotationRight? <==> 20 <= code <= 29
    ensures d.RotationLeft? <==> 30 <= code <= 39
    ensures d.RotationRight? ==> d.bits == code - 20
    ensures d.RotationLeft? ==> d.bits == code - 30
    ensures d.Unknown? ==> d.code == code
  {
    match CppQuot(code, 10)
    case 0 => XorWithIM
    case 2 => RotationRight(code % 10)
    case 3 => RotationLeft(code % 10)
    case _ => Unknown(code)
  }

  /** The digit character for 0..9. */
  function DigitChar(d: nat): (c: char)
    requires d < 10
    ensures '0' <= c <= '9'
  {
    "0123456789"[d]
  }

  /** Every character of s is a decimal digit. */
  predicate IsDigits(s: string)
  {
    forall i :: 0 <= i < |s| ==> '0' <= s[i] <= '9'
  }

  /** The decimal digits of a natural number, most significant first, as `<<` writes them. */
  function DecimalDigits(n: nat): (s: string)
    ensures |s| >= 1 && IsDigits(s)
    decreases n
  {
    if n < 10 then [DigitChar(n)] else DecimalDigits(n / 10) + [DigitChar(n % 10)]
  }

  /** An int as `<<` writes it: a minus sign for negative values, then the digits. */
  function IntText(v: int): (s: string)
  {
    if v < 0 then "-" + DecimalDigits(-v) else DecimalDigits(v)
  }

  /** The value of a string of decimal digits. */
  function DecimalValue(s: string): (n: nat)
    requires IsDigits(s)
  {
    if s == [] then 0 else DecimalValue(s[..|s| - 1]) * 10 + (s[|s| - 1] as int - '0' as int)
  }

  /** The value of an optionally signed decimal string. */
  function IntValue(s: string): (v: int)
    requires |s| >= 1
    requires s[0] == '-' ==> IsDigits(s[1..])
    requires s[0] != '-' ==> IsDigits(s)
  {
    if s[0] == '-' then 0 - DecimalValue(s[1..]) else DecimalValue(s)
  }

  /** The line printOperationDescription writes for a description; its opening words tell the four kinds apart. */
  function Text(d: Description): (s: string)
    ensures d.XorWithIM? <==> s == "XOR con I_M"
    ensures d.RotationRight? <==> |s| >= 18 && s[..18] == "Rotacion derecha ("
    ensures d.RotationLeft? <==> |s| >= 20 && s[..20] == "Rotacion izquierda ("
    ensures d.Unknown? <==> |s| >= 31 && s[..31] == "Operacion desconocida (Codigo: "
  {
    match d
    case XorWithIM => "XOR con I_M"
    case RotationRight(b) =>
      RightOpening(IntText(b));
      "Rotacion derecha (" + IntText(b) + " bits)"
    case RotationLeft(b) =>
      LeftOpening(IntText(b));
      "Rotacion izquierda (" + IntText(b) + " bits)"
    case Unknown(c) =>
      UnknownOpening(IntText(c));
      "Operacion desconocida (Codigo: " + IntText(c) + ")"
  }

  /** The right-rotation line opens with its own words and with no other kind's. */
  lemma RightOpening(t: string)
    ensures var s := "Rotacion derecha (" + t + " bits)";
      s != "XOR con I_M" && |s| >= 18 && s[..18] == "Rotacion derecha (" &&
      !(|s| >= 20 && s[..20] == "Rotacion izquierda (") &&
      !(|s| >= 31 && s[..31] == "Operacion desconocida (Codigo: ")
  {
    var s := "Rotacion derecha (" + t + " bits)";
    assert s[..18] == "Rotacion derecha (";
    assert s[0] == 'R' && s[9] == 'd';
    assert |s| >= 20 ==> s[..20][9] == 'd';
    assert |s| >= 31 ==> s[..31][0] == 'R';
  }

  /** The left-rotation line opens with its own words and with no other kind's. */
  lemma LeftOpening(t: string)
    ensures var s := "Rotacion izquierda (" + t + " bits)";
      s != "XOR con I_M" && |s| >= 20 && s[..20] == "Rotacion izquierda (" &&
      !(|s| >= 18 && s[..18] == "Rotacion derecha (") &&
      !(|s| >= 31 && s[..31] == "Operacion desconocida (Codigo: ")
  {
    var s := "Rotacion izquierda (" + t + " bits)";
    assert s[..20] == "Rotacion izquierda (";
    assert s[0] == 'R' && s[9] == 'i';
    assert s[..18][9] == 'i';
    assert |s| >= 31 ==> s[..31][0] == 'R';
  }

  /** The unknown-code line opens with its own words and with no other kind's. */
  lemma UnknownOpening(t: string)
    ensures var s := "Operacion desconocida (Codigo: " + t + ")";
      s != "XOR con I_M" && |s| >= 31 && s[..31] == "Operacion desconocida (Codigo: " &&
      !(|s| >= 18 && s[..18] == "Rotacion derecha (") &&
      !(|s| >= 20 && s[..20] == "Rotacion izquierda (")
  {
    var s := "Operacion desconocida (Codigo: " + t + ")";
    assert s[..31] == "Operacion desconocida (Codigo: ";
    assert s[0] == 'O';
    assert s[..18][0] == 'O';
    assert s[..20][0] == 'O';
  }

  /** The number between a fixed opening and a fixed closing reads back as the number written. */
  lemma NumberBetweenReadsBack(open: string, v: int, close: string)
    ensures var s := open + IntText(v) + close;
      |open| + |close| <= |s| && s[|open|..|s| - |close|] == IntText(v)
  {
    var s := open + IntText(v) + close;
    assert s[|open|..|s| - |close|] == IntText(v);
  }

  /** Different descriptions print different lines, so the printed summary determines the labels. */
  lemma TextIsInjective(d1: Description, d2: Description)
    requires Text(d1) == Text(d2)
    ensures d1 == d2
  {
    match d1
    case XorWithIM =>
    case RotationRight(b1) =>
      var b2 := d2.bits;
      NumberBetweenReadsBack("Rotacion derecha (", b1, " bits)");
      NumberBetweenReadsBack("Rotacion derecha (", b2, " bits)");
      IntTextRoundTrip(b1);
      IntTextRoundTrip(b2);
    case RotationLeft(b1) =>
      var b2 := d2.bits;
      NumberBetweenReadsBack("Rotacion izquierda (", b1, " bits)");
      NumberBetweenReadsBack("Rotacion izquierda (", b2, " bits)");
      IntTextRoundTrip(b1);
      IntTextRoundTrip(b2);
    case Unknown(c1) =>
      var c2 := d2.code;
      NumberBetweenReadsBack("Operacion desconocida (Codigo: ", c1, ")");
      NumberBetweenReadsBack("Operacion desconocida (Codigo: ", c2, ")");
      IntTextRoundTrip(c1);
      IntTextRoundTrip(c2);
  }

  /** The forward operation a label names, applied to an image; None for a label no transform stands behind. */
  function ForwardImage(d: Description, x: Bytes, im: Bytes): (r: Option<Bytes>)
    requires |im| == |x|
    ensures r.Some? ==> |r.value| == |x|
  {
    match d
    case XorWithIM => Some(XorBytes(x, im))
    case RotationRight(b) => if 0 <= b <= 8 then Some(RotateRightBytes(x, b)) else None
    case RotationLeft(b) => if 0 <= b <= 8 then Some(RotateLeftBytes(x, b)) else None
    case Unknown(_) => None
  }

  // Properties of the labels

  /** Digits read back give the number they were written for. */
  lemma {:induction false} DecimalRoundTrip(n: nat)
    ensures DecimalValue(DecimalDigits(n)) == n
    decreases n
  {
    var s := DecimalDigits(n);
    if n >= 10 {
      DecimalRoundTrip(n / 10);
      assert s[..|s| - 1] == DecimalDigits(n / 10);
      assert s[|s| - 1] == DigitChar(n % 10);
    }
  }

  /** A printed int, sign included, reads back as the same int. */
  lemma IntTextRoundTrip(v: int)
    ensures |IntText(v)| >= 1
    ensures IntText(v)[0] == '-' <==> v < 0
    ensures IntValue(IntText(v)) == v
  {
    if v < 0 {
      DecimalRoundTrip(-v);
      NegatedReadsBack(DecimalDigits(-v));
    } else {
      var t := DecimalDigits(v);
      DecimalRoundTrip(v);
      assert '0' <= t[0] <= '9';
    }
  }

  /** A minus sign before digits reads back as the negated value of the digits. */
  lemma NegatedReadsBack(t: string)
    requires IsDigits(t)
    ensures var s := "-" + t;
      s[0] == '-' && s[1..] == t && IntValue(s) == -(DecimalValue(t) as int)
  {
    var s := "-" + t;
    assert s[1..] == t;
  }

  /**
   * The label of every code the classifier produces names the operation
   * opposite to the one that undoes the stage: XOR for 1, a right rotation by
   * b for 2b (undone by left), a left rotation by b for 3b (undone by right).
   */
  lemma DescribeNamesForward(code: int)
    requires Decode(code).Some?
    ensures Decode(code) == Some(Xor) ==> Describe(code) == XorWithIM
    ensures forall b: nat :: Decode(code) == Some(RotateLeft(b)) ==> Describe(code) == RotationRight(b)
    ensures forall b: nat :: Decode(code) == Some(RotateRight(b)) ==> Describe(code) == RotationLeft(b)
  {
    DispatchAgreesWithDecode(code);
  }

  /**
   * The forward operation named by the label turns the image the stage was
   * undone to back into the image it was undone from.
   */
  lemma ForwardUndoesInverse(code: int, cur: Bytes, im: Bytes)
    requires Decode(code).Some?
    requires |im| == |cur|
    ensures Executable(code)
    ensures InverseImage(code, cur, Some(im)).Some?
    ensures ForwardImage(Describe(code), InverseImage(code, cur, Some(im)).value, im) == Some(cur)
  {
    DispatchAgreesWithDecode(code);
    DescribeNamesForward(code);
    var op := Decode(code).value;
    match op
    case Xor =>
      XorSelfInverse(cur, im);
    case RotateLeft(b) =>
      RotationRoundTrip(cur, b);
    case RotateRight(b) =>
      RotationRoundTrip(cur, b);
  }

  /** The failure code -1 is printed as XOR, because -1 / 10 truncates to 0. */
  lemma FailureCodeReadsAsXor()
    ensures Describe(-1) == XorWithIM
    ensures Text(Describe(-1)) == "XOR con I_M"
  {
    assert CppQuot(-1, 10) == 0;
  }

  // ---------------------------------------------------------------------------
  // loadSeedMasking

  /** What `>>` into an int sees next: an integer, or a token at which extraction fails. */
  datatype Token = Number(value: int) | Other

  /** The integers delivered by successive extractions until one fails or the file ends. */
  function LeadingNumbers(ts: seq<Token>): (r: seq<int>)
    ensures |r| <= |ts|
    ensures forall i :: 0 <= i < |r| ==> ts[i] == Number(r[i])
    ensures |r| < |ts| ==> ts[|r|].Other?
  {
    if ts == [] || ts[0].Other? then [] else [ts[0].value] + LeadingNumbers(ts[1..])
  }

  /** `int` stored into `unsigned int`: reduction modulo 2^32. */
  function Wrap32(v: int): (u: uint32)
    ensures 0 <= v < 0x1_0000_0000 ==> u == v
  {
    v % 0x1_0000_0000
  }

  /** The seed, the pixel count and the flattened triples that loadSeedMasking hands back. */
  datatype SeedMasking = SeedMasking(seed: int, pixels: nat, data: seq<uint32>)

  /**
   * The file read as loadSeedMasking reads it. A failed first extraction
   * stores 0 into the seed and leaves the stream failed, so no triple is read.
   */
  function ReadSeedMasking(ts: seq<Token>): (r: SeedMasking)
    ensures |r.data| == 3 * r.pixels
  {
    if ts != [] && ts[0].Number? then
      var nums := LeadingNumbers(ts[1..]);
      var p := |nums| / 3;
      SeedMasking(ts[0].value, p, seq(3 * p, i requires 0 <= i < 3 * p => Wrap32(nums[i])))
    else
      SeedMasking(0, 0, [])
  }

  /** A well-formed stage file: the seed, the triples in order, then the end. */
  function StageFile(seed: int, triples: seq<(uint32, uint32, uint32)>): (ts: seq<Token>)
    ensures |ts| == 1 + 3 * |triples|
  {
    if triples == [] then [Number(seed)]
    else
      var t := triples[|triples| - 1];
      StageFile(seed, triples[..|triples| - 1]) + [Number(t.0), Number(t.1), Number(t.2)]
  }

  /** The triples flattened in order, r then g then b. */
  function Flatten(triples: seq<(uint32, uint32, uint32)>): (s: seq<uint32>)
    ensures |s| == 3 * |triples|
  {
    if triples == [] then []
    else
      var t := triples[|triples| - 1];
      Flatten(triples[..|triples| - 1]) + [t.0, t.1, t.2]
  }

  // Properties of the reader

  /** The seed is the first integer; n_pixels counts the complete triples of integers after it, in order. */
  lemma ReadSeedMaskingShape(ts: seq<Token>)
    requires ts != [] && ts[0].Number?
    ensures ReadSeedMasking(ts).seed == ts[0].value
    ensures forall i :: 1 <= i <= 3 * ReadSeedMasking(ts).pixels ==> ts[i].Number?
    ensures forall i :: 0 <= i < 3 * ReadSeedMasking(ts).pixels ==> ReadSeedMasking(ts).data[i] == Wrap32(ts[1 + i].value)
    ensures 1 + 3 * ReadSeedMasking(ts).pixels + 3 <= |ts| ==>
      exists j :: 1 + 3 * ReadSeedMasking(ts).pixels <= j < 1 + 3 * ReadSeedMasking(ts).pixels + 3 && ts[j].Other?
  {
    var nums := LeadingNumbers(ts[1..]);
    var r := ReadSeedMasking(ts);
    forall i | 1 <= i <= 3 * r.pixels
      ensures ts[i].Number?
    {
      assert ts[1..][i - 1] == Number(nums[i - 1]);
    }
    forall i | 0 <= i < 3 * r.pixels
      ensures r.data[i] == Wrap32(ts[1 + i].value)
    {
      assert ts[1..][i] == Number(nums[i]);
    }
    if 1 + 3 * r.pixels + 3 <= |ts| {
      var j := 1 + |nums|;
      assert ts[1..][|nums|].Other?;
      assert ts[j].Other?;
    }
  }

  /** A file without a leading integer gives seed 0 and no pixels. */
  lemma NoSeedReadsNothing(ts: seq<Token>)
    requires ts == [] || ts[0].Other?
    ensures ReadSeedMasking(ts) == SeedMasking(0, 0, [])
  {
  }

  /** Values written as integer tokens. */
  function Tokens(xs: seq<uint32>): (ts: seq<Token>)
    ensures |ts| == |xs|
  {
    seq(|xs|, i requires 0 <= i < |xs| => Number(xs[i]))
  }

  /** A stage file is its seed followed by its flattened triples, each as an integer token. */
  lemma {:induction false} StageFileTokens(seed: int, triples: seq<(uint32, uint32, uint32)>)
    ensures StageFile(seed, triples) == [Number(seed)] + Tokens(Flatten(triples))
    decreases |triples|
  {
    if triples != [] {
      var init := triples[..|triples| - 1];
      var t := triples[|triples| - 1];
      StageFileTokens(seed, init);
      assert Tokens(Flatten(triples)) == Tokens(Flatten(init)) + [Number(t.0), Number(t.1), Number(t.2)];
    }
  }

  /** Extraction delivers every integer token up to the first token that is not one. */
  lemma {:induction false} LeadingNumbersOfTokens(xs: seq<uint32>, rest: seq<Token>)
    requires rest == [] || rest[0].Other?
    ensures LeadingNumbers(Tokens(xs) + rest) == xs
    decreases |xs|
  {
    if xs == [] {
      assert Tokens(xs) + rest == rest;
    } else {
      var ts := Tokens(xs) + rest;
      assert ts[0] == Number(xs[0]);
      assert ts[1..] == Tokens(xs[1..]) + rest;
      LeadingNumbersOfTokens(xs[1..], rest);
    }
  }

  /**
   * Round trip: a stage file written as the seed followed by its triples
   * (and then nothing readable as an integer) is read back as exactly that
   * seed, that many pixels and those values.
   */
  lemma ReadStageFile(seed: int, triples: seq<(uint32, uint32, uint32)>, rest: seq<Token>)
    requires rest == [] || rest[0].Other?
    ensures ReadSeedMasking(StageFile(seed, triples) + rest) == SeedMasking(seed, |triples|, Flatten(triples))
  {
    var ts := StageFile(seed, triples) + rest;
    var xs := Flatten(triples);
    StageFileTokens(seed, triples);
    assert ts == [Number(seed)] + (Tokens(xs) + rest);
    assert ts[1..] == Tokens(xs) + rest;
    LeadingNumbersOfTokens(xs, rest);
    var r := ReadSeedMasking(ts);
    assert r.pixels == |triples|;
    assert r.data == xs;
  }

  /**
   * The first pass of loadSeedMasking: `archivo >> seed`, then
   * `while (archivo >> r >> g >> b) n_pixels++`.
   */
  method CountTriples(ts: seq<Token>) returns (seed: int, nPixels: nat)
    ensures seed == ReadSeedMasking(ts).seed && nPixels == ReadSeedMasking(ts).pixels
  {
    if ts == [] || ts[0].Other? {
      return 0, 0;
    }
    seed := ts[0].value;
    var body := ts[1..];
    ghost var nums := LeadingNumbers(body);
    var pos := 0;
    nPixels := 0;
    while pos + 2 < |body| && body[pos].Number? && body[pos + 1].Number? && body[pos + 2].Number?
      invariant pos == 3 * nPixels && pos <= |nums|
      decreases |body| - pos
    {
      nPixels := nPixels + 1;
      pos := pos + 3;
    }
  }

  /**
   * The second pass of loadSeedMasking: `archivo >> seed` again, then
   * `n_pixels` triples read into `RGB[i]`, `RGB[i + 1]`, `RGB[i + 2]`.
   */
  method FillTriples(ts: seq<Token>, nPixels: nat) returns (rgb: array<uint32>)
    requires ts != [] && ts[0].Number?
    requires nPixels == ReadSeedMasking(ts).pixels
    ensures rgb[..] == ReadSeedMasking(ts).data
  {
    var body := ts[1..];
    ghost var nums := LeadingNumbers(body);
    rgb := new uint32[nPixels * 3];
    var pos := 0;
    var i := 0;
    while i < nPixels * 3
      invariant 0 <= i <= nPixels * 3 && i % 3 == 0
      invariant pos == i
      invariant forall j :: 0 <= j < i ==> rgb[j] == Wrap32(nums[j])
    {
      assert body[pos] == Number(nums[i]);
      assert body[pos + 1] == Number(nums[i + 1]);
      assert body[pos + 2] == Number(nums[i + 2]);
      var red, green, blue := body[pos].value, body[pos + 1].value, body[pos + 2].value;
      rgb[i] := Wrap32(red);
      rgb[i + 1] := Wrap32(green);
      rgb[i + 2] := Wrap32(blue);
      pos := pos + 3;
      i := i + 3;
    }
  }

  /**
   * loadSeedMasking (procesamiento.cpp:44-83): a first pass that reads the
   * seed and counts complete triples, then, after reopening the file, a
   * second pass that reads the seed again and fills the RGB array.
   * `file` is None when the file cannot be opened; `reopened` says whether
   * the second open succeeds. The seed and the count are written through
   * the C++ reference parameters before the reopen, so they are set even
   * when the reopen fails.
   */
  method LoadSeedMasking(file: Option<seq<Token>>, reopened: bool) returns (rgb: array?<uint32>, seed: int, nPixels: nat)
    ensures file.None? ==> rgb == null
    ensures file.Some? ==> seed == ReadSeedMasking(file.value).seed && nPixels == ReadSeedMasking(file.value).pixels
    ensures file.Some? ==> (rgb != null <==> reopened)
    ensures rgb != null ==> file.Some? && rgb[..] == ReadSeedMasking(file.value).data
  {
    if file.None? {
      return null, 0, 0;
    }
    seed, nPixels := CountTriples(file.value);
    if !reopened {
      return null, seed, nPixels;
    }
    if file.value == [] || file.value[0].Other? {
      // The seed extraction fails again: an empty array.
      rgb := new uint32[0];
      return;
    }
    rgb := FillTriples(file.value, nPixels);
  }

  // ---------------------------------------------------------------------------
  // crearCopiaValidada

  /**
   * The check crearCopiaValidada performs on I_O with the data of M0.txt:
   * the mask-sum validation at the file's seed, over the image's own size.
   */
  predicate CopyCheckPasses(io: Bytes, file: SeedMasking, m: Bytes, maskWidth: nat, maskHeight: nat)
    requires file.seed >= 0
    requires MaskCheck(Some(m), Some(file.data), file.seed, maskWidth * maskHeight * 3).SizedFor(|io|)
  {
    MaskSumValid(Some(io), MaskCheck(Some(m), Some(file.data), file.seed, maskWidth * maskHeight * 3))
  }

  /**
   * crearCopiaValidada (procesamiento.cpp:101-162): load I_O, M0.txt and M
   * (each may fail), validate I_O against the stage-0 data, then export the
   * copy. All the loads are parameters: `io` and `m` are the loaded pixel
   * buffers (null when loading fails), `maskFile`/`reopened` the text file,
   * and `exported` the outcome of the export. The source's undefined
   * behaviour is excluded: the seed is non-negative and the file holds at
   * least as many values as the check reads.
   */
  method CrearCopiaValidada(io: array?<bv8>, width: nat, height: nat, maskFile: Option<seq<Token>>, reopened: bool,
                            m: array?<bv8>, maskWidth: nat, maskHeight: nat, exported: bool)
    returns (ok: bool)
    requires io != null ==> io.Length == width * height * 3
    requires m != null ==> m.Length == maskWidth * maskHeight * 3
    requires maskFile.Some? ==> ReadSeedMasking(maskFile.value).seed >= 0
    requires maskFile.Some? ==>
      |ReadSeedMasking(maskFile.value).data| >=
        CoveredCount(ReadSeedMasking(maskFile.value).seed, width * height * 3, maskWidth * maskHeight * 3)
    ensures ok <==>
      io != null && maskFile.Some? && reopened && m != null &&
      CopyCheckPasses(io[..], ReadSeedMasking(maskFile.value), m[..], maskWidth, maskHeight) && exported
  {
    if io == null {
      return false;
    }
    var maskData, seed, numPixels := LoadSeedMasking(maskFile, reopened);
    if maskData == null {
      return false;
    }
    if m == null {
      return false;
    }
    assert io[..width * height * 3] == io[..];
    var valid := ValidarSumaMascara(io, m, maskData, seed, width, height, maskWidth, maskHeight);
    if !valid {
      return false;
    }
    if !exported {
      return false;
    }
    return true;
  }
}
