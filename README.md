# Reversal pipeline of the image-masking challenge

This project models the reconstruction program of the image-masking challenge,
written in Dafny. The program starts from a distorted image I_D. It undoes, stage by
stage, a chain of bitwise distortions:

- XOR with a noise image I_M;
- circular rotations of every byte by 1 to 8 bits.

After each distortion a mask M was added into a window of the image, and the
per-byte sums were recorded in one text file per stage. For each stage, going
from the last to the first, the program exports the current image. It then
detects which inverse operation makes the image agree with that stage's
recorded sums, records the operation's code, and applies the inverse. At the
end it prints a summary of the codes.

Modules, following the source files:

- `Operaciones` (`operaciones.dfy`): the byte transforms `DoXOR`,
  `RotarIzquierda`, `RotarDerecha` and `SumarMascara`. Each is a method that
  allocates a fresh array and fills it in a loop. Each is proved equal to a
  function on sequences, and the algebra (self-inverse XOR, rotation round
  trips, rotation by 8) is proved about those functions.
- `Validacion` (`validacion.dfy`): the mask-sum validator, as an early-exit
  loop proved equal to a predicate, and the three validators that compose a
  transform with it.
- `Clasificador` (`clasificador.dfy`): the operation codes, the classifier
  `DeterminarOperacionInversa`, and `aplicarOperacionInversa`. The classifier
  is specified as a first-match search over the fixed candidate order: XOR,
  then left by 1, right by 1, ..., left by 8, right by 8. The `for bits` loop
  is proved against that search. Lemmas characterise every result code, and
  the soundness lemma shows that the image a reported code produces passes the
  stage's check.
- `Procesamiento` (`procesamiento.dfy`): the summary labels of
  `printOperationDescription`, the token logic of `loadSeedMasking` (two
  passes), and the decision of `crearCopiaValidada`.
- `Reconstruccion` (`reconstruccion.dfy`): one stage (`procesarEtapa`) and the
  stage loop with its summary (`reconstruirImagen`). The pipeline is `Run`, a
  function on values over any stage function. Its lemmas need only what they
  assume of the stage. `SourceStageIsSound` shows that the source's stage
  meets those assumptions.
- `Wrappers` (`wrappers.dfy`): the `Option` type.

Modelling choices:

- Bytes are `bv8`. A nullable `unsigned char*` is an `array?<bv8>` in the
  methods and an `Option<seq<bv8>>` in the specifications.
- The expected sums are `unsigned int`, modelled as the subset type `uint32`.
- C++ integer division truncates toward zero. It is modelled explicitly
  (`CppQuot`), so `-1 / 10 == 0` as in the source.
- A text file is modelled as the sequence of tokens that `>>` extraction sees:
  an integer, or a token at which extraction fails.
- The outcome of every image export, and whether a file opens, are boolean
  parameters.

Two behaviours of the code worth noting:

- A rotation by 8 bits is well defined (operaciones.cpp:40, 57): the byte is
  promoted to `int` before the shift and truncated on assignment, so the
  result is the byte itself.
- `crearCopiaValidada` validates I_O against the stage-0 data directly
  (procesamiento.cpp:136); it does not apply `SumarMascara` first.

## Model

| member | source | states |
|---|---|---|
| Operaciones.CoveredCount | validacion.cpp:34 | the loop `k < maskSize && seed + k < total` visits exactly min(maskSize, total - seed) bytes, and none when the seed is past the end |
| Operaciones.ShiftOrIsRotation | operaciones.cpp:37-60 | for n < 8, the shift-or formulas of RotarIzquierda and RotarDerecha are the circular left and right rotations of the byte |
| Operaciones.RotlThenRotrByte | operaciones.cpp:37-60 | rotating a byte right by n undoes rotating it left by n, and the other way round, for every n in 0..8 |
| Operaciones.XorSelfInverse | operaciones.cpp:22-24 | XOR with the same operand twice gives back the first operand |
| Operaciones.RotationRoundTrip | operaciones.cpp:37-60 | rotating a buffer right by n undoes rotating it left by n, and vice versa, for n in 0..8 |
| Operaciones.FullWidthRotationIsIdentity | operaciones.cpp:37-60 | with n == 8 both rotations leave every byte unchanged |
| Operaciones.LeftIsComplementRight | operaciones.cpp:37-60 | for 1 <= n <= 7, left by n equals right by 8 - n, byte for byte |
| Operaciones.AddMaskModularAt | operaciones.cpp:79-93 | the masked image has the image's length; each covered byte is (img + mask) mod 256; every other byte is the image's |
| Operaciones.WindowAddedIsAddMaskModular | operaciones.cpp:83-93 | a buffer equal to the image outside the covered window and to the modular sums inside it is the masked image |
| Operaciones.DoXor | operaciones.cpp:15-25 | null when either input is null; otherwise a fresh buffer of width*height*3 bytes, each the XOR of the inputs' bytes |
| Operaciones.RotarDerecha | operaciones.cpp:37-43 | a fresh buffer of num_pixels*3 bytes, each the input byte rotated right by n |
| Operaciones.RotarIzquierda | operaciones.cpp:54-60 | a fresh buffer of num_pixels*3 bytes, each the input byte rotated left by n |
| Operaciones.SumarMascara | operaciones.cpp:78-96 | a fresh buffer that is the image with the mask added mod 256 into the window at the offset; the input is not modified |
| Operaciones.CopyAndAddWindow | operaciones.cpp:79-93 | the copy loop and the window loop of SumarMascara produce the masked image |
| Validacion.ConstructedExpectedPasses | validacion.cpp:34-42 | expected data built as img[seed+k] + mask[k] always passes the check |
| Validacion.SeedPastEndPasses | validacion.cpp:34 | a seed at or past the end of the image covers no byte, so the check succeeds |
| Validacion.SumIsNotReduced | validacion.cpp:35-37 | the sum is not reduced mod 256: 200 + 100 matches 300 and does not match 44 |
| Validacion.ValidarSumaMascara | validacion.cpp:23-46 | false when any buffer is null; otherwise true exactly when every covered byte's unreduced sum equals the expected value |
| Validacion.ValidarXor | validacion.cpp:66-72 | false when I_M is null; otherwise the mask check of the XOR of the current image with I_M |
| Validacion.ValidarRotarIzquierda | validacion.cpp:90-97 | the mask check of the current image rotated left by `bits` |
| Validacion.ValidarRotarDerecha | validacion.cpp:115-122 | the mask check of the current image rotated right by `bits` |
| Clasificador.Encode | main.cpp:54-71 | the code of an operation is 1, 21..28 or 31..38 |
| Clasificador.DecodeEncode | main.cpp:54-71 | decoding the code of an operation gives that operation back |
| Clasificador.EncodeDecode | main.cpp:54-71 | every code that decodes is the code of what it decodes to |
| Clasificador.CppQuot | main.cpp:218 | C++ division truncates toward zero: the remainder a - d*q has the sign of a and is smaller than d in magnitude |
| Clasificador.DispatchAgreesWithDecode | main.cpp:218-231 | the switch on code / 10 and code % 10 selects exactly the operation the classifier encoded, with at most 8 bits |
| Clasificador.SmallCodesDispatchToXor | main.cpp:218-222 | every code from -9 to 9, including the failure code -1, is dispatched to XOR because the division truncates |
| Clasificador.PassesIsCheckOfResult | validacion.cpp:66-122 | each candidate's validator is the mask check of the buffer that the candidate's inverse produces |
| Clasificador.SearchFrom | main.cpp:59-73 | a rotation found from b bits on is accepted, valid, and by at least b bits |
| Clasificador.Search | main.cpp:48-78 | an operation found is accepted and valid |
| Clasificador.SearchFromNone | main.cpp:59-73 | the rotation search finds nothing exactly when no rotation from b bits on is accepted |
| Clasificador.SearchFromLeft | main.cpp:59-65 | the search finds left by n exactly when every earlier rotation is rejected and left by n is accepted |
| Clasificador.SearchFromRight | main.cpp:59-72 | the search finds right by n exactly when every earlier rotation and left by n are rejected and right by n is accepted |
| Clasificador.ClassifyDecodes | main.cpp:48-78 | the classifier's result is -1 or the code of the operation found, so it is in {1, 21..28, 31..38, -1} |
| Clasificador.ClassifyXorFirst | main.cpp:50-55 | the result is 1 exactly when the XOR validator passes, whatever the rotations give |
| Clasificador.VerdictIsValidator | main.cpp:52-69 | the classifier's acceptance test is each candidate's validator |
| Clasificador.SearchIsLeft | main.cpp:50-65 | the search stops at left by b exactly when XOR and all shorter rotations are rejected and left by b is accepted |
| Clasificador.SearchIsRight | main.cpp:50-72 | the search stops at right by b exactly when, in addition, left by b is rejected and right by b is accepted |
| Clasificador.SearchIsNone | main.cpp:48-78 | the search finds nothing exactly when every one of the 17 candidates is rejected |
| Clasificador.ClassifyFinds | main.cpp:48-78 | the classifier returns an operation's code exactly when the search stops at that operation |
| Clasificador.ClassifyLeft | main.cpp:59-65 | 20 + b exactly when XOR and every rotation by fewer bits failed and left by b passed |
| Clasificador.ClassifyRight | main.cpp:59-72 | 30 + b exactly when, in addition, left by b failed and right by b passed |
| Clasificador.ClassifyUnknown | main.cpp:75-77 | -1 exactly when none of the 17 candidates validates |
| Clasificador.ClassifySound | main.cpp:52-71 | when the classifier reports a code, applying it as aplicarOperacionInversa does gives a buffer of the same size that passes the stage's check |
| Clasificador.DeterminarOperacionInversa | main.cpp:48-78 | the loop returns the classifier's code for the current image, I_M and the stage's check |
| Clasificador.AplicarOperacionInversa | main.cpp:215-240 | code / 10 == 0 gives DoXOR with I_M, 2 gives a left and 3 a right rotation by code % 10, anything else null; a non-null result is fresh |
| Procesamiento.Describe | procesamiento.cpp:85-99 | the switch on the truncating code / 10: codes -9..9 are XOR, 20..29 a right rotation by code - 20, 30..39 a left rotation by code - 30, every other code unknown with the code kept |
| Procesamiento.Text | procesamiento.cpp:85-99 | the printed line is "XOR con I_M" exactly for XOR, and begins "Rotacion derecha (", "Rotacion izquierda (" or "Operacion desconocida (Codigo: " exactly for the other three kinds |
| Procesamiento.TextIsInjective | procesamiento.cpp:85-99 | two descriptions that print the same line are equal, so the printed summary determines every label and its bit count or code |
| Procesamiento.DecimalDigits | procesamiento.cpp:91 | a natural number is written as at least one decimal digit |
| Procesamiento.DecimalRoundTrip | procesamiento.cpp:91 | the written digits read back as the number |
| Procesamiento.IntTextRoundTrip | procesamiento.cpp:97 | a written int, with its minus sign, reads back as the same int |
| Procesamiento.DescribeNamesForward | procesamiento.cpp:85-99 | the label of a code 1, 2b or 3b names XOR, right by b or left by b, the opposite of the inverse the code applies |
| Procesamiento.ForwardImage | procesamiento.cpp:85-99 | the forward operation a label names keeps the image's size |
| Procesamiento.ForwardUndoesInverse | procesamiento.cpp:85-99 | the forward operation the label names takes the image a code produced back to the image it came from |
| Procesamiento.FailureCodeReadsAsXor | procesamiento.cpp:86-88 | the failure code -1 is printed as "XOR con I_M", because -1 / 10 truncates to 0 |
| Procesamiento.LeadingNumbers | procesamiento.cpp:56 | extraction delivers the integer tokens in order, up to the first token that is not an integer |
| Procesamiento.Wrap32 | procesamiento.cpp:73-75 | an int stored into unsigned int keeps its value when it is in range |
| Procesamiento.ReadSeedMasking | procesamiento.cpp:51-76 | the data read has three values per counted pixel |
| Procesamiento.ReadSeedMaskingShape | procesamiento.cpp:51-76 | the seed is the first integer; n_pixels counts the complete triples after it; the data are those values in order |
| Procesamiento.NoSeedReadsNothing | procesamiento.cpp:51-58 | a file without a leading integer gives seed 0 and no pixels |
| Procesamiento.StageFileTokens | procesamiento.cpp:51-58 | a stage file is its seed followed by its flattened triples |
| Procesamiento.LeadingNumbersOfTokens | procesamiento.cpp:56 | all integer tokens before the first non-integer are delivered |
| Procesamiento.ReadStageFile | procesamiento.cpp:44-83 | a file written as a seed and triples reads back as that seed, that many pixels and those values in order |
| Procesamiento.CountTriples | procesamiento.cpp:51-58 | the first pass gives the seed and the number of complete triples |
| Procesamiento.FillTriples | procesamiento.cpp:68-76 | the second pass fills RGB[3i], RGB[3i+1], RGB[3i+2] with the i-th triple |
| Procesamiento.LoadSeedMasking | procesamiento.cpp:44-83 | null when the file does not open or does not reopen; otherwise the seed, the pixel count and the flattened triples |
| Procesamiento.CrearCopiaValidada | procesamiento.cpp:101-162 | true exactly when I_O, M0.txt and M load, I_O passes the mask check at the file's seed, and the export succeeds |
| Reconstruccion.ImForIsIrrelevant | main.cpp:296-300 | passing a null I_M for the rotations, as procesarEtapa does, gives the same image |
| Reconstruccion.StageStep | main.cpp:276-311 | a stage fails exactly when the export fails or the classifier returns -1; a success records a decodable classifier code and an image of the same size that passes the stage's check |
| Reconstruccion.StageStepTaken | main.cpp:284-311 | after a successful export and a code other than -1, the stage records that code and yields the inverse image of it |
| Reconstruccion.Run | main.cpp:370-379 | the run keeps one code per stage and stops below the stage it starts at; a run stopping at its first stage failed there, with nothing changed |
| Reconstruccion.RunStopsAt | main.cpp:374-377 | a run whose first stage fails stops there, on the image it started from |
| Reconstruccion.RunGoesOn | main.cpp:370-374 | a run whose first stage succeeds goes on from that stage's image, with the stage's code recorded |
| Reconstruccion.Replay | main.cpp:398-406 | replaying the labels forward keeps the image's size |
| Reconstruccion.Summary | main.cpp:398-406 | the summary lists the codes from the last stage to the first, then a trailing XOR |
| Reconstruccion.RunKeepsLaterEntries | main.cpp:370-379 | stages not yet run keep their recorded codes |
| Reconstruccion.RunHalts | main.cpp:370-379 | a run that stops at stage f failed there on the image it reached; the stages above f recorded classifier codes and the stages up to f are untouched |
| Reconstruccion.RunRecordsEveryStage | main.cpp:370-379 | a run without failure records a classifier code at every stage |
| Reconstruccion.RunEndsOnPassingImage | main.cpp:370-379 | the final image is the one the last successful stage yielded, so it satisfies what that stage promises |
| Reconstruccion.RunReplaysToStart | main.cpp:370-406 | replaying the summary's forward operations from stage 0 up turns a successful run's final image back into the image it started from |
| Reconstruccion.StageOutcome | main.cpp:270-323 | a stage succeeds only for an index that has stage data and an image that the check fits |
| Reconstruccion.SourceStageAt | main.cpp:374 | the source's stage at index i is StageStep with stage i's check and export outcome |
| Reconstruccion.SourceStageIsSound | main.cpp:284-311 | the source's stage records classifier codes, yields images that pass the stage's check, and is undone by its label |
| Reconstruccion.ReconstructionIsSound | main.cpp:362-406 | from I_D with all codes 0: a success records a classifier code for every stage, ends on an image that passes stage 0's check, and replays back to I_D; a failure names the stage that failed |
| Reconstruccion.StageChecks | main.cpp:374 | stage i's check is built from the mask, the stage's expected data and its seed |
| Reconstruccion.ProcesarEtapa | main.cpp:270-323 | fails, with the image and the codes untouched, exactly when the stage fails; otherwise writes only operations[etapa] and returns a fresh image, the stage's result |
| Reconstruccion.ReconstruirImagen | main.cpp:362-412 | the stage loop computes the run from I_D over stages n-1 down to 0; the final image is I_D or fresh; the summary is printed only when every stage and the final export succeed |

## Left out

- Image I/O (`loadPixels`, `exportImage`): the loaded buffers and their dimensions are parameters. Every export outcome is a boolean parameter.
- The loaders `cargarDatosBase` and `cargarDatosEnmascaramiento`, the path and file-name construction, and `main()`'s hard-coded path and stage count: these are file plumbing around the modelled core.
- Opening, closing and reopening the text file in `loadSeedMasking`: only whether the file opens and reopens is a parameter. The file's contents are a token sequence.
- Console output (`cout`/`cerr`) has no effect on results and is left out. The summary is modelled as the list of labels it prints, plus the text of each label (`Text`).
- Memory management (`new[]`, `delete[]`): freshness clauses say where a new array is made. They also say that I_D is never overwritten, because the final image is I_D or a fresh array.
- Undefined behaviour: negative seeds, expected arrays shorter than the covered window, and rotations by more than 8 bits are excluded by preconditions.
- The 32-bit width of `width * height * 3` and of the other `int` products is not modelled. Dimensions are unbounded naturals.
- The integer tokens' `int` range is not modelled: a token is any integer, and storing it into `unsigned int` is reduction modulo 2^32 (`Wrap32`).
- The intermediate export in `procesarEtapa` (main.cpp:313-316) only prints a warning when it fails, so it has no effect on the model.
- The `crearCopiaValidada` call inside `reconstruirImagen` (main.cpp:382-386) only prints a warning, so it does not change the outcome. `CrearCopiaValidada` models it on its own.
- Reconstruccion.ReconstruirImagen: the `operations` array starts with every code 0. The C++ leaves it uninitialised, and only the entries of the stages that ran are ever read.
- Operaciones.SumarMascara: its two loops are in the helper `CopyAndAddWindow`, which takes the byte counts width*height*3 and mask_width*mask_height*3 as parameters. The computation is the same.
- Reconstruccion.ProcesarEtapa and Reconstruccion.ReconstruirImagen are stated for any stage function `stage` that agrees with the source's stage pointwise (`IsStageAt`, `IsSourceStage`). `Stages` is such a function (`StagesIsSourceStage`).
