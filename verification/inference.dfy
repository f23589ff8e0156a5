/** `runInferenceOnImage` (MainActivity.kt, lines 165-183) end to end: pack the
    resized image, let the interpreter fill a 2024-byte output buffer, select the
    leftmost signed maximum and look its label up.

    The TensorFlow Lite interpreter is opaque; it is a parameter here, a function
    from the packed input to the 2024 bytes it writes.  `interpreter` is null
    until the model download succeeds; while it is null, `interpreter?.run`
    does nothing and the freshly allocated buffer keeps its zeros.
 */
module Inference {
  import opened Faults
  import opened Kotlin
  import opened Preprocessing
  import opened Selection

  /** Number of classes the model scores: the capacity of the output buffer. */
  const OutputSize: nat := 2024

  /** A freshly allocated buffer of n bytes. */
  function Zeros(n: nat): (z: seq<Byte>)
    ensures |z| == n
    ensures forall i :: 0 <= i < n ==> z[i] == 0
  {
    seq(n, _ => 0)
  }

  /** The contents of the output buffer after `run`: always OutputSize bytes. */
  type OutputBuffer = s: seq<Byte> | |s| == OutputSize witness Zeros(OutputSize)

  /** A loaded model: what it writes into the output buffer for a given input. */
  type Interpreter = seq<Byte> -> OutputBuffer

  /** `interpreter?.run(inputData, outputData)`, then `rewind` and `get(result)`. */
  function RunModel(interpreter: Option<Interpreter>, input: seq<Byte>): (result: OutputBuffer)
    ensures interpreter.None? ==> forall i :: 0 <= i < |result| ==> result[i] == 0
    ensures interpreter.Some? ==> result == interpreter.value(input)
  {
    match interpreter
    case None => Zeros(OutputSize)
    case Some(run) => run(input)
  }

  /** The prediction for an already resized image. */
  function Predict(resized: seq<seq<Pixel>>, interpreter: Option<Interpreter>, foodNames: seq<string>)
    : (r: Result<Prediction>)
    requires IsSquare(resized, InputSize)
    ensures r != Err(EmptyOutput)
    ensures |foodNames| >= OutputSize ==> r.Ok?
    ensures r.Ok? ==>
      var result := RunModel(interpreter, Pack(resized));
      && IsLeftmostMax(result, r.value.index)
      && r.value.score == ToInt(result[r.value.index])
      && r.value.index < |foodNames|
      && r.value.name == foodNames[r.value.index]
    ensures r.Err? ==>
      && r.error.LabelIndexOutOfRange?
      && IsLeftmostMax(RunModel(interpreter, Pack(resized)), r.error.index)
      && r.error.size == |foodNames| <= r.error.index < OutputSize
    ensures r.Ok? <==> IndexOfMax(RunModel(interpreter, Pack(resized))) < |foodNames|
  {
    var result := RunModel(interpreter, Pack(resized));
    Select(result, foodNames)
  }

  /** The same pipeline as the app runs it: the packing loop, the model, the
      `maxByOrNull` loop and the two lookups. */
  method RunInferenceOnImage(resized: seq<seq<Pixel>>, interpreter: Option<Interpreter>, foodNames: seq<string>)
    returns (r: Result<Prediction>)
    requires IsSquare(resized, InputSize)
    ensures r == Predict(resized, interpreter, foodNames)
  {
    var inputData := PreprocessImage(resized);
    var result := RunModel(interpreter, inputData);
    var maxIndex := MaxByOrNull(result);
    MaxByOrNullAgrees(result, maxIndex);
    if maxIndex < 0 {
      return Err(EmptyOutput);
    }
    var maxValue := ToInt(result[maxIndex]);
    if maxIndex >= |foodNames| {
      return Err(LabelIndexOutOfRange(maxIndex, |foodNames|));
    }
    r := Ok(Prediction(maxIndex, maxValue, foodNames[maxIndex]));
  }

  /** Without a loaded model the buffer stays zero, so the app predicts the
      first label with score 0 instead of reporting that no model is ready. */
  lemma NoInterpreterPredictsFirstLabel(resized: seq<seq<Pixel>>, foodNames: seq<string>)
    requires IsSquare(resized, InputSize)
    ensures |foodNames| > 0 ==> Predict(resized, None, foodNames) == Ok(Prediction(0, 0, foodNames[0]))
    ensures |foodNames| == 0 ==> Predict(resized, None, foodNames) == Err(LabelIndexOutOfRange(0, 0))
  {
    var result := RunModel(None, Pack(resized));
    ZeroBufferSelectsFirst(result);
  }

  /** The prediction sees the image only through its colour bits: images that
      differ only in alpha get the same prediction from every model. */
  lemma PredictionIgnoresAlpha(a: seq<seq<Pixel>>, b: seq<seq<Pixel>>, interpreter: Option<Interpreter>, foodNames: seq<string>)
    requires IsSquare(a, InputSize) && IsSquare(b, InputSize)
    requires forall y, x :: 0 <= y < InputSize && 0 <= x < InputSize ==> ColourBits(a[y][x]) == ColourBits(b[y][x])
    ensures Predict(a, interpreter, foodNames) == Predict(b, interpreter, foodNames)
  {
    PackIgnoresOnlyAlpha(a, b, InputSize);
  }

  /** An output buffer whose one non-zero byte, 1, is at position k. */
  function Spike(k: nat): (s: OutputBuffer)
    requires k < OutputSize
    ensures s[k] == 1
    ensures forall i :: 0 <= i < OutputSize && i != k ==> s[i] == 0
  {
    seq(OutputSize, i => if i == k then 1 else 0)
  }

  /** A stub model that always scores class 42 highest yields label 42. */
  lemma StubModelScenario(resized: seq<seq<Pixel>>, foodNames: seq<string>)
    requires IsSquare(resized, InputSize)
    requires |foodNames| > 42
    ensures Predict(resized, Some(_ => Spike(42)), foodNames) == Ok(Prediction(42, 1, foodNames[42]))
  {
    var stub: Interpreter := _ => Spike(42);
    var result := RunModel(Some(stub), Pack(resized));
    assert result == Spike(42);
    var k := IndexOfMax(result);
    assert ToInt(result[k]) >= ToInt(result[42]) == 1;
  }
}
