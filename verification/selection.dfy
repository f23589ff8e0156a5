/** The post-inference part of `runInferenceOnImage` (MainActivity.kt, lines
    172-182): pick the class whose output byte is largest and look its label up.

    Bytes are compared the way Kotlin compares `Byte.toInt()`: as signed values in
    -128..127, so a raw byte of 0x80 or more ranks below every byte under 0x80.
    `maxByOrNull` replaces its candidate only on a strictly larger value, so the
    first maximum wins.
 */
module Selection {
  import opened Faults
  import opened Kotlin

  /** Kotlin `Byte.toInt()`: the two's-complement reading of eight bits. */
  function ToInt(b: Byte): (v: int)
    ensures -128 <= v < 128
    ensures v % 256 == b as int
    ensures v >= 0 <==> b < 0x80
  {
    if b < 0x80 then b as int else b as int - 256
  }

  /** i is the leftmost position holding the largest signed value of s. */
  predicate IsLeftmostMax(s: seq<Byte>, i: int) {
    && 0 <= i < |s|
    && (forall j :: 0 <= j < |s| ==> ToInt(s[j]) <= ToInt(s[i]))
    && (forall j :: 0 <= j < i ==> ToInt(s[j]) < ToInt(s[i]))
  }

  /** There is at most one leftmost maximum. */
  lemma LeftmostMaxUnique(s: seq<Byte>, i: int, k: int)
    requires IsLeftmostMax(s, i) && IsLeftmostMax(s, k)
    ensures i == k
  {
    var atI, atK := ToInt(s[i]), ToInt(s[k]);
    assert i < k ==> atI < atK;
    assert k < i ==> atK < atI;
  }

  /** The rest of `maxByOrNull`'s scan: `best` is the leftmost maximum of the
      first i elements, and elements i.. are still to be visited. */
  function ScanFrom(s: seq<Byte>, best: nat, i: nat): (r: nat)
    requires best < i <= |s|
    requires IsLeftmostMax(s[..i], best)
    ensures IsLeftmostMax(s, r)
    decreases |s| - i
  {
    if i == |s| then
      assert s[..i] == s;
      best
    else if ToInt(s[best]) < ToInt(s[i]) then
      ScanFrom(s, i, i + 1)
    else
      ScanFrom(s, best, i + 1)
  }

  /** `result.indices.maxByOrNull { result[it].toInt() } ?: -1`. */
  function IndexOfMax(s: seq<Byte>): (r: int)
    ensures r == -1 <==> s == []
    ensures s != [] ==> IsLeftmostMax(s, r)
  {
    if s == [] then -1 else ScanFrom(s, 0, 1)
  }

  /** The same scan written as the loop `maxByOrNull` runs: take the first
      index, then replace it whenever a later value is strictly larger. */
  method MaxByOrNull(s: seq<Byte>) returns (maxIndex: int)
    ensures s == [] ==> maxIndex == -1
    ensures s != [] ==> IsLeftmostMax(s, maxIndex)
  {
    if |s| == 0 {
      return -1;
    }
    maxIndex := 0;
    var maxValue := ToInt(s[0]);
    var i := 1;
    while i < |s|
      invariant 1 <= i <= |s|
      invariant 0 <= maxIndex < i
      invariant maxValue == ToInt(s[maxIndex])
      invariant forall j :: 0 <= j < i ==> ToInt(s[j]) <= maxValue
      invariant forall j :: 0 <= j < maxIndex ==> ToInt(s[j]) < maxValue
    {
      var v := ToInt(s[i]);
      if maxValue < v {
        maxIndex := i;
        maxValue := v;
      }
      i := i + 1;
    }
  }

  /** The loop and the functional scan choose the same index. */
  lemma MaxByOrNullAgrees(s: seq<Byte>, maxIndex: int)
    requires s == [] ==> maxIndex == -1
    requires s != [] ==> IsLeftmostMax(s, maxIndex)
    ensures maxIndex == IndexOfMax(s)
  {
    if s != [] {
      LeftmostMaxUnique(s, maxIndex, IndexOfMax(s));
    }
  }

  /** The class chosen for an inference, with its signed score and its label. */
  datatype Prediction = Prediction(index: nat, score: int, name: string)

  /** Lines 176-182: select the index, read its signed value (`result[maxIndex]`,
      which raises for -1) and look the label up (`foodNames[maxIndex]`, which
      raises past the end of the table). */
  function Select(result: seq<Byte>, foodNames: seq<string>): (r: Result<Prediction>)
    ensures result == [] ==> r == Err(EmptyOutput)
    ensures r.Ok? ==>
      && IsLeftmostMax(result, r.value.index)
      && r.value.score == ToInt(result[r.value.index])
      && r.value.index < |foodNames|
      && r.value.name == foodNames[r.value.index]
    ensures result != [] && r.Err? ==>
      && r.error.LabelIndexOutOfRange?
      && IsLeftmostMax(result, r.error.index)
      && r.error.size == |foodNames| <= r.error.index
  {
    var maxIndex := IndexOfMax(result);
    if maxIndex < 0 then
      Err(EmptyOutput)
    else
      var maxValue := ToInt(result[maxIndex]);
      if maxIndex < |foodNames| then
        Ok(Prediction(maxIndex, maxValue, foodNames[maxIndex]))
      else
        Err(LabelIndexOutOfRange(maxIndex, |foodNames|))
  }

  /** Selection succeeds exactly when the output is non-empty and its leftmost
      maximum has a label. */
  lemma SelectSucceedsIff(result: seq<Byte>, foodNames: seq<string>)
    ensures Select(result, foodNames).Ok? <==>
      result != [] && exists i :: IsLeftmostMax(result, i) && i < |foodNames|
  {
    if result != [] && exists i :: IsLeftmostMax(result, i) && i < |foodNames| {
      var i :| IsLeftmostMax(result, i) && i < |foodNames|;
      LeftmostMaxUnique(result, i, IndexOfMax(result));
    }
  }

  /** A label table covering every output position never fails the lookup. */
  lemma FullTableNeverFails(result: seq<Byte>, foodNames: seq<string>)
    requires result != [] && |foodNames| >= |result|
    ensures Select(result, foodNames).Ok?
  {
  }

  /** Signed ranking: as long as some byte lies in 0..0x7F, the chosen byte does
      too, however large the raw values 0x80..0xFF are. */
  lemma SignedRanking(s: seq<Byte>, j: nat)
    requires j < |s| && s[j] < 0x80
    ensures s[IndexOfMax(s)] < 0x80
  {
    assert ToInt(s[j]) <= ToInt(s[IndexOfMax(s)]);
  }

  /** Unsigned [200, 5] selects index 1: 200 reads as -56. */
  lemma HighByteLoses()
    ensures IndexOfMax([200, 5]) == 1
  {
    var s: seq<Byte> := [200, 5];
    assert ToInt(s[0]) < ToInt(s[1]);
  }

  /** [5, 5, 3, 5] selects index 0: ties go to the leftmost position. */
  lemma TieGoesLeft()
    ensures IndexOfMax([5, 5, 3, 5]) == 0
  {
  }

  /** An all-zero buffer selects index 0 with value 0. */
  lemma ZeroBufferSelectsFirst(s: seq<Byte>)
    requires s != []
    requires forall j :: 0 <= j < |s| ==> s[j] == 0
    ensures IndexOfMax(s) == 0
    ensures ToInt(s[IndexOfMax(s)]) == 0
  {
  }
}
