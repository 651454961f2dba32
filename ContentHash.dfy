/**
 * `simpleHash`: the 32-bit polynomial hash the autosave uses to skip saves
 * whose content did not change.
 */
module ContentHash {
  import opened JsText

  /** The hash of a sequence of UTF-16 code units: starting from 0, each unit
      `c` turns `h` into `ToInt32(31 * h + c)`. */
  function HashOf(units: seq<int>): (h: int)
    ensures -TwoTo31 <= h < TwoTo31
  {
    if units == [] then 0 else ToInt32(31 * HashOf(units[..|units| - 1]) + units[|units| - 1])
  }

  /** The hash string of a text, as `simpleHash` returns it. */
  function Fingerprint(s: string): string
  {
    IntToString(HashOf(CodeUnits(s)))
  }

  /** One step of the source loop, `hash = ((hash << 5) - hash) + char` then
      `hash = hash & hash`, is the step of `HashOf`: `<<` and `&` both reduce
      modulo 2^32 into the signed range, and the subtraction and addition in
      between are exact. */
  lemma ShiftStepIsMultiplyBy31(h: int, c: int)
    requires -TwoTo31 <= h < TwoTo31
    ensures ToInt32(ToInt32(h * 32) - h + c) == ToInt32(31 * h + c)
  {
    var shifted := ToInt32(h * 32);
    assert ((shifted - h + c) - (31 * h + c)) % TwoTo32 == (shifted - h * 32) % TwoTo32;
    ToInt32Congruent(shifted - h + c, 31 * h + c);
  }

  /** `simpleHash(str)`: the loop of the source over the code units of `str`. */
  method SimpleHash(str: string) returns (r: string)
    ensures r == Fingerprint(str)
  {
    var units := CodeUnits(str);
    var hash := 0;
    var i := 0;
    while i < |units|
      invariant 0 <= i <= |units|
      invariant hash == HashOf(units[..i])
    {
      var ch := units[i];
      ShiftStepIsMultiplyBy31(hash, ch);
      hash := ToInt32(hash * 32) - hash + ch;
      hash := ToInt32(hash);
      assert units[..i + 1][..i] == units[..i];
      i := i + 1;
    }
    assert units[..i] == units;
    r := IntToString(hash);
  }

  /** The empty text hashes to `"0"`. */
  lemma EmptyFingerprint()
    ensures Fingerprint("") == "0"
  {
    assert CodeUnits("") == [];
  }

  /** Every hash value is a signed 32-bit integer, and its string reads back
      as that value. */
  lemma FingerprintIsInt32(s: string)
    ensures -TwoTo31 <= ParseInt(Fingerprint(s)) < TwoTo31
    ensures ParseInt(Fingerprint(s)) == HashOf(CodeUnits(s))
  {
    IntToStringRoundTrip(HashOf(CodeUnits(s)));
  }
}
