/** Obfuscating a share of a string's characters at random positions. */
module Obfuscation {

  /** The share of the characters to hide. Arithmetic is over the reals. */
  function CharsToObfuscate(length: nat, percentage: real): (n: nat)
    ensures n <= length
    ensures n as real * 100.0 <= length as real * Clamp(percentage) < (n + 1) as real * 100.0
  {
    CountBounds(length, percentage);
    (length as real * Clamp(percentage) / 100.0).Floor
  }

  function Clamp(percentage: real): real {
    if percentage <= 0.0 then 0.0 else if percentage >= 100.0 then 100.0 else percentage
  }

  /** A rearrangement of the positions `0..length`, as any sort leaves it. */
  ghost predicate IsPermutation(positions: seq<nat>, length: nat) {
    && |positions| == length
    && (forall i :: 0 <= i < length ==> positions[i] < length)
    && forall i, j :: 0 <= i < j < length ==> positions[i] != positions[j]
  }

  /** The string with the hidden positions replaced by the mask. */
  function Masked(value: string, hidden: seq<nat>, mask: string): string
    decreases |value|
  {
    if value == "" then ""
    else
      var n := |value| - 1;
      Masked(value[..n], hidden, mask) + (if n in hidden then mask else [value[n]])
  }

  function Join(pieces: seq<string>): string {
    if pieces == [] then "" else Join(pieces[..|pieces| - 1]) + pieces[|pieces| - 1]
  }

  /** Overwrites the first of the shuffled positions, in place. */
  method ObfuscateString(value: string, percentage: real, mask: string, shuffled: seq<nat>) returns (r: string)
    requires IsPermutation(shuffled, |value|)
    ensures r == Masked(value, shuffled[..CharsToObfuscate(|value|, percentage)], mask)
  {
    if |value| == 0 {
      return "";
    }
    var count := CharsToObfuscate(|value|, percentage);
    var chars := new string[|value|](i requires 0 <= i < |value| => [value[i]]);
    var positions := shuffled[..count];
    for i := 0 to |positions|
      invariant forall j :: 0 <= j < |value| ==> chars[j] == if j in positions[..i] then mask else [value[j]]
    {
      assert positions[..i + 1] == positions[..i] + [positions[i]];
      chars[positions[i]] := mask;
    }
    assert positions[..|positions|] == positions;
    JoinIsMasked(value, positions, mask, chars[..]);
    return Join(chars[..]);
  }

  // ------------------------------------------------------------------- proofs

  lemma CountBounds(length: nat, percentage: real)
    ensures 0 <= (length as real * Clamp(percentage) / 100.0).Floor <= length
  {
    var clamped := Clamp(percentage);
    assert 0.0 <= length as real * clamped <= length as real * 100.0;
  }

  lemma {:induction false} JoinIsMasked(value: string, hidden: seq<nat>, mask: string, pieces: seq<string>)
    requires |pieces| == |value|
    requires forall j :: 0 <= j < |value| ==> pieces[j] == if j in hidden then mask else [value[j]]
    ensures Join(pieces) == Masked(value, hidden, mask)
    decreases |value|
  {
    if value != "" {
      var n := |value| - 1;
      JoinIsMasked(value[..n], hidden, mask, pieces[..n]);
    }
  }

  /** With a mask of one unit the length is kept, the hidden positions show the
      mask and all others their own character. */
  lemma {:induction false} MaskedAt(value: string, hidden: seq<nat>, mask: string)
    requires |mask| == 1
    ensures |Masked(value, hidden, mask)| == |value|
    ensures forall i :: 0 <= i < |value| ==> Masked(value, hidden, mask)[i] == if i in hidden then mask[0] else value[i]
    decreases |value|
  {
    if value != "" {
      MaskedAt(value[..|value| - 1], hidden, mask);
    }
  }

  /** How many positions hold the mask. */
  function CountMask(s: string, mask: char): nat {
    if s == "" then 0 else CountMask(s[..|s| - 1], mask) + if s[|s| - 1] == mask then 1 else 0
  }

  /** The positions below `length` that are among the hidden ones. */
  function HiddenBelow(hidden: seq<nat>, length: nat): nat {
    if length == 0 then 0 else HiddenBelow(hidden, length - 1) + if length - 1 in hidden then 1 else 0
  }

  lemma {:induction false} HiddenAppended(hidden: seq<nat>, position: nat, length: nat)
    requires position !in hidden
    ensures HiddenBelow(hidden + [position], length) == HiddenBelow(hidden, length) + if position < length then 1 else 0
  {
    if length > 0 {
      HiddenAppended(hidden, position, length - 1);
    }
  }

  lemma {:induction false} AllHiddenAreBelow(hidden: seq<nat>, length: nat)
    requires forall i :: 0 <= i < |hidden| ==> hidden[i] < length
    requires forall i, j :: 0 <= i < j < |hidden| ==> hidden[i] != hidden[j]
    ensures HiddenBelow(hidden, length) == |hidden|
  {
    if hidden == [] {
      NothingHidden(length);
    } else {
      var n := |hidden| - 1;
      AllHiddenAreBelow(hidden[..n], length);
      assert hidden == hidden[..n] + [hidden[n]];
      HiddenAppended(hidden[..n], hidden[n], length);
    }
  }

  lemma {:induction false} NothingHidden(length: nat)
    ensures HiddenBelow([], length) == 0
  {
    if length > 0 {
      NothingHidden(length - 1);
    }
  }

  lemma {:induction false} MaskCount(value: string, hidden: seq<nat>, mask: string)
    requires |mask| == 1 && mask[0] !in value
    ensures CountMask(Masked(value, hidden, mask), mask[0]) == HiddenBelow(hidden, |value|)
    decreases |value|
  {
    if value != "" {
      var n := |value| - 1;
      MaskCount(value[..n], hidden, mask);
      MaskedAt(value[..n], hidden, mask);
      var masked := Masked(value, hidden, mask);
      assert masked[..|masked| - 1] == Masked(value[..n], hidden, mask);
    }
  }

  /** Exact obfuscation. For any permutation that the random sort may produce,
      exactly the computed number of distinct positions is hidden; if the mask is
      one unit that the value does not use, that is how often the result shows
      it. */
  lemma ExactlySoManyHidden(value: string, percentage: real, mask: string, shuffled: seq<nat>)
    requires IsPermutation(shuffled, |value|)
    ensures var n := CharsToObfuscate(|value|, percentage);
            && HiddenBelow(shuffled[..n], |value|) == n
            && (|mask| == 1 && mask[0] !in value ==> CountMask(Masked(value, shuffled[..n], mask), mask[0]) == n)
  {
    var hidden := shuffled[..CharsToObfuscate(|value|, percentage)];
    AllHiddenAreBelow(hidden, |value|);
    if |mask| == 1 && mask[0] !in value {
      MaskCount(value, hidden, mask);
    }
  }

  /** A percentage between 0 and 100 hides the rounded down share, a lower one
      nothing, a higher one everything. */
  lemma ShareOfLength(length: nat, percentage: real)
    ensures 0.0 <= percentage <= 100.0 ==>
              CharsToObfuscate(length, percentage) == (length as real * percentage / 100.0).Floor
    ensures percentage <= 0.0 ==> CharsToObfuscate(length, percentage) == 0
    ensures percentage >= 100.0 ==> CharsToObfuscate(length, percentage) == length
  {
    assert length as real * 100.0 / 100.0 == length as real;
  }

  /** With a mask of any length, each hidden character is replaced by all of it. */
  lemma {:induction false} MaskedLength(value: string, hidden: seq<nat>, mask: string)
    ensures |Masked(value, hidden, mask)| + HiddenBelow(hidden, |value|)
         == |value| + HiddenBelow(hidden, |value|) * |mask|
    decreases |value|
  {
    if value != "" {
      var n := |value| - 1;
      MaskedLength(value[..n], hidden, mask);
      var before := HiddenBelow(hidden, n);
      assert HiddenBelow(hidden, |value|) == before + if n in hidden then 1 else 0;
      assert (before + 1) * |mask| == before * |mask| + |mask|;
    }
  }

  /** A higher percentage hides no fewer characters. */
  lemma CountIsMonotone(length: nat, p: real, q: real)
    requires p <= q
    ensures CharsToObfuscate(length, p) <= CharsToObfuscate(length, q)
  {
    var a, b := length as real * Clamp(p) / 100.0, length as real * Clamp(q) / 100.0;
    assert length as real * Clamp(p) <= length as real * Clamp(q);
    assert a <= b;
  }

  /** Everything is hidden exactly from 100 percent on. */
  lemma AllHiddenFromHundred(length: nat, percentage: real)
    requires length > 0
    ensures CharsToObfuscate(length, percentage) == length <==> percentage >= 100.0
  {
    if percentage < 100.0 {
      assert length as real * Clamp(percentage) < length as real * 100.0;
    } else {
      assert length as real * 100.0 / 100.0 == length as real;
    }
  }
}
