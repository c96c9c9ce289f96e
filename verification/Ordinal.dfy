/** .NET's OrdinalIgnoreCase comparison: character by character, after a fixed case mapping. */
module Ordinal {

  predicate SameIgnoringCase(upper: char -> char, a: string, b: string) {
    |a| == |b| && forall k :: 0 <= k < |a| ==> upper(a[k]) == upper(b[k])
  }
}
