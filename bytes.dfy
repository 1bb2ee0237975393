/**
  Bytes and the byte-scanning primitives the parser borrows from its caret
  library: find a byte, find a byte sequence, skip to the first byte of a set.
  Each is specified by what it finds, not by how it searches.
 */
module Bytes {

  type byte = bv8

  datatype Option<T> = None | Some(value: T)

  const CR: byte := 0x0D
  const LF: byte := 0x0A
  const DASH: byte := 0x2D

  /** Index of the first `c` in `s` at or after `from` (the caret's `findChar`). */
  function IndexOf(s: seq<byte>, from: nat, c: byte): (r: Option<nat>)
    requires from <= |s|
    ensures r.Some? ==> from <= r.value < |s| && s[r.value] == c
    ensures r.Some? ==> forall j :: from <= j < r.value ==> s[j] != c
    ensures r.None? ==> forall j :: from <= j < |s| ==> s[j] != c
    decreases |s| - from
  {
    if from == |s| then None
    else if s[from] == c then Some(from)
    else IndexOf(s, from + 1, c)
  }

  /** `pat` occurs in `s` starting at index `i`. */
  predicate OccursAt(s: seq<byte>, pat: seq<byte>, i: nat)
  {
    i + |pat| <= |s| && s[i..i + |pat|] == pat
  }

  /** Start of the first occurrence of `pat` in `s` at or after `from` (the caret's `findText`). */
  function FindText(s: seq<byte>, pat: seq<byte>, from: nat): (r: Option<nat>)
    requires from <= |s|
    ensures r.Some? ==> from <= r.value && OccursAt(s, pat, r.value)
    ensures r.Some? ==> forall j :: from <= j < r.value ==> !OccursAt(s, pat, j)
    ensures r.None? ==> forall j :: from <= j <= |s| ==> !OccursAt(s, pat, j)
    decreases |s| - from
  {
    if OccursAt(s, pat, from) then Some(from)
    else if from == |s| then None
    else FindText(s, pat, from + 1)
  }

  /**
    Index of the first byte of `stops` in `s` at or after `from`, or `|s|`
    when there is none (the caret's `findCharFromSet`, which leaves the
    caret at the end of the data when nothing is found).
   */
  function SkipUntil(s: seq<byte>, from: nat, stops: set<byte>): (r: nat)
    requires from <= |s|
    ensures from <= r <= |s|
    ensures r < |s| ==> s[r] in stops
    ensures forall j :: from <= j < r ==> s[j] !in stops
    decreases |s| - from
  {
    if from == |s| || s[from] in stops then from
    else SkipUntil(s, from + 1, stops)
  }
}
