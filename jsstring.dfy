/**
 * The few JavaScript string operations the game relies on: indexing that
 * yields `undefined` past the end, ASCII upper-casing, and joining the cells
 * of a board row.
 */
module JsString {

  datatype Option<T> = None | Some(value: T)

  /** `s[i]` in JavaScript: the character at i, or `undefined` (None) past the end. */
  function At(s: string, i: nat): (r: Option<char>)
    ensures r.Some? <==> i < |s|
    ensures r.Some? ==> r.value == s[i]
  {
    if i < |s| then Some(s[i]) else None
  }

  /** The first n indexed reads of s, as a loop `for (i = 0; i < n; i++) s[i]` sees them. */
  function View(s: string, n: nat): (r: seq<Option<char>>)
    ensures |r| == n
    ensures forall i :: 0 <= i < n ==> r[i] == At(s, i)
  {
    seq(n, i requires 0 <= i < n => At(s, i))
  }

  /** Every character of s, each one defined. */
  function Lift(s: string): (r: seq<Option<char>>)
    ensures |r| == |s|
    ensures forall i :: 0 <= i < |s| ==> r[i] == Some(s[i])
  {
    seq(|s|, i requires 0 <= i < |s| => Some(s[i]))
  }

  /** Reading exactly as many positions as s has sees every character defined. */
  lemma ViewOfFullLength(s: string)
    ensures View(s, |s|) == Lift(s)
  {
  }

  predicate IsUpperLetter(c: char) {
    'A' <= c <= 'Z'
  }

  predicate IsLowerLetter(c: char) {
    'a' <= c <= 'z'
  }

  /** `toUpperCase` on one character, restricted to the ASCII letters. */
  function UpperChar(c: char): (r: char)
    ensures IsLowerLetter(c) ==> IsUpperLetter(r) && r as int == c as int - 32
    ensures !IsLowerLetter(c) ==> r == c
  {
    if IsLowerLetter(c) then (c as int - 32) as char else c
  }

  /** `toUpperCase` on a string, character by character (ASCII only). */
  function Upper(s: string): (r: string)
    ensures |r| == |s|
    ensures forall i :: 0 <= i < |s| ==> r[i] == UpperChar(s[i])
  {
    seq(|s|, i requires 0 <= i < |s| => UpperChar(s[i]))
  }

  /** Upper-casing twice is upper-casing once; a string of upper-case letters is its own upper case. */
  lemma UpperIdempotent(s: string)
    ensures Upper(Upper(s)) == Upper(s)
    ensures (forall i :: 0 <= i < |s| ==> IsUpperLetter(s[i])) ==> Upper(s) == s
  {
  }

  /**
   * `row.join("")`: the cells of a board row concatenated. A row whose every
   * cell is one character joins to the string of those characters.
   */
  function Join(cells: seq<string>): (r: string)
    ensures (forall k :: 0 <= k < |cells| ==> |cells[k]| == 1) ==>
      |r| == |cells| && forall k :: 0 <= k < |cells| ==> r[k] == cells[k][0]
  {
    if cells == [] then "" else Join(cells[..|cells| - 1]) + cells[|cells| - 1]
  }
}
