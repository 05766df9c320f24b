/**
 ASCII case folding, as `strtolower` in the controller and the database's
 `LOWER(...)` do it on plain ASCII names: 'A'..'Z' map to 'a'..'z' and every
 other character is left alone.
 */
module Ascii {

  predicate IsUpper(c: char) {
    'A' <= c <= 'Z'
  }

  /** A string with no upper-case ASCII letter: one that lower-casing leaves alone. */
  predicate IsLowercase(s: string) {
    forall i :: 0 <= i < |s| ==> !IsUpper(s[i])
  }

  function Lower(c: char): (d: char)
    ensures !IsUpper(d)
    ensures !IsUpper(c) ==> d == c
    ensures IsUpper(c) ==> 'a' <= d <= 'z' && d as int - 'a' as int == c as int - 'A' as int
  {
    if IsUpper(c) then (c as int + 32) as char else c
  }

  /** Lower-cases every character of `s`, keeping its length and order. */
  function LowerStr(s: string): (r: string)
    ensures |r| == |s|
    ensures forall i :: 0 <= i < |s| ==> r[i] == Lower(s[i])
  {
    if s == [] then [] else [Lower(s[0])] + LowerStr(s[1..])
  }

  /** Lower-casing yields a lower-case string. */
  lemma LowerStrIsLowercase(s: string)
    ensures IsLowercase(LowerStr(s))
  {
  }

  /** A string is a fixed point of lower-casing exactly when it has no upper-case letter. */
  lemma LowerStrFixedIff(s: string)
    ensures LowerStr(s) == s <==> IsLowercase(s)
  {
  }

  /** Lower-casing twice is lower-casing once. */
  lemma LowerStrIdempotent(s: string)
    ensures LowerStr(LowerStr(s)) == LowerStr(s)
  {
  }
}
