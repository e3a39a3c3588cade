/** String helpers both extractors use: Kotlin's `removePrefix` (which the
    biome hasher spells out as `startsWith` + `substring`) and `lowercase()`
    restricted to ASCII letters. */
module Text {

  /** `s.removePrefix(p)`: drops one leading copy of `p`, if there is one. */
  function RemovePrefix(s: string, p: string): (r: string)
    ensures p <= s ==> p + r == s
    ensures !(p <= s) ==> r == s
    ensures |r| == |s| - |p| <==> p <= s || p == []
  {
    if p <= s then s[|p|..] else s
  }

  predicate IsUpper(c: char)
  {
    'A' <= c <= 'Z'
  }

  function LowerChar(c: char): (d: char)
    ensures !IsUpper(d)
    ensures IsUpper(c) ==> d as int == c as int + 32
    ensures !IsUpper(c) ==> d == c
  {
    if IsUpper(c) then (c as int + 32) as char else c
  }

  /** `s.lowercase()` on ASCII: every upper-case letter becomes its lower-case
      letter, every other character stays. */
  function Lowercase(s: string): (r: string)
    ensures |r| == |s|
    ensures forall i :: 0 <= i < |s| ==> r[i] == LowerChar(s[i])
  {
    if s == [] then "" else [LowerChar(s[0])] + Lowercase(s[1..])
  }

  /** Lowercasing twice changes nothing more. */
  lemma LowercaseIdempotent(s: string)
    ensures Lowercase(Lowercase(s)) == Lowercase(s)
  {
  }
}
