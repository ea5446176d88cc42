/** leet of pointers_arrays_strings/7-leet.c: rewrite a C string in place, turning
    a/A into 4, e/E into 3, o/O into 0, t/T into 7 and l/L into 1.

    The string lives in a `char` array and ends at its first '\0'. */
module Leet {

  /** The substitution table of the source: triples (letter, capital, digit),
      terminated by '\0'. */
  const LeetMap: string := "aA4eE3oO0tT7lL1\0"

  /** The number of characters of the table before its terminator. */
  const MapLen: nat := 15

  /** The substitution as the source's comment states it, one character at a time:
      none of the ten letters survives, and every other character is kept. */
  function LeetChar(c: char): (r: char)
    ensures r !in "aAeEoOtTlL"
    ensures r == c <==> c !in "aAeEoOtTlL"
  {
    if c == 'a' || c == 'A' then '4'
    else if c == 'e' || c == 'E' then '3'
    else if c == 'o' || c == 'O' then '0'
    else if c == 't' || c == 'T' then '7'
    else if c == 'l' || c == 'L' then '1'
    else c
  }

  /** What the inner loop has made of `c` after the triples before index `j`:
      `c` itself, or the digit of one of those triples. */
  function ApplyPairs(c: char, j: nat): (r: char)
    requires j % 3 == 0 && j <= MapLen
    ensures r == c || exists m :: 0 < m <= j && m % 3 == 0 && r == LeetMap[m - 1]
  {
    if j == 0 then c
    else
      var d := ApplyPairs(c, j - 3);
      if d == LeetMap[j - 3] || d == LeetMap[j - 2] then LeetMap[j - 1] else d
  }

  /** Walking the whole table rewrites a character exactly as LeetChar does. */
  lemma ApplyPairsComplete(c: char)
    ensures ApplyPairs(c, MapLen) == LeetChar(c)
  {
    assert LeetMap == ['a', 'A', '4', 'e', 'E', '3', 'o', 'O', '0', 't', 'T', '7', 'l', 'L', '1', '\0'];
    assert LeetMap[0] == 'a' && LeetMap[1] == 'A' && LeetMap[2] == '4';
    assert ApplyPairs(c, 0) == c;
    var d3 := ApplyPairs(c, 3);
    assert d3 == if c == 'a' || c == 'A' then '4' else c;
    var d6 := ApplyPairs(c, 6);
    assert d6 == if d3 == 'e' || d3 == 'E' then '3' else d3;
    var d9 := ApplyPairs(c, 9);
    assert d9 == if d6 == 'o' || d6 == 'O' then '0' else d6;
    var d12 := ApplyPairs(c, 12);
    assert d12 == if d9 == 't' || d9 == 'T' then '7' else d9;
    assert ApplyPairs(c, 15) == if d12 == 'l' || d12 == 'L' then '1' else d12;
  }

  /** The length of the C string held in `t`: the index of its first '\0'. */
  function CLen(t: seq<char>): (n: nat)
    requires '\0' in t
    ensures n < |t| && t[n] == '\0'
    ensures forall k :: 0 <= k < n ==> t[k] != '\0'
  {
    if t[0] == '\0' then 0 else 1 + CLen(t[1..])
  }

  /** The contents of the array after leet: every character before the terminator
      rewritten, the terminator and everything after it as they were. */
  function LeetString(t: seq<char>): (r: seq<char>)
    requires '\0' in t
    ensures |r| == |t| && r[CLen(t)] == '\0'
    ensures forall k :: 0 <= k < |t| ==> r[k] == t[k] || t[k] in "aAeEoOtTlL"
  {
    seq(|t|, k requires 0 <= k < |t| => if k < CLen(t) then LeetChar(t[k]) else t[k])
  }

  /** leet. The array is rewritten in place and returned. */
  method Leet(str: array<char>) returns (r: array<char>)
    requires '\0' in str[..]
    modifies str
    ensures r == str
    ensures str[..] == LeetString(old(str[..]))
  {
    ghost var t := str[..];
    var i := 0;
    while str[i] != '\0'
      invariant i <= CLen(t)
      invariant forall k :: 0 <= k < i ==> str[k] == LeetChar(t[k])
      invariant forall k :: i <= k < str.Length ==> str[k] == t[k]
      decreases CLen(t) - i
    {
      var j := 0;
      ghost var before := str[..];
      while LeetMap[j] != '\0'
        invariant j % 3 == 0 && j <= MapLen
        invariant str[i] == ApplyPairs(t[i], j)
        invariant forall k :: 0 <= k < str.Length && k != i ==> str[k] == before[k]
        decreases MapLen - j
      {
        if str[i] == LeetMap[j] || str[i] == LeetMap[j + 1] {
          str[i] := LeetMap[j + 2];
        }
        j := j + 3;
      }
      ApplyPairsComplete(t[i]);
      i := i + 1;
    }
    r := str;
  }

  /** The rewritten string has the terminator where it was. */
  lemma LeetKeepsLength(t: seq<char>)
    requires '\0' in t
    ensures |LeetString(t)| == |t|
    ensures '\0' in LeetString(t) && CLen(LeetString(t)) == CLen(t)
  {
    var r := LeetString(t);
    assert r[CLen(t)] == '\0';
    CLenUnique(r, CLen(t));
  }

  /** Any index of a '\0' with none before it is the string length. */
  lemma {:induction false} CLenUnique(t: seq<char>, n: nat)
    requires n < |t| && t[n] == '\0'
    requires forall k :: 0 <= k < n ==> t[k] != '\0'
    ensures CLen(t) == n
  {
    if n > 0 {
      CLenUnique(t[1..], n - 1);
    }
  }

  /** Applying leet twice is the same as applying it once. */
  lemma LeetIdempotent(t: seq<char>)
    requires '\0' in t
    ensures '\0' in LeetString(t)
    ensures LeetString(LeetString(t)) == LeetString(t)
  {
    LeetKeepsLength(t);
  }

  /** None of a, A, e, E, o, O, t, T, l, L is left in the string. */
  lemma NoLettersLeft(t: seq<char>)
    requires '\0' in t
    ensures '\0' in LeetString(t)
    ensures forall k :: 0 <= k < CLen(LeetString(t)) ==> LeetString(t)[k] !in "aAeEoOtTlL"
  {
    LeetKeepsLength(t);
  }
}
