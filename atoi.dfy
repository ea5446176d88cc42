/** _atoi of pointers_arrays_strings/100-atoi.c. The scan reads the string up to
    its terminator: every '-' flips the sign, digits accumulate, and once a digit has
    been read the first character that is neither a digit nor '-' stops the scan.
    Anything else before the first digit is skipped.

    The C string is a `string`; its end, or a '\0' inside it, terminates it. */
module Atoi {

  /** The largest C int (INT_MAX for a 32-bit int). */
  const IntMax: int := 0x7fff_ffff

  /** The range of the unsigned accumulator (a 32-bit unsigned int). */
  const UintRange: int := 0x1_0000_0000

  predicate IsDigit(c: char) {
    '0' <= c <= '9'
  }

  /** The digits of `t`, in order. */
  function Digits(t: string): (d: string)
    ensures |d| <= |t|
    ensures forall k :: 0 <= k < |d| ==> IsDigit(d[k])
  {
    if t == [] then []
    else Digits(t[..|t| - 1]) + (if IsDigit(t[|t| - 1]) then [t[|t| - 1]] else [])
  }

  /** The number of '-' characters in `t`. */
  function Minuses(t: string): nat {
    if t == [] then 0
    else Minuses(t[..|t| - 1]) + (if t[|t| - 1] == '-' then 1 else 0)
  }

  /** The value of a string of decimal digits, most significant first. */
  function DecimalValue(d: string): nat
    requires forall k :: 0 <= k < |d| ==> IsDigit(d[k])
  {
    if d == [] then 0
    else
      assert IsDigit(d[|d| - 1]);
      DecimalValue(d[..|d| - 1]) * 10 + (d[|d| - 1] as int - '0' as int)
  }

  /** Where a scan that is at index `i`, having seen a digit or not, stops: at the
      terminator, or at a character that is neither a digit nor '-' once a digit
      has been seen. */
  function ScanEnd(s: string, i: nat, found: bool): (e: nat)
    requires i <= |s|
    ensures i <= e <= |s|
    ensures e == |s| || s[e] == '\0' || (!IsDigit(s[e]) && s[e] != '-')
    decreases |s| - i
  {
    if i == |s| || s[i] == '\0' then i
    else if s[i] == '-' then ScanEnd(s, i + 1, found)
    else if IsDigit(s[i]) then ScanEnd(s, i + 1, true)
    else if found then i
    else ScanEnd(s, i + 1, found)
  }

  /** The scan reads no terminator on its way. */
  lemma {:induction false} ScanEndNoNul(s: string, i: nat, found: bool)
    requires i <= |s|
    ensures forall k :: i <= k < ScanEnd(s, i, found) ==> s[k] != '\0'
    decreases |s| - i
  {
    if i == |s| || s[i] == '\0' {
    } else if s[i] == '-' {
      ScanEndNoNul(s, i + 1, found);
    } else if IsDigit(s[i]) {
      ScanEndNoNul(s, i + 1, true);
    } else if !found {
      ScanEndNoNul(s, i + 1, found);
    }
  }

  /** The index at which _atoi stops reading `s`: the end of the string, its
      terminator, or a character that is neither a digit nor '-'. */
  function Stop(s: string): (e: nat)
    ensures e <= |s|
    ensures e == |s| || s[e] == '\0' || (!IsDigit(s[e]) && s[e] != '-')
  {
    ScanEnd(s, 0, false)
  }

  /** The part of `s` that _atoi reads: a prefix that holds no terminator. */
  function Scanned(s: string): (t: string)
    ensures |t| <= |s| && t == s[..|t|]
    ensures forall k :: 0 <= k < |t| ==> t[k] != '\0'
  {
    ScanEndNoNul(s, 0, false);
    s[..Stop(s)]
  }

  /** The value _atoi returns, when it fits in an int: the decimal value of the
      digits read, negated when an odd number of '-' were read. Its magnitude is
      the value of the digits read, and it is negative only after an odd count of
      '-'. */
  function AtoiValue(s: string): (r: int)
    ensures (if r < 0 then -r else r) == DecimalValue(Digits(Scanned(s)))
    ensures r < 0 ==> Minuses(Scanned(s)) % 2 == 1
  {
    var t := Scanned(s);
    (if Minuses(t) % 2 == 1 then -1 else 1) * DecimalValue(Digits(t))
  }

  /** Extending the text by one character extends its digits by that character
      when it is a digit. */
  lemma DigitsSnoc(t: string, c: char)
    ensures Digits(t + [c]) == Digits(t) + (if IsDigit(c) then [c] else [])
    ensures Minuses(t + [c]) == Minuses(t) + (if c == '-' then 1 else 0)
  {
    assert (t + [c])[..|t|] == t;
  }

  /** Reading one more character of `s`: its digits, its '-' count and the value
      of its digits. */
  lemma ReadStep(s: string, i: nat)
    requires i < |s|
    ensures Digits(s[..i + 1]) == Digits(s[..i]) + (if IsDigit(s[i]) then [s[i]] else [])
    ensures Minuses(s[..i + 1]) == Minuses(s[..i]) + (if s[i] == '-' then 1 else 0)
    ensures DecimalValue(Digits(s[..i + 1])) ==
      if IsDigit(s[i]) then DecimalValue(Digits(s[..i])) * 10 + (s[i] as int - '0' as int)
      else DecimalValue(Digits(s[..i]))
  {
    assert s[..i + 1] == s[..i] + [s[i]];
    DigitsSnoc(s[..i], s[i]);
    var d := Digits(s[..i + 1]);
    if IsDigit(s[i]) {
      assert d[..|d| - 1] == Digits(s[..i]) && d[|d| - 1] == s[i];
      assert DecimalValue(d) == DecimalValue(d[..|d| - 1]) * 10 + (d[|d| - 1] as int - '0' as int);
    } else {
      assert d == Digits(s[..i]);
    }
  }

  /** Reading further never makes the digits read so far worth less. */
  lemma {:induction false} DecimalValueGrows(s: string, i: nat, j: nat)
    requires i <= j <= |s|
    ensures DecimalValue(Digits(s[..i])) <= DecimalValue(Digits(s[..j]))
    decreases j - i
  {
    if i < j {
      DecimalValueGrows(s, i, j - 1);
      ReadStep(s, j - 1);
    }
  }

  /** The state of the scan after reading `s[..i]`: it has not stopped, `found`
      says whether a digit was read, `sign` is -1 after an odd number of '-', and
      `num` is the value of the digits read. */
  ghost predicate Scanning(s: string, i: nat, sign: int, num: int, found: bool) {
    i <= Stop(s) && ScanEnd(s, i, found) == Stop(s) &&
    found == (Digits(s[..i]) != []) &&
    sign == (if Minuses(s[..i]) % 2 == 1 then -1 else 1) &&
    num == DecimalValue(Digits(s[..i]))
  }

  /** Reading a '-' flips the sign. */
  lemma MinusStep(s: string, i: nat, sign: int, num: int, found: bool)
    requires Scanning(s, i, sign, num, found) && i < |s| && s[i] == '-'
    ensures Scanning(s, i + 1, sign * -1, num, found)
  {
    ReadStep(s, i);
  }

  /** Reading a digit appends it to the value, which stays within an int when the
      whole value read does. */
  lemma DigitStep(s: string, i: nat, sign: int, num: int, found: bool)
    requires Scanning(s, i, sign, num, found) && i < |s| && IsDigit(s[i])
    requires DecimalValue(Digits(Scanned(s))) <= IntMax
    ensures num * 10 + (s[i] as int - '0' as int) <= IntMax
    ensures Scanning(s, i + 1, sign, num * 10 + (s[i] as int - '0' as int), true)
  {
    ReadStep(s, i);
    DecimalValueGrows(s, i + 1, Stop(s));
  }

  /** Any other character is skipped while no digit has been read, and stops the
      scan once one has. */
  lemma OtherStep(s: string, i: nat, sign: int, num: int, found: bool)
    requires Scanning(s, i, sign, num, found) && i < |s| && s[i] != '\0'
    requires !IsDigit(s[i]) && s[i] != '-'
    ensures found ==> i == Stop(s)
    ensures !found ==> Scanning(s, i + 1, sign, num, found)
  {
    ReadStep(s, i);
  }

  /** Where the scan stops, the sign and the value make up AtoiValue. */
  lemma Finish(s: string, i: nat, sign: int, num: int, found: bool)
    requires Scanning(s, i, sign, num, found) && i == Stop(s)
    ensures sign * num == AtoiValue(s)
  {
  }

  /** _atoi. The unsigned accumulator is kept modulo 2^32 as in C; under the
      precondition that the value read fits in an int it never wraps, so the
      result is exactly AtoiValue(s). */
  method Atoi(s: string) returns (r: int)
    requires DecimalValue(Digits(Scanned(s))) <= IntMax
    ensures r == AtoiValue(s)
  {
    var i := 0;
    var sign := 1;
    var num := 0;
    var found := false;
    while i < |s| && s[i] != '\0'
      invariant Scanning(s, i, sign, num, found)
      decreases |s| - i
    {
      if s[i] == '-' {
        MinusStep(s, i, sign, num, found);
        sign := sign * -1;
      } else if '0' <= s[i] <= '9' {
        DigitStep(s, i, sign, num, found);
        found := true;
        num := (num * 10 + (s[i] as int - '0' as int)) % UintRange;
      } else {
        OtherStep(s, i, sign, num, found);
        if found {
          break;
        }
      }
      i := i + 1;
    }
    Finish(s, i, sign, num, found);
    r := sign * num;
  }

  /** Without a digit in the text read, the result is 0. */
  lemma {:induction false} NoDigitsNoValue(t: string)
    requires forall k :: 0 <= k < |t| ==> !IsDigit(t[k])
    ensures Digits(t) == []
  {
    if t != [] {
      NoDigitsNoValue(t[..|t| - 1]);
    }
  }

  /** A string containing no digit converts to 0. */
  lemma NoDigitsZero(s: string)
    requires forall k :: 0 <= k < |s| ==> !IsDigit(s[k])
    ensures AtoiValue(s) == 0
  {
    NoDigitsNoValue(Scanned(s));
  }

  /** The result is negative exactly when an odd number of '-' were read, wherever
      they stand, and some non-zero digit was read. */
  lemma NegativeIff(s: string)
    ensures AtoiValue(s) < 0 <==>
      Minuses(Scanned(s)) % 2 == 1 && DecimalValue(Digits(Scanned(s))) > 0
  {
  }

  /** Where the scan stops depends only on the characters up to and including the
      one it stops at. */
  lemma {:induction false} ScanEndPrefix(s: string, s': string, i: nat, found: bool)
    requires i <= |s| && ScanEnd(s, i, found) < |s|
    requires ScanEnd(s, i, found) < |s'| && s'[..ScanEnd(s, i, found) + 1] == s[..ScanEnd(s, i, found) + 1]
    ensures i <= |s'| && ScanEnd(s', i, found) == ScanEnd(s, i, found)
    decreases |s| - i
  {
    var e := ScanEnd(s, i, found);
    assert s'[i] == s'[..e + 1][i] == s[..e + 1][i] == s[i];
    if s[i] != '\0' && s[i] == '-' {
      ScanEndPrefix(s, s', i + 1, found);
    } else if s[i] != '\0' && IsDigit(s[i]) {
      ScanEndPrefix(s, s', i + 1, true);
    } else if s[i] != '\0' && !found {
      ScanEndPrefix(s, s', i + 1, found);
    }
  }

  /** Once the scan has stopped at a character, whatever follows that character
      does not change the result. */
  lemma TailIgnored(s: string, u: string)
    requires Stop(s) < |s|
    ensures AtoiValue(s[..Stop(s) + 1] + u) == AtoiValue(s)
  {
    var s' := s[..Stop(s) + 1] + u;
    assert s'[..Stop(s) + 1] == s[..Stop(s) + 1];
    ScanEndPrefix(s, s', 0, false);
    assert Scanned(s') == s'[..Stop(s)] == s[..Stop(s)];
  }

  /** Scanning behind one more leading character shifts the stopping point by one. */
  lemma {:induction false} ScanEndShift(c: char, s: string, i: nat, found: bool)
    requires i <= |s|
    ensures ScanEnd([c] + s, i + 1, found) == ScanEnd(s, i, found) + 1
    decreases |s| - i
  {
    var s' := [c] + s;
    if i < |s| {
      assert s'[i + 1] == s[i];
      if s[i] != '\0' && s[i] == '-' {
        ScanEndShift(c, s, i + 1, found);
      } else if s[i] != '\0' && IsDigit(s[i]) {
        ScanEndShift(c, s, i + 1, true);
      } else if s[i] != '\0' && !found {
        ScanEndShift(c, s, i + 1, found);
      }
    }
  }

  /** A leading character that is not a digit, '-' or the terminator adds no digit
      and no '-'. */
  lemma {:induction false} SkippedCons(c: char, t: string)
    requires !IsDigit(c) && c != '-'
    ensures Digits([c] + t) == Digits(t) && Minuses([c] + t) == Minuses(t)
    decreases |t|
  {
    if t != [] {
      var t' := [c] + t;
      assert t'[..|t'| - 1] == [c] + t[..|t| - 1];
      assert t'[|t'| - 1] == t[|t| - 1];
      SkippedCons(c, t[..|t| - 1]);
    } else {
      assert [c] + t == [] + [c];
      DigitsSnoc([], c);
    }
  }

  /** A character before the first digit that is neither a digit nor '-' (a '+',
      a blank, a letter) is skipped. */
  lemma LeadingIgnored(c: char, s: string)
    requires !IsDigit(c) && c != '-' && c != '\0'
    ensures AtoiValue([c] + s) == AtoiValue(s)
  {
    ScanEndShift(c, s, 0, false);
    assert Stop([c] + s) == Stop(s) + 1;
    assert Scanned([c] + s) == [c] + Scanned(s);
    SkippedCons(c, Scanned(s));
  }
  /** Scanning past one inserted character shifts the stopping point by one, from
      the insertion point on. */
  lemma {:induction false} ScanEndInsert(x: string, c: char, y: string, j: nat, found: bool)
    requires j <= |y|
    ensures ScanEnd(x + [c] + y, |x| + 1 + j, found) == ScanEnd(x + y, |x| + j, found) + 1
    decreases |y| - j
  {
    var s, s' := x + y, x + [c] + y;
    if j < |y| {
      assert s'[|x| + 1 + j] == y[j] == s[|x| + j];
      if y[j] != '\0' && y[j] == '-' {
        ScanEndInsert(x, c, y, j + 1, found);
      } else if y[j] != '\0' && IsDigit(y[j]) {
        ScanEndInsert(x, c, y, j + 1, true);
      } else if y[j] != '\0' && !found {
        ScanEndInsert(x, c, y, j + 1, found);
      }
    }
  }

  /** Before any digit, a scan through text without digits or terminator does not
      stop inside it, and stops one place later behind an inserted character that
      is skipped. */
  lemma {:induction false} ScanEndSkip(x: string, c: char, y: string, i: nat)
    requires forall k :: 0 <= k < |x| ==> !IsDigit(x[k]) && x[k] != '\0'
    requires !IsDigit(c) && c != '-' && c != '\0'
    requires i <= |x|
    ensures |x| <= ScanEnd(x + y, i, false)
    ensures ScanEnd(x + [c] + y, i, false) == ScanEnd(x + y, i, false) + 1
    decreases |x| - i
  {
    var s, s' := x + y, x + [c] + y;
    if i == |x| {
      assert s'[i] == c;
      ScanEndInsert(x, c, y, 0, false);
    } else {
      assert s'[i] == x[i] == s[i];
      ScanEndSkip(x, c, y, i + 1);
    }
  }

  /** Inserting a character that is neither a digit nor '-' adds no digit and no
      '-'. */
  lemma {:induction false} SkippedInsert(x: string, c: char, u: string)
    requires !IsDigit(c) && c != '-'
    ensures Digits(x + [c] + u) == Digits(x + u)
    ensures Minuses(x + [c] + u) == Minuses(x + u)
    decreases |u|
  {
    if u == [] {
      assert x + [c] + u == x + [c] && x + u == x;
      DigitsSnoc(x, c);
    } else {
      var u', d := u[..|u| - 1], u[|u| - 1];
      assert x + [c] + u == (x + [c] + u') + [d];
      assert x + u == (x + u') + [d];
      SkippedInsert(x, c, u');
      DigitsSnoc(x + [c] + u', d);
      DigitsSnoc(x + u', d);
    }
  }

  /** A character that is neither a digit, '-' nor the terminator, standing
      anywhere before the first digit (after some '-' signs, say), is skipped. */
  lemma SkippedAnywhere(x: string, c: char, y: string)
    requires forall k :: 0 <= k < |x| ==> !IsDigit(x[k]) && x[k] != '\0'
    requires !IsDigit(c) && c != '-' && c != '\0'
    ensures AtoiValue(x + [c] + y) == AtoiValue(x + y)
  {
    var s, s' := x + y, x + [c] + y;
    ScanEndSkip(x, c, y, 0);
    var e := Stop(s);
    assert Stop(s') == e + 1;
    var u := y[..e - |x|];
    assert Scanned(s) == x + u;
    assert Scanned(s') == x + [c] + u;
    SkippedInsert(x, c, u);
  }

  /** "-+5" converts like "-5": the '+' after the sign is skipped. */
  lemma SignThenPlus()
    ensures AtoiValue("-+5") == AtoiValue("-5")
  {
    assert "-" + ['+'] + "5" == "-+5";
    assert "-" + "5" == "-5";
    SkippedAnywhere("-", '+', "5");
  }
}
