/** The password check of pointers_arrays_strings/mock-101-crackme.c: with exactly
    one argument, the password is accepted when the codes of its characters add up
    to 2772; the exit status is 1 for a wrong argument count and 0 otherwise. */
module Crackme {

  /** The sum the password's character codes must reach. */
  const Target: int := 2772

  /** The largest character code accepted in a password (7-bit ASCII). */
  const MaxCode: int := 127

  /** The line the program writes. */
  datatype Message = Usage | Congrats | WrongPassword

  /** Exit status and message. */
  datatype Outcome = Outcome(status: int, msg: Message)

  /** The sum of the character codes of `p`: never negative, and at most 127 per
      character for a 7-bit password. */
  function CodeSum(p: string): (r: int)
    ensures 0 <= r
    ensures Ascii(p) ==> r <= MaxCode * |p|
  {
    if p == [] then 0 else CodeSum(p[..|p| - 1]) + p[|p| - 1] as int
  }

  /** The program's verdict on its argument vector (argv[0] is the program name):
      status 1 and the usage line for a wrong argument count, otherwise status 0
      and the congratulation exactly when the codes sum to the target. */
  function Verdict(argv: seq<string>): (r: Outcome)
    ensures r.status == (if |argv| == 2 then 0 else 1)
    ensures r.msg == Usage <==> |argv| != 2
    ensures r.msg == Congrats <==> |argv| == 2 && CodeSum(argv[1]) == Target
  {
    if |argv| != 2 then Outcome(1, Usage)
    else if CodeSum(argv[1]) == Target then Outcome(0, Congrats)
    else Outcome(0, WrongPassword)
  }

  /** A password as C sees it: no '\0' inside, every code within 7-bit ASCII. */
  predicate Ascii(p: string) {
    forall k :: 0 <= k < |p| ==> 0 < p[k] as int <= MaxCode
  }

  /** main: the argument count check, the summing loop and the final test. */
  method Check(argv: seq<string>) returns (status: int, msg: Message)
    requires |argv| == 2 ==> Ascii(argv[1])
    ensures Outcome(status, msg) == Verdict(argv)
    ensures status == (if |argv| == 2 then 0 else 1)
    ensures msg == Usage <==> |argv| != 2
  {
    if |argv| != 2 {
      return 1, Usage;
    }
    var p := argv[1];
    var sum := 0;
    var i := 0;
    while i < |p| && p[i] != '\0'
      invariant i <= |p|
      invariant sum == CodeSum(p[..i])
    {
      assert p[..i + 1][..i] == p[..i];
      sum := sum + p[i] as int;
      i := i + 1;
    }
    assert p[..i] == p;
    if sum == Target {
      msg := Congrats;
    } else {
      msg := WrongPassword;
    }
    status := 0;
  }

  /** The sum of a concatenation is the sum of its parts. */
  lemma {:induction false} CodeSumConcat(a: string, b: string)
    ensures CodeSum(a + b) == CodeSum(a) + CodeSum(b)
    decreases |b|
  {
    if b != [] {
      assert (a + b)[..|a + b| - 1] == a + b[..|b| - 1];
      CodeSumConcat(a, b[..|b| - 1]);
    } else {
      assert a + b == a;
    }
  }

  /** Rearranging the characters does not change the sum. */
  lemma {:induction false} CodeSumPermutation(p: string, q: string)
    requires multiset(p) == multiset(q)
    ensures CodeSum(p) == CodeSum(q)
    decreases |p|
  {
    if p != [] {
      var c := p[|p| - 1];
      assert p == p[..|p| - 1] + [c];
      assert c in multiset(q);
      var k :| 0 <= k < |q| && q[k] == c;
      var q' := q[..k] + q[k + 1..];
      assert q == q[..k] + [c] + q[k + 1..];
      assert multiset(q) == multiset(q[..k]) + multiset{c} + multiset(q[k + 1..]);
      assert multiset(q') == multiset(q[..k]) + multiset(q[k + 1..]);
      assert multiset(p) == multiset(p[..|p| - 1]) + multiset{c};
      assert multiset(p[..|p| - 1]) == multiset(p) - multiset{c};
      assert multiset(q') == multiset(q) - multiset{c};
      CodeSumPermutation(p[..|p| - 1], q');
      CodeSumConcat(q[..k] + [c], q[k + 1..]);
      CodeSumConcat(q[..k], [c]);
      CodeSumConcat(q[..k], q[k + 1..]);
      assert CodeSum([c]) == c as int by {
        assert [c][..0] == [];
      }
    } else {
      assert |q| == |multiset(q)| == 0;
    }
  }

  /** Any rearrangement of an accepted password is accepted too. */
  lemma PermutationAccepted(argv: seq<string>, q: string)
    requires |argv| == 2 && Verdict(argv).msg == Congrats
    requires multiset(q) == multiset(argv[1])
    ensures Verdict([argv[0], q]).msg == Congrats
  {
    CodeSumPermutation(q, argv[1]);
  }

  /** A password of fewer than 22 characters, the empty one among them, cannot
      reach 2772 and is rejected. */
  lemma ShortRejected(argv: seq<string>)
    requires |argv| == 2 && Ascii(argv[1]) && |argv[1]| < 22
    ensures Verdict(argv) == Outcome(0, WrongPassword)
  {
  }
}
