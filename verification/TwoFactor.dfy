/** The limit on one-time passwords: web/controllers/base.go. */
module TwoFactor {
  type Code = nat

  // What the client sent as its code, if it was a number.
  datatype Sent = NoCode | SentCode(code: Code)

  datatype Answer = TooManyAttempts | WrongCode | Accepted

  // The six places before anything was attempted.
  const INITIAL: seq<Code> := [0, 0, 0, 0, 0, 0]

  function Last6(s: seq<Code>): seq<Code>
    requires |s| >= 6
  {
    s[|s| - 6..]
  }

  // The history of server codes, and what was decided, over all attempts.
  class PasswordGuard {
    var history: seq<Code>
    ghost var codes: seq<Code>      // the server code of every attempt so far
    ghost var compared: seq<bool>   // whether the attempt got as far as the comparison

    ghost predicate Valid()
      reads this
    {
      && |history| == 6 && history == Last6(INITIAL + codes)
      && |compared| == |codes|
      && forall i :: 0 <= i < |codes| ==> compared[i] == ReachesComparison(codes, i)
    }

    constructor ()
      ensures Valid() && codes == [] && compared == []
    {
      history, codes, compared := INITIAL, [], [];
    }

    method Prepare(serverside: Code, clientside: Sent) returns (r: Answer)
      requires Valid()
      modifies this
      ensures Valid()
      ensures codes == old(codes) + [serverside] && |compared| == |old(compared)| + 1
      ensures compared[..|old(compared)|] == old(compared)
      ensures r == TooManyAttempts <==>
        var n := |old(codes)|; if n < 6 then serverside == 0 else old(codes)[n - 6] == serverside
      ensures r == TooManyAttempts <==> !compared[|old(compared)|]
      ensures r == Accepted <==> compared[|old(compared)|] && clientside == SentCode(serverside)
    {
      ghost var before := INITIAL + codes;
      history := history + [serverside];
      var first := history[0];
      history := history[1..];
      codes := codes + [serverside];
      assert INITIAL + codes == before + [serverside];
      compared := compared + [first != serverside];
      assert first == (INITIAL + codes)[|codes| - 1];
      if first == serverside {
        return TooManyAttempts;
      }
      if clientside != SentCode(serverside) {
        return WrongCode;
      }
      return Accepted;
    }
  }

  // The attempt is compared exactly when the code six attempts before was another.
  predicate ReachesComparison(codes: seq<Code>, i: nat)
    requires i < |codes|
  {
    (INITIAL + codes)[i] != codes[i]
  }

  function Comparisons(codes: seq<Code>, lo: nat, hi: nat): nat
    requires lo <= hi <= |codes|
    decreases hi
  {
    if lo == hi then 0 else Comparisons(codes, lo, hi - 1) + (if ReachesComparison(codes, hi - 1) then 1 else 0)
  }

  // While the code stays the same, at most six attempts are compared, and none
  // after the sixth attempt with it.
  lemma {:induction false} AtMostSixComparisons(codes: seq<Code>, lo: nat, hi: nat)
    requires lo <= hi <= |codes| && forall i :: lo <= i < hi ==> codes[i] == codes[lo]
    ensures Comparisons(codes, lo, hi) <= 6
    ensures forall i :: lo + 6 <= i < hi ==> !ReachesComparison(codes, i)
    ensures hi - lo <= 6 ==> Comparisons(codes, lo, hi) <= hi - lo
    decreases hi
  {
    if lo < hi {
      AtMostSixComparisons(codes, lo, hi - 1);
      if hi - lo > 6 {
        assert (INITIAL + codes)[hi - 1] == codes[hi - 7];
      }
    }
  }

  // Six is reached when the six attempts before had other codes.
  lemma {:induction false} SixAreAllowed(codes: seq<Code>, lo: nat, hi: nat)
    requires lo <= hi <= |codes| && hi - lo <= 6
    requires forall i :: lo <= i < hi ==> codes[i] == codes[lo]
    requires forall i :: lo <= i < lo + 6 && i < hi ==> (INITIAL + codes)[i] != codes[lo]
    ensures Comparisons(codes, lo, hi) == hi - lo
    decreases hi
  {
    if lo < hi {
      SixAreAllowed(codes, lo, hi - 1);
    }
  }

  // A zero code is never compared among the first six attempts.
  lemma ZeroIsBlockedAtFirst(codes: seq<Code>, i: nat)
    requires i < |codes| && i < 6 && codes[i] == 0
    ensures !ReachesComparison(codes, i)
  {
    assert (INITIAL + codes)[i] == INITIAL[i] == 0;
  }
}
