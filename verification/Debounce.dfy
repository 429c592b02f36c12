/** The 30 second cooldown of rapid scans (scripts/rfid-resilience-model-test.ts, scenario 2). */
module Debounce {

  const COOLDOWN_MS: int := 30000

  /** Times accepted after a scan accepted at `last`; zero means none was. */
  function Accepted(times: seq<int>, last: int): seq<int> {
    if times == [] then []
    else if last == 0 || times[0] - last >= COOLDOWN_MS then [times[0]] + Accepted(times[1..], times[0])
    else Accepted(times[1..], last)
  }

  predicate Sorted(times: seq<int>) {
    forall i, j | 0 <= i < j < |times| :: times[i] <= times[j]
  }

  predicate AllPositive(times: seq<int>) {
    forall i | 0 <= i < |times| :: times[i] > 0
  }

  /** Half a minute apart, in milliseconds. */
  predicate Spaced(times: seq<int>) {
    forall i, j | 0 <= i < j < |times| :: times[j] - times[i] >= 30000
  }

  /** p keeps some of the scans, in order. */
  predicate IsSubsequence(p: seq<int>, times: seq<int>) {
    p == [] || (times != [] && ((p[0] == times[0] && IsSubsequence(p[1..], times[1..])) || IsSubsequence(p, times[1..])))
  }

  /** The loop: how many scans are accepted and how many blocked. */
  method CountScans(times: seq<int>) returns (validAccepted: nat, duplicatesBlocked: nat)
    ensures validAccepted == |Accepted(times, 0)|
    ensures validAccepted + duplicatesBlocked == |times|
  {
    validAccepted, duplicatesBlocked := 0, 0;
    var lastAcceptedTime := 0;
    for i := 0 to |times|
      invariant validAccepted + |Accepted(times[i..], lastAcceptedTime)| == |Accepted(times, 0)|
      invariant validAccepted + duplicatesBlocked == i
    {
      assert times[i..][1..] == times[i + 1..];
      if lastAcceptedTime == 0 || times[i] - lastAcceptedTime >= COOLDOWN_MS {
        validAccepted := validAccepted + 1;
        lastAcceptedTime := times[i];
      } else {
        duplicatesBlocked := duplicatesBlocked + 1;
      }
    }
  }

  /** Accepted scans are scans, far enough from the last accepted one and from each other. */
  lemma {:induction false} AcceptedIsSpaced(times: seq<int>, last: int)
    requires Sorted(times) && AllPositive(times) && last >= 0
    ensures var a := Accepted(times, last);
            && IsSubsequence(a, times) && Spaced(a) && AllPositive(a)
            && (last > 0 ==> forall i | 0 <= i < |a| :: a[i] - last >= COOLDOWN_MS)
    decreases |times|
  {
    if times != [] {
      assert Sorted(times[1..]) && AllPositive(times[1..]);
      if last == 0 || times[0] - last >= COOLDOWN_MS {
        AcceptedIsSpaced(times[1..], times[0]);
        assert Accepted(times, last)[1..] == Accepted(times[1..], times[0]);
      } else {
        AcceptedIsSpaced(times[1..], last);
      }
    }
  }

  /** Every scan is accepted, or comes less than the cooldown after an accepted one (or after `last`). */
  lemma {:induction false} BlockedAreClose(times: seq<int>, last: int, k: nat)
    requires Sorted(times) && AllPositive(times) && last >= 0 && k < |times|
    ensures var t := times[k];
            || t in Accepted(times, last)
            || (last > 0 && t - last < COOLDOWN_MS)
            || exists a :: a in Accepted(times, last) && a <= t < a + COOLDOWN_MS
    decreases |times|
  {
    assert Sorted(times[1..]) && AllPositive(times[1..]);
    var accepts := last == 0 || times[0] - last >= COOLDOWN_MS;
    var next := if accepts then times[0] else last;
    if k > 0 {
      BlockedAreClose(times[1..], next, k - 1);
      assert times[1..][k - 1] == times[k];
      assert accepts ==> times[0] in Accepted(times, last);
      assert forall a | a in Accepted(times[1..], next) :: a in Accepted(times, last);
    }
  }

  lemma SpacedTail(p: seq<int>)
    requires Spaced(p) && p != []
    ensures Spaced(p[1..]) && forall i | 0 <= i < |p[1..]| :: p[1..][i] - p[0] >= COOLDOWN_MS
  {
  }

  lemma {:induction false} SubsequenceElements(p: seq<int>, times: seq<int>, i: nat)
    requires IsSubsequence(p, times) && i < |p|
    ensures p[i] in times
    decreases |times|
  {
    if p[0] == times[0] && IsSubsequence(p[1..], times[1..]) {
      if i > 0 {
        SubsequenceElements(p[1..], times[1..], i - 1);
      }
    } else {
      SubsequenceElements(p, times[1..], i);
    }
  }

  /** The exchange argument: no spaced selection starting a cooldown after `last` is longer. */
  lemma {:induction false} GreedyStaysAhead(times: seq<int>, last: int, p: seq<int>)
    requires Sorted(times) && AllPositive(times) && last > 0
    requires IsSubsequence(p, times) && Spaced(p) && (p != [] ==> p[0] - last >= COOLDOWN_MS)
    ensures |p| <= |Accepted(times, last)|
    decreases |times|
  {
    if p != [] {
      assert Sorted(times[1..]) && AllPositive(times[1..]);
      SubsequenceElements(p, times, 0);
      assert p[0] >= times[0];
      if times[0] - last >= COOLDOWN_MS {
        SpacedTail(p);
        TailIsSubsequence(p, times);
        GreedyStaysAhead(times[1..], times[0], p[1..]);
      } else {
        GreedyStaysAhead(times[1..], last, p);
      }
    }
  }

  lemma {:induction false} TailIsSubsequence(p: seq<int>, times: seq<int>)
    requires IsSubsequence(p, times) && p != []
    ensures IsSubsequence(p[1..], times[1..])
    decreases |times|
  {
    if !(p[0] == times[0] && IsSubsequence(p[1..], times[1..])) {
      TailIsSubsequence(p, times[1..]);
      Weaken(p[1..], times[1..]);
    }
  }

  lemma Weaken(p: seq<int>, times: seq<int>)
    requires times != [] && IsSubsequence(p, times[1..])
    ensures IsSubsequence(p, times)
  {
  }

  /** No spaced selection of the scans is longer than the accepted ones. */
  lemma GreedyIsOptimal(times: seq<int>, p: seq<int>)
    requires Sorted(times) && AllPositive(times) && IsSubsequence(p, times) && Spaced(p)
    ensures |p| <= |Accepted(times, 0)| && Spaced(Accepted(times, 0)) && IsSubsequence(Accepted(times, 0), times)
  {
    AcceptedIsSpaced(times, 0);
    if p != [] {
      SpacedTail(p);
      SubsequenceElements(p, times, 0);
      TailIsSubsequence(p, times);
      assert Sorted(times[1..]) && AllPositive(times[1..]);
      GreedyStaysAhead(times[1..], times[0], p[1..]);
    }
  }

  lemma SpacedCons(first: int, p: seq<int>)
    requires Spaced(p) && forall a | a in p :: a - first >= COOLDOWN_MS
    ensures Spaced([first] + p)
  {
    forall i, j | 0 <= i < j < |[first] + p|
      ensures ([first] + p)[j] - ([first] + p)[i] >= COOLDOWN_MS
    {
      assert p[j - 1] in p;
    }
  }

  /** A first scan at time zero leaves the mark at "nothing accepted yet". */
  lemma ZeroFirst(times: seq<int>)
    requires Sorted(times) && |times| >= 2 && times[0] == 0 && times[1] >= 0
    ensures Spaced(Accepted(times, 0)) <==> times[1] >= COOLDOWN_MS
  {
    var rest := times[1..];
    var a := Accepted(rest, 0);
    assert Accepted(times, 0) == [0] + a;
    assert a[0] == times[1];
    if times[1] >= COOLDOWN_MS {
      assert Sorted(rest) && AllPositive(rest);
      AcceptedIsSpaced(rest, 0);
      FirstIsLeast(rest);
      SpacedCons(0, a);
    } else {
      assert ([0] + a)[1] - ([0] + a)[0] < COOLDOWN_MS;
    }
  }

  /** Zero is also the mark of "nothing accepted yet": with a first scan at time zero the next one is
      accepted whatever the gap, and the cooldown holds exactly when that gap is long enough. */
  lemma ZeroIsNoTime(times: seq<int>)
    requires Sorted(times) && forall i | 0 <= i < |times| :: times[i] >= 0
    ensures Spaced(Accepted(times, 0)) <==> |times| < 2 || times[0] > 0 || times[1] >= COOLDOWN_MS
  {
    if |times| >= 2 && times[0] == 0 {
      ZeroFirst(times);
    } else if |times| >= 2 {
      AcceptedIsSpaced(times, 0);
    } else if |times| == 1 {
      assert times[1..] == [];
    }
  }

  lemma FirstIsLeast(times: seq<int>)
    requires Sorted(times) && AllPositive(times) && times != []
    ensures forall a | a in Accepted(times, 0) :: a >= times[0]
  {
    AcceptedIsSpaced(times, 0);
    forall i | 0 <= i < |Accepted(times, 0)| ensures Accepted(times, 0)[i] >= times[0] {
      SubsequenceElements(Accepted(times, 0), times, i);
    }
  }
}
