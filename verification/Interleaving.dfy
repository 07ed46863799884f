/** Taking items from several sequences, the earliest first. */
module Interleaving {

  /** An item taken from one of the sequences. */
  datatype Taken<T> = Taken(source: nat, item: T)

  /** What was taken from one sequence. */
  function From<T>(log: seq<Taken<T>>, k: nat): seq<T> {
    if log == [] then []
    else
      var last := log[|log| - 1];
      From(log[..|log| - 1], k) + if last.source == k then [last.item] else []
  }

  lemma FromNext<T>(log: seq<Taken<T>>, k: nat, item: T, source: nat)
    ensures From(log + [Taken(source, item)], k) == From(log, k) + if source == k then [item] else []
  {
    assert (log + [Taken(source, item)])[..|log|] == log;
  }

  /** Each sequence is what was taken from it and then what is left. */
  ghost predicate Progress<T>(files: seq<seq<T>>, rests: seq<seq<T>>, log: seq<Taken<T>>) {
    |files| == |rests| && forall k :: 0 <= k < |files| ==> files[k] == From(log, k) + rests[k]
  }

  /** Every item taken was the earliest of the items then next in their sequences. */
  ghost predicate LeastFirst<T>(time: T -> real, files: seq<seq<T>>, log: seq<Taken<T>>) {
    forall i, k :: 0 <= i < |log| && 0 <= k < |files| ==> NotLater(time, log[i].item, files[k], From(log[..i], k))
  }

  predicate NotLater<T>(time: T -> real, item: T, file: seq<T>, done: seq<T>) {
    |done| < |file| ==> time(item) <= time(file[|done|])
  }

  /** Taking the earliest item loses and repeats nothing. */
  lemma TakeNext<T>(time: T -> real, files: seq<seq<T>>, rests: seq<seq<T>>, log: seq<Taken<T>>, next: nat)
    requires Progress(files, rests, log) && LeastFirst(time, files, log)
    requires next < |files| && rests[next] != []
    requires forall k :: 0 <= k < |files| && rests[k] != [] ==> time(rests[next][0]) <= time(rests[k][0])
    ensures
      var log' := log + [Taken(next, rests[next][0])];
      Progress(files, rests[next := rests[next][1..]], log') && LeastFirst(time, files, log')
  {
    hide From;
    var p := rests[next][0];
    var log' := log + [Taken(next, p)];
    forall k | 0 <= k < |files|
      ensures files[k] == From(log', k) + rests[next := rests[next][1..]][k]
    {
      FromNext(log, k, p, next);
    }
    forall i, k | 0 <= i < |log'| && 0 <= k < |files|
      ensures NotLater(time, log'[i].item, files[k], From(log'[..i], k))
    {
      assert log'[..i] == log[..i];
      if i == |log| {
        assert log[..i] == log;
        assert rests[k] != [] ==> files[k][|From(log, k)|] == rests[k][0];
      } else {
        assert NotLater(time, log[i].item, files[k], From(log[..i], k));
      }
    }
  }

  // ----- order

  ghost predicate InOrder<T>(time: T -> real, ps: seq<T>) {
    forall i, j :: 0 <= i < j < |ps| ==> time(ps[i]) <= time(ps[j])
  }

  /** An item taken is the one then next in its sequence. */
  lemma {:induction false} TakenAt<T>(log: seq<Taken<T>>, j: nat, k: nat)
    requires j < |log|
    ensures |From(log[..j], k)| <= |From(log, k)| && From(log[..j], k) <= From(log, k)
    ensures log[j].source == k ==> |From(log[..j], k)| < |From(log, k)| && From(log, k)[|From(log[..j], k)|] == log[j].item
  {
    var n := |log| - 1;
    if j < n {
      TakenAt(log[..n], j, k);
      assert log[..n][..j] == log[..j];
    }
  }

  /** Sequences in time order give items in time order. */
  lemma {:induction false} Ordered<T>(time: T -> real, files: seq<seq<T>>, rests: seq<seq<T>>, log: seq<Taken<T>>, i: nat, j: nat)
    requires Progress(files, rests, log) && LeastFirst(time, files, log)
    requires forall k :: 0 <= k < |files| ==> InOrder(time, files[k])
    requires i < j < |log| && log[j].source < |files|
    ensures time(log[i].item) <= time(log[j].item)
  {
    hide From;
    var k := log[j].source;
    TakenAt(log, j, k);
    TakenAt(log[..j], i, k);
    assert log[..j][..i] == log[..i];
    var (a, b) := (|From(log[..i], k)|, |From(log[..j], k)|);
    assert files[k][b] == log[j].item;
    assert NotLater(time, log[i].item, files[k], From(log[..i], k));
    assert a < b ==> time(files[k][a]) <= time(files[k][b]);
  }

  // ----- up to an end time

  predicate Late(endTime: real, t: real) {
    endTime > 0.0 && t > endTime
  }

  /** The items before the first late one. */
  function UntilLate<T>(time: T -> real, endTime: real, ps: seq<T>): seq<T> {
    if ps == [] || Late(endTime, time(ps[0])) then []
    else [ps[0]] + UntilLate(time, endTime, ps[1..])
  }

  /** Without an end time that is all; with one, the longest front of items with times up to it. */
  lemma {:induction false} UntilLateIs<T>(time: T -> real, endTime: real, ps: seq<T>)
    ensures endTime <= 0.0 ==> UntilLate(time, endTime, ps) == ps
    ensures endTime > 0.0 ==>
              var n := |UntilLate(time, endTime, ps)|;
              && n <= |ps| && UntilLate(time, endTime, ps) == ps[..n]
              && (forall i :: 0 <= i < n ==> time(ps[i]) <= endTime)
              && (n < |ps| ==> time(ps[n]) > endTime)
  {
    if ps != [] {
      UntilLateIs(time, endTime, ps[1..]);
    }
  }

  /** The items that are not late. */
  function InTime<T>(time: T -> real, endTime: real, ps: seq<T>): seq<T> {
    if ps == [] then []
    else (if Late(endTime, time(ps[0])) then [] else [ps[0]]) + InTime(time, endTime, ps[1..])
  }

  lemma {:induction false} AllLate<T>(time: T -> real, endTime: real, ps: seq<T>)
    requires forall i :: 0 <= i < |ps| ==> Late(endTime, time(ps[i]))
    ensures InTime(time, endTime, ps) == []
  {
    if ps != [] {
      AllLate(time, endTime, ps[1..]);
    }
  }

  /** In a sequence in time order, these are the same. */
  lemma {:induction false} OrderedUntilLate<T>(time: T -> real, endTime: real, ps: seq<T>)
    requires InOrder(time, ps)
    ensures UntilLate(time, endTime, ps) == InTime(time, endTime, ps)
  {
    if ps != [] {
      if Late(endTime, time(ps[0])) {
        forall i | 0 <= i < |ps|
          ensures Late(endTime, time(ps[i]))
        {
          assert i > 0 ==> time(ps[0]) <= time(ps[i]);
        }
        AllLate(time, endTime, ps);
      } else {
        OrderedUntilLate(time, endTime, ps[1..]);
      }
    }
  }

  lemma {:induction false} NoEndTime<T>(time: T -> real, ps: seq<T>)
    ensures UntilLate(time, 0.0, ps) == ps
  {
    if ps != [] {
      NoEndTime(time, ps[1..]);
    }
  }

  lemma {:induction false} SplitUntilLate<T>(time: T -> real, endTime: real, ps: seq<T>, qs: seq<T>)
    requires forall i :: 0 <= i < |ps| ==> !Late(endTime, time(ps[i]))
    requires qs != [] ==> Late(endTime, time(qs[0]))
    ensures UntilLate(time, endTime, ps + qs) == ps
  {
    if ps == [] {
      assert ps + qs == qs;
    } else {
      assert (ps + qs)[1..] == ps[1..] + qs;
      SplitUntilLate(time, endTime, ps[1..], qs);
    }
  }

  ghost predicate NoneLate<T>(time: T -> real, endTime: real, log: seq<Taken<T>>) {
    forall i :: 0 <= i < |log| ==> !Late(endTime, time(log[i].item))
  }

  lemma {:induction false} FromInTime<T>(time: T -> real, endTime: real, log: seq<Taken<T>>, k: nat)
    requires NoneLate(time, endTime, log)
    ensures forall i :: 0 <= i < |From(log, k)| ==> !Late(endTime, time(From(log, k)[i]))
  {
    if log != [] {
      FromInTime(time, endTime, log[..|log| - 1], k);
    }
  }

  /** Once all that is left is late or behind a late item, what was taken is all before the first late one. */
  lemma AtTheEnd<T>(time: T -> real, endTime: real, files: seq<seq<T>>, rests: seq<seq<T>>, log: seq<Taken<T>>, k: nat)
    requires Progress(files, rests, log) && NoneLate(time, endTime, log) && k < |files|
    requires rests[k] == [] || Late(endTime, time(rests[k][0]))
    ensures From(log, k) == UntilLate(time, endTime, files[k])
  {
    hide From;
    FromInTime(time, endTime, log, k);
    SplitUntilLate(time, endTime, From(log, k), rests[k]);
  }

  // ----- sizes

  function Total<T>(rests: seq<seq<T>>): nat {
    if rests == [] then 0 else |rests[0]| + Total(rests[1..])
  }

  lemma {:induction false} TotalDecreases<T>(a: seq<seq<T>>, b: seq<seq<T>>, next: nat)
    requires |a| == |b| && (forall k :: 0 <= k < |a| ==> |b[k]| <= |a[k]|)
    ensures Total(b) <= Total(a)
    ensures next < |a| && |b[next]| < |a[next]| ==> Total(b) < Total(a)
  {
    if a != [] {
      TotalDecreases(a[1..], b[1..], if next > 0 then next - 1 else |a|);
    }
  }
}
