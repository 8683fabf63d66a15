/** The value-level rules behind the scheduler: what an update handler is
    handed, how one tick changes the scheduler's lists, and how a Sequence
    walks its children. The classes in module Chancy are proved against
    these functions. */
module Rules {

  /** The arguments an update handler receives (EventUpdateArgs). Time is a
      real number here; the source uses single-precision floats. */
  datatype UpdateArgs = UpdateArgs(deltaTime: real, totalTime: real)

  /** The arguments handed to the update handler on a tick of length `dt`
      when the event had run for `before` until then: the total is the one
      from before the tick, and the delta reads 0 while that total is 0. */
  function HandlerArgs(before: real, dt: real): UpdateArgs
  {
    UpdateArgs(if before == 0.0 then 0.0 else dt, before)
  }

  /** The sum of a list of tick lengths. */
  function Sum(ds: seq<real>): real
  {
    if ds == [] then 0.0 else ds[0] + Sum(ds[1..])
  }

  /** The arguments seen by the update handler over successive ticks of
      lengths `ds`, starting from a running time of `before`. */
  function ArgsSeen(before: real, ds: seq<real>): (r: seq<UpdateArgs>)
    ensures |r| == |ds|
    decreases ds
  {
    if ds == [] then [] else [HandlerArgs(before, ds[0])] + ArgsSeen(before + ds[0], ds[1..])
  }

  lemma {:induction false} ArgsSeenAt(before: real, ds: seq<real>, k: nat)
    requires k < |ds|
    ensures ArgsSeen(before, ds)[k] == HandlerArgs(before + Sum(ds[..k]), ds[k])
    decreases k
  {
    if k == 0 {
      assert ds[..0] == [];
    } else {
      ArgsSeenAt(before + ds[0], ds[1..], k - 1);
      assert ds[..k][1..] == ds[1..][..k - 1];
    }
  }

  /** After a start (running time reset to 0), the k-th update hands the
      handler the sum of the k earlier tick lengths as its total time; the
      very first update reports a delta of 0, and a later one reports the
      real tick length whenever the time run so far is not 0. */
  lemma ElapsedTime(ds: seq<real>, k: nat)
    requires k < |ds|
    ensures ArgsSeen(0.0, ds)[k].totalTime == Sum(ds[..k])
    ensures k == 0 ==> ArgsSeen(0.0, ds)[k].deltaTime == 0.0
    ensures Sum(ds[..k]) != 0.0 ==> ArgsSeen(0.0, ds)[k].deltaTime == ds[k]
  {
    ArgsSeenAt(0.0, ds, k);
  }

  /** The tick on which a handler that finishes once the reported total
      time reaches 1.0 first finishes, for ticks of 0.4: the fourth, since
      the handler sees the total from before each tick (0, 0.4, 0.8, 1.2). */
  lemma FinishesOnFourthTick()
    ensures var seen := ArgsSeen(0.0, [0.4, 0.4, 0.4, 0.4]);
      && seen[0].totalTime < 1.0 && seen[1].totalTime < 1.0 && seen[2].totalTime < 1.0
      && seen[3].totalTime >= 1.0
  {
  }

  /** List<T>.TrueForAll: whether `p` holds of every element. */
  function TrueForAll<T>(s: seq<T>, p: T -> bool): (r: bool)
    ensures r <==> forall i :: 0 <= i < |s| ==> p(s[i])
  {
    if s == [] then true else p(s[0]) && TrueForAll(s[1..], p)
  }

  /** List<T>.Remove: drops the first occurrence of `x`, if there is one. */
  function RemoveFirst<T(==)>(s: seq<T>, x: T): (r: seq<T>)
    ensures x !in s ==> r == s
    ensures forall y :: y in r ==> y in s
  {
    if s == [] then []
    else
      if s[0] == x then s[1..] else [s[0]] + RemoveFirst(s[1..], x)
  }

  /** RemoveFirst takes away exactly one occurrence of `x`, when there is
      one, and nothing else. */
  lemma {:induction false} RemoveFirstMultiset<T>(s: seq<T>, x: T)
    ensures multiset(RemoveFirst(s, x)) == multiset(s) - multiset{x}
  {
    if s != [] {
      assert s == [s[0]] + s[1..];
      if s[0] != x {
        RemoveFirstMultiset(s[1..], x);
      }
    }
  }

  /** The occurrence RemoveFirst drops is the first one: everything before
      it and everything after it stays, in order. */
  lemma {:induction false} RemoveFirstAt<T>(s: seq<T>, x: T, i: nat)
    requires i < |s| && s[i] == x && x !in s[..i]
    ensures RemoveFirst(s, x) == s[..i] + s[i + 1..]
  {
    if i > 0 {
      assert s[0] in s[..i];
      assert s[1..][..i - 1] == s[1..i];
      assert x !in s[1..][..i - 1];
      RemoveFirstAt(s[1..], x, i - 1);
      assert s[..i] == [s[0]] + s[1..][..i - 1];
      assert s[i + 1..] == s[1..][i..];
    }
  }

  /** Removes, one after the other, the first occurrence of each element
      of `rs` (the removal loop of a tick). */
  function RemoveAll<T(==)>(s: seq<T>, rs: seq<T>): (r: seq<T>)
    ensures forall y :: y in r ==> y in s
    decreases rs
  {
    if rs == [] then s else RemoveAll(RemoveFirst(s, rs[0]), rs[1..])
  }

  /** RemoveAll takes away one occurrence per element of `rs`, as far as
      there are occurrences to take. */
  lemma {:induction false} RemoveAllMultiset<T>(s: seq<T>, rs: seq<T>)
    ensures multiset(RemoveAll(s, rs)) == multiset(s) - multiset(rs)
    decreases rs
  {
    if rs != [] {
      assert rs == [rs[0]] + rs[1..];
      RemoveFirstMultiset(s, rs[0]);
      RemoveAllMultiset(RemoveFirst(s, rs[0]), rs[1..]);
    }
  }

  /** The elements of `s` whose flag is set, in order. */
  function Select<T>(s: seq<T>, flags: seq<bool>): (r: seq<T>)
    requires |flags| == |s|
    ensures |r| <= |s|
    ensures forall y :: y in r ==> y in s
  {
    if s == [] then []
    else
      (if flags[0] then [s[0]] else []) + Select(s[1..], flags[1..])
  }

  function Negate(flags: seq<bool>): (r: seq<bool>)
    ensures |r| == |flags|
    ensures forall i :: 0 <= i < |flags| ==> r[i] == !flags[i]
  {
    seq(|flags|, i requires 0 <= i < |flags| => !flags[i])
  }

  ghost predicate NoDuplicates<T>(s: seq<T>)
  {
    forall i, j :: 0 <= i < j < |s| ==> s[i] != s[j]
  }

  /** Two lists without repeats and without a common element concatenate to
      a list without repeats, and conversely. */
  lemma NoDuplicatesConcat<T>(a: seq<T>, b: seq<T>)
    ensures NoDuplicates(a + b) <==>
      NoDuplicates(a) && NoDuplicates(b) && forall x :: x in a ==> x !in b
  {
    if NoDuplicates(a + b) {
      forall i, j | 0 <= i < |a| && 0 <= j < |b|
        ensures a[i] != b[j]
      {
        assert (a + b)[i] == a[i] && (a + b)[|a| + j] == b[j];
      }
      assert a == (a + b)[..|a|] && b == (a + b)[|a|..];
    }
    if NoDuplicates(a) && NoDuplicates(b) && forall x :: x in a ==> x !in b {
      forall i, j | 0 <= i < j < |a + b|
        ensures (a + b)[i] != (a + b)[j]
      {
        if j < |a| {
          assert (a + b)[i] == a[i] && (a + b)[j] == a[j];
        } else if i >= |a| {
          assert (a + b)[i] == b[i - |a|] && (a + b)[j] == b[j - |a|];
        } else {
          assert (a + b)[i] == a[i] && (a + b)[j] == b[j - |a|];
          assert a[i] in a && b[j - |a|] in b;
        }
      }
    }
  }

  /** Removing an element keeps a list free of repeats. */
  lemma {:induction false} RemoveFirstNoDuplicates<T>(s: seq<T>, x: T)
    requires NoDuplicates(s)
    ensures NoDuplicates(RemoveFirst(s, x))
  {
    if s != [] {
      assert s == [s[0]] + s[1..];
      NoDuplicatesConcat([s[0]], s[1..]);
      if s[0] != x {
        RemoveFirstNoDuplicates(s[1..], x);
        NoDuplicatesConcat([s[0]], RemoveFirst(s[1..], x));
      }
    }
  }

  /** The flagged and the unflagged elements together are all of `s`. */
  lemma {:induction false} Partition<T>(s: seq<T>, flags: seq<bool>)
    requires |flags| == |s|
    ensures multiset(Select(s, flags)) + multiset(Select(s, Negate(flags))) == multiset(s)
  {
    if s != [] {
      assert Negate(flags)[1..] == Negate(flags[1..]);
      Partition(s[1..], flags[1..]);
      assert s == [s[0]] + s[1..];
    }
  }

  lemma {:induction false} RemoveAllSkipsHead<T>(a: T, t: seq<T>, rs: seq<T>)
    requires a !in rs
    ensures RemoveAll([a] + t, rs) == [a] + RemoveAll(t, rs)
    decreases rs
  {
    if rs != [] {
      assert ([a] + t)[1..] == t;
      assert RemoveFirst([a] + t, rs[0]) == [a] + RemoveFirst(t, rs[0]);
      RemoveAllSkipsHead(a, RemoveFirst(t, rs[0]), rs[1..]);
    }
  }

  /** The removal phase of a tick keeps exactly the occurrences whose update
      did not finish, as a multiset, whatever the list holds. */
  lemma SurvivorsMultiset<T>(s: seq<T>, flags: seq<bool>)
    requires |flags| == |s|
    ensures multiset(RemoveAll(s, Select(s, flags))) == multiset(Select(s, Negate(flags)))
  {
    Partition(s, flags);
    RemoveAllMultiset(s, Select(s, flags));
  }

  /** When no element occurs twice, the removal phase keeps exactly the
      elements whose update did not finish, in their original order. */
  lemma {:induction false} SurvivorsInOrder<T>(s: seq<T>, flags: seq<bool>)
    requires |flags| == |s|
    requires NoDuplicates(s)
    ensures RemoveAll(s, Select(s, flags)) == Select(s, Negate(flags))
  {
    if s != [] {
      var a, t, g := s[0], s[1..], flags[1..];
      assert s == [a] + t;
      assert NoDuplicates(t);
      assert Negate(flags) == [!flags[0]] + Negate(g);
      SurvivorsInOrder(t, g);
      if flags[0] {
        assert Select(s, flags) == [a] + Select(t, g);
        assert RemoveFirst(s, a) == t;
      } else {
        assert Select(s, flags) == Select(t, g);
        forall i | 0 <= i < |t|
          ensures t[i] != a
        {
          assert s[i + 1] == t[i];
        }
        HeadNotSelected(a, t, g);
        RemoveAllSkipsHead(a, t, Select(t, g));
      }
    }
  }

  lemma HeadNotSelected<T>(a: T, t: seq<T>, g: seq<bool>)
    requires |g| == |t|
    requires a !in t
    ensures a !in Select(t, g)
  {
    SelectMembers(t, g, a);
  }

  lemma {:induction false} SelectSnoc<T>(s: seq<T>, flags: seq<bool>, x: T, f: bool)
    requires |flags| == |s|
    ensures Select(s + [x], flags + [f]) == Select(s, flags) + (if f then [x] else [])
  {
    var tail := if f then [x] else [];
    if s == [] {
      assert s + [x] == [x] && flags + [f] == [f];
      assert Select([x], [f]) == tail + Select([], []);
    } else {
      var s', g := s + [x], flags + [f];
      assert s'[0] == s[0] && g[0] == flags[0];
      assert s'[1..] == s[1..] + [x];
      assert g[1..] == flags[1..] + [f];
      SelectSnoc(s[1..], flags[1..], x, f);
      var head := if flags[0] then [s[0]] else [];
      assert Select(s', g) == head + Select(s'[1..], g[1..]);
      assert Select(s, flags) == head + Select(s[1..], flags[1..]);
    }
  }

  /** An element is selected exactly when one of its occurrences is flagged. */
  lemma {:induction false} SelectMembers<T>(s: seq<T>, flags: seq<bool>, x: T)
    requires |flags| == |s|
    ensures x in Select(s, flags) <==> exists i :: 0 <= i < |s| && flags[i] && s[i] == x
  {
    if s != [] {
      SelectMembers(s[1..], flags[1..], x);
      if x in Select(s[1..], flags[1..]) {
        var i :| 0 <= i < |s[1..]| && flags[1..][i] && s[1..][i] == x;
        assert flags[i + 1] && s[i + 1] == x;
      }
      if exists i :: 0 <= i < |s| && flags[i] && s[i] == x {
        var i :| 0 <= i < |s| && flags[i] && s[i] == x;
        if i > 0 {
          assert flags[1..][i - 1] && s[1..][i - 1] == x;
        }
      }
    }
  }

  lemma {:induction false} RemoveAllSnoc<T>(s: seq<T>, rs: seq<T>, x: T)
    ensures RemoveAll(s, rs + [x]) == RemoveFirst(RemoveAll(s, rs), x)
    decreases rs
  {
    if rs == [] {
      assert [] + [x] == [x];
      assert [x][1..] == [];
    } else {
      assert (rs + [x])[0] == rs[0];
      assert (rs + [x])[1..] == rs[1..] + [x];
      RemoveAllSnoc(RemoveFirst(s, rs[0]), rs[1..], x);
    }
  }

  /** A counterexample to order preservation when an element occurs twice:
      List.Remove drops the first occurrence although the second one is
      the occurrence that finished. */
  lemma DuplicateReordered()
    ensures RemoveAll([1, 2, 1], Select([1, 2, 1], [false, false, true])) == [2, 1]
    ensures Select([1, 2, 1], Negate([false, false, true])) == [1, 2]
  {
    assert Select([1, 2, 1], [false, false, true]) == [1];
    assert RemoveFirst([1, 2, 1], 1) == [2, 1];
    assert Negate([false, false, true]) == [true, true, false];
  }

  /** One lifecycle hook invocation made by the scheduler. */
  datatype Transition<E> = Started(event: E) | Updated(event: E, finished: bool) | Ended(event: E)

  function StartsOf<E>(s: seq<E>): seq<Transition<E>>
  {
    seq(|s|, i requires 0 <= i < |s| => Started(s[i]))
  }

  function UpdatesOf<E>(s: seq<E>, outcome: seq<bool>): seq<Transition<E>>
    requires |outcome| == |s|
  {
    seq(|s|, i requires 0 <= i < |s| => Updated(s[i], outcome[i]))
  }

  function EndsOf<E>(s: seq<E>): seq<Transition<E>>
  {
    seq(|s|, i requires 0 <= i < |s| => Ended(s[i]))
  }

  /** Recording one more invocation at the end of a log built by
      StartsOf, UpdatesOf or EndsOf. */
  lemma StartsOfSnoc<E>(l: seq<Transition<E>>, s: seq<E>, e: E)
    ensures l + StartsOf(s + [e]) == l + StartsOf(s) + [Started(e)]
  {
    assert StartsOf(s + [e]) == StartsOf(s) + [Started(e)];
  }

  lemma UpdatesOfSnoc<E>(l: seq<Transition<E>>, s: seq<E>, outcome: seq<bool>, e: E, done: bool)
    requires |outcome| == |s|
    ensures l + UpdatesOf(s + [e], outcome + [done]) == l + UpdatesOf(s, outcome) + [Updated(e, done)]
  {
    assert UpdatesOf(s + [e], outcome + [done]) == UpdatesOf(s, outcome) + [Updated(e, done)];
  }

  lemma EndsOfSnoc<E>(l: seq<Transition<E>>, s: seq<E>, e: E)
    ensures l + EndsOf(s + [e]) == l + EndsOf(s) + [Ended(e)]
  {
    assert EndsOf(s + [e]) == EndsOf(s) + [Ended(e)];
  }

  /** The hook invocations of one tick: a start for every pending entry, an
      update for every entry of the current list once the pending ones are
      appended (with whether it finished), and an end for every finished one. */
  function TickLog<E>(current: seq<E>, pending: seq<E>, outcome: seq<bool>): (r: seq<Transition<E>>)
    requires |outcome| == |current| + |pending|
    ensures |r| == 2 * |pending| + |current| + |Select(current + pending, outcome)|
  {
    StartsOf(pending) + UpdatesOf(current + pending, outcome) + EndsOf(Select(current + pending, outcome))
  }

  /** Appending three parts one after the other appends their concatenation. */
  lemma AppendAssociative<T>(l: seq<T>, a: seq<T>, b: seq<T>, c: seq<T>)
    ensures l + a + b + c == l + (a + b + c)
  {
  }

  function Phase<E>(t: Transition<E>): nat
  {
    match t
    case Started(_) => 0
    case Updated(_, _) => 1
    case Ended(_) => 2
  }

  /** Within a tick every start comes before every update, and every update
      before every end. */
  lemma PhasesInOrder<E>(current: seq<E>, pending: seq<E>, outcome: seq<bool>)
    requires |outcome| == |current| + |pending|
    ensures var log := TickLog(current, pending, outcome);
      forall i, j :: 0 <= i < j < |log| ==> Phase(log[i]) <= Phase(log[j])
  {
    var a, b := |pending|, |pending| + |current| + |pending|;
    var log := TickLog(current, pending, outcome);
    forall i | 0 <= i < |log|
      ensures Phase(log[i]) == if i < a then 0 else if i < b then 1 else 2
    {
      if i < a {
        assert log[i] == StartsOf(pending)[i];
      } else if i < b {
        assert log[i] == UpdatesOf(current + pending, outcome)[i - a];
      } else {
        assert log[i] == EndsOf(Select(current + pending, outcome))[i - b];
      }
    }
  }

  /** Every pending entry is started once, in list order, and then updated
      in the same tick, after all entries that were already current. */
  lemma AdmittedUpdatedSameTick<E>(current: seq<E>, pending: seq<E>, outcome: seq<bool>)
    requires |outcome| == |current| + |pending|
    ensures var log := TickLog(current, pending, outcome);
      && |log| >= |pending| + |current| + |pending|
      && (forall j :: 0 <= j < |pending| ==> log[j] == Started(pending[j]))
      && (forall j :: 0 <= j < |pending| ==>
            log[|pending| + |current| + j] == Updated(pending[j], outcome[|current| + j]))
  {
    var log := TickLog(current, pending, outcome);
    var a := |pending|;
    var updates := UpdatesOf(current + pending, outcome);
    assert log == StartsOf(pending) + updates + EndsOf(Select(current + pending, outcome));
    forall j | 0 <= j < |pending|
      ensures log[a + |current| + j] == Updated(pending[j], outcome[|current| + j])
    {
      assert log[a + |current| + j] == updates[|current| + j];
    }
  }

  /** An event is ended in a tick exactly when one of its updates in that
      tick reported it finished. */
  lemma EndedIffFinished<E>(current: seq<E>, pending: seq<E>, outcome: seq<bool>, e: E)
    requires |outcome| == |current| + |pending|
    ensures Ended(e) in TickLog(current, pending, outcome) <==>
      exists i :: 0 <= i < |current| + |pending| && outcome[i] && (current + pending)[i] == e
  {
    var admitted := current + pending;
    var log := TickLog(current, pending, outcome);
    var ends := EndsOf(Select(admitted, outcome));
    var b := |pending| + |admitted|;
    SelectMembers(admitted, outcome, e);
    if Ended(e) in log {
      var k :| 0 <= k < |log| && log[k] == Ended(e);
      if k >= b {
        assert log[k] == ends[k - b];
        assert Select(admitted, outcome)[k - b] == e;
      }
    }
    if e in Select(admitted, outcome) {
      var k :| 0 <= k < |Select(admitted, outcome)| && Select(admitted, outcome)[k] == e;
      assert log[b + k] == ends[k];
    }
  }

  /** What a Sequence's update hook does with its current child. */
  datatype SequenceStep = Wait | Advance | Finish

  /** The Sequence update rule: wait while the current child runs, else move
      to its successor if it has one, else report the Sequence finished. */
  function StepOf(currentRunning: bool, hasNext: bool): (r: SequenceStep)
    ensures r == Wait <==> currentRunning
    ensures r == Advance <==> !currentRunning && hasNext
    ensures r == Finish <==> !currentRunning && !hasNext
  {
    if currentRunning then Wait else if hasNext then Advance else Finish
  }

  /** What a run of a Sequence's update hook leaves behind: the current
      child at the end, the children started on the way (in the order they
      were started), the child each update looked at, and whether the last
      update reported the Sequence finished. */
  datatype SequenceRunResult = SequenceRunResult(last: nat, started: seq<nat>, seen: seq<nat>, finished: bool)

  /** A Sequence over children 0 .. n-1 whose current child is `k`, updated
      once per entry of `running` (whether the current child was still
      running at that update) until it reports itself finished, after which
      the scheduler ends it and updates it no more. */
  function SequenceRun(n: nat, k: nat, running: seq<bool>): (r: SequenceRunResult)
    requires k < n
    ensures k <= r.last < n
    ensures |r.seen| <= |running|
    ensures r.finished ==> |r.seen| > 0 && r.seen[|r.seen| - 1] == r.last
    decreases |running|
  {
    if running == [] then SequenceRunResult(k, [], [], false)
    else match StepOf(running[0], k + 1 < n)
      case Wait =>
        var rest := SequenceRun(n, k, running[1..]);
        rest.(seen := [k] + rest.seen)
      case Advance =>
        var rest := SequenceRun(n, k + 1, running[1..]);
        rest.(started := [k + 1] + rest.started, seen := [k] + rest.seen)
      case Finish => SequenceRunResult(k, [], [k], true)
  }

  /** Children of a Sequence are started strictly in chain order, each one
      right after the previous, and at most one per update. */
  lemma {:induction false} SequenceStartsInOrder(n: nat, k: nat, running: seq<bool>)
    requires k < n
    ensures var r := SequenceRun(n, k, running);
      && |r.started| == r.last - k
      && |r.started| <= |r.seen|
      && forall i :: 0 <= i < |r.started| ==> r.started[i] == k + 1 + i
    decreases |running|
  {
    if running != [] {
      if StepOf(running[0], k + 1 < n) == Advance {
        SequenceStartsInOrder(n, k + 1, running[1..]);
      } else if StepOf(running[0], k + 1 < n) == Wait {
        SequenceStartsInOrder(n, k, running[1..]);
      }
    }
  }

  /** A Sequence finishes on the very first update that sees its last child
      stopped, and on no other: no update is spent idle once the last child
      has stopped, and a Sequence that has not finished was updated on
      every tick. */
  lemma {:induction false} SequenceFinishesPromptly(n: nat, k: nat, running: seq<bool>)
    requires k < n
    ensures var r := SequenceRun(n, k, running);
      && (r.finished ==> r.last == n - 1)
      && (!r.finished ==> |r.seen| == |running|)
      && forall u :: 0 <= u < |r.seen| ==>
           (r.seen[u] == n - 1 && !running[u] <==> r.finished && u == |r.seen| - 1)
    decreases |running|
  {
    if running != [] {
      var r := SequenceRun(n, k, running);
      match StepOf(running[0], k + 1 < n)
      case Wait =>
        var rest := SequenceRun(n, k, running[1..]);
        SequenceFinishesPromptly(n, k, running[1..]);
        forall u | 0 <= u < |r.seen|
          ensures r.seen[u] == n - 1 && !running[u] <==> r.finished && u == |r.seen| - 1
        {
          if u > 0 {
            assert r.seen[u] == rest.seen[u - 1] && running[u] == running[1..][u - 1];
          }
        }
      case Advance =>
        var rest := SequenceRun(n, k + 1, running[1..]);
        SequenceFinishesPromptly(n, k + 1, running[1..]);
        forall u | 0 <= u < |r.seen|
          ensures r.seen[u] == n - 1 && !running[u] <==> r.finished && u == |r.seen| - 1
        {
          if u > 0 {
            assert r.seen[u] == rest.seen[u - 1] && running[u] == running[1..][u - 1];
          }
        }
      case Finish =>
    }
  }
}
