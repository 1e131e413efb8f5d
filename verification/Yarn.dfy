// The thread list of yarn (pigz/yarn.c:187-364): threads announce that they are done, and a
// controller launches and joins them, all under one lock.
module Yarn {
  // A thread is known by its record; the record is in the list until it is joined.
  type Id = nat

  datatype Listed = Listed(id: Id, done: bool)

  // The list, and the count kept in threads_lock.value.
  function Ids(ts: seq<Listed>): (ids: set<Id>)
  {
    set i | 0 <= i < |ts| :: ts[i].id
  }

  function DoneIds(ts: seq<Listed>): (ids: set<Id>)
    ensures ids <= Ids(ts)
  {
    set i | 0 <= i < |ts| && ts[i].done :: ts[i].id
  }

  function DoneCount(ts: seq<Listed>): (n: nat)
  {
    if ts == [] then 0 else (if ts[0].done then 1 else 0) + DoneCount(ts[1..])
  }

  ghost predicate Distinct(ts: seq<Listed>)
  {
    forall i, j :: 0 <= i < j < |ts| ==> ts[i].id != ts[j].id
  }

  // The position of a thread in the list, or its length.
  function IndexOf(ts: seq<Listed>, id: Id): (i: nat)
    ensures i <= |ts| && (i < |ts| ==> ts[i].id == id) && (forall j :: 0 <= j < i ==> ts[j].id != id)
    ensures i < |ts| <==> id in Ids(ts)
  {
    if ts == [] then 0
    else if ts[0].id == id then 0
    else
      var i := IndexOf(ts[1..], id);
      assert forall j {:trigger ts[j]} :: 0 < j <= i && j < |ts| ==> ts[j] == ts[1..][j - 1];
      1 + i
  }

  // The position of the first thread that is done, or the length.
  function FirstDone(ts: seq<Listed>): (i: nat)
    ensures i <= |ts| && (i < |ts| ==> ts[i].done) && (forall j :: 0 <= j < i ==> !ts[j].done)
  {
    if ts == [] then 0
    else if ts[0].done then 0
    else
      var i := FirstDone(ts[1..]);
      assert forall j {:trigger ts[j]} :: 0 < j <= i && j < |ts| ==> ts[j] == ts[1..][j - 1];
      1 + i
  }

  // Mark an entry as done and move it to the head.
  function MarkedFirst(ts: seq<Listed>, i: nat): (r: seq<Listed>)
    requires i < |ts|
  {
    [Listed(ts[i].id, true)] + (ts[..i] + ts[i + 1..])
  }

  function Without(ts: seq<Listed>, i: nat): (r: seq<Listed>)
    requires i < |ts|
  {
    ts[..i] + ts[i + 1..]
  }

  lemma {:induction false} CountSplit(a: seq<Listed>, b: seq<Listed>)
    ensures DoneCount(a + b) == DoneCount(a) + DoneCount(b)
  {
    if a == [] {
      assert a + b == b;
    } else {
      CountSplit(a[1..], b);
      assert (a + b)[1..] == a[1..] + b;
    }
  }

  lemma Cut(ts: seq<Listed>, i: nat, a: seq<Listed>, b: seq<Listed>)
    requires i < |ts| && a == ts[..i] && b == ts[i + 1..]
    ensures ts == a + ([ts[i]] + b)
  {
  }

  lemma CountWithout(ts: seq<Listed>, i: nat)
    requires i < |ts|
    ensures DoneCount(Without(ts, i)) == DoneCount(ts) - if ts[i].done then 1 else 0
  {
    var a, b := ts[..i], ts[i + 1..];
    Cut(ts, i, a, b);
    CountSplit(a, [ts[i]] + b);
    CountSplit([ts[i]], b);
    CountSplit(a, b);
  }

  lemma WithoutIds(ts: seq<Listed>, i: nat)
    requires i < |ts| && Distinct(ts)
    ensures Distinct(Without(ts, i))
    ensures Ids(Without(ts, i)) == Ids(ts) - {ts[i].id} && DoneIds(Without(ts, i)) == DoneIds(ts) - {ts[i].id}
  {
    var r := Without(ts, i);
    assert forall j {:trigger r[j]} :: 0 <= j < |r| ==> r[j] == ts[if j < i then j else j + 1];
    forall id
      ensures id in Ids(r) <==> id in Ids(ts) - {ts[i].id}
      ensures id in DoneIds(r) <==> id in DoneIds(ts) - {ts[i].id}
    {
      forall j | 0 <= j < |ts| && j != i
        ensures r[if j < i then j else j - 1] == ts[j]
      {
      }
    }
  }

  lemma MarkedIds(ts: seq<Listed>, i: nat)
    requires i < |ts| && Distinct(ts) && !ts[i].done
    ensures Distinct(MarkedFirst(ts, i)) && DoneCount(MarkedFirst(ts, i)) == DoneCount(ts) + 1
    ensures Ids(MarkedFirst(ts, i)) == Ids(ts) && DoneIds(MarkedFirst(ts, i)) == DoneIds(ts) + {ts[i].id}
  {
    WithoutIds(ts, i);
    CountWithout(ts, i);
    AddFirst(Without(ts, i), Listed(ts[i].id, true));
    assert MarkedFirst(ts, i) == [Listed(ts[i].id, true)] + Without(ts, i);
    assert ts[i].id in Ids(ts);
  }

  lemma AddFirst(ts: seq<Listed>, t: Listed)
    requires Distinct(ts) && t.id !in Ids(ts)
    ensures Distinct([t] + ts) && Ids([t] + ts) == Ids(ts) + {t.id}
    ensures DoneIds([t] + ts) == DoneIds(ts) + (if t.done then {t.id} else {})
    ensures DoneCount([t] + ts) == DoneCount(ts) + if t.done then 1 else 0
  {
    var r := [t] + ts;
    assert r[1..] == ts;
    assert forall j {:trigger r[j]} :: 0 < j < |r| ==> r[j] == ts[j - 1];
    assert forall j {:trigger ts[j]} :: 0 <= j < |ts| ==> r[j + 1] == ts[j];
    assert r[0] == t;
  }

  lemma {:induction false} SomeDone(ts: seq<Listed>)
    ensures DoneCount(ts) > 0 <==> FirstDone(ts) < |ts|
  {
    if ts != [] {
      SomeDone(ts[1..]);
    }
  }

  // A thread that was launched: at work, at the lock in reenter, marking itself under the
  // lock, on its way out, gone, and gone with its resources returned.
  datatype Phase = Running | Wanting | Marking | Leaving | Exited | Reaped

  // Where the controller is: in launch before and after pthread_create, in join before and
  // after pthread_join and under the lock, in join_all at the lock, at the head of the loop,
  // in wait_for, or waiting for the thread it picked.  Failed stands for fail(EINVAL).
  datatype Control =
    | Idle
    | LaunchWants | Launching | Launched(id: Id)
    | Awaiting(id: Id) | Unlisting(id: Id) | Removing(id: Id)
    | AllWants | AllLoop | AllWaits | AllPicked(id: Id)
    | Failed

  datatype Holder = Nobody | Controller | Worker(id: Id)

  datatype State = State(threads: seq<Listed>, value: int, holder: Holder, workers: map<Id, Phase>, ctl: Control,
                         joined: seq<Id>, inAll: nat)

  const INIT := State([], 0, Nobody, map[], Idle, [], 0)

  datatype Action =
    | Finish(id: Id) | Possess(id: Id) | Reenter(id: Id) | Exit(id: Id)
    | LaunchCall | LaunchPossess | Create(id: Id) | LaunchInsert
    | JoinCall(id: Id) | JoinReap | JoinPossess | JoinRemove
    | AllCall | AllPossess | AllReturn | AllSleep | AllWake | AllPick | AllReap

  predicate Enabled(s: State, a: Action)
  {
    match a
    case Finish(id) => id in s.workers && s.workers[id] == Running
    case Possess(id) => id in s.workers && s.workers[id] == Wanting && s.holder == Nobody
    case Reenter(id) => id in s.workers && s.workers[id] == Marking
    case Exit(id) => id in s.workers && s.workers[id] == Leaving
    case LaunchCall => s.ctl == Idle
    case LaunchPossess => s.ctl == LaunchWants && s.holder == Nobody
    case Create(id) => s.ctl == Launching && id !in s.workers
    case LaunchInsert => s.ctl.Launched?
    case JoinCall(id) => s.ctl == Idle && id in Ids(s.threads)
    case JoinReap => s.ctl.Awaiting? && s.ctl.id in s.workers && s.workers[s.ctl.id] == Exited
    case JoinPossess => s.ctl.Unlisting? && s.holder == Nobody
    case JoinRemove => s.ctl.Removing?
    case AllCall => s.ctl == Idle
    case AllPossess => s.ctl == AllWants && s.holder == Nobody
    case AllReturn => s.ctl == AllLoop && s.threads == []
    case AllSleep => s.ctl == AllLoop && s.threads != [] && s.value == 0
    case AllWake => s.ctl == AllWaits && s.holder == Nobody
    case AllPick => s.ctl == AllLoop && s.threads != [] && s.value != 0
    case AllReap => s.ctl.AllPicked? && s.ctl.id in s.workers && s.workers[s.ctl.id] == Exited
  }

  // reenter (yarn.c:205-234), under the lock.
  function DoReenter(s: State, id: Id): (t: State)
  {
    var i := IndexOf(s.threads, id);
    if i == |s.threads| then s.(ctl := Failed)
    else s.(threads := MarkedFirst(s.threads, i), value := s.value + 1, holder := Nobody,
            workers := s.workers[id := Leaving])
  }

  // The end of join (yarn.c:304-319), under the lock.
  function DoRemove(s: State, id: Id): (t: State)
  {
    var i := IndexOf(s.threads, id);
    if i == |s.threads| then s.(ctl := Failed)
    else s.(threads := Without(s.threads, i), value := if s.threads[i].done then s.value - 1 else s.value,
            holder := Nobody, ctl := Idle)
  }

  // join_all's joining of the thread it picked (yarn.c:351-358).
  function DoReap(s: State, id: Id): (t: State)
  {
    var i := IndexOf(s.threads, id);
    if i == |s.threads| then s.(ctl := Failed)
    else s.(threads := Without(s.threads, i), value := s.value - 1, workers := s.workers[id := Reaped], ctl := AllLoop,
            joined := s.joined + [id], inAll := s.inAll + 1)
  }

  function Do(s: State, a: Action): (t: State)
    requires Enabled(s, a)
  {
    match a
    case Finish(id) => s.(workers := s.workers[id := Wanting])
    case Possess(id) => s.(workers := s.workers[id := Marking], holder := Worker(id))
    case Reenter(id) => DoReenter(s, id)
    case Exit(id) => s.(workers := s.workers[id := Exited])
    case LaunchCall => s.(ctl := LaunchWants)
    case LaunchPossess => s.(ctl := Launching, holder := Controller)
    case Create(id) => s.(workers := s.workers[id := Running], ctl := Launched(id))
    case LaunchInsert => s.(threads := [Listed(s.ctl.id, false)] + s.threads, holder := Nobody, ctl := Idle)
    case JoinCall(id) => s.(ctl := Awaiting(id))
    case JoinReap => s.(workers := s.workers[s.ctl.id := Reaped], ctl := Unlisting(s.ctl.id),
                        joined := s.joined + [s.ctl.id])
    case JoinPossess => s.(ctl := Removing(s.ctl.id), holder := Controller)
    case JoinRemove => DoRemove(s, s.ctl.id)
    case AllCall => s.(ctl := AllWants, inAll := 0)
    case AllPossess => s.(ctl := AllLoop, holder := Controller)
    case AllReturn => s.(ctl := Idle, holder := Nobody)
    case AllSleep => s.(ctl := AllWaits, holder := Nobody)
    case AllWake => s.(ctl := AllLoop, holder := Controller)
    case AllPick =>
      var i := FirstDone(s.threads);
      s.(ctl := if i == |s.threads| then Failed else AllPicked(s.threads[i].id))
    case AllReap => DoReap(s, s.ctl.id)
  }

  // The controller holds the lock.
  predicate Holds(c: Control)
  {
    c == Launching || c.Launched? || c.Removing? || c == AllLoop || c.AllPicked?
  }

  // The list is what the threads' phases say it should be.
  ghost predicate ListRight(s: State)
  {
    && Distinct(s.threads) && s.value == DoneCount(s.threads)
    && (forall id :: id in Ids(s.threads) <==>
          id in s.workers && s.ctl != Launched(id)
          && (s.workers[id] == Reaped ==> s.ctl == Unlisting(id) || s.ctl == Removing(id)))
    && (forall id :: id in DoneIds(s.threads) <==> id in Ids(s.threads) && id in s.workers && Announced(s.workers[id]))
  }

  predicate Announced(p: Phase)
  {
    p == Leaving || p == Exited || p == Reaped
  }

  ghost predicate LockRight(s: State)
  {
    && (forall id :: id in s.workers ==> (s.workers[id] == Marking <==> s.holder == Worker(id)))
    && (s.holder.Worker? ==> s.holder.id in s.workers)
    && (s.holder == Controller <==> Holds(s.ctl))
  }

  ghost predicate ControlRight(s: State)
  {
    match s.ctl
    case Launched(id) => id in s.workers && (s.workers[id] == Running || s.workers[id] == Wanting)
    case Awaiting(id) => id in Ids(s.threads)
    case Unlisting(id) => id in s.workers && s.workers[id] == Reaped
    case Removing(id) => id in s.workers && s.workers[id] == Reaped
    case AllWaits => s.threads != []
    case AllPicked(id) => id in DoneIds(s.threads)
    case Failed => false
    case _ => true
  }

  // Every thread whose resources were returned was joined, once.
  ghost predicate JoinedRight(s: State)
  {
    && (forall i, j :: 0 <= i < j < |s.joined| ==> s.joined[i] != s.joined[j])
    && (forall id :: id in s.joined <==> id in s.workers && s.workers[id] == Reaped)
  }

  ghost predicate Inv(s: State)
  {
    ListRight(s) && LockRight(s) && ControlRight(s) && JoinedRight(s)
  }

  lemma ReenterKeeps(s: State, id: Id)
    requires Inv(s) && Enabled(s, Reenter(id))
    ensures Inv(DoReenter(s, id))
  {
    var i := IndexOf(s.threads, id);
    assert id in Ids(s.threads);
    assert id !in DoneIds(s.threads);
    MarkedIds(s.threads, i);
  }

  lemma RemoveKeeps(s: State)
    requires Inv(s) && Enabled(s, JoinRemove)
    ensures Inv(DoRemove(s, s.ctl.id))
  {
    var i := IndexOf(s.threads, s.ctl.id);
    assert s.ctl.id in Ids(s.threads);
    WithoutIds(s.threads, i);
    CountWithout(s.threads, i);
  }

  lemma ReapKeeps(s: State)
    requires Inv(s) && Enabled(s, AllReap)
    ensures Inv(DoReap(s, s.ctl.id))
  {
    ReapKeepsList(s);
    ReapKeepsJoined(s);
    assert s.ctl.id in DoneIds(s.threads);
  }

  lemma ReapKeepsJoined(s: State)
    requires Inv(s) && Enabled(s, AllReap)
    ensures JoinedRight(DoReap(s, s.ctl.id))
  {
    var i := IndexOf(s.threads, s.ctl.id);
    assert s.ctl.id in Ids(s.threads) && i < |s.threads|;
  }

  lemma ReapKeepsList(s: State)
    requires Inv(s) && Enabled(s, AllReap)
    ensures ListRight(DoReap(s, s.ctl.id))
  {
    var i := IndexOf(s.threads, s.ctl.id);
    assert s.ctl.id in DoneIds(s.threads);
    WithoutIds(s.threads, i);
    CountWithout(s.threads, i);
    assert s.threads[i].done;
  }

  lemma InsertKeeps(s: State)
    requires Inv(s) && Enabled(s, LaunchInsert)
    ensures Inv(Do(s, LaunchInsert))
  {
    AddFirst(s.threads, Listed(s.ctl.id, false));
  }

  lemma PickKeeps(s: State)
    requires Inv(s) && Enabled(s, AllPick)
    ensures Inv(Do(s, AllPick))
  {
    SomeDone(s.threads);
  }

  // Steps of a thread outside the lock's critical section.
  lemma FinishKeeps(s: State, id: Id)
    requires Inv(s) && Enabled(s, Finish(id))
    ensures Inv(Do(s, Finish(id)))
  {
  }

  lemma ExitKeeps(s: State, id: Id)
    requires Inv(s) && Enabled(s, Exit(id))
    ensures Inv(Do(s, Exit(id)))
  {
  }

  lemma PossessKeeps(s: State, id: Id)
    requires Inv(s) && Enabled(s, Possess(id))
    ensures Inv(Do(s, Possess(id)))
  {
  }

  lemma CreateKeeps(s: State, id: Id)
    requires Inv(s) && Enabled(s, Create(id))
    ensures Inv(Do(s, Create(id)))
  {
  }

  lemma JoinReapKeeps(s: State)
    requires Inv(s) && Enabled(s, JoinReap)
    ensures Inv(Do(s, JoinReap))
  {
  }

  // Steps that only move the controller or the lock.
  lemma ControlKeeps(s: State, a: Action)
    requires Inv(s) && Enabled(s, a)
    requires a.LaunchCall? || a.LaunchPossess? || a.JoinCall? || a.JoinPossess?
    ensures Inv(Do(s, a))
  {
  }

  lemma AllKeeps(s: State, a: Action)
    requires Inv(s) && Enabled(s, a) && (a.AllCall? || a.AllPossess? || a.AllReturn? || a.AllSleep? || a.AllWake?)
    ensures Inv(Do(s, a))
  {
  }

  // Every step of every thread keeps the invariant.
  lemma StepKeeps(s: State, a: Action)
    requires Inv(s) && Enabled(s, a)
    ensures Inv(Do(s, a))
  {
    match a
    case Reenter(id) => ReenterKeeps(s, id);
    case JoinRemove => RemoveKeeps(s);
    case AllReap => ReapKeeps(s);
    case LaunchInsert => InsertKeeps(s);
    case AllPick => PickKeeps(s);
    case Create(id) => CreateKeeps(s, id);
    case JoinReap => JoinReapKeeps(s);
    case Finish(id) => FinishKeeps(s, id);
    case Possess(id) => PossessKeeps(s, id);
    case Exit(id) => ExitKeeps(s, id);
    case LaunchCall => ControlKeeps(s, a);
    case LaunchPossess => ControlKeeps(s, a);
    case JoinCall(_) => ControlKeeps(s, a);
    case JoinPossess => ControlKeeps(s, a);
    case _ => AllKeeps(s, a);
  }

  // The states a run goes to, one action at a time.
  ghost predicate Runs(s: State, run: seq<Action>, t: State)
    decreases |run|
  {
    if run == [] then s == t else Enabled(s, run[0]) && Runs(Do(s, run[0]), run[1..], t)
  }

  lemma {:induction false} RunKeeps(s: State, run: seq<Action>, t: State)
    requires Inv(s) && Runs(s, run, t)
    ensures Inv(t)
    decreases |run|
  {
    if run != [] {
      StepKeeps(s, run[0]);
      RunKeeps(Do(s, run[0]), run[1..], t);
    }
  }

  // What holds in every state of every interleaving: the count is the number of listed
  // threads that are done, no fail(EINVAL) is reached, the thread that join_all picked is
  // past its last use of the lock, and no thread is joined twice.
  lemma Safety(run: seq<Action>, t: State)
    requires Runs(INIT, run, t)
    ensures t.value == DoneCount(t.threads) == |DoneIds(t.threads)|
    ensures t.ctl != Failed
    ensures t.ctl.AllPicked? ==> t.ctl.id in t.workers
                                 && (t.workers[t.ctl.id] == Leaving || t.workers[t.ctl.id] == Exited)
    ensures forall i, j :: 0 <= i < j < |t.joined| ==> t.joined[i] != t.joined[j]
  {
    RunKeeps(INIT, run, t);
    CountIds(t.threads);
  }

  lemma {:induction false} CountIds(ts: seq<Listed>)
    requires Distinct(ts)
    ensures DoneCount(ts) == |DoneIds(ts)|
  {
    if ts != [] {
      assert forall j {:trigger ts[1..][j]} :: 0 <= j < |ts| - 1 ==> ts[1..][j] == ts[j + 1];
      CountIds(ts[1..]);
      assert ts[0].id !in Ids(ts[1..]);
      AddFirst(ts[1..], ts[0]);
      assert ts == [ts[0]] + ts[1..];
    }
  }

  // The controller is in join_all.
  predicate InAll(c: Control)
  {
    c == AllWants || c == AllLoop || c == AllWaits || c.AllPicked?
  }

  // join_all counts every thread that was listed when it was called.
  lemma AllCounts(s: State, a: Action)
    requires Inv(s) && Enabled(s, a) && InAll(s.ctl)
    ensures Do(s, a).inAll + |Do(s, a).threads| == s.inAll + |s.threads|
    ensures Do(s, a).ctl == Idle ==> Do(s, a).threads == []
    ensures InAll(Do(s, a).ctl) || a == AllReturn
  {
    StepKeeps(s, a);
  }

  // How far a thread is from having its resources returned.
  function Weight(p: Phase): (n: nat)
  {
    match p
    case Running => 5
    case Wanting => 4
    case Marking => 3
    case Leaving => 2
    case Exited => 1
    case Reaped => 0
  }

  function WeightOf(workers: map<Id, Phase>, id: Id): (n: nat)
  {
    if id in workers then Weight(workers[id]) else 0
  }

  function Weights(ts: seq<Listed>, workers: map<Id, Phase>): (n: nat)
  {
    if ts == [] then 0 else WeightOf(workers, ts[0].id) + Weights(ts[1..], workers)
  }

  lemma {:induction false} WeightsSplit(a: seq<Listed>, b: seq<Listed>, w: map<Id, Phase>)
    ensures Weights(a + b, w) == Weights(a, w) + Weights(b, w)
  {
    if a == [] {
      assert a + b == b;
    } else {
      WeightsSplit(a[1..], b, w);
      assert (a + b)[1..] == a[1..] + b;
    }
  }

  lemma WeightsWithout(ts: seq<Listed>, i: nat, w: map<Id, Phase>)
    requires i < |ts|
    ensures Weights(ts, w) == WeightOf(w, ts[i].id) + Weights(Without(ts, i), w)
  {
    var a, b := ts[..i], ts[i + 1..];
    Cut(ts, i, a, b);
    WeightsSplit(a, [ts[i]] + b, w);
    WeightsSplit([ts[i]], b, w);
    WeightsSplit(a, b, w);
  }

  lemma {:induction false} WeightsElsewhere(ts: seq<Listed>, w: map<Id, Phase>, id: Id, p: Phase)
    requires id !in Ids(ts)
    ensures Weights(ts, w[id := p]) == Weights(ts, w)
  {
    if ts != [] {
      assert ts[0].id in Ids(ts);
      assert forall j {:trigger ts[1..][j]} :: 0 <= j < |ts| - 1 ==> ts[1..][j] == ts[j + 1];
      WeightsElsewhere(ts[1..], w, id, p);
    }
  }

  // A listed thread that moves on lightens the list.
  lemma WeightsChange(ts: seq<Listed>, w: map<Id, Phase>, id: Id, p: Phase)
    requires Distinct(ts) && id in Ids(ts) && id in w
    ensures Weights(ts, w[id := p]) == Weights(ts, w) - Weight(w[id]) + Weight(p)
  {
    var i := IndexOf(ts, id);
    WeightsWithout(ts, i, w);
    WeightsWithout(ts, i, w[id := p]);
    WithoutIds(ts, i);
    WeightsElsewhere(Without(ts, i), w, id, p);
  }

  // How far join_all is from returning.
  function Rank(s: State): (n: nat)
  {
    4 * Weights(s.threads, s.workers)
    + match s.ctl
      case AllWants => 3
      case AllWaits => if s.value == 0 then 0 else 2
      case AllLoop => 1
      case _ => 0
  }

  // A thread that moves on by one phase without touching the list.
  lemma WorkerLowers(s: State, id: Id, p: Phase, h: Holder)
    requires Inv(s) && InAll(s.ctl) && id in s.workers && Weight(s.workers[id]) == Weight(p) + 1
    ensures Rank(s.(workers := s.workers[id := p], holder := h)) + 4 == Rank(s)
  {
    assert id in Ids(s.threads);
    WeightsChange(s.threads, s.workers, id, p);
  }

  // A thread that announces itself.
  lemma ReenterLowers(s: State, id: Id)
    requires Inv(s) && Enabled(s, Reenter(id)) && InAll(s.ctl)
    ensures Rank(DoReenter(s, id)) < Rank(s)
  {
    assert id in Ids(s.threads);
    var i := IndexOf(s.threads, id);
    var w := s.workers[id := Leaving];
    WeightsChange(s.threads, s.workers, id, Leaving);
    WeightsWithout(s.threads, i, w);
    assert MarkedFirst(s.threads, i)[1..] == Without(s.threads, i);
  }

  // The joining of the thread that was picked.
  lemma ReapLowers(s: State)
    requires Inv(s) && Enabled(s, AllReap)
    ensures Rank(DoReap(s, s.ctl.id)) < Rank(s)
  {
    var id := s.ctl.id;
    assert id in Ids(s.threads);
    var i := IndexOf(s.threads, id);
    WeightsWithout(s.threads, i, s.workers);
    WithoutIds(s.threads, i);
    WeightsElsewhere(Without(s.threads, i), s.workers, id, Reaped);
  }

  // Waking up to a count that is still zero.
  predicate Vain(s: State, a: Action)
  {
    a == AllWake && s.value == 0
  }

  // While join_all is under way, every step that anyone takes brings it nearer to its end,
  // but for waking up in vain, which sets it back by one.
  lemma StepLowers(s: State, a: Action)
    requires Inv(s) && Enabled(s, a) && InAll(s.ctl) && a != AllReturn
    ensures Rank(Do(s, a)) + 1 <= Rank(s) + if Vain(s, a) then 2 else 0
  {
    match a
    case Finish(id) => WorkerLowers(s, id, Wanting, s.holder);
    case Possess(id) => WorkerLowers(s, id, Marking, Worker(id));
    case Reenter(id) => ReenterLowers(s, id);
    case Exit(id) => WorkerLowers(s, id, Exited, s.holder);
    case AllReap => ReapLowers(s);
    case AllPick => SomeDone(s.threads);
    case _ =>
  }

  // How often a run wakes up in vain.
  function VainSteps(s: State, run: seq<Action>, t: State): (n: nat)
    requires Runs(s, run, t)
    decreases |run|
  {
    if run == [] then 0 else (if Vain(s, run[0]) then 1 else 0) + VainSteps(Do(s, run[0]), run[1..], t)
  }

  // Every run inside join_all, however its threads are interleaved, is no longer than the
  // rank it starts with and two steps for each time it wakes up in vain; and where it stops,
  // either join_all returns at once or a step is possible that is not in vain.
  lemma {:induction false} JoinAllBounded(s: State, run: seq<Action>, t: State) returns (next: Action)
    requires Inv(s) && InAll(s.ctl) && Runs(s, run, t) && AllReturn !in run
    ensures |run| + Rank(t) <= Rank(s) + 2 * VainSteps(s, run, t)
    ensures InAll(t.ctl) && t.inAll + |t.threads| == s.inAll + |s.threads|
    ensures Enabled(t, next) && !Vain(t, next)
    decreases |run|
  {
    if run == [] {
      next := JoinAllProgress(s);
    } else {
      StepKeeps(s, run[0]);
      StepLowers(s, run[0]);
      AllCounts(s, run[0]);
      next := JoinAllBounded(Do(s, run[0]), run[1..], t);
    }
  }

  lemma {:induction false} VainWakes(s: State, run: seq<Action>, t: State)
    requires Runs(s, run, t)
    ensures VainSteps(s, run, t) <= multiset(run)[AllWake]
    decreases |run|
  {
    if run != [] {
      assert run == [run[0]] + run[1..];
      VainWakes(Do(s, run[0]), run[1..], t);
    }
  }

  lemma {:induction false} WeightsBound(ts: seq<Listed>, w: map<Id, Phase>)
    ensures Weights(ts, w) <= 5 * |ts|
  {
    if ts != [] {
      WeightsBound(ts[1..], w);
    }
  }

  // In numbers: no run inside join_all is longer than twenty steps for each listed thread, two
  // for each time it wakes up, and three.
  lemma JoinAllSteps(s: State, run: seq<Action>, t: State)
    requires Inv(s) && InAll(s.ctl) && Runs(s, run, t) && AllReturn !in run
    ensures |run| <= 20 * |s.threads| + 2 * multiset(run)[AllWake] + 3
  {
    var _ := JoinAllBounded(s, run, t);
    VainWakes(s, run, t);
    WeightsBound(s.threads, s.workers);
  }

  // A listed thread that is not done can take a step unless the controller holds the lock.
  lemma WorkerMoves(s: State, id: Id) returns (a: Action)
    requires Inv(s) && id in Ids(s.threads) && id !in DoneIds(s.threads) && !Holds(s.ctl) && InAll(s.ctl)
    ensures Enabled(s, a) && !a.AllReturn? && !a.AllWake?
  {
    a := if s.workers[id] == Running then Finish(id)
         else if s.holder.Worker? then Reenter(s.holder.id)
         else Possess(id);
  }

  // While join_all is under way some step is possible that is not in vain.
  lemma JoinAllProgress(s: State) returns (a: Action)
    requires Inv(s) && InAll(s.ctl)
    ensures Enabled(s, a) && !Vain(s, a) && (a == AllReturn <==> s.ctl == AllLoop && s.threads == [])
  {
    if s.ctl.AllPicked? {
      a := if s.workers[s.ctl.id] == Leaving then Exit(s.ctl.id) else AllReap;
    } else if s.ctl == AllLoop {
      a := if s.threads == [] then AllReturn else if s.value == 0 then AllSleep else AllPick;
    } else if s.holder.Worker? {
      a := Reenter(s.holder.id);
    } else if s.ctl == AllWants {
      a := AllPossess;
    } else if s.value != 0 {
      a := AllWake;
    } else {
      CountIds(s.threads);
      assert s.threads[0].id in Ids(s.threads);
      assert DoneIds(s.threads) == {};
      a := WorkerMoves(s, s.threads[0].id);
    }
  }

  // So join_all can always be run to its end, where the list is empty and every thread that
  // was in it has been joined.
  lemma {:induction false} JoinAllReturns(s: State) returns (run: seq<Action>, t: State)
    requires Inv(s) && InAll(s.ctl)
    ensures Runs(s, run, t) && Inv(t) && t.ctl == Idle && t.threads == [] && t.inAll == s.inAll + |s.threads|
    decreases Rank(s)
  {
    var a := JoinAllProgress(s);
    StepKeeps(s, a);
    if a == AllReturn {
      t := Do(s, a);
      run := [a];
      assert run[1..] == [];
    } else {
      StepLowers(s, a);
      AllCounts(s, a);
      var rest;
      rest, t := JoinAllReturns(Do(s, a));
      run := [a] + rest;
      assert run[0] == a && run[1..] == rest;
    }
  }

  // The shared list and its count, as the functions change them.
  class ThreadList {
    var threads: seq<Listed>
    var value: int

    // The search by identity in reenter and join (yarn.c:215-222, 306-313).
    method Find(id: Id) returns (i: nat)
      ensures i == IndexOf(threads, id)
    {
      i := 0;
      while i < |threads| && threads[i].id != id
        invariant i <= |threads| && forall j :: 0 <= j < i ==> threads[j].id != id
      {
        i := i + 1;
      }
      if i < |threads| {
        assert threads[i].id in Ids(threads);
      }
    }

    // The search for a thread that is done (yarn.c:341-349).
    method FindDone() returns (i: nat)
      ensures i == FirstDone(threads)
    {
      i := 0;
      while i < |threads| && !threads[i].done
        invariant i <= |threads| && forall j :: 0 <= j < i ==> !threads[j].done
      {
        i := i + 1;
      }
    }

    // reenter (yarn.c:205-234); not found means fail(EINVAL).
    method Reenter(me: Id, ghost s: State) returns (found: bool)
      requires threads == s.threads && value == s.value
      modifies this
      ensures found == (me in Ids(s.threads))
      ensures found ==> threads == DoReenter(s, me).threads && value == DoReenter(s, me).value
    {
      var i := Find(me);
      if i == |threads| {
        return false;
      }
      var mark := Listed(threads[i].id, true);
      if i == 0 {
        threads := [mark] + threads[1..];
        assert threads == MarkedFirst(s.threads, 0);
      } else {
        threads := [mark] + (threads[..i] + threads[i + 1..]);
      }
      value := value + 1;
      return true;
    }

    // Take a joined thread off the list: join's way, which looks whether it announced
    // itself (yarn.c:304-319).
    method Remove(ally: Id, ghost s: State) returns (found: bool)
      requires threads == s.threads && value == s.value
      modifies this
      ensures found == (ally in Ids(s.threads))
      ensures found ==> threads == DoRemove(s, ally).threads && value == DoRemove(s, ally).value
    {
      var i := Find(ally);
      if i == |threads| {
        return false;
      }
      if threads[i].done {
        value := value - 1;
      }
      threads := threads[..i] + threads[i + 1..];
      return true;
    }

    // One turn of join_all's loop, the thread it picks having exited (yarn.c:337-359).
    method JoinDone(ghost s: State) returns (found: bool, id: Id)
      requires threads == s.threads && value == s.value && Distinct(threads)
      modifies this
      ensures found == (FirstDone(s.threads) < |s.threads|)
      ensures found ==> id == s.threads[FirstDone(s.threads)].id
                        && threads == DoReap(s, id).threads && value == DoReap(s, id).value
    {
      var i := FindDone();
      id := 0;
      if i == |threads| {
        return false, id;
      }
      id := threads[i].id;
      assert id in Ids(threads) && IndexOf(threads, id) == i;
      value := value - 1;
      threads := threads[..i] + threads[i + 1..];
      return true, id;
    }
  }
}
