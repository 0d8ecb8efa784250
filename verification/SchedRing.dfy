/** The run ring of the scheduler: what reaping, waking and picking do to it, and what they promise. */
module SchedRing {
  import V = Vfs

  datatype TaskState = Runnable | Sleeping | Waiting | Dead

  /** The frame an interrupt leaves on the kernel stack, and resuming takes off it. */
  datatype Registers = Registers(
    r15: nat, r14: nat, r13: nat, r12: nat, r11: nat, r10: nat, r9: nat, r8: nat,
    rbp: nat, rdi: nat, rsi: nat, rdx: nat, rcx: nat, rbx: nat, rax: nat,
    intNo: nat, errCode: nat, rip: nat, cs: nat, rflags: nat, rsp: nat, ss: nat)

  /** A task. The model never reuses an object, so a task stays itself after its memory is freed. */
  class Task {
    const addr: nat                  // where kmalloc put the struct
    const kstackTop: nat
    const kstackBase: nat
    const parent: Task?
    var next: Task
    var fds: seq<V.FileDesc>
    var state: TaskState
    var wakeTick: nat
    var pml4: nat
    var frame: Registers             // what rsp points to: the frame to resume with

    constructor (addr: nat, kstackBase: nat, kstackTop: nat, pml4: nat, parent: Task?, fds: seq<V.FileDesc>, frame: Registers)
      ensures this.addr == addr && this.kstackBase == kstackBase && this.kstackTop == kstackTop && this.pml4 == pml4
      ensures this.parent == parent && this.fds == fds && state == Runnable && wakeTick == 0 && next == this && this.frame == frame
    {
      this.addr, this.kstackBase, this.kstackTop := addr, kstackBase, kstackTop;
      this.pml4, this.parent, this.fds, this.frame := pml4, parent, fds, frame;
      state, wakeTick, next := Runnable, 0, this;
    }
  }

  /** The scheduling state: the ring from the current task on, and what is recorded of every task ever made. */
  datatype Snapshot = Snapshot(ring: seq<Task>, st: map<Task, TaskState>, parent: map<Task, Task?>, wake: map<Task, nat>)

  function StateOf(s: Snapshot, t: Task): TaskState {
    if t in s.st then s.st[t] else Dead
  }

  function ParentOf(s: Snapshot, t: Task): Task? {
    if t in s.parent then s.parent[t] else null
  }

  function WakeOf(s: Snapshot, t: Task): nat {
    if t in s.wake then s.wake[t] else 0
  }

  ghost predicate Distinct(r: seq<Task>) {
    forall i, j | 0 <= i < j < |r| :: r[i] != r[j]
  }

  ghost predicate HasChild(s: Snapshot, p: Task) {
    exists c | c in s.ring :: ParentOf(s, c) == p
  }

  /** What every operation keeps; the WAITING clause is that no wakeup gets lost. */
  ghost predicate RingInv(s: Snapshot, boot: Task) {
    && s.ring != [] && Distinct(s.ring)
    && (forall t | t in s.ring :: t in s.st)
    && boot in s.ring && StateOf(s, boot) == Runnable
    && (forall t | t in s.st && t !in s.ring :: s.st[t] == Dead)
    && (forall t | t in s.parent :: s.parent[t] != boot && (s.parent[t] == null || s.parent[t] in s.st))
    && (forall t | t in s.ring && StateOf(s, t) == Waiting :: HasChild(s, t))
  }

  // ---- reap_dead ----------------------------------------------------------------------------------

  /** The tasks of r that are not dead, in order. */
  function Kept(r: seq<Task>, s: Snapshot): seq<Task> {
    if r == [] then [] else
      Kept(r[..|r| - 1], s) + (if StateOf(s, r[|r| - 1]) == Dead then [] else [r[|r| - 1]])
  }

  /** One of the tasks at positions 1 up to k is dead and a child of p. */
  ghost predicate DeadChild(s: Snapshot, k: nat, p: Task) {
    exists i | 1 <= i < k && i < |s.ring| :: StateOf(s, s.ring[i]) == Dead && ParentOf(s, s.ring[i]) == p
  }

  /** After the reaper has passed the first k tasks: the dead are unlinked and their waiting parents awake. */
  ghost function ReapTo(s: Snapshot, k: nat): Snapshot
    requires 1 <= k <= |s.ring|
  {
    Snapshot([s.ring[0]] + Kept(s.ring[1..k], s) + s.ring[k..],
             map t | t in s.st :: if s.st[t] == Waiting && DeadChild(s, k, t) then Runnable else s.st[t],
             s.parent, s.wake)
  }

  ghost function Reap(s: Snapshot): Snapshot
    requires s.ring != []
  {
    ReapTo(s, |s.ring|)
  }

  // ---- the wake loop and the choice of the next task ---------------------------------------------------

  predicate Due(s: Snapshot, t: Task, now: nat) {
    StateOf(s, t) == Sleeping && WakeOf(s, t) <= now
  }

  /** The first k tasks of the ring have been woken if their time has come. */
  ghost function WakeTo(s: Snapshot, k: nat, now: nat): Snapshot
    requires k <= |s.ring|
  {
    Snapshot(s.ring, map t | t in s.st :: if t in s.ring[..k] && Due(s, t, now) then Runnable else s.st[t], s.parent, s.wake)
  }

  ghost function Wake(s: Snapshot, now: nat): Snapshot {
    WakeTo(s, |s.ring|, now)
  }

  /** The first position from k on that holds a runnable task, or |ring|. */
  function FirstRunnable(s: Snapshot, k: nat): (r: nat)
    requires k <= |s.ring|
    ensures k <= r <= |s.ring|
    ensures forall j | k <= j < r :: StateOf(s, s.ring[j]) != Runnable
    ensures r < |s.ring| ==> StateOf(s, s.ring[r]) == Runnable
    decreases |s.ring| - k
  {
    if k == |s.ring| || StateOf(s, s.ring[k]) == Runnable then k else FirstRunnable(s, k + 1)
  }

  function Rotate(s: Snapshot, k: nat): Snapshot
    requires k <= |s.ring|
  {
    Snapshot(s.ring[k..] + s.ring[..k], s.st, s.parent, s.wake)
  }

  function Pick(s: Snapshot): Snapshot
    requires s.ring != []
  {
    Rotate(s, FirstRunnable(s, 1))
  }

  /** One call of schedule at time `now`. */
  ghost function Step(s: Snapshot, now: nat): Snapshot
    requires s.ring != []
  {
    Pick(Wake(Reap(s), now))
  }

  // ---- laws -----------------------------------------------------------------------------------------------

  lemma {:induction false} KeptLaw(r: seq<Task>, s: Snapshot)
    ensures forall t :: t in Kept(r, s) <==> t in r && StateOf(s, t) != Dead
    ensures |Kept(r, s)| <= |r|
  {
    if r != [] {
      var front := r[..|r| - 1];
      KeptLaw(front, s);
      assert r == front + [r[|r| - 1]];
    }
  }

  lemma {:induction false} KeptDistinct(r: seq<Task>, s: Snapshot)
    requires Distinct(r)
    ensures Distinct(Kept(r, s))
  {
    if r != [] {
      var front, last := r[..|r| - 1], r[|r| - 1];
      KeptDistinct(front, s);
      KeptLaw(front, s);
      assert last !in Kept(front, s);
    }
  }

  /** Reaping never moves a task further away. */
  lemma {:induction false} KeptEarlier(r: seq<Task>, s: Snapshot, j: nat) returns (m: nat)
    requires j < |r| && StateOf(s, r[j]) != Dead
    ensures m <= j && m < |Kept(r, s)| && Kept(r, s)[m] == r[j]
  {
    var front := r[..|r| - 1];
    KeptLaw(front, s);
    if j == |r| - 1 {
      m := |Kept(front, s)|;
    } else {
      m := KeptEarlier(front, s, j);
    }
  }

  /** The tasks that are kept stay in order. */
  lemma {:induction false} KeptInOrder(r: seq<Task>, s: Snapshot, i: nat, j: nat) returns (m: nat, n: nat)
    requires i < j < |r| && StateOf(s, r[i]) != Dead && StateOf(s, r[j]) != Dead
    ensures m < n < |Kept(r, s)| && Kept(r, s)[m] == r[i] && Kept(r, s)[n] == r[j]
  {
    var front := r[..|r| - 1];
    if j < |r| - 1 {
      m, n := KeptInOrder(front, s, i, j);
    } else {
      m := KeptEarlier(front, s, i);
      n := |Kept(front, s)|;
    }
  }

  lemma ReapStarts(s: Snapshot)
    requires s.ring != []
    ensures ReapTo(s, 1) == s
  {
    assert Kept(s.ring[1..1], s) == [];
    assert [s.ring[0]] + s.ring[1..] == s.ring;
    assert ReapTo(s, 1).st == s.st;
  }

  lemma KeptSnoc(s: Snapshot, k: nat)
    requires 1 <= k < |s.ring|
    ensures Kept(s.ring[1..k + 1], s) == Kept(s.ring[1..k], s) + (if StateOf(s, s.ring[k]) == Dead then [] else [s.ring[k]])
  {
    assert s.ring[1..k + 1][..k - 1] == s.ring[1..k];
  }

  /** The ring after one more task has been looked at. */
  lemma ReapStepRing(s: Snapshot, k: nat)
    requires 1 <= k < |s.ring|
    ensures var a, b, i := ReapTo(s, k), ReapTo(s, k + 1), 1 + |Kept(s.ring[1..k], s)|;
      && i < |a.ring| && a.ring[i] == s.ring[k]
      && b.ring == (if StateOf(s, s.ring[k]) == Dead then a.ring[..i] + a.ring[i + 1..] else a.ring)
  {
    hide DeadChild, Kept;
    KeptSnoc(s, k);
    var left := [s.ring[0]] + Kept(s.ring[1..k], s);
    assert s.ring[k..] == [s.ring[k]] + s.ring[k + 1..];
    Around(left, s.ring[k], s.ring[k + 1..]);
  }

  lemma Around(left: seq<Task>, t: Task, right: seq<Task>)
    ensures var a := left + ([t] + right);
      a[|left|] == t && a[..|left|] + a[|left| + 1..] == left + right && a == left + [t] + right
  {
  }

  /** The states after one more task has been looked at. */
  lemma ReapStepStates(s: Snapshot, k: nat)
    requires 1 <= k < |s.ring|
    ensures var a, b := ReapTo(s, k), ReapTo(s, k + 1);
      && b.st.Keys == a.st.Keys
      && (forall t | t in a.st :: b.st[t] ==
            if StateOf(s, s.ring[k]) == Dead && ParentOf(s, s.ring[k]) == t && a.st[t] == Waiting then Runnable else a.st[t])
      && (StateOf(a, s.ring[k]) == Dead <==> StateOf(s, s.ring[k]) == Dead)
  {
    hide Kept;
    forall t | t in s.st
      ensures DeadChild(s, k + 1, t) <==> DeadChild(s, k, t) || (StateOf(s, s.ring[k]) == Dead && ParentOf(s, s.ring[k]) == t)
    {
    }
  }

  lemma ReapSkip(s: Snapshot, k: nat)
    requires 1 <= k < |s.ring| && StateOf(s, s.ring[k]) != Dead
    ensures ReapTo(s, k + 1) == ReapTo(s, k)
  {
    hide ReapTo;
    ReapStepRing(s, k);
    ReapStepStates(s, k);
    ReapToFrame(s, k);
    ReapToFrame(s, k + 1);
    assert ReapTo(s, k + 1).st == ReapTo(s, k).st;
  }

  lemma ReapToFrame(s: Snapshot, k: nat)
    requires 1 <= k <= |s.ring|
    ensures ReapTo(s, k).st.Keys == s.st.Keys && ReapTo(s, k).parent == s.parent && ReapTo(s, k).wake == s.wake
  {
  }

  lemma ReapToMembers(s: Snapshot, k: nat)
    requires 1 <= k <= |s.ring|
    ensures forall t | t in ReapTo(s, k).ring :: t in s.ring
  {
    KeptWithin(s.ring[1..k], s.ring, s);
  }

  lemma KeptWithin(part: seq<Task>, r: seq<Task>, s: Snapshot)
    requires forall t | t in part :: t in r
    ensures forall t | t in Kept(part, s) :: t in r
  {
    KeptLaw(part, s);
  }

  /** The members of the ring after reaping: the current task and every other that was not dead. */
  lemma ReapMembers(s: Snapshot)
    requires s.ring != [] && Distinct(s.ring)
    ensures Reap(s).ring == [s.ring[0]] + Kept(s.ring[1..], s)
    ensures Distinct(Reap(s).ring)
    ensures forall t :: t in Reap(s).ring <==> t == s.ring[0] || (t in s.ring && StateOf(s, t) != Dead)
  {
    var n := |s.ring|;
    assert s.ring[1..n] == s.ring[1..] && s.ring[n..] == [];
    KeptLaw(s.ring[1..], s);
    assert s.ring == [s.ring[0]] + s.ring[1..];
    assert s.ring[0] !in s.ring[1..];
    KeptDistinct(s.ring[1..], s);
  }

  lemma ReapKeeps(s: Snapshot, boot: Task)
    requires RingInv(s, boot)
    ensures RingInv(Reap(s), boot)
  {
    hide Kept, ReapTo;
    var r, n: nat := Reap(s), |s.ring|;
    ReapMembers(s);
    ReapFrame(s);
    forall t | t in s.st ensures StateOf(r, t) == if s.st[t] == Waiting && DeadChild(s, |s.ring|, t) then Runnable else s.st[t] {
      ReapStateOf(s, t);
    }
    forall t | t in r.ring && StateOf(r, t) == Waiting ensures HasChild(r, t) {
      assert HasChild(s, t);
      var c :| c in s.ring && ParentOf(s, c) == t;
      var i :| 0 <= i < |s.ring| && s.ring[i] == c;
      assert i >= 1 && StateOf(s, c) == Dead ==> DeadChild(s, n, t);
      assert c in r.ring && ParentOf(r, c) == t;
    }
    assert forall t | t in r.st && t !in r.ring :: r.st[t] == Dead;
    assert boot in r.ring && StateOf(r, boot) == Runnable;
  }

  lemma ReapFrame(s: Snapshot)
    requires s.ring != []
    ensures Reap(s).st.Keys == s.st.Keys && Reap(s).parent == s.parent && Reap(s).wake == s.wake
  {
  }

  lemma ReapStateOf(s: Snapshot, t: Task)
    requires s.ring != [] && t in s.st
    ensures StateOf(Reap(s), t) == if s.st[t] == Waiting && DeadChild(s, |s.ring|, t) then Runnable else s.st[t]
  {
  }

  lemma WakeStep(s: Snapshot, k: nat, now: nat)
    requires k < |s.ring| && Distinct(s.ring) && s.ring[k] in s.st
    ensures var a, b := WakeTo(s, k, now), WakeTo(s, k + 1, now);
      && a.ring == b.ring == s.ring && a.parent == b.parent == s.parent && a.wake == b.wake == s.wake
      && b.st.Keys == a.st.Keys == s.st.Keys && a.st[s.ring[k]] == s.st[s.ring[k]]
      && forall t | t in s.st :: b.st[t] == if t == s.ring[k] && Due(s, t, now) then Runnable else a.st[t]
  {
    assert s.ring[..k + 1] == s.ring[..k] + [s.ring[k]];
    assert s.ring[k] !in s.ring[..k];
  }

  lemma WakeKeeps(s: Snapshot, boot: Task, now: nat)
    requires RingInv(s, boot)
    ensures RingInv(Wake(s, now), boot)
  {
    var w := Wake(s, now);
    assert s.ring[..|s.ring|] == s.ring;
    forall t | t in w.ring && StateOf(w, t) == Waiting ensures HasChild(w, t) {
      assert HasChild(s, t);
    }
  }

  lemma RotateKeeps(s: Snapshot, boot: Task, k: nat)
    requires RingInv(s, boot) && k <= |s.ring|
    ensures RingInv(Rotate(s, k), boot)
    ensures forall t :: t in Rotate(s, k).ring <==> t in s.ring
  {
    var r := Rotate(s, k);
    assert s.ring == s.ring[..k] + s.ring[k..];
    forall t | t in r.ring && StateOf(r, t) == Waiting ensures HasChild(r, t) {
      assert HasChild(s, t);
      var c :| c in s.ring && ParentOf(s, c) == t;
      assert c in r.ring;
    }
  }

  /** schedule keeps the ring sound and ends on a runnable task. */
  lemma StepKeeps(s: Snapshot, boot: Task, now: nat)
    requires RingInv(s, boot)
    ensures RingInv(Step(s, now), boot)
    ensures StateOf(Step(s, now), Step(s, now).ring[0]) == Runnable
  {
    hide RingInv, Reap, Wake;
    RingParts(s, boot);
    ReapKeeps(s, boot);
    WakeKeeps(Reap(s), boot, now);
    PickRuns(Wake(Reap(s), now), boot);
  }

  lemma PickRuns(s: Snapshot, boot: Task)
    requires RingInv(s, boot)
    ensures RingInv(Pick(s), boot) && StateOf(Pick(s), Pick(s).ring[0]) == Runnable
    ensures FirstRunnable(s, 1) == |s.ring| ==> StateOf(s, s.ring[0]) == Runnable
  {
    var k := FirstRunnable(s, 1);
    RotateKeeps(s, boot, k);
    if k == |s.ring| {
      var i :| 0 <= i < |s.ring| && s.ring[i] == boot;
      assert i == 0;
    }
  }

  /** After schedule the ring holds the old current task and those that were alive, so at most one is dead. */
  lemma StepReaps(s: Snapshot, boot: Task, now: nat)
    requires RingInv(s, boot)
    ensures forall t :: t in Step(s, now).ring <==> t == s.ring[0] || (t in s.ring && StateOf(s, t) != Dead)
    ensures forall t | t in Step(s, now).ring && StateOf(Step(s, now), t) == Dead :: t == s.ring[0]
  {
    hide RingInv;
    RingParts(s, boot);
    var w := Wake(Reap(s), now);
    ReapKeeps(s, boot);
    WakeKeeps(Reap(s), boot, now);
    RotateKeeps(w, boot, FirstRunnable(w, 1));
    ReapMembers(s);
    forall t | t in Step(s, now).ring && t != s.ring[0] ensures StateOf(Step(s, now), t) != Dead {
      StepStates(s, boot, now, t);
    }
  }

  /**
   * What one call of schedule does to a task: a sleeper wakes exactly if its time has come, a waiting
   * task exactly if a dead child of its is reaped, and any other keeps its state.
   */
  lemma StepWakes(s: Snapshot, boot: Task, now: nat, t: Task)
    requires RingInv(s, boot) && t in s.ring && (t == s.ring[0] || StateOf(s, t) != Dead)
    ensures t in Step(s, now).ring && WakeOf(Step(s, now), t) == WakeOf(s, t)
    ensures StateOf(s, t) == Sleeping ==> StateOf(Step(s, now), t) == if WakeOf(s, t) <= now then Runnable else Sleeping
    ensures var reaped := exists c | c in s.ring && c != s.ring[0] :: StateOf(s, c) == Dead && ParentOf(s, c) == t;
      StateOf(s, t) == Waiting ==> StateOf(Step(s, now), t) == if reaped then Runnable else Waiting
    ensures StateOf(s, t) == Runnable || StateOf(s, t) == Dead ==> StateOf(Step(s, now), t) == StateOf(s, t)
  {
    hide Kept, RingInv, Step;
    RingParts(s, boot);
    StepReaps(s, boot, now);
    ReapMembers(s);
    StepStates(s, boot, now, t);
    StepFrame(s, now);
    DeadBehind(s, t);
  }

  lemma StepFrame(s: Snapshot, now: nat)
    requires s.ring != []
    ensures Step(s, now).parent == s.parent && Step(s, now).wake == s.wake && Step(s, now).st.Keys == s.st.Keys
  {
    ReapFrame(s);
  }

  /** A dead child somewhere behind the current task. */
  lemma DeadBehind(s: Snapshot, t: Task)
    requires s.ring != [] && Distinct(s.ring)
    ensures DeadChild(s, |s.ring|, t) <==> exists c | c in s.ring && c != s.ring[0] :: StateOf(s, c) == Dead && ParentOf(s, c) == t
  {
    if c :| c in s.ring && c != s.ring[0] && StateOf(s, c) == Dead && ParentOf(s, c) == t {
      var i :| 0 <= i < |s.ring| && s.ring[i] == c;
    }
  }

  lemma RingParts(s: Snapshot, boot: Task)
    requires RingInv(s, boot)
    ensures s.ring != [] && Distinct(s.ring) && forall t | t in s.ring :: t in s.st
  {
  }

  /** The state of every task in the ring after schedule. */
  lemma StepStates(s: Snapshot, boot: Task, now: nat, t: Task)
    requires RingInv(s, boot) && t in Reap(s).ring
    ensures StateOf(Step(s, now), t) ==
      if StateOf(s, t) == Waiting && DeadChild(s, |s.ring|, t) then Runnable
      else if Due(s, t, now) then Runnable
      else StateOf(s, t)
  {
    hide Kept, DeadChild;
    var r := Reap(s);
    ReapMembers(s);
    ReapFrame(s);
    ReapStateOf(s, t);
    assert r.ring[..|r.ring|] == r.ring;
  }

  /** The task that runs next is the first runnable one behind the old current task, in ring order, or that task itself. */
  lemma StepPicks(s: Snapshot, boot: Task, now: nat) returns (k: nat)
    requires RingInv(s, boot)
    ensures Reap(s).ring != [] && 1 <= k <= |Reap(s).ring| && Step(s, now).ring == Reap(s).ring[k..] + Reap(s).ring[..k]
    ensures forall i | 1 <= i < k :: StateOf(Step(s, now), Reap(s).ring[i]) != Runnable
    ensures k < |Reap(s).ring| ==> StateOf(Step(s, now), Reap(s).ring[k]) == Runnable
  {
    hide Kept, RingInv, DeadChild;
    RingParts(s, boot);
    ReapMembers(s);
    k := FirstRunnable(Wake(Reap(s), now), 1);
  }

  /**
   * Progress: a runnable task at distance j from the current one is selected (distance 0) or
   * strictly closer after one call of schedule, and still runnable.
   */
  lemma StepProgress(s: Snapshot, boot: Task, now: nat, j: nat) returns (m: nat)
    requires RingInv(s, boot) && 1 <= j < |s.ring| && StateOf(s, s.ring[j]) == Runnable
    ensures m < j && m < |Step(s, now).ring| && Step(s, now).ring[m] == s.ring[j]
    ensures StateOf(Step(s, now), s.ring[j]) == Runnable
  {
    hide Kept, RingInv, Step;
    RingParts(s, boot);
    var t := s.ring[j];
    ReapMembers(s);
    assert s.ring[1..][j - 1] == t;
    var m1 := KeptEarlier(s.ring[1..], s, j - 1);
    assert Reap(s).ring[m1 + 1] == t;
    StepWakes(s, boot, now, t);
    var k := StepPicks(s, boot, now);
    assert k <= m1 + 1;
    m := m1 + 1 - k;
  }

  // ---- what joins the ring, and what the current task does to itself ------------------------------------

  /** The ring with t linked in right after the current task. */
  function Inserted(s: Snapshot, t: Task, parent: Task?): Snapshot
    requires s.ring != []
  {
    Snapshot([s.ring[0], t] + s.ring[1..], s.st[t := Runnable], s.parent[t := parent], s.wake[t := 0])
  }

  lemma InsertedKeeps(s: Snapshot, boot: Task, t: Task, parent: Task?)
    requires RingInv(s, boot) && t !in s.st && parent != boot && (parent == null || parent in s.st)
    ensures RingInv(Inserted(s, t, parent), boot)
    ensures forall u :: u in Inserted(s, t, parent).ring <==> u == t || u in s.ring
  {
    var r := Inserted(s, t, parent);
    assert s.ring == [s.ring[0]] + s.ring[1..];
    forall u | u in r.ring && StateOf(r, u) == Waiting ensures HasChild(r, u) {
      assert HasChild(s, u);
      var c :| c in s.ring && ParentOf(s, c) == u;
      assert c in r.ring && ParentOf(r, c) == u;
    }
  }

  /** The current task in another state, with another wake time. */
  function WithCurrent(s: Snapshot, state: TaskState, wake: nat): Snapshot
    requires s.ring != []
  {
    Snapshot(s.ring, s.st[s.ring[0] := state], s.parent, s.wake[s.ring[0] := wake])
  }

  lemma WithCurrentKeeps(s: Snapshot, boot: Task, state: TaskState, wake: nat)
    requires RingInv(s, boot) && s.ring[0] != boot && (state == Waiting ==> HasChild(s, s.ring[0]))
    ensures RingInv(WithCurrent(s, state, wake), boot)
  {
    var r := WithCurrent(s, state, wake);
    forall u | u in r.ring && StateOf(r, u) == Waiting ensures HasChild(r, u) {
      assert HasChild(s, u);
      var c :| c in s.ring && ParentOf(s, c) == u;
      assert c in r.ring && ParentOf(r, c) == u;
    }
  }

  // ---- runs ------------------------------------------------------------------------------------------------

  /** What changes the ring: a call of schedule, the current task's own doing, a task created by spawn or fork. */
  datatype Event = Call(now: nat) | Become(state: TaskState, wake: nat) | Create(t: Task, parent: Task?)

  ghost predicate Allowed(s: Snapshot, boot: Task, e: Event)
    requires s.ring != []
  {
    match e
    case Call(_) => true
    case Become(state, _) => s.ring[0] != boot && (state == Waiting ==> HasChild(s, s.ring[0]))
    case Create(t, parent) => t !in s.st && parent != boot && (parent == null || parent in s.st)
  }

  ghost function After(s: Snapshot, e: Event): Snapshot
    requires s.ring != []
  {
    match e
    case Call(now) => Step(s, now)
    case Become(state, wake) => WithCurrent(s, state, wake)
    case Create(t, parent) => Inserted(s, t, parent)
  }

  /** A run from s on, each event allowed where it happens. */
  ghost predicate IsRun(trace: seq<Snapshot>, events: seq<Event>, boot: Task) {
    && |trace| == |events| + 1
    && forall i | 0 <= i < |events| :: trace[i].ring != [] && Allowed(trace[i], boot, events[i]) && trace[i + 1] == After(trace[i], events[i])
  }

  /** How many more calls of schedule than new tasks a run holds. */
  function Surplus(events: seq<Event>): int {
    if events == [] then 0 else (match events[0] case Call(_) => 1 case Become(_, _) => 0 case Create(_, _) => -1) + Surplus(events[1..])
  }

  lemma AfterKeeps(s: Snapshot, boot: Task, e: Event)
    requires RingInv(s, boot) && Allowed(s, boot, e)
    ensures RingInv(After(s, e), boot)
  {
    hide RingInv, Step, WithCurrent, Inserted;
    match e
    case Call(now) => StepKeeps(s, boot, now);
    case Become(state, wake) => WithCurrentKeeps(s, boot, state, wake);
    case Create(t, parent) => InsertedKeeps(s, boot, t, parent);
  }

  /** Over every run the ring stays sound. */
  lemma {:induction false} RunKeeps(trace: seq<Snapshot>, events: seq<Event>, boot: Task, i: nat)
    requires IsRun(trace, events, boot) && RingInv(trace[0], boot) && i <= |events|
    ensures RingInv(trace[i], boot)
  {
    hide RingInv, After, Allowed;
    if i > 0 {
      RunKeeps(trace, events, boot, i - 1);
      AfterKeeps(trace[i - 1], boot, events[i - 1]);
    }
  }

  /** One event: the runnable task at position j stays runnable, and moves back only for a new task. */
  lemma Nearer(s: Snapshot, boot: Task, e: Event, j: nat) returns (m: nat)
    requires RingInv(s, boot) && Allowed(s, boot, e) && 1 <= j < |s.ring| && StateOf(s, s.ring[j]) == Runnable
    ensures m <= (match e case Call(_) => j - 1 case Become(_, _) => j case Create(_, _) => j + 1)
    ensures m < |After(s, e).ring| && After(s, e).ring[m] == s.ring[j] && StateOf(After(s, e), s.ring[j]) == Runnable
  {
    hide Step, HasChild;
    match e
    case Call(now) => m := StepProgress(s, boot, now, j);
    case Become(_, _) => m := j;
    case Create(_, _) => m := j + 1;
  }

  /**
   * Progress over every run, whatever ticks, exits, sleeps, waits and new tasks fall between the calls:
   * a runnable task j steps from the current one has run once the calls of schedule outnumber the new
   * tasks by j.
   */
  lemma {:induction false} RunsWithin(trace: seq<Snapshot>, events: seq<Event>, boot: Task, j: nat) returns (k: nat)
    requires IsRun(trace, events, boot) && RingInv(trace[0], boot)
    requires j < |trace[0].ring| && StateOf(trace[0], trace[0].ring[j]) == Runnable && j <= Surplus(events)
    ensures k < |trace| && trace[k].ring != [] && trace[k].ring[0] == trace[0].ring[j] && StateOf(trace[k], trace[k].ring[0]) == Runnable
  {
    hide RingInv, After, Allowed;
    if j == 0 {
      return 0;
    }
    var m := Nearer(trace[0], boot, events[0], j);
    AfterKeeps(trace[0], boot, events[0]);
    assert IsRun(trace[1..], events[1..], boot);
    k := RunsWithin(trace[1..], events[1..], boot, m);
    k := k + 1;
  }

  /** t is asleep in the ring until `wake`, and does nothing itself while it is. */
  ghost predicate Asleep(s: Snapshot, t: Task, wake: nat) {
    t in s.ring && StateOf(s, t) == Sleeping && WakeOf(s, t) == wake
  }

  lemma StillAsleep(s: Snapshot, boot: Task, e: Event, t: Task, wake: nat)
    requires RingInv(s, boot) && Allowed(s, boot, e) && Asleep(s, t, wake)
    requires (e.Call? ==> e.now < wake) && (e.Become? ==> s.ring[0] != t)
    ensures Asleep(After(s, e), t, wake)
  {
    hide Step, HasChild;
    match e
    case Call(now) => StepWakes(s, boot, now, t);
    case Become(_, _) =>
    case Create(_, _) =>
  }

  /** Over every run, a sleeper sleeps on as long as no call of schedule comes at or after its wake time. */
  lemma {:induction false} SleepsOn(trace: seq<Snapshot>, events: seq<Event>, boot: Task, t: Task, wake: nat, i: nat)
    requires IsRun(trace, events, boot) && RingInv(trace[0], boot) && Asleep(trace[0], t, wake) && i <= |events|
    requires forall k | 0 <= k < i :: (events[k].Call? ==> events[k].now < wake) && (events[k].Become? ==> trace[k].ring[0] != t)
    ensures Asleep(trace[i], t, wake)
  {
    hide RingInv, After, Allowed;
    if i > 0 {
      SleepsOn(trace, events, boot, t, wake, i - 1);
      RunKeeps(trace, events, boot, i - 1);
      StillAsleep(trace[i - 1], boot, events[i - 1], t, wake);
    }
  }

  /**
   * The first call of schedule at or after the wake time makes the sleeper runnable, and it runs once
   * the calls after that outnumber the new tasks by the length of the ring.
   */
  lemma SleeperRuns(trace: seq<Snapshot>, events: seq<Event>, boot: Task, t: Task, wake: nat, i: nat) returns (k: nat)
    requires IsRun(trace, events, boot) && RingInv(trace[0], boot) && Asleep(trace[0], t, wake) && i < |events|
    requires forall k | 0 <= k < i :: (events[k].Call? ==> events[k].now < wake) && (events[k].Become? ==> trace[k].ring[0] != t)
    requires events[i].Call? && wake <= events[i].now && |trace[i + 1].ring| <= 1 + Surplus(events[i + 1..])
    ensures StateOf(trace[i], t) == Sleeping && StateOf(trace[i + 1], t) == Runnable
    ensures i < k < |trace| && trace[k].ring != [] && trace[k].ring[0] == t && StateOf(trace[k], t) == Runnable
  {
    hide RingInv, Step, Allowed;
    SleepsOn(trace, events, boot, t, wake, i);
    RunKeeps(trace, events, boot, i);
    RunKeeps(trace, events, boot, i + 1);
    StepWakes(trace[i], boot, events[i].now, t);
    var j :| 0 <= j < |trace[i + 1].ring| && trace[i + 1].ring[j] == t;
    RunSuffix(trace, events, boot, i + 1);
    k := RunsWithin(trace[i + 1..], events[i + 1..], boot, j);
    k := k + i + 1;
  }

  lemma RunSuffix(trace: seq<Snapshot>, events: seq<Event>, boot: Task, i: nat)
    requires IsRun(trace, events, boot) && i <= |events|
    ensures IsRun(trace[i..], events[i..], boot)
  {
    hide After, Allowed;
  }
}
