/**
 The recursive spinlock (lock_spin_recursive in src/utils/lock_wrapper.h) under every interleaving of
 any number of threads.

 A step is one access to shared memory by one thread: reading or writing m_owner, loading or storing
 m_lock_count, or the atomic take and release of the pthread spinlock. m_owner is read without any
 synchronisation. Accesses are taken to be sequentially consistent and the count not to overflow.
 */
module SpinLock {
  import opened Options

  type Tid = nat

  /** Where a thread is. `Testing` is about to read m_owner on behalf of lock or trylock. */
  datatype Pc =
    | Outside
    | Testing(try: bool)
    | Taking(try: bool)
    | TakenLoad | TakenStore(loaded: int) | TakenOwn
    | AgainLoad | AgainStore(loaded: int)
    | DropLoad | DropStore(loaded: int) | DropOwner | DropSpin
    | Asking | AskingCount

  /** What pthread_spin_trylock returns when the spinlock is taken. */
  const EBUSY := 16

  /** `depth` counts the thread's completed and not yet undone locks; `rc` is what lock, trylock or unlock
      returned last, `said` the last answer of is_locked_by_me. */
  datatype Thread = Thread(pc: Pc, depth: nat, rc: int, said: int)

  /** `holder` only records who took the spinlock; no step looks at it. */
  datatype State = State(
    spin: bool, owner: Option<Tid>, count: int, holder: Option<Tid>, threads: map<Tid, Thread>)

  /** What a thread outside the lock's code does next. */
  datatype Choice = Lock | TryLock | Unlock | Ask

  function Start(choice: Choice, th: Thread): Thread {
    match choice
    case Lock => th.(pc := Testing(false))
    case TryLock => th.(pc := Testing(true))
    case Unlock => if th.depth > 0 then th.(pc := DropLoad) else th
    case Ask => th.(pc := Asking)
  }

  /** One step of thread t; `choice` matters only when it is outside. */
  function Step(s: State, t: Tid, choice: Choice): State
    requires t in s.threads
  {
    var th := s.threads[t];
    match th.pc
    case Outside => s.(threads := s.threads[t := Start(choice, th)])
    case Testing(try) =>
      s.(threads := s.threads[t := th.(pc := if s.owner == Some(t) then AgainLoad else Taking(try))])
    case Taking(try) =>
      if !s.spin then s.(spin := true, holder := Some(t), threads := s.threads[t := th.(pc := TakenLoad)])
      else if try then s.(threads := s.threads[t := th.(pc := Outside, rc := EBUSY)])
      else s
    case TakenLoad => s.(threads := s.threads[t := th.(pc := TakenStore(s.count))])
    case TakenStore(n) => s.(count := n + 1, threads := s.threads[t := th.(pc := TakenOwn)])
    case TakenOwn => s.(owner := Some(t), threads := s.threads[t := th.(pc := Outside, depth := 1, rc := 0)])
    case AgainLoad => s.(threads := s.threads[t := th.(pc := AgainStore(s.count))])
    case AgainStore(n) =>
      s.(count := n + 1, threads := s.threads[t := th.(pc := Outside, depth := th.depth + 1, rc := 0)])
    case DropLoad => s.(threads := s.threads[t := th.(pc := DropStore(s.count))])
    case DropStore(n) =>
      s.(count := n - 1,
         threads := s.threads[t := if n - 1 == 0 then th.(pc := DropOwner)
                                   else th.(pc := Outside, depth := if th.depth > 0 then th.depth - 1 else 0, rc := 0)])
    case DropOwner => s.(owner := None, threads := s.threads[t := th.(pc := DropSpin)])
    case DropSpin =>
      s.(spin := false, holder := None, threads := s.threads[t := th.(pc := Outside, depth := 0, rc := 0)])
    case Asking =>
      s.(threads := s.threads[t := if s.owner == Some(t) then th.(pc := AskingCount)
                                   else th.(pc := Outside, said := 0)])
    case AskingCount => s.(threads := s.threads[t := th.(pc := Outside, said := s.count)])
  }

  function Initial(tids: set<Tid>): State {
    State(false, None, 0, None, map t | t in tids :: Thread(Outside, 0, 0, 0))
  }

  /** A schedule: which thread steps, and what it chooses if it may. */
  function Run(s: State, schedule: seq<(Tid, Choice)>): State
    decreases |schedule|
  {
    if schedule == [] then s
    else
      var (t, choice) := schedule[0];
      Run(if t in s.threads then Step(s, t, choice) else s, schedule[1..])
  }

  // ---------- the invariant ----------

  /** Between taking the spinlock and letting it go. */
  predicate Inside(th: Thread) {
    th.depth > 0 || th.pc.TakenLoad? || th.pc.TakenStore? || th.pc.TakenOwn?
  }

  /** A thread that is not inside is nowhere in the code that changes the lock's fields. */
  predicate IdlePc(pc: Pc) {
    pc.Outside? || pc.Testing? || pc.Taking? || pc.Asking?
  }

  /** The fields as the thread inside has left them, by where it is. */
  predicate HolderOk(h: Tid, th: Thread, owner: Option<Tid>, count: int) {
    match th.pc
    case TakenLoad => th.depth == 0 && owner == None && count == 0
    case TakenStore(n) => th.depth == 0 && owner == None && count == 0 && n == 0
    case TakenOwn => th.depth == 0 && owner == None && count == 1
    case AgainStore(n) => owner == Some(h) && count == th.depth == n
    case DropStore(n) => owner == Some(h) && count == th.depth == n
    case DropOwner => th.depth == 1 && owner == Some(h) && count == 0
    case DropSpin => th.depth == 1 && owner == None && count == 0
    case Taking(_) => false
    case _ => owner == Some(h) && count == th.depth
  }

  ghost predicate Inv(s: State) {
    && (s.spin <==> s.holder.Some?)
    && (forall t | t in s.threads :: Inside(s.threads[t]) <==> s.holder == Some(t))
    && (forall t | t in s.threads && s.holder != Some(t) :: IdlePc(s.threads[t].pc))
    && (match s.holder
        case None => s.owner == None && s.count == 0
        case Some(h) => h in s.threads && HolderOk(h, s.threads[h], s.owner, s.count))
  }

  /** The part of the invariant that a step of thread t can affect. */
  predicate LocalOk(s: State, s': State, t: Tid, th: Thread) {
    && (s'.spin <==> s'.holder.Some?)
    && (Inside(th) <==> s'.holder == Some(t))
    && (s'.holder != Some(t) ==> IdlePc(th.pc))
    && (match s'.holder
        case None => s'.owner == None && s'.count == 0 && (s.holder == None || s.holder == Some(t))
        case Some(h) =>
          if h == t then HolderOk(t, th, s'.owner, s'.count) && (s.holder == None || s.holder == Some(t))
          else s'.holder == s.holder && s'.owner == s.owner && s'.count == s.count)
  }

  lemma LocalStep(s: State, s': State, t: Tid, th: Thread)
    requires Inv(s) && t in s.threads && s'.threads == s.threads[t := th] && LocalOk(s, s', t, th)
    ensures Inv(s')
  {
  }

  /** What the invariant says about thread t alone. */
  lemma LocalInv(s: State, t: Tid)
    requires Inv(s) && t in s.threads
    ensures LocalOk(s, s, t, s.threads[t])
    ensures s.holder == None ==> s.owner == None
    ensures s.owner == Some(t) ==> s.holder == Some(t)
  {
  }

  lemma StepIsLocal(s: State, t: Tid, choice: Choice)
    requires t in s.threads && LocalOk(s, s, t, s.threads[t])
    requires s.owner == Some(t) ==> s.holder == Some(t)
    ensures var s' := Step(s, t, choice);
            t in s'.threads && s'.threads == s.threads[t := s'.threads[t]] && LocalOk(s, s', t, s'.threads[t])
  {
  }

  lemma StepKeepsInv(s: State, t: Tid, choice: Choice)
    requires Inv(s) && t in s.threads
    ensures Inv(Step(s, t, choice))
  {
    hide LocalOk, Step;
    LocalInv(s, t);
    StepIsLocal(s, t, choice);
    var s' := Step(s, t, choice);
    LocalStep(s, s', t, s'.threads[t]);
  }

  lemma {:induction false} RunKeepsInv(s: State, schedule: seq<(Tid, Choice)>)
    requires Inv(s)
    ensures Inv(Run(s, schedule))
    decreases |schedule|
  {
    if schedule != [] {
      var (t, choice) := schedule[0];
      if t in s.threads {
        StepKeepsInv(s, t, choice);
      }
      RunKeepsInv(if t in s.threads then Step(s, t, choice) else s, schedule[1..]);
    }
  }

  // ---------- what it means for callers ----------

  /** In every state of every run at most one thread is inside. */
  lemma MutualExclusion(tids: set<Tid>, schedule: seq<(Tid, Choice)>, t: Tid, u: Tid)
    requires var s := Run(Initial(tids), schedule); t in s.threads && u in s.threads
    ensures var s := Run(Initial(tids), schedule);
            Inside(s.threads[t]) && Inside(s.threads[u]) ==> t == u
  {
    RunKeepsInv(Initial(tids), schedule);
  }

  /** Once a thread is back outside, the count is exactly its nesting depth if it is the one inside,
      and the owner field names it then and only then. */
  lemma CountIsDepth(tids: set<Tid>, schedule: seq<(Tid, Choice)>, t: Tid)
    requires var s := Run(Initial(tids), schedule); t in s.threads && s.threads[t].pc.Outside?
    ensures var s := Run(Initial(tids), schedule);
            && (s.threads[t].depth > 0 ==> s.count == s.threads[t].depth && s.owner == Some(t) && s.spin)
            && (s.threads[t].depth == 0 ==> s.owner != Some(t))
  {
    RunKeepsInv(Initial(tids), schedule);
  }

  /** The unsynchronised test of m_owner never misleads: a thread about to make it finds its own name
      exactly when it already holds the lock. */
  lemma OwnerTestIsRight(tids: set<Tid>, schedule: seq<(Tid, Choice)>, t: Tid)
    requires var s := Run(Initial(tids), schedule);
             t in s.threads && (s.threads[t].pc.Testing? || s.threads[t].pc.Asking?)
    ensures var s := Run(Initial(tids), schedule);
            s.owner == Some(t) <==> s.threads[t].depth > 0
  {
    RunKeepsInv(Initial(tids), schedule);
  }

  /** While the holder is outside the code of the lock, no step of another thread changes any field of
      the lock. */
  lemma OthersCannotDisturb(s: State, t: Tid, u: Tid, choice: Choice)
    requires Inv(s) && t in s.threads && u in s.threads && t != u && s.threads[t].depth > 0
    ensures var s' := Step(s, u, choice);
            s'.owner == s.owner && s'.count == s.count && s'.spin && s'.threads[t] == s.threads[t]
  {
    LocalInv(s, u);
  }

  /** is_locked_by_me answers with the nesting depth, whatever the other threads do between its two
      reads. */
  lemma AnswerIsDepth(s: State, t: Tid, choice: Choice)
    requires Inv(s) && t in s.threads && (s.threads[t].pc.Asking? || s.threads[t].pc.AskingCount?)
    ensures var th := Step(s, t, choice).threads[t];
            th.pc.Outside? ==> th.said == th.depth == s.threads[t].depth
    ensures s.threads[t].pc.AskingCount? ==> s.threads[t].depth > 0
  {
    LocalInv(s, t);
  }

  /** A thread that keeps trying gets in as soon as the lock is free, and trylock fails only while
      another thread is inside. */
  lemma TakingSucceeds(s: State, t: Tid, choice: Choice)
    requires Inv(s) && t in s.threads && s.threads[t].pc.Taking?
    ensures Step(s, t, choice).threads[t].pc.TakenLoad? <==> forall u | u in s.threads :: !Inside(s.threads[u])
    ensures s.threads[t].depth == 0
  {
    LocalInv(s, t);
    if s.spin {
      assert Inside(s.threads[s.holder.value]);
    }
  }

  // ---------- what a finished call has achieved ----------

  /** The state before the k-th step. */
  function At(tids: set<Tid>, schedule: seq<(Tid, Choice)>, k: nat): State
    requires k <= |schedule|
  {
    Run(Initial(tids), schedule[..k])
  }

  lemma {:induction false} RunLast(s: State, schedule: seq<(Tid, Choice)>)
    requires schedule != []
    ensures var n := |schedule| - 1;
            var before, (t, choice) := Run(s, schedule[..n]), schedule[n];
            Run(s, schedule) == if t in before.threads then Step(before, t, choice) else before
    decreases |schedule|
  {
    hide Step;
    var n := |schedule| - 1;
    if n > 0 {
      var (t, choice) := schedule[0];
      RunLast(if t in s.threads then Step(s, t, choice) else s, schedule[1..]);
      assert schedule[1..][..n - 1] == schedule[..n][1..];
    }
  }

  lemma {:induction false} RunThreads(s: State, schedule: seq<(Tid, Choice)>)
    ensures Run(s, schedule).threads.Keys == s.threads.Keys
    decreases |schedule|
  {
    if schedule != [] {
      var (t, choice) := schedule[0];
      RunThreads(if t in s.threads then Step(s, t, choice) else s, schedule[1..]);
    }
  }

  /** One step of a run. */
  lemma AtNext(tids: set<Tid>, schedule: seq<(Tid, Choice)>, k: nat)
    requires k < |schedule|
    ensures var s, (t, choice) := At(tids, schedule, k), schedule[k];
            && Inv(s) && s.threads.Keys == tids
            && At(tids, schedule, k + 1) == (if t in tids then Step(s, t, choice) else s)
            && At(tids, schedule, k + 1).threads.Keys == tids
  {
    RunKeepsInv(Initial(tids), schedule[..k]);
    RunThreads(Initial(tids), schedule[..k]);
    RunThreads(Initial(tids), schedule[..k + 1]);
    RunLast(Initial(tids), schedule[..k + 1]);
    assert schedule[..k + 1][..k] == schedule[..k];
  }

  /** Where thread t is before the k-th step. */
  function ThreadAt(tids: set<Tid>, schedule: seq<(Tid, Choice)>, t: Tid, k: nat): Thread
    requires k <= |schedule| && t in tids
  {
    RunThreads(Initial(tids), schedule[..k]);
    At(tids, schedule, k).threads[t]
  }

  /** From step i on thread t has been in the call it chose there, up to step j. */
  ghost predicate InCall(tids: set<Tid>, schedule: seq<(Tid, Choice)>, t: Tid, choice: Choice, i: nat, j: nat) {
    && t in tids && i < j <= |schedule| && schedule[i] == (t, choice)
    && ThreadAt(tids, schedule, t, i).pc.Outside?
    && (choice.Unlock? ==> ThreadAt(tids, schedule, t, i).depth > 0)
    && forall k | i < k < j :: !ThreadAt(tids, schedule, t, k).pc.Outside?
  }

  /** That call is over. */
  ghost predicate Called(tids: set<Tid>, schedule: seq<(Tid, Choice)>, t: Tid, choice: Choice, i: nat, j: nat) {
    InCall(tids, schedule, t, choice, i, j) && ThreadAt(tids, schedule, t, j).pc.Outside?
  }

  ghost predicate OtherInside(s: State, t: Tid) {
    exists u :: u in s.threads && u != t && Inside(s.threads[u])
  }

  /** In the middle of a call that began at depth d. */
  predicate Midway(choice: Choice, d: nat, th: Thread) {
    && th.depth == d
    && match choice
       case Lock =>
         th.pc == Testing(false) || th.pc == Taking(false) || Entering(th.pc)
       case TryLock =>
         th.pc == Testing(true) || th.pc == Taking(true) || Entering(th.pc)
       case Unlock => d > 0 && (th.pc.DropLoad? || th.pc.DropStore? || th.pc.DropOwner? || th.pc.DropSpin?)
       case Ask => th.pc.Asking? || th.pc.AskingCount?
  }

  predicate Entering(pc: Pc) {
    pc.TakenLoad? || pc.TakenStore? || pc.TakenOwn? || pc.AgainLoad? || pc.AgainStore?
  }

  /** What a call that began at depth d has achieved when its last step was made in state `last`; `th`
      and `spin` are then thread t and the spinlock. */
  ghost predicate Achieved(choice: Choice, d: nat, t: Tid, last: State, th: Thread, spin: bool) {
    match choice
    case Lock => th.depth == d + 1 && th.rc == 0
    case TryLock => if th.rc == 0 then th.depth == d + 1 else th.depth == d && OtherInside(last, t)
    case Unlock => th.depth == d - 1 && th.rc == 0 && (th.depth == 0 ==> !spin)
    case Ask => th.depth == d && th.said == d
  }

  lemma StartIsMidway(s: State, t: Tid, choice: Choice)
    requires t in s.threads && s.threads[t].pc.Outside? && (choice.Unlock? ==> s.threads[t].depth > 0)
    ensures Midway(choice, s.threads[t].depth, Step(s, t, choice).threads[t])
  {
  }

  lemma StepIsMidway(s: State, t: Tid, choice: Choice, other: Choice, d: nat)
    requires Inv(s) && t in s.threads && Midway(choice, d, s.threads[t])
    ensures var s' := Step(s, t, other);
            && t in s'.threads
            && if s'.threads[t].pc.Outside? then Achieved(choice, d, t, s, s'.threads[t], s'.spin)
               else Midway(choice, d, s'.threads[t])
  {
    LocalInv(s, t);
    if s.threads[t].pc.Taking? && s.spin {
      assert Inside(s.threads[s.holder.value]);
    }
  }

  lemma OthersStep(s: State, t: Tid, u: Tid, choice: Choice)
    requires t in s.threads && u in s.threads && t != u
    ensures t in Step(s, u, choice).threads && Step(s, u, choice).threads[t] == s.threads[t]
  {
  }

  /** As long as a call has not returned it is midway; when it returns it has achieved what it is for. */
  lemma {:induction false} CallProgress(
    tids: set<Tid>, schedule: seq<(Tid, Choice)>, t: Tid, choice: Choice, i: nat, j: nat)
    requires InCall(tids, schedule, t, choice, i, j)
    ensures var d, th := ThreadAt(tids, schedule, t, i).depth, ThreadAt(tids, schedule, t, j);
            if th.pc.Outside? then Achieved(choice, d, t, At(tids, schedule, j - 1), th, At(tids, schedule, j).spin)
            else Midway(choice, d, th)
    decreases j
  {
    hide Step, Midway, Achieved, Inv, Run;
    AtNext(tids, schedule, j - 1);
    var s, d := At(tids, schedule, j - 1), ThreadAt(tids, schedule, t, i).depth;
    if j == i + 1 {
      StartIsMidway(s, t, choice);
      NotYetOutside(choice, d, At(tids, schedule, j).threads[t]);
    } else {
      CallProgress(tids, schedule, t, choice, i, j - 1);
      assert !ThreadAt(tids, schedule, t, j - 1).pc.Outside?;
      var (u, other) := schedule[j - 1];
      if u == t {
        StepIsMidway(s, t, choice, other, d);
      } else if u in tids {
        OthersStep(s, t, u, other);
      }
    }
  }

  lemma NotYetOutside(choice: Choice, d: nat, th: Thread)
    requires Midway(choice, d, th)
    ensures !th.pc.Outside?
  {
  }

  /** A call of lock that has returned reports success and leaves its thread one deeper. */
  lemma LockReturns(tids: set<Tid>, schedule: seq<(Tid, Choice)>, t: Tid, i: nat, j: nat)
    requires Called(tids, schedule, t, Lock, i, j)
    ensures var th := ThreadAt(tids, schedule, t, j);
            th.depth == ThreadAt(tids, schedule, t, i).depth + 1 && th.rc == 0
  {
    CallProgress(tids, schedule, t, Lock, i, j);
  }

  /** So does trylock; it fails only if another thread was inside at its last step, the attempt, and says
      so. */
  lemma TryLockReturns(tids: set<Tid>, schedule: seq<(Tid, Choice)>, t: Tid, i: nat, j: nat)
    requires Called(tids, schedule, t, TryLock, i, j)
    ensures var d, th := ThreadAt(tids, schedule, t, i).depth, ThreadAt(tids, schedule, t, j);
            if th.rc == 0 then th.depth == d + 1 else th.depth == d && OtherInside(At(tids, schedule, j - 1), t)
  {
    CallProgress(tids, schedule, t, TryLock, i, j);
  }

  /** A call of unlock by a thread that holds the lock leaves it one less deep, and the spinlock free
      when it was the last. */
  lemma UnlockReturns(tids: set<Tid>, schedule: seq<(Tid, Choice)>, t: Tid, i: nat, j: nat)
    requires Called(tids, schedule, t, Unlock, i, j)
    ensures var d, th := ThreadAt(tids, schedule, t, i).depth, ThreadAt(tids, schedule, t, j);
            th.depth == d - 1 && th.rc == 0 && (th.depth == 0 ==> !At(tids, schedule, j).spin)
  {
    CallProgress(tids, schedule, t, Unlock, i, j);
  }

  /** is_locked_by_me changes nothing and says the depth. */
  lemma AskReturns(tids: set<Tid>, schedule: seq<(Tid, Choice)>, t: Tid, i: nat, j: nat)
    requires Called(tids, schedule, t, Ask, i, j)
    ensures var th, th' := ThreadAt(tids, schedule, t, i), ThreadAt(tids, schedule, t, j);
            th'.depth == th.depth == th'.said
  {
    CallProgress(tids, schedule, t, Ask, i, j);
  }

  // ---------- how long a call takes ----------

  /** A step of lock that finds the spinlock taken. */
  ghost predicate Waiting(s: State, t: Tid)
    requires t in s.threads
  {
    s.threads[t].pc == Taking(false) && OtherInside(s, t)
  }

  /** The steps of thread t from i up to j, and those of them that wait. */
  ghost function OwnSteps(schedule: seq<(Tid, Choice)>, t: Tid, i: nat, j: nat): nat
    requires i <= j <= |schedule|
    decreases j
  {
    if i == j then 0 else OwnSteps(schedule, t, i, j - 1) + if schedule[j - 1].0 == t then 1 else 0
  }

  ghost function Waits(tids: set<Tid>, schedule: seq<(Tid, Choice)>, t: Tid, i: nat, j: nat): nat
    requires i <= j <= |schedule| && t in tids
    decreases j
  {
    if i == j then 0
    else
      RunThreads(Initial(tids), schedule[..j - 1]);
      var waits := schedule[j - 1].0 == t && Waiting(At(tids, schedule, j - 1), t);
      Waits(tids, schedule, t, i, j - 1) + if waits then 1 else 0
  }

  /** Steps a thread still has to make at most, not counting those that wait. */
  function Left(pc: Pc): nat {
    match pc
    case Outside => 0
    case Testing(_) => 5
    case Taking(_) => 4
    case TakenLoad => 3
    case TakenStore(_) => 2
    case TakenOwn => 1
    case AgainLoad => 2
    case AgainStore(_) => 1
    case DropLoad => 4
    case DropStore(_) => 3
    case DropOwner => 2
    case DropSpin => 1
    case Asking => 2
    case AskingCount => 1
  }

  lemma StepGetsOn(s: State, t: Tid, choice: Choice)
    requires Inv(s) && t in s.threads && !s.threads[t].pc.Outside? && !Waiting(s, t)
    ensures t in Step(s, t, choice).threads && Left(Step(s, t, choice).threads[t].pc) < Left(s.threads[t].pc)
  {
    LocalInv(s, t);
    if s.threads[t].pc.Taking? && s.spin {
      assert Inside(s.threads[s.holder.value]);
    }
  }

  lemma WaitingStays(s: State, t: Tid, choice: Choice)
    requires Inv(s) && t in s.threads && Waiting(s, t)
    ensures Step(s, t, choice) == s
  {
    var u :| u in s.threads && u != t && Inside(s.threads[u]);
  }

  lemma {:induction false} CallTakes(
    tids: set<Tid>, schedule: seq<(Tid, Choice)>, t: Tid, choice: Choice, i: nat, j: nat)
    requires InCall(tids, schedule, t, choice, i, j)
    ensures OwnSteps(schedule, t, i, j) + Left(ThreadAt(tids, schedule, t, j).pc) <= 6 + Waits(tids, schedule, t, i, j)
    ensures !choice.Lock? ==> Waits(tids, schedule, t, i, j) == 0
    decreases j
  {
    hide Step, Inv, Run, Left, OtherInside;
    AtNext(tids, schedule, j - 1);
    var s := At(tids, schedule, j - 1);
    if j == i + 1 {
      FirstLeft(s, t, choice);
      assert OwnSteps(schedule, t, i, i) == 0 && Waits(tids, schedule, t, i, i) == 0;
    } else {
      CallTakes(tids, schedule, t, choice, i, j - 1);
      assert !ThreadAt(tids, schedule, t, j - 1).pc.Outside?;
      var (u, other) := schedule[j - 1];
      if u == t {
        CallProgress(tids, schedule, t, choice, i, j - 1);
        if Waiting(s, t) {
          WaitingStays(s, t, other);
        } else {
          StepGetsOn(s, t, other);
        }
      } else if u in tids {
        OthersStep(s, t, u, other);
      }
    }
  }

  lemma FirstLeft(s: State, t: Tid, choice: Choice)
    requires t in s.threads && s.threads[t].pc.Outside?
    ensures t in Step(s, t, choice).threads && Left(Step(s, t, choice).threads[t].pc) <= 5 && !Waiting(s, t)
  {
  }

  /** No call takes more than six steps of its thread besides those in which lock finds another thread
      inside; trylock, unlock and is_locked_by_me never wait. */
  lemma CallsGetOn(tids: set<Tid>, schedule: seq<(Tid, Choice)>, t: Tid, choice: Choice, i: nat, j: nat)
    requires InCall(tids, schedule, t, choice, i, j)
    ensures OwnSteps(schedule, t, i, j) <= 6 + Waits(tids, schedule, t, i, j)
    ensures !choice.Lock? ==> OwnSteps(schedule, t, i, j) <= 6
  {
    CallTakes(tids, schedule, t, choice, i, j);
  }
}
