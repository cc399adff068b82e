/** The loop of PidFile::open, with everyone else's steps between its system calls. */
module PidFileOpen {
  import opened Basics
  import opened PidFile

  lemma OthersDoNotMove(w: World, step: Step, p: Pid)
    requires Inv(w) && Enabled(w, step) && p in w.procs && step.p != p
    ensures var v := Apply(w, step);
            p in v.procs && v.procs[p] == w.procs[p]
  {
    CollectingSpares();
    hide Inv, Collected, PidText, Overwrite;
  }

  lemma CollectingSpares()
    ensures forall w :: Collected(w).procs == w.procs
  {
  }

  lemma UnlinksGrow(w: World, step: Step)
    requires Enabled(w, step)
    ensures w.unlinks <= Apply(w, step).unlinks <= w.unlinks + 1
  {
    hide Referenced, PidText, Overwrite;
  }

  lemma {:induction false} FreshNumber(s: set<nat>) returns (n: nat)
    ensures n !in s && forall i :: i in s ==> i < n
  {
    n := 0;
    if s != {} {
      var x :| x in s;
      var m := FreshNumber(s - {x});
      n := if m > x then m else x + 1;
      forall i | i in s
        ensures i < n
      {
        assert i == x || i in s - {x};
      }
    }
  }

  /** What the steps of PidFile::open do to the process itself. */
  lemma OwnStep(w: World, step: Step)
    requires Enabled(w, step)
    requires step.Begin? || step.OpenCall? || step.TryLock? || step.Check? || step.Retry? || step.Truncate? || step.Write?
    ensures var v := Apply(w, step); var p := step.p; var r := w.procs[p];
            && p in v.procs && v.unlinks == w.unlinks && v.procs[p].file == r.file
            && match step
               case Begin(_, path) =>
                 && v.procs[p].phase == Starting(path) && v.procs[p].retries == 0
                 && v.dir == w.dir && v.locks == w.locks
               case OpenCall(_, d, ino) =>
                 && v.procs[p].phase == Opened(r.phase.path, d) && v.procs[p].retries == r.retries && v.procs[p].base == w.unlinks
                 && d in v.descs && v.descs[d] == ino && v.locks == w.locks
               case TryLock(_) =>
                 && v.procs[p].phase == (if r.phase.d in w.descs && w.descs[r.phase.d] !in w.locks
                                         then Locked(r.phase.path, r.phase.d) else v.procs[p].phase)
                 && v.procs[p].phase in {Idle, Locked(r.phase.path, r.phase.d)} && v.procs[p].retries == r.retries && v.procs[p].base == r.base
                 && (v.procs[p].phase.Locked? && r.phase.d in w.descs ==> w.descs[r.phase.d] !in w.locks)
               case Check(_) =>
                 && v.procs[p].retries == r.retries && v.procs[p].base == r.base
                 && v.procs[p].phase in {Verified(r.phase.path, r.phase.d), Stale(r.phase.path, r.phase.d)}
                 && (v.procs[p].phase.Stale? ==>
                       !(r.phase.path in w.dir && r.phase.d in w.descs && w.dir[r.phase.path] == w.descs[r.phase.d]))
               case Retry(_) => v.procs[p].phase == Starting(r.phase.path) && v.procs[p].retries == r.retries + 1
               case Truncate(_) => v.procs[p].phase == Truncated(r.phase.path, r.phase.d) && v.procs[p].retries == r.retries
               case Write(_) => v.procs[p].phase == Ready(r.phase.path, r.phase.d) && v.procs[p].retries == r.retries
  {
  }

  lemma StaleNeedsUnlink(w: World, p: Pid)
    requires Inv(w) && p in w.procs
    ensures var r := w.procs[p];
            r.phase.Locked? && !(r.phase.path in w.dir && r.phase.d in w.descs && w.dir[r.phase.path] == w.descs[r.phase.d])
            ==> w.unlinks > r.base
  {
    assert Sound(w, p, w.procs[p]);
  }

  lemma ReadyHolds(w: World, p: Pid)
    requires Inv(w) && p in w.procs && w.procs[p].phase.Ready?
    ensures Holds(w, w.procs[p].phase.path, w.procs[p].phase.d, PidText(p))
  {
    assert Sound(w, p, w.procs[p]);
  }

  lemma OpenedIsSound(w: World, p: Pid)
    requires Inv(w) && p in w.procs && w.procs[p].phase.Opened?
    ensures w.procs[p].phase.d in w.descs && !LockedBy(w, w.procs[p].phase.d)
  {
    assert Sound(w, p, w.procs[p]);
  }

  /** A new inode is not locked. */
  lemma FreshIsFree(w: World, p: Pid, d: Desc, ino: Inode)
    requires Inv(w) && Enabled(w, OpenCall(p, d, ino))
    ensures ino in w.locks <==> Taken(w, w.procs[p].phase.path)
  {
  }

  lemma InvTables(w: World)
    requires Inv(w)
    ensures Tables(w)
  {
  }

  lemma NotOwnLock(w: World, p: Pid)
    requires p in w.procs && w.procs[p].phase.Opened? && w.procs[p].phase.d in w.descs
    requires !LockedBy(w, w.procs[p].phase.d) && Tables(w) && AllReferenced(w)
    ensures var d := w.procs[p].phase.d; w.descs[d] in w.locks ==> Refused(w, p, w.procs[p].phase.path)
  {
  }

  /** The lock that `p` asks for next is held through a description other than its own, which some process refers to. */
  ghost predicate Refused(w: World, p: Pid, path: Path) {
    && p in w.procs && w.procs[p].phase.Opened? && w.procs[p].phase.path == path
    && var d := w.procs[p].phase.d;
       d in w.descs && w.descs[d] in w.locks &&
       w.locks[w.descs[d]] != d && Referenced(w.procs, w.locks[w.descs[d]])
  }

  /** The path leads to an inode that is locked. */
  ghost predicate Taken(w: World, path: Path) {
    path in w.dir && w.dir[path] in w.locks
  }

  class Kernel {
    var w: World
    var others: seq<Step>  // what the other processes are still going to try
    ghost var before: World  // the world before the last step, and that step
    ghost var last: Step

    ghost predicate Valid(p: Pid)
      reads this
    {
      Inv(w) && AllReferenced(w) && p in w.procs
    }

    /** One system call, or one other atomic step, of a process. */
    method Do(step: Step)
      requires Inv(w) && AllReferenced(w) && Enabled(w, step)
      modifies this`w, this`before, this`last
      ensures w == Apply(old(w), step) && Inv(w) && AllReferenced(w)
      ensures before == old(w) && last == step
    {
      StepKeeps(w, step);
      ReferencedStep(w, step);
      before, last := w, step;
      w := Apply(w, step);
    }

    /** The others run for a while; a step that is not possible when its turn comes does not happen. */
    method Interfere(p: Pid)
      requires Valid(p)
      modifies this
      ensures Valid(p) && w.procs[p] == old(w).procs[p]
      ensures w.unlinks >= old(w).unlinks
      ensures w.unlinks + |others| <= old(w.unlinks + |others|)
      ensures |others| <= |old(others)|
      ensures old(others) == [] ==> w == old(w)
    {
      var turns :| 0 <= turns <= |others|;
      while turns > 0
        invariant turns <= |others| <= |old(others)|
        invariant Valid(p) && w.procs[p] == old(w).procs[p] && w.unlinks >= old(w).unlinks
        invariant w.unlinks + |others| <= old(w.unlinks + |others|)
        invariant old(others) == [] ==> w == old(w)
      {
        var step := others[0];
        others := others[1..];
        turns := turns - 1;
        if step.p != p && Enabled(w, step) {
          OthersDoNotMove(w, step, p);
          UnlinksGrow(w, step);
          Do(step);
        }
      }
    }

    /** The kernel finds or creates the inode and makes a new open file description. */
    method OpenPath(p: Pid)
      requires Valid(p) && w.procs[p].phase.Starting?
      modifies this`w, this`before, this`last
      ensures Valid(p)
      ensures exists d, ino :: Enabled(old(w), OpenCall(p, d, ino)) && w == Apply(old(w), OpenCall(p, d, ino))
      ensures var r := w.procs[p];
              && r.phase.Opened? && r.phase.d in w.descs
              && (w.descs[r.phase.d] in w.locks <==> Taken(old(w), r.phase.path))
      ensures var r := w.procs[p]; var was := old(w).procs[p];
              && r.phase.Opened? && r.phase.path == was.phase.path
              && r.retries == was.retries && r.file == was.file && r.base == w.unlinks == old(w).unlinks
    {
      ghost var freshDesc := FreshNumber(w.descs.Keys);
      var d: Desc :| d !in w.descs;
      var path := w.procs[p].phase.path;
      var ino: Inode;
      if path in w.dir {
        ino := w.dir[path];
      } else {
        ghost var freshInode := FreshNumber(w.dir.Values + w.descs.Values);
        assert freshInode !in w.dir.Values + w.descs.Values;
        ino :| ino !in w.dir.Values && ino !in w.descs.Values;
      }
      OwnStep(w, OpenCall(p, d, ino));
      FreshIsFree(w, p, d, ino);
      Do(OpenCall(p, d, ino));
    }

    /** One attempt: open, lock, compare. Returns in phase Idle (somebody else has the lock), Verified or Stale. */
    method Attempt(p: Pid, path: Path)
      requires Valid(p) && w.procs[p].phase == Starting(path)
      modifies this
      ensures Valid(p)
      ensures var r := w.procs[p]; var was := old(w).procs[p];
              && r.file == was.file && r.retries == was.retries
              && (r.phase.Idle? || ((r.phase.Verified? || r.phase.Stale?) && r.phase.path == path))
              && |others| <= |old(others)|
              && (r.phase.Stale? ==> |others| < |old(others)|)
      // refused only by the lock call, and only because of a lock held through another description
      ensures w.procs[p].phase.Idle? ==> last == TryLock(p) && Refused(before, p, path)
      ensures old(others) == [] ==> (w.procs[p].phase.Idle? <==> Taken(old(w), path))
    {
      hide Inv, Apply, LockedBy, AllReferenced;
      Interfere(p);
      OpenPath(p);
      Interfere(p);
      OwnStep(w, TryLock(p));
      OpenedIsSound(w, p);
      assert Tables(w) by { InvTables(w); }
      NotOwnLock(w, p);
      Do(TryLock(p));
      if w.procs[p].phase.Idle? {
        return;
      }
      Interfere(p);
      StaleNeedsUnlink(w, p);
      OwnStep(w, Check(p));
      Do(Check(p));
    }

    /** True once the pid has been written and the PidFile is returned; false when somebody else holds the lock. */
    method Open(p: Pid, path: Path) returns (success: bool)
      requires Valid(p) && Enabled(w, Begin(p, path))
      modifies this
      ensures Valid(p) && w.procs[p].file == old(w).procs[p].file
      ensures success ==> w.procs[p].phase.Ready? && w.procs[p].phase.path == path
      ensures success ==> Holds(w, path, w.procs[p].phase.d, PidText(p))
      ensures !success ==> w.procs[p].phase.Idle?
      // it fails only at the lock call, because of a lock held through another description
      ensures !success ==> last == TryLock(p) && Refused(before, p, path)
      // and if the others do nothing, exactly when the inode the path leads to is locked
      ensures old(others) == [] ==> (success <==> !Taken(old(w), path))
      // every retry used up a step of the others
      ensures w.procs[p].retries + |others| <= |old(others)|
    {
      hide Inv, Apply, AllReferenced;
      OwnStep(w, Begin(p, path));
      Do(Begin(p, path));
      while true
        invariant Valid(p) && w.procs[p].phase == Starting(path) && w.procs[p].file == old(w).procs[p].file
        invariant w.procs[p].retries + |others| <= |old(others)|
        invariant old(others) == [] ==> (Taken(w, path) <==> Taken(old(w), path))
        decreases |others|
      {
        Attempt(p, path);
        if w.procs[p].phase.Idle? {
          return false;
        }
        if w.procs[p].phase.Verified? {
          break;
        }
        Interfere(p);
        OwnStep(w, Retry(p));
        Do(Retry(p));
      }
      Interfere(p);
      OwnStep(w, Truncate(p));
      Do(Truncate(p));
      Interfere(p);
      OwnStep(w, Write(p));
      Do(Write(p));
      ReadyHolds(w, p);
      return true;
    }

    /** ~PidFile and then the descriptor's own destructor: unlinks only in the process that locked. */
    method Release(p: Pid)
      requires Valid(p) && w.procs[p].phase.Idle?
      modifies this
      ensures Valid(p) && w.procs[p].phase.Idle? && w.procs[p].file.None?
      // a forked copy leaves every path alone; the owner unlinks
      ensures !Own(old(w).procs[p], p) ==> w.dir == old(w).dir && w.unlinks == old(w).unlinks
      ensures Own(old(w).procs[p], p) ==> w.unlinks > old(w).unlinks
    {
      if w.procs[p].file.None? {
        return;
      }
      hide Inv, Apply, AllReferenced;
      if Own(w.procs[p], p) {
        OwnRelease(w, Unlink(p));
        Do(Unlink(p));
        Interfere(p);
      }
      OwnRelease(w, Close(p));
      Do(Close(p));
    }

    /** AppState::setPidFile; false when another copy of the application is running. */
    method SetPidFile(p: Pid, path: Option<Path>) returns (success: bool)
      requires Valid(p) && w.procs[p].phase.Idle? && (w.procs[p].file.None? || Own(w.procs[p], p))
      modifies this
      ensures Valid(p) && w.procs[p].phase.Idle?
      ensures path.None? ==> success && w.procs[p].file.None?
      ensures path.Some? && success ==>
                HoldsFile(w, p, path.value) && Holds(w, path.value, w.procs[p].file.value.d, PidText(p))
      ensures !success ==> w.procs[p].file == old(w).procs[p].file
      ensures !success ==> path.Some? && last == TryLock(p) && Refused(before, p, path.value)
      ensures path.Some? && old(others) == [] ==> (success <==> !Taken(old(w), path.value))
    {
      if path.None? {
        Release(p);
        return true;
      }
      success := Open(p, path.value);
      if !success {
        return;
      }
      hide Inv, Apply, AllReferenced;
      OwnRelease(w, Install(p));
      Do(Install(p));
      if w.procs[p].phase.Replacing? {
        Interfere(p);
        OwnRelease(w, Replace(p));
        Do(Replace(p));
      }
      HeldIsSound(w, p);
    }
  }

  /** What releasing and replacing do to the process itself. */
  lemma OwnRelease(w: World, step: Step)
    requires Enabled(w, step) && (step.Unlink? || step.Close? || step.Install? || step.Replace?)
    ensures var v := Apply(w, step); var p := step.p; var r := w.procs[p];
            && p in v.procs
            && (step.Close? ==> v.dir == w.dir)
            && v.unlinks == w.unlinks + (if step.Unlink? || (step.Install? && Own(r, p)) then 1 else 0)
            && match step
               case Unlink(_) => v.procs[p] == r.(file := Some(r.file.value.(unlinked := true)))
               case Close(_) => v.procs[p] == r.(file := None)
               case Install(_) =>
                 if r.file.None? then v.procs[p] == r.(phase := Idle, file := Some(File(r.phase.path, r.phase.d, p, false)))
                 else v.procs[p].phase == Replacing(r.phase.path, r.phase.d)
               case Replace(_) => v.procs[p] == r.(phase := Idle, file := Some(File(r.phase.path, r.phase.d, p, false)))
  {
  }

  lemma HeldIsSound(w: World, p: Pid)
    requires Inv(w) && p in w.procs && Own(w.procs[p], p)
    ensures Holds(w, w.procs[p].file.value.path, w.procs[p].file.value.d, PidText(p))
  {
    assert Sound(w, p, w.procs[p]);
  }
}
