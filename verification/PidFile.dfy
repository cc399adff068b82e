/**
 The pid file protocol of src/pid_file.h: any number of processes open, lock, check, write,
 unlink and close, in any interleaving of their system calls, and may crash or fork.

 A lock belongs to an open file description, which lives as long as some process refers to it.
 */
module PidFile {
  import opened Basics

  type Path = string
  type Pid = nat
  type Inode = nat
  type Desc = nat  // open file description

  /** Where a process is in PidFile::open, and then in the move assignment of the result. */
  datatype Phase =
    | Idle
    | Starting(path: Path)
    | Opened(path: Path, d: Desc)
    | Locked(path: Path, d: Desc)
    | Stale(path: Path, d: Desc)
    | Verified(path: Path, d: Desc)
    | Truncated(path: Path, d: Desc)
    | Ready(path: Path, d: Desc)
    | Replacing(path: Path, d: Desc)

  /** A PidFile object; `unlinked` once its destructor has removed the path. */
  datatype File = File(path: Path, d: Desc, owner: Pid, unlinked: bool)

  /** `retries` of the open under way, and the number of unlinks there had been at its last attempt. */
  datatype Process = Process(phase: Phase, file: Option<File>, retries: nat, base: nat)

  datatype World = World(
    dir: map<Path, Inode>,
    data: map<Inode, string>,
    descs: map<Desc, Inode>,
    locks: map<Inode, Desc>,
    procs: map<Pid, Process>,
    unlinks: nat)

  // ----- the text of the file -----

  function Digits(n: nat): string {
    if n < 10 then [('0' as int + n) as char] else Digits(n / 10) + [('0' as int + n % 10) as char]
  }

  function PidText(p: Pid): string {
    Digits(p) + "\n"
  }

  function Number(s: string): int {
    if s == [] then 0 else Number(s[..|s| - 1]) * 10 + (s[|s| - 1] as int - '0' as int)
  }

  lemma {:induction false} DigitsTell(n: nat)
    ensures Number(Digits(n)) == n
  {
    var s := Digits(n);
    if n < 10 {
      assert s[..|s| - 1] == [];
    } else {
      DigitsTell(n / 10);
      assert s[..|s| - 1] == Digits(n / 10);
    }
  }

  /** The text tells the process. */
  lemma PidTextTells(p: Pid, q: Pid)
    ensures PidText(p) == PidText(q) ==> p == q
  {
    DigitsTell(p);
    DigitsTell(q);
    assert PidText(p)[..|PidText(p)| - 1] == Digits(p) && PidText(q)[..|PidText(q)| - 1] == Digits(q);
  }

  /** A write at the start of a file. */
  function Overwrite(was: string, text: string): string {
    if |was| <= |text| then text else text + was[|text|..]
  }

  // ----- references to descriptions -----

  predicate InPhase(r: Process, d: Desc) {
    !r.phase.Idle? && !r.phase.Starting? && r.phase.d == d
  }

  predicate InFile(r: Process, d: Desc) {
    r.file.Some? && r.file.value.d == d
  }

  predicate Referenced(procs: map<Pid, Process>, d: Desc) {
    exists p :: p in procs && (InPhase(procs[p], d) || InFile(procs[p], d))
  }

  /** Descriptions nobody refers to are gone, and their locks with them. */
  function Collected(w: World): World {
    w.(descs := map d | d in w.descs && Referenced(w.procs, d) :: w.descs[d],
       locks := map i | i in w.locks && Referenced(w.procs, w.locks[i]) :: w.locks[i])
  }

  // ----- steps -----

  datatype Step =
    | Spawn(p: Pid)
    | Begin(p: Pid, path: Path)
    | OpenCall(p: Pid, d: Desc, ino: Inode)
    | TryLock(p: Pid)
    | Check(p: Pid)
    | Retry(p: Pid)
    | Truncate(p: Pid)
    | Write(p: Pid)
    | Install(p: Pid)
    | Replace(p: Pid)
    | Unlink(p: Pid)
    | Close(p: Pid)
    | Throw(p: Pid)
    | Crash(p: Pid)
    | Fork(p: Pid, child: Pid)

  predicate Own(r: Process, p: Pid) {
    r.file.Some? && r.file.value.owner == p && !r.file.value.unlinked
  }

  predicate Enabled(w: World, step: Step) {
    if step.Spawn? then step.p !in w.procs
    else
      step.p in w.procs &&
      var r := w.procs[step.p];
      match step
      case Spawn(_) => false
      case Begin(p, _) => r.phase.Idle? && (r.file.None? || Own(r, p))
      case OpenCall(_, d, ino) =>
        r.phase.Starting? && d !in w.descs &&
        if r.phase.path in w.dir then ino == w.dir[r.phase.path] else ino !in w.dir.Values && ino !in w.descs.Values
      case TryLock(_) => r.phase.Opened?
      case Check(_) => r.phase.Locked?
      case Retry(_) => r.phase.Stale?
      case Truncate(_) => r.phase.Verified?
      case Write(_) => r.phase.Truncated?
      case Install(_) => r.phase.Ready?
      case Replace(_) => r.phase.Replacing?
      case Unlink(p) => r.phase.Idle? && Own(r, p)
      case Close(p) => r.phase.Idle? && r.file.Some? && !Own(r, p)
      case Throw(_) => r.phase.Opened? || r.phase.Locked? || r.phase.Verified? || r.phase.Truncated?
      case Crash(_) => true
      // the server process forks only after it has dropped the copy it inherited
      case Fork(p, child) => child !in w.procs && r.phase.Idle? && (r.file.None? || Own(r, p))
  }

  function With(w: World, p: Pid, r: Process): World {
    w.(procs := w.procs[p := r])
  }

  /** The destructor's first half, run by the process that owns the file. */
  function Removed(w: World, p: Pid): World
    requires p in w.procs && w.procs[p].file.Some?
  {
    var r := w.procs[p];
    With(w.(dir := w.dir - {r.file.value.path}, unlinks := w.unlinks + 1),
         p, r.(file := Some(r.file.value.(unlinked := true))))
  }

  function Apply(w: World, step: Step): World
    requires Enabled(w, step)
  {
    if step.Spawn? then With(w, step.p, Process(Idle, None, 0, 0))
    else
      var p := step.p;
      var r := w.procs[p];
      match step
      case Begin(_, path) => With(w, p, r.(phase := Starting(path), retries := 0))
      case OpenCall(_, d, ino) =>
        var path := r.phase.path;
        var w1 := if path in w.dir then w else w.(dir := w.dir[path := ino], data := w.data[ino := ""]);
        With(w1.(descs := w.descs[d := ino]), p, r.(phase := Opened(path, d), base := w.unlinks))
      case TryLock(_) =>
        var ino := if r.phase.d in w.descs then w.descs[r.phase.d] else 0;
        if ino in w.locks then Collected(With(w, p, r.(phase := Idle)))
        else With(w.(locks := w.locks[ino := r.phase.d]), p, r.(phase := Locked(r.phase.path, r.phase.d)))
      case Check(_) =>
        var same := r.phase.path in w.dir && r.phase.d in w.descs && w.dir[r.phase.path] == w.descs[r.phase.d];
        With(w, p, r.(phase := if same then Verified(r.phase.path, r.phase.d) else Stale(r.phase.path, r.phase.d)))
      case Retry(_) => Collected(With(w, p, r.(phase := Starting(r.phase.path), retries := r.retries + 1)))
      case Truncate(_) =>
        var ino := if r.phase.d in w.descs then w.descs[r.phase.d] else 0;
        With(w.(data := w.data[ino := ""]), p, r.(phase := Truncated(r.phase.path, r.phase.d)))
      case Write(_) =>
        var ino := if r.phase.d in w.descs then w.descs[r.phase.d] else 0;
        var was := if ino in w.data then w.data[ino] else "";
        With(w.(data := w.data[ino := Overwrite(was, PidText(p))]), p, r.(phase := Ready(r.phase.path, r.phase.d)))
      case Install(_) =>
        if r.file.None? then With(w, p, r.(phase := Idle, file := Some(File(r.phase.path, r.phase.d, p, false))))
        else
          var w1 := if Own(r, p) then Removed(w, p) else w;
          With(w1, p, w1.procs[p].(phase := Replacing(r.phase.path, r.phase.d)))
      case Replace(_) =>
        Collected(With(w, p, r.(phase := Idle, file := Some(File(r.phase.path, r.phase.d, p, false)))))
      case Unlink(_) => Removed(w, p)
      case Close(_) => Collected(With(w, p, r.(file := None)))
      case Throw(_) => Collected(With(w, p, r.(phase := Idle)))
      case Crash(_) => Collected(w.(procs := w.procs - {p}))
      case Fork(_, child) => With(w, child, Process(Idle, r.file, 0, 0))
  }

  // ----- what every step keeps -----

  ghost function PhaseDesc(r: Process): Option<Desc> {
    if r.phase.Idle? || r.phase.Starting? then None else Some(r.phase.d)
  }

  ghost function FileDesc(r: Process): Option<Desc> {
    if r.file.None? then None else Some(r.file.value.d)
  }

  ghost predicate LockedBy(w: World, d: Desc) {
    d in w.descs && w.descs[d] in w.locks && w.locks[w.descs[d]] == d
  }

  /** The path names the inode this description has locked. */
  ghost predicate OnPath(w: World, path: Path, d: Desc) {
    LockedBy(w, d) && path in w.dir && w.dir[path] == w.descs[d]
  }

  ghost predicate Holds(w: World, path: Path, d: Desc, text: string) {
    OnPath(w, path, d) && w.descs[d] in w.data && w.data[w.descs[d]] == text
  }

  ghost predicate PhaseSound(w: World, p: Pid, r: Process) {
    match r.phase
    case Idle => true
    case Starting(_) => true
    case Opened(_, d) => d in w.descs && !LockedBy(w, d)
    case Locked(_, d) => LockedBy(w, d)
    case Stale(_, d) => LockedBy(w, d)
    case Verified(path, d) => OnPath(w, path, d)
    case Truncated(path, d) => Holds(w, path, d, "")
    case Ready(path, d) => Holds(w, path, d, PidText(p))
    case Replacing(path, d) => Holds(w, path, d, PidText(p))
  }

  ghost predicate FileSound(w: World, p: Pid, r: Process) {
    r.file.Some? ==>
      var f := r.file.value;
      && f.d in w.descs
      && (Own(r, p) ==> Holds(w, f.path, f.d, PidText(p)))
      && (f.unlinked ==> f.owner == p)
  }

  /** While an attempt is under way its path still names its inode, or something has been unlinked since. */
  ghost predicate Paid(w: World, r: Process) {
    && r.retries <= w.unlinks && r.base <= w.unlinks
    && (r.phase.Opened? || r.phase.Locked? ==>
          && r.retries <= r.base
          && (w.unlinks > r.base ||
              (r.phase.path in w.dir && r.phase.d in w.descs && w.dir[r.phase.path] == w.descs[r.phase.d])))
    && (r.phase.Stale? ==> r.retries < w.unlinks)
  }

  ghost predicate Sound(w: World, p: Pid, r: Process) {
    PhaseSound(w, p, r) && FileSound(w, p, r) && Paid(w, r) && (PhaseDesc(r).Some? ==> PhaseDesc(r) != FileDesc(r))
  }

  /** A description being opened is one process's alone; copies of one file agree on its owner. */
  ghost predicate Apart(r: Process, q: Process) {
    && (PhaseDesc(r).Some? ==> PhaseDesc(r) != PhaseDesc(q) && PhaseDesc(r) != FileDesc(q))
    && (PhaseDesc(q).Some? ==> PhaseDesc(q) != FileDesc(r))
    && (FileDesc(r).Some? && FileDesc(r) == FileDesc(q) ==> r.file.value.owner == q.file.value.owner)
  }

  ghost predicate Tables(w: World) {
    && (forall i :: i in w.locks ==> w.locks[i] in w.descs && w.descs[w.locks[i]] == i)
    && (forall x :: x in w.dir ==> w.dir[x] in w.data)
    && (forall d :: d in w.descs ==> w.descs[d] in w.data)
  }

  ghost predicate Inv(w: World) {
    && Tables(w)
    && (forall p :: p in w.procs ==> Sound(w, p, w.procs[p]))
    && (forall p, q :: p in w.procs && q in w.procs && p != q ==> Apart(w.procs[p], w.procs[q]))
  }

  // ----- the rest of the world while one process moves -----

  /** `v` differs from `w` in the process `p` alone, and the others do not notice. */
  ghost predicate OthersStay(w: World, v: World, p: Pid) {
    && (forall q :: q in v.procs && q != p ==> q in w.procs && v.procs[q] == w.procs[q])
    && (forall q :: q in v.procs && q != p ==> Sound(v, q, v.procs[q]))
    && (p in v.procs ==> forall q :: q in v.procs && q != p ==> Apart(v.procs[p], v.procs[q]) && Apart(v.procs[q], v.procs[p]))
  }

  lemma MoveKeeps(w: World, v: World, p: Pid)
    requires Inv(w) && OthersStay(w, v, p) && Tables(v) && (p in v.procs ==> Sound(v, p, v.procs[p]))
    ensures Inv(v)
  {
    forall q, s | q in v.procs && s in v.procs && q != s
      ensures Apart(v.procs[q], v.procs[s])
    {
    }
  }

  lemma CollectedKeeps(w: World)
    requires Inv(w)
    ensures Inv(Collected(w))
  {
    var v := Collected(w);
    forall p | p in w.procs
      ensures Sound(v, p, v.procs[p])
    {
      var r := w.procs[p];
      if PhaseDesc(r).Some? {
        assert InPhase(r, r.phase.d) && Referenced(w.procs, r.phase.d);
      }
      if FileDesc(r).Some? {
        assert InFile(r, r.file.value.d) && Referenced(w.procs, r.file.value.d);
      }
    }
  }

  /** A process lets go of what it was opening, or of its file. */
  lemma LetGo(w: World, p: Pid, r: Process)
    requires Inv(w) && p in w.procs
    requires r.phase.Idle? || r.phase.Starting?
    requires r.file == w.procs[p].file || r.file.None?
    requires r.retries <= w.unlinks && r.base <= w.unlinks
    ensures Inv(With(w, p, r))
  {
    var v := With(w, p, r);
    forall q | q in v.procs && q != p
      ensures Sound(v, q, v.procs[q]) && Apart(r, v.procs[q]) && Apart(v.procs[q], r)
    {
      assert Apart(w.procs[p], w.procs[q]);
    }
    MoveKeeps(w, v, p);
  }

  lemma CrashKeeps(w: World, p: Pid)
    requires Inv(w) && p in w.procs
    ensures Inv(w.(procs := w.procs - {p}))
  {
    var v := w.(procs := w.procs - {p});
    forall q | q in v.procs
      ensures Sound(v, q, v.procs[q])
    {
      assert Sound(w, q, w.procs[q]);
    }
  }

  /** Nothing `w` knows is lost in `v`, except perhaps the text of one inode. */
  ghost predicate Extends(w: World, v: World, rewritten: Option<Inode>) {
    && (forall d :: d in w.descs ==> d in v.descs && v.descs[d] == w.descs[d])
    && (forall i :: i in w.locks ==> i in v.locks && v.locks[i] == w.locks[i])
    && (forall x :: x in w.dir ==> x in v.dir && v.dir[x] == w.dir[x])
    && (forall d :: d in w.descs && w.descs[d] in w.data ==>
          w.descs[d] in v.data && (Some(w.descs[d]) != rewritten ==> v.data[w.descs[d]] == w.data[w.descs[d]]))
    && w.unlinks == v.unlinks
  }

  lemma ExtendedSound(w: World, v: World, q: Pid, r: Process, rewritten: Option<Inode>)
    requires Sound(w, q, r) && Extends(w, v, rewritten)
    requires rewritten.Some? ==>
               && rewritten.value in w.locks
               && Some(w.locks[rewritten.value]) != PhaseDesc(r) && Some(w.locks[rewritten.value]) != FileDesc(r)
    requires forall i :: i in v.locks ==> i in w.locks || Some(v.locks[i]) != PhaseDesc(r)
    ensures Sound(v, q, r)
  {
  }

  /** Steps of `p` that take nothing away from the others. */
  lemma ExtendKeeps(w: World, v: World, p: Pid, rewritten: Option<Inode>)
    requires Inv(w) && Extends(w, v, rewritten) && Tables(v)
    requires p in w.procs && p in v.procs && v.procs == w.procs[p := v.procs[p]] && Sound(v, p, v.procs[p])
    requires PhaseDesc(v.procs[p]) == PhaseDesc(w.procs[p]) || (PhaseDesc(v.procs[p]).Some? && PhaseDesc(v.procs[p]).value !in w.descs)
    requires v.procs[p].file == w.procs[p].file
    requires forall i :: i in v.locks ==> i in w.locks || Some(v.locks[i]) == PhaseDesc(v.procs[p])
    requires rewritten.Some? ==>
               rewritten.value in w.locks && Some(w.locks[rewritten.value]) == PhaseDesc(w.procs[p])
    ensures Inv(v)
  {
    hide Tables, Extends, Paid, PidText;
    forall q | q in v.procs && q != p
      ensures Sound(v, q, v.procs[q]) && Apart(v.procs[p], v.procs[q]) && Apart(v.procs[q], v.procs[p])
    {
      assert Sound(w, q, w.procs[q]) && Apart(w.procs[p], w.procs[q]);
      ExtendedSound(w, v, q, w.procs[q], rewritten);
    }
    MoveKeeps(w, v, p);
  }

  lemma OpenExtends(w: World, p: Pid, d: Desc, ino: Inode)
    requires Tables(w) && Enabled(w, OpenCall(p, d, ino))
    ensures var v := Apply(w, OpenCall(p, d, ino)); Extends(w, v, None) && Tables(v)
  {
  }

  lemma OpenSound(w: World, p: Pid, d: Desc, ino: Inode)
    requires Tables(w) && Enabled(w, OpenCall(p, d, ino)) && Sound(w, p, w.procs[p])
    requires var v := Apply(w, OpenCall(p, d, ino)); Sound(v, p, w.procs[p])
    ensures var v := Apply(w, OpenCall(p, d, ino)); Sound(v, p, v.procs[p])
  {
    hide Holds, PidText;
  }

  lemma OpenKeeps(w: World, p: Pid, d: Desc, ino: Inode)
    requires Inv(w) && Enabled(w, OpenCall(p, d, ino))
    ensures Inv(Apply(w, OpenCall(p, d, ino)))
  {
    hide Tables, Extends, Sound, Apart;
    var v := Apply(w, OpenCall(p, d, ino));
    OpenExtends(w, p, d, ino);
    ExtendedSound(w, v, p, w.procs[p], None);
    OpenSound(w, p, d, ino);
    ExtendKeeps(w, v, p, None);
  }

  lemma FirstLock(w: World, p: Pid)
    requires Tables(w) && Enabled(w, TryLock(p)) && Sound(w, p, w.procs[p])
    requires w.descs[w.procs[p].phase.d] !in w.locks
    ensures var v := Apply(w, TryLock(p)); Extends(w, v, None) && Tables(v)
  {
  }

  lemma LockSound(w: World, p: Pid)
    requires Enabled(w, TryLock(p)) && Sound(w, p, w.procs[p]) && w.descs[w.procs[p].phase.d] !in w.locks
    requires var v := Apply(w, TryLock(p)); Sound(v, p, w.procs[p].(phase := Idle))
    ensures var v := Apply(w, TryLock(p)); Sound(v, p, v.procs[p])
  {
    hide Holds, PidText;
  }

  lemma IdleSound(w: World, p: Pid, r: Process)
    requires Sound(w, p, r)
    ensures Sound(w, p, r.(phase := Idle))
  {
  }

  lemma TryLockKeeps(w: World, p: Pid)
    requires Inv(w) && Enabled(w, TryLock(p))
    ensures Inv(Apply(w, TryLock(p)))
  {
    var r := w.procs[p];
    assert r.phase.d in w.descs by { assert Sound(w, p, r); }
    hide Tables, Extends, Sound, Apart;
    if w.descs[r.phase.d] in w.locks {
      LetGo(w, p, r.(phase := Idle));
      CollectedKeeps(With(w, p, r.(phase := Idle)));
    } else {
      var v := Apply(w, TryLock(p));
      FirstLock(w, p);
      IdleSound(w, p, r);
      ExtendedSound(w, v, p, r.(phase := Idle), None);
      LockSound(w, p);
      ExtendKeeps(w, v, p, None);
    }
  }

  lemma CheckKeeps(w: World, p: Pid)
    requires Inv(w) && Enabled(w, Check(p))
    ensures Inv(Apply(w, Check(p)))
  {
    assert Sound(w, p, w.procs[p]);
    ExtendKeeps(w, Apply(w, Check(p)), p, None);
  }

  lemma WriteExtends(w: World, p: Pid, step: Step)
    requires Tables(w) && Enabled(w, step) && (step == Truncate(p) || step == Write(p)) && Sound(w, p, w.procs[p])
    ensures var d := w.procs[p].phase.d; var v := Apply(w, step);
            && LockedBy(w, d) && Extends(w, v, Some(w.descs[d])) && Tables(v)
            && v.locks == w.locks && p in v.procs && v.procs == w.procs[p := v.procs[p]]
            && v.procs[p].file == w.procs[p].file && PhaseDesc(v.procs[p]) == PhaseDesc(w.procs[p])
  {
    hide PidText, Overwrite;
  }

  lemma WriteSound(w: World, p: Pid, step: Step)
    requires Tables(w) && Enabled(w, step) && (step == Truncate(p) || step == Write(p)) && Sound(w, p, w.procs[p])
    ensures var v := Apply(w, step); p in v.procs && Sound(v, p, v.procs[p])
  {
    var r := w.procs[p];
    var v := Apply(w, step);
    assert FileSound(v, p, v.procs[p]) by {
      if Own(r, p) {
        assert Holds(w, r.file.value.path, r.file.value.d, PidText(p));
      }
    }
    assert step.Write? ==> Overwrite("", PidText(p)) == PidText(p);
  }

  lemma WriteKeeps(w: World, p: Pid, step: Step)
    requires Inv(w) && Enabled(w, step) && (step == Truncate(p) || step == Write(p))
    ensures Inv(Apply(w, step))
  {
    assert Sound(w, p, w.procs[p]);
    hide Sound, Tables, Extends, Apart, PidText, Overwrite;
    WriteExtends(w, p, step);
    WriteSound(w, p, step);
    ExtendKeeps(w, Apply(w, step), p, Some(w.descs[w.procs[p].phase.d]));
  }

  /** The destructor unlinks the inode that its own process has locked, so nobody else relies on the path. */
  lemma RemovedKeeps(w: World, p: Pid)
    requires Inv(w) && p in w.procs && Own(w.procs[p], p)
    ensures Inv(Removed(w, p))
    ensures var f := w.procs[p].file.value; Holds(w, f.path, f.d, PidText(p))
  {
    var v := Removed(w, p);
    var r := w.procs[p];
    assert Sound(w, p, r);
    forall q | q in v.procs && q != p
      ensures Sound(v, q, v.procs[q]) && Apart(v.procs[p], v.procs[q]) && Apart(v.procs[q], v.procs[p])
    {
      var t := w.procs[q];
      assert Sound(w, q, t) && Apart(r, t);
    }
    assert Tables(v);
    MoveKeeps(w, v, p);
  }

  /** The new PidFile takes the place of nothing, or waits for the old one to be closed. */
  /** The first file of a process: what it was opening becomes what it holds. */
  lemma FirstFile(w: World, p: Pid)
    requires Inv(w) && p in w.procs && w.procs[p].phase.Ready? && w.procs[p].file.None?
    ensures var r := w.procs[p]; Inv(With(w, p, r.(phase := Idle, file := Some(File(r.phase.path, r.phase.d, p, false)))))
  {
    var r := w.procs[p];
    assert Sound(w, p, r);
    var u := With(w, p, r.(phase := Idle, file := Some(File(r.phase.path, r.phase.d, p, false))));
    forall q | q in u.procs && q != p
      ensures Sound(u, q, u.procs[q]) && Apart(u.procs[p], u.procs[q]) && Apart(u.procs[q], u.procs[p])
    {
      assert Sound(w, q, w.procs[q]) && Apart(w.procs[p], w.procs[q]);
    }
    MoveKeeps(w, u, p);
  }

  lemma HandOver(w: World, p: Pid)
    requires Inv(w) && p in w.procs && w.procs[p].phase.Ready?
    ensures var r := w.procs[p];
            && (r.file.None? ==> Inv(With(w, p, r.(phase := Idle, file := Some(File(r.phase.path, r.phase.d, p, false))))))
            && Inv(With(w, p, r.(phase := Replacing(r.phase.path, r.phase.d))))
  {
    var r := w.procs[p];
    assert Sound(w, p, r);
    var v := With(w, p, r.(phase := Replacing(r.phase.path, r.phase.d)));
    ExtendKeeps(w, v, p, None);
    hide Inv, Sound;
    if r.file.None? {
      FirstFile(w, p);
    }
  }

  lemma InstallKeeps(w: World, p: Pid)
    requires Inv(w) && Enabled(w, Install(p))
    ensures Inv(Apply(w, Install(p)))
  {
    if w.procs[p].file.Some? && Own(w.procs[p], p) {
      RemovedKeeps(w, p);
      HandOver(Removed(w, p), p);
    } else {
      HandOver(w, p);
    }
    hide Inv;
  }

  lemma ReplaceKeeps(w: World, p: Pid)
    requires Inv(w) && Enabled(w, Replace(p))
    ensures Inv(Apply(w, Replace(p)))
  {
    var r := w.procs[p];
    assert Sound(w, p, r);
    var v := With(w, p, r.(phase := Idle, file := Some(File(r.phase.path, r.phase.d, p, false))));
    forall q | q in v.procs && q != p
      ensures Sound(v, q, v.procs[q]) && Apart(v.procs[p], v.procs[q]) && Apart(v.procs[q], v.procs[p])
    {
      assert Sound(w, q, w.procs[q]) && Apart(w.procs[p], w.procs[q]);
    }
    MoveKeeps(w, v, p);
    CollectedKeeps(v);
  }

  lemma ForkKeeps(w: World, p: Pid, child: Pid)
    requires Inv(w) && Enabled(w, Fork(p, child))
    ensures Inv(Apply(w, Fork(p, child)))
  {
    var v := Apply(w, Fork(p, child));
    assert Sound(w, p, w.procs[p]);
    forall q | q in v.procs && q != child
      ensures Sound(v, q, v.procs[q]) && Apart(v.procs[child], v.procs[q]) && Apart(v.procs[q], v.procs[child])
    {
      assert Sound(w, q, w.procs[q]);
      assert q != p ==> Apart(w.procs[p], w.procs[q]);
    }
    MoveKeeps(w, v, child);
  }

  lemma SpawnKeeps(w: World, p: Pid)
    requires Inv(w) && p !in w.procs
    ensures Inv(With(w, p, Process(Idle, None, 0, 0)))
  {
    var v := With(w, p, Process(Idle, None, 0, 0));
    forall q | q in v.procs && q != p
      ensures Sound(v, q, v.procs[q])
    {
      assert Sound(w, q, w.procs[q]);
    }
    MoveKeeps(w, v, p);
  }

  lemma LetGoAndCollect(w: World, p: Pid, r: Process)
    requires Inv(w) && p in w.procs
    requires r.phase.Idle? || r.phase.Starting?
    requires r.file == w.procs[p].file || r.file.None?
    requires r.base == w.procs[p].base
    requires r.retries == 0 || r.retries == w.procs[p].retries ||
             (w.procs[p].phase.Stale? && r.retries == w.procs[p].retries + 1)
    ensures Inv(With(w, p, r)) && Inv(Collected(With(w, p, r)))
  {
    assert Sound(w, p, w.procs[p]);
    LetGo(w, p, r);
    CollectedKeeps(With(w, p, r));
  }

  /** Every step keeps the invariant. */
  lemma StepKeeps(w: World, step: Step)
    requires Inv(w) && Enabled(w, step)
    ensures Inv(Apply(w, step))
  {
    hide Inv, Collected, Removed;
    var p := step.p;
    match step
    case Spawn(_) => SpawnKeeps(w, p);
    case Begin(_, path) => LetGoAndCollect(w, p, w.procs[p].(phase := Starting(path), retries := 0));
    case OpenCall(_, d, ino) => OpenKeeps(w, p, d, ino);
    case TryLock(_) => TryLockKeeps(w, p);
    case Check(_) => CheckKeeps(w, p);
    case Retry(_) =>
      var r := w.procs[p];
      LetGoAndCollect(w, p, r.(phase := Starting(r.phase.path), retries := r.retries + 1));
    case Truncate(_) => WriteKeeps(w, p, step);
    case Write(_) => WriteKeeps(w, p, step);
    case Install(_) => InstallKeeps(w, p);
    case Replace(_) => ReplaceKeeps(w, p);
    case Unlink(_) => RemovedKeeps(w, p);
    case Close(_) => LetGoAndCollect(w, p, w.procs[p].(file := None));
    case Throw(_) => LetGoAndCollect(w, p, w.procs[p].(phase := Idle));
    case Crash(_) =>
      CrashKeeps(w, p);
      CollectedKeeps(w.(procs := w.procs - {p}));
    case Fork(_, child) => ForkKeeps(w, p, child);
  }

  // ----- no description outlives the processes that refer to it -----

  ghost predicate AllReferenced(w: World) {
    forall d :: d in w.descs ==> Referenced(w.procs, d)
  }

  lemma CollectedReferenced(w: World)
    ensures AllReferenced(Collected(w))
  {
    hide Referenced;
  }

  /** Process `p` still refers to whatever it did refer to, and everybody else is as before. */
  lemma StillReferenced(w: World, v: World, p: Pid)
    requires AllReferenced(w) && p in v.procs && v.descs == w.descs
    requires forall q :: q in w.procs && q != p ==> q in v.procs && v.procs[q] == w.procs[q]
    requires p in w.procs ==> forall d :: InPhase(w.procs[p], d) || InFile(w.procs[p], d) ==>
               InPhase(v.procs[p], d) || InFile(v.procs[p], d)
    ensures AllReferenced(v)
  {
    forall d | d in v.descs
      ensures Referenced(v.procs, d)
    {
      var q :| q in w.procs && (InPhase(w.procs[q], d) || InFile(w.procs[q], d));
      assert InPhase(v.procs[q], d) || InFile(v.procs[q], d);
    }
  }

  lemma OpenReferenced(w: World, p: Pid, d: Desc, ino: Inode)
    requires AllReferenced(w) && Enabled(w, OpenCall(p, d, ino))
    ensures AllReferenced(Apply(w, OpenCall(p, d, ino)))
  {
    var v := Apply(w, OpenCall(p, d, ino));
    assert InPhase(v.procs[p], d) && Referenced(v.procs, d);
    StillReferenced(w, v.(descs := w.descs), p);
  }

  lemma ReferencedStep(w: World, step: Step)
    requires AllReferenced(w) && Enabled(w, step)
    ensures AllReferenced(Apply(w, step))
  {
    hide AllReferenced, Referenced, Collected, Overwrite, PidText, Digits;
    var p, v := step.p, Apply(w, step);
    match step
    case OpenCall(_, d, ino) => OpenReferenced(w, p, d, ino);
    case TryLock(_) =>
      var d := w.procs[p].phase.d;
      if (if d in w.descs then w.descs[d] else 0) in w.locks {
        CollectedReferenced(With(w, p, w.procs[p].(phase := Idle)));
      } else {
        StillReferenced(w, v, p);
      }
    case Retry(_) =>
      var r := w.procs[p];
      CollectedReferenced(With(w, p, r.(phase := Starting(r.phase.path), retries := r.retries + 1)));
    case Replace(_) =>
      var r := w.procs[p];
      CollectedReferenced(With(w, p, r.(phase := Idle, file := Some(File(r.phase.path, r.phase.d, p, false)))));
    case Close(_) => CollectedReferenced(With(w, p, w.procs[p].(file := None)));
    case Throw(_) => CollectedReferenced(With(w, p, w.procs[p].(phase := Idle)));
    case Crash(_) => CollectedReferenced(w.(procs := w.procs - {p}));
    case Fork(_, child) => StillReferenced(w, v, child);
    case _ => StillReferenced(w, v, p);
  }

  // ----- over every run -----

  ghost predicate CanRun(w: World, steps: seq<Step>)
    decreases |steps|
  {
    steps != [] ==> Enabled(w, steps[0]) && CanRun(Apply(w, steps[0]), steps[1..])
  }

  ghost function Run(w: World, steps: seq<Step>): World
    requires CanRun(w, steps)
    decreases |steps|
  {
    if steps == [] then w else Run(Apply(w, steps[0]), steps[1..])
  }

  /** No process yet; whatever files earlier processes left behind are there. */
  ghost predicate Initial(w: World) {
    w.procs == map[] && w.descs == map[] && w.locks == map[] && w.unlinks == 0 && forall x :: x in w.dir ==> w.dir[x] in w.data
  }

  lemma {:induction false} RunKeeps(w: World, steps: seq<Step>)
    requires Inv(w) && CanRun(w, steps)
    ensures Inv(Run(w, steps))
    decreases |steps|
  {
    if steps != [] {
      StepKeeps(w, steps[0]);
      RunKeeps(Apply(w, steps[0]), steps[1..]);
    }
  }

  lemma {:induction false} ReferencedRun(w: World, steps: seq<Step>)
    requires AllReferenced(w) && CanRun(w, steps)
    ensures AllReferenced(Run(w, steps))
    decreases |steps|
  {
    if steps != [] {
      ReferencedStep(w, steps[0]);
      ReferencedRun(Apply(w, steps[0]), steps[1..]);
    }
  }

  /** Every lock belongs to a description some process still refers to: what a process locked is free once all copies are gone. */
  lemma LocksHaveHolders(start: World, steps: seq<Step>, i: Inode)
    requires Initial(start) && CanRun(start, steps)
    ensures var w := Run(start, steps);
            i in w.locks ==> exists p :: p in w.procs && (InPhase(w.procs[p], w.locks[i]) || InFile(w.procs[p], w.locks[i]))
  {
    RunKeeps(start, steps);
    ReferencedRun(start, steps);
    var w := Run(start, steps);
    assert i in w.locks ==> w.locks[i] in w.descs && Referenced(w.procs, w.locks[i]);
  }

  /** A process holds the pid file `path`: open gave it a PidFile that it has not begun to destroy. */
  ghost predicate HoldsFile(w: World, p: Pid, path: Path) {
    p in w.procs && Own(w.procs[p], p) && w.procs[p].file.value.path == path
  }

  /** At most one process holds a path; the path names its locked inode and holds exactly its pid. */
  lemma MutualExclusion(start: World, steps: seq<Step>, p: Pid, q: Pid, path: Path)
    requires Initial(start) && CanRun(start, steps)
    ensures var w := Run(start, steps);
            && (HoldsFile(w, p, path) && HoldsFile(w, q, path) ==> p == q)
            && (HoldsFile(w, p, path) ==> Holds(w, path, w.procs[p].file.value.d, PidText(p)))
  {
    RunKeeps(start, steps);
    var w := Run(start, steps);
    if HoldsFile(w, p, path) && HoldsFile(w, q, path) && p != q {
      assert false;
    }
  }

  /** A releasing process unlinks its own file: the path still names the inode it has locked, with its pid in it. */
  lemma UnlinksOnlyItsOwn(start: World, steps: seq<Step>, p: Pid)
    requires Initial(start) && CanRun(start, steps)
    requires var w := Run(start, steps); Enabled(w, Unlink(p)) || (Enabled(w, Install(p)) && Own(w.procs[p], p))
    ensures var w := Run(start, steps); var f := w.procs[p].file.value; var v := Removed(w, p);
            && Holds(w, f.path, f.d, PidText(p))
            && v.dir == w.dir - {f.path}
            && forall q, path :: q != p && HoldsFile(w, q, path) ==> HoldsFile(v, q, path) && path in v.dir
  {
    RunKeeps(start, steps);
    var w := Run(start, steps);
    RemovedKeeps(w, p);
    var v := Removed(w, p);
    forall q, path | q != p && HoldsFile(w, q, path)
      ensures HoldsFile(v, q, path) && path in v.dir
    {
      assert Sound(v, q, v.procs[q]);
    }
  }

  /** Each retry of an open is paid for by an unlink: they never outnumber the unlinks of the run. */
  lemma RetriesArePaid(start: World, steps: seq<Step>, p: Pid)
    requires Initial(start) && CanRun(start, steps)
    ensures var w := Run(start, steps);
            p in w.procs ==>
              && w.procs[p].retries <= w.unlinks
              && (w.procs[p].phase.Stale? ==> w.procs[p].retries < w.unlinks)
  {
    RunKeeps(start, steps);
    var w := Run(start, steps);
    assert p in w.procs ==> Sound(w, p, w.procs[p]);
  }

  /** An attempt turns stale only if something was unlinked between its open and its check. */
  lemma StaleMeansUnlinked(start: World, steps: seq<Step>, p: Pid)
    requires Initial(start) && CanRun(start, steps)
    requires var w := Run(start, steps); Enabled(w, Check(p)) && Apply(w, Check(p)).procs[p].phase.Stale?
    ensures var w := Run(start, steps); w.unlinks > w.procs[p].base
  {
    RunKeeps(start, steps);
    var w := Run(start, steps);
    assert Sound(w, p, w.procs[p]);
  }
}
