/** The heartbeat's session machine: from what it sees each beat it tells when a world was loaded and
    when it was left.  The theorems are about every sequence of beats. */
module PhaseMachine {
  const STABLE_MB := 50
  const LOAD_DROP_MB := 200
  const DRIFT_MB := 150
  const MIN_WORLD_MS := 45000

  datatype Phase = PostInject | MainMenuStable | WorldLoadDetected | PostWorldStable | WorldExitDetected

  /** What one beat reads: the free memory, the free memory and the clock as a snapshot would record
      them, the clock after that, and the number of packages mapped so far. */
  datatype Beat = Beat(freeMb: int, snapFreeMb: int, snapTick: nat, tick: nat, packages: nat)

  datatype Machine = Machine(
    phase: Phase, stable: nat, quiet: nat, beats: nat,
    prevPackages: nat, prevFreeMb: int, phaseFreeMb: int,
    snapTaken: bool, entryTick: nat)

  function Start(freeMb: int): Machine {
    Machine(PostInject, 0, 0, 0, 0, freeMb, freeMb, false, 0)
  }

  predicate IsStable(m: Machine, b: Beat) {
    -STABLE_MB < b.freeMb - m.prevFreeMb < STABLE_MB
  }

  /** The counters are brought up to date before the phases are looked at. */
  function Counted(m: Machine, b: Beat): Machine {
    m.(beats := m.beats + 1,
       quiet := if b.packages == m.prevPackages then m.quiet + 1 else 0,
       prevPackages := b.packages,
       stable := if IsStable(m, b) then m.stable + 1 else 0)
  }

  /** A phase boundary takes a snapshot, which is also what the next beat compares with. */
  function Enter(m: Machine, b: Beat, phase: Phase): Machine {
    m.(phase := phase, stable := 0, phaseFreeMb := b.snapFreeMb, prevFreeMb := b.snapFreeMb)
  }

  function Stay(m: Machine, b: Beat): Machine { m.(prevFreeMb := b.freeMb) }

  function InWorld(m: Machine, b: Beat): Machine {
    var n := if m.snapTaken then m else m.(snapTaken := true, entryTick := b.snapTick);
    if b.tick - n.entryTick >= MIN_WORLD_MS && n.quiet >= 3 then
      Enter(n, b, WorldExitDetected).(snapTaken := false, quiet := 0)
    else if b.freeMb - n.phaseFreeMb >= DRIFT_MB then Stay(n, b).(phaseFreeMb := b.freeMb)
    else Stay(n, b)
  }

  function Step(m0: Machine, b: Beat): Machine {
    var m := Counted(m0, b);
    match m.phase
    case PostInject => if m.stable >= 3 && m.beats >= 3 then Enter(m, b, MainMenuStable) else Stay(m, b)
    case MainMenuStable => if b.freeMb - m0.prevFreeMb <= -LOAD_DROP_MB then Enter(m, b, WorldLoadDetected) else Stay(m, b)
    case WorldLoadDetected => if m.stable >= 3 then Enter(m, b, PostWorldStable) else Stay(m, b)
    case PostWorldStable => InWorld(m, b)
    case WorldExitDetected => if m.stable >= 3 then Enter(m, b, MainMenuStable) else Stay(m, b)
  }

  // ---------------------------------------------------------------- Runs

  /** The machine before each beat and after the last; the clock never runs backwards. */
  ghost predicate IsRun(ms: seq<Machine>, bs: seq<Beat>) {
    && |ms| == |bs| + 1 && (exists mb :: ms[0] == Start(mb))
    && (forall i {:trigger bs[i]} | 0 <= i < |bs| :: ms[i + 1] == Step(ms[i], bs[i]) && bs[i].snapTick <= bs[i].tick)
    && (forall i, j {:trigger bs[i], bs[j]} | 0 <= i < j < |bs| :: bs[i].tick <= bs[j].snapTick)
  }

  predicate Loads(ms: seq<Machine>, i: nat) {
    i + 1 < |ms| && ms[i].phase.MainMenuStable? && ms[i + 1].phase.WorldLoadDetected?
  }

  predicate Exits(ms: seq<Machine>, i: nat) {
    i + 1 < |ms| && ms[i].phase.PostWorldStable? && ms[i + 1].phase.WorldExitDetected?
  }

  predicate AtWorld(m: Machine) { m.phase.WorldLoadDetected? || m.phase.PostWorldStable? }

  /** Whether no package was mapped in beat `k`. */
  predicate QuietBeat(bs: seq<Beat>, k: nat)
    requires k < |bs|
  {
    bs[k].packages == if k == 0 then 0 else bs[k - 1].packages
  }

  // ---------------------------------------------------------------- What the counters mean

  lemma {:induction false} PackagesFollow(ms: seq<Machine>, bs: seq<Beat>, i: nat)
    requires IsRun(ms, bs) && i < |ms|
    ensures ms[i].prevPackages == if i == 0 then 0 else bs[i - 1].packages
  {
    if i > 0 { assert ms[i] == Step(ms[i - 1], bs[i - 1]); }
  }

  /** The quiet count covers beats just past, all quiet. */
  lemma {:induction false} QuietStreak(ms: seq<Machine>, bs: seq<Beat>, i: nat)
    requires IsRun(ms, bs) && i < |ms|
    ensures ms[i].quiet <= i && forall k | i - ms[i].quiet <= k < i :: QuietBeat(bs, k)
  {
    if i > 0 {
      QuietStreak(ms, bs, i - 1);
      PackagesFollow(ms, bs, i - 1);
      assert ms[i] == Step(ms[i - 1], bs[i - 1]);
    }
  }

  /** The stable count covers beats just past, all stable, with no phase change among them. */
  lemma {:induction false} StableStreak(ms: seq<Machine>, bs: seq<Beat>, i: nat)
    requires IsRun(ms, bs) && i < |ms|
    ensures ms[i].stable <= i
    ensures forall k | i - ms[i].stable <= k < i :: IsStable(ms[k], bs[k]) && ms[k].phase == ms[i].phase
  {
    if i > 0 {
      StableStreak(ms, bs, i - 1);
      assert ms[i] == Step(ms[i - 1], bs[i - 1]);
    }
  }

  /** A stable phase is entered only on the third of three stable beats since the last change of phase. */
  lemma StableTransition(ms: seq<Machine>, bs: seq<Beat>, j: nat)
    requires IsRun(ms, bs) && j < |bs| && ms[j + 1].phase != ms[j].phase
    requires ms[j + 1].phase.MainMenuStable? || ms[j + 1].phase.PostWorldStable?
    ensures j >= 2 && forall k | j - 2 <= k <= j :: IsStable(ms[k], bs[k]) && ms[k].phase == ms[j].phase
  {
    StableStreak(ms, bs, j);
    assert ms[j + 1] == Step(ms[j], bs[j]);
  }

  // ---------------------------------------------------------------- Loads and exits

  /** The entry snapshot belongs to the stable world. */
  lemma {:induction false} SnapInWorld(ms: seq<Machine>, bs: seq<Beat>, i: nat)
    requires IsRun(ms, bs) && i < |ms|
    ensures ms[i].snapTaken ==> ms[i].phase.PostWorldStable?
  {
    if i > 0 {
      SnapInWorld(ms, bs, i - 1);
      assert ms[i] == Step(ms[i - 1], bs[i - 1]);
    }
  }

  /** The beat that took the entry snapshot the machine holds. */
  lemma {:induction false} EntryBeat(ms: seq<Machine>, bs: seq<Beat>, i: nat) returns (e: nat)
    requires IsRun(ms, bs) && i < |ms| && ms[i].snapTaken
    ensures e < i && !ms[e].snapTaken && ms[i].entryTick == bs[e].snapTick
    ensures forall k | e <= k <= i :: ms[k].phase.PostWorldStable?
  {
    assert ms[i] == Step(ms[i - 1], bs[i - 1]);
    SnapInWorld(ms, bs, i);
    SnapInWorld(ms, bs, i - 1);
    if ms[i - 1].snapTaken {
      e := EntryBeat(ms, bs, i - 1);
    } else {
      e := i - 1;
    }
  }

  /** The load that began the world the machine is in. */
  lemma {:induction false} LoadBeat(ms: seq<Machine>, bs: seq<Beat>, i: nat) returns (l: nat)
    requires IsRun(ms, bs) && i < |ms| && AtWorld(ms[i])
    ensures l < i && Loads(ms, l) && forall k | l < k <= i :: AtWorld(ms[k])
  {
    assert i > 0 ==> ms[i] == Step(ms[i - 1], bs[i - 1]);
    if AtWorld(ms[i - 1]) {
      l := LoadBeat(ms, bs, i - 1);
    } else {
      l := i - 1;
    }
  }

  /** Every exit follows a load with no other load or exit between; an entry snapshot was taken after
      that load, at least 45 seconds before; and the last three beats mapped no package. */
  lemma ExitJustified(ms: seq<Machine>, bs: seq<Beat>, j: nat) returns (load: nat, entry: nat)
    requires IsRun(ms, bs) && Exits(ms, j)
    ensures load + 3 < entry <= j && Loads(ms, load) && forall k | load < k <= j :: AtWorld(ms[k])
    ensures !ms[entry].snapTaken && forall k | entry <= k <= j :: ms[k].phase.PostWorldStable?
    ensures bs[j].tick - bs[entry].snapTick >= 45000
    ensures j >= 2 && forall k | j - 2 <= k <= j :: QuietBeat(bs, k)
  {
    assert ms[j + 1] == Step(ms[j], bs[j]);
    QuietStreak(ms, bs, j);
    PackagesFollow(ms, bs, j);
    if ms[j].snapTaken { entry := EntryBeat(ms, bs, j); } else { entry := j; }
    load := LoadBeat(ms, bs, j);
    var first := StableBeat(ms, bs, load, entry);
  }

  /** The world that was loaded became stable before `e`, by a stable transition. */
  lemma {:induction false} StableBeat(ms: seq<Machine>, bs: seq<Beat>, l: nat, e: nat) returns (s: nat)
    requires IsRun(ms, bs) && Loads(ms, l) && l < e < |ms| && ms[e].phase.PostWorldStable?
    requires forall k | l < k <= e :: AtWorld(ms[k])
    ensures l + 3 <= s < e && ms[s].phase.WorldLoadDetected? && ms[s + 1].phase.PostWorldStable?
  {
    assert ms[e] == Step(ms[e - 1], bs[e - 1]);
    if e - 1 > l && ms[e - 1].phase.PostWorldStable? {
      s := StableBeat(ms, bs, l, e - 1);
    } else {
      s := e - 1;
      StableTransition(ms, bs, s);
    }
  }

  lemma {:induction false} LeavesWorld(ms: seq<Machine>, bs: seq<Beat>, i: nat, j: nat) returns (e: nat)
    requires IsRun(ms, bs) && i < j < |ms| && AtWorld(ms[i]) && !AtWorld(ms[j])
    ensures i <= e < j && Exits(ms, e)
  {
    assert ms[j] == Step(ms[j - 1], bs[j - 1]);
    if AtWorld(ms[j - 1]) { e := j - 1; } else { e := LeavesWorld(ms, bs, i, j - 1); }
  }

  lemma {:induction false} EntersWorld(ms: seq<Machine>, bs: seq<Beat>, i: nat, j: nat) returns (l: nat)
    requires IsRun(ms, bs) && i < j < |ms| && !AtWorld(ms[i]) && AtWorld(ms[j])
    ensures i <= l < j && Loads(ms, l)
  {
    assert ms[j] == Step(ms[j - 1], bs[j - 1]);
    if AtWorld(ms[j - 1]) { l := EntersWorld(ms, bs, i, j - 1); } else { l := j - 1; }
  }

  /** Loads and exits strictly alternate: between two loads there is an exit, between two exits a load. */
  lemma Alternate(ms: seq<Machine>, bs: seq<Beat>, i: nat, j: nat) returns (mid: nat)
    requires IsRun(ms, bs) && i < j
    requires (Loads(ms, i) && Loads(ms, j)) || (Exits(ms, i) && Exits(ms, j))
    ensures i < mid < j && if Loads(ms, i) then Exits(ms, mid) else Loads(ms, mid)
  {
    if Loads(ms, i) {
      mid := LeavesWorld(ms, bs, i + 1, j);
    } else {
      mid := EntersWorld(ms, bs, i + 1, j);
    }
  }

  /** Two exits are at least 45 seconds apart. */
  lemma ExitsFarApart(ms: seq<Machine>, bs: seq<Beat>, i: nat, j: nat)
    requires IsRun(ms, bs) && i < j && Exits(ms, i) && Exits(ms, j)
    ensures bs[j].tick - bs[i].tick >= 45000
  {
    var load, entry := ExitJustified(ms, bs, j);
    assert !AtWorld(ms[i + 1]);
    assert bs[i].tick <= bs[entry].snapTick;
  }

  // ---------------------------------------------------------------- Exactly when

  /** The reading that beat `i` is compared with: that of the beat before it, or of the snapshot taken there if
      it changed the phase. */
  function LastReading(ms: seq<Machine>, bs: seq<Beat>, i: nat): int
    requires |ms| == |bs| + 1 && i < |ms|
  {
    if i == 0 then ms[0].prevFreeMb
    else if ms[i].phase != ms[i - 1].phase then bs[i - 1].snapFreeMb
    else bs[i - 1].freeMb
  }

  /** By how much free memory moved in beat `k`. */
  function Moved(ms: seq<Machine>, bs: seq<Beat>, k: nat): int
    requires |ms| == |bs| + 1 && k < |bs|
  {
    bs[k].freeMb - LastReading(ms, bs, k)
  }

  predicate Calm(ms: seq<Machine>, bs: seq<Beat>, k: nat)
    requires |ms| == |bs| + 1 && k < |bs|
  {
    -50 < Moved(ms, bs, k) < 50
  }

  lemma ReadingFollows(ms: seq<Machine>, bs: seq<Beat>, i: nat)
    requires IsRun(ms, bs) && i < |ms|
    ensures ms[i].prevFreeMb == LastReading(ms, bs, i)
  {
    if i > 0 { assert ms[i] == Step(ms[i - 1], bs[i - 1]); }
  }

  lemma Stepped(ms: seq<Machine>, bs: seq<Beat>, i: nat)
    requires IsRun(ms, bs) && i < |bs|
    ensures |ms| == |bs| + 1 && ms[i + 1] == Step(ms[i], bs[i]) && bs[i].snapTick <= bs[i].tick
  {
    assert bs[i] == bs[i];
  }

  /** From the menu a load is seen exactly when free memory fell by 200 MB or more since the last reading. */
  lemma LoadExactly(ms: seq<Machine>, bs: seq<Beat>, i: nat)
    requires IsRun(ms, bs) && i < |bs| && ms[i].phase.MainMenuStable?
    ensures Loads(ms, i) <==> Moved(ms, bs, i) <= -200
    ensures !Loads(ms, i) ==> ms[i + 1].phase.MainMenuStable?
  {
    ReadingFollows(ms, bs, i);
    assert ms[i + 1] == Step(ms[i], bs[i]);
  }

  /** The last `n` beats before `i` were calm and the phase was the same all the while. */
  predicate CalmSince(ms: seq<Machine>, bs: seq<Beat>, i: nat, n: nat)
    requires |ms| == |bs| + 1 && i < |ms|
  {
    n <= i && forall k | i - n <= k < i :: Calm(ms, bs, k) && ms[k].phase == ms[i].phase
  }

  lemma {:induction false} StableCount(ms: seq<Machine>, bs: seq<Beat>, i: nat, n: nat)
    requires IsRun(ms, bs) && i < |ms|
    ensures ms[i].stable >= n <==> CalmSince(ms, bs, i, n)
  {
    if i > 0 && n > 0 {
      Stepped(ms, bs, i - 1);
      hide IsRun, Step, LastReading;
      CalmOneMore(ms, bs, i, n);
      hide CalmSince;
      StableCount(ms, bs, i - 1, n - 1);
      ReadingFollows(ms, bs, i - 1);
      CountStep(ms[i - 1], bs[i - 1]);
    }
  }

  /** A beat that changes the phase forgets the stable beats before it. */
  lemma CountStep(m: Machine, b: Beat)
    ensures var m' := Step(m, b);
      m'.stable == if m'.phase == m.phase && -50 < b.freeMb - m.prevFreeMb < 50 then m.stable + 1 else 0
  {
  }

  lemma CalmOneMore(ms: seq<Machine>, bs: seq<Beat>, i: nat, n: nat)
    requires |ms| == |bs| + 1 && 0 < i < |ms| && n > 0
    ensures CalmSince(ms, bs, i, n)
      <==> CalmSince(ms, bs, i - 1, n - 1) && Calm(ms, bs, i - 1) && ms[i - 1].phase == ms[i].phase
  {
    if CalmSince(ms, bs, i, n) {
      assert ms[i - 1].phase == ms[i].phase;
    }
  }

  /** The stable phase that comes after a phase of waiting. */
  function Settled(phase: Phase): Phase {
    match phase
    case PostInject => MainMenuStable
    case WorldLoadDetected => PostWorldStable
    case WorldExitDetected => MainMenuStable
    case _ => phase
  }

  predicate Waiting(phase: Phase) { phase.PostInject? || phase.WorldLoadDetected? || phase.WorldExitDetected? }

  /** A phase of waiting ends exactly with a third calm beat in a row since it began, and in its stable phase. */
  lemma StableExactly(ms: seq<Machine>, bs: seq<Beat>, j: nat)
    requires IsRun(ms, bs) && j < |bs| && Waiting(ms[j].phase)
    ensures ms[j + 1].phase == Settled(ms[j].phase) <==>
      j >= 2 && forall k | j - 2 <= k <= j :: Calm(ms, bs, k) && ms[k].phase == ms[j].phase
    ensures ms[j + 1].phase == Settled(ms[j].phase) || ms[j + 1].phase == ms[j].phase
  {
    StableCount(ms, bs, j, 2);
    ReadingFollows(ms, bs, j);
    BeatsCount(ms, bs, j);
    assert ms[j + 1] == Step(ms[j], bs[j]);
    if j >= 2 && CalmSince(ms, bs, j, 2) { assert Calm(ms, bs, j - 2) && Calm(ms, bs, j - 1); }
  }

  /** The menu was entered on three calm beats, so no load is ever seen before the fourth beat of a session. */
  lemma {:induction false} MenuBeat(ms: seq<Machine>, bs: seq<Beat>, i: nat) returns (s: nat)
    requires IsRun(ms, bs) && i < |ms| && ms[i].phase.MainMenuStable?
    ensures 2 <= s < i && Waiting(ms[s].phase) && forall k | s < k <= i :: ms[k].phase.MainMenuStable?
    ensures forall k | s - 2 <= k <= s :: Calm(ms, bs, k) && ms[k].phase == ms[s].phase
  {
    assert i > 0;
    assert ms[i] == Step(ms[i - 1], bs[i - 1]);
    if ms[i - 1].phase.MainMenuStable? {
      s := MenuBeat(ms, bs, i - 1);
    } else {
      s := i - 1;
      StableExactly(ms, bs, s);
    }
  }

  lemma {:induction false} BeatsCount(ms: seq<Machine>, bs: seq<Beat>, i: nat)
    requires IsRun(ms, bs) && i < |ms|
    ensures ms[i].beats == i
  {
    if i > 0 {
      BeatsCount(ms, bs, i - 1);
      assert ms[i] == Step(ms[i - 1], bs[i - 1]);
    }
  }

  /** The last `n` beats before `i` mapped no package and saw no exit. */
  predicate QuietSince(ms: seq<Machine>, bs: seq<Beat>, i: nat, n: nat)
    requires |ms| == |bs| + 1 && i < |ms|
  {
    n <= i && forall k | i - n <= k < i :: QuietBeat(bs, k) && !Exits(ms, k)
  }

  lemma {:induction false} QuietCount(ms: seq<Machine>, bs: seq<Beat>, i: nat, n: nat)
    requires IsRun(ms, bs) && i < |ms|
    ensures ms[i].quiet >= n <==> QuietSince(ms, bs, i, n)
  {
    if i > 0 && n > 0 {
      QuietCount(ms, bs, i - 1, n - 1);
      PackagesFollow(ms, bs, i - 1);
      assert ms[i] == Step(ms[i - 1], bs[i - 1]);
      QuietOneMore(ms, bs, i, n);
      hide IsRun, QuietSince;
      QuietStep(ms[i - 1], bs[i - 1]);
    }
  }

  lemma QuietStep(m: Machine, b: Beat)
    ensures var m' := Step(m, b);
      var exit := m.phase.PostWorldStable? && m'.phase.WorldExitDetected?;
      m'.quiet == if b.packages == m.prevPackages && !exit then m.quiet + 1 else 0
  {
  }

  lemma QuietOneMore(ms: seq<Machine>, bs: seq<Beat>, i: nat, n: nat)
    requires |ms| == |bs| + 1 && 0 < i < |ms| && n > 0
    ensures QuietSince(ms, bs, i, n) <==> QuietSince(ms, bs, i - 1, n - 1) && QuietBeat(bs, i - 1) && !Exits(ms, i - 1)
  {
  }

  /** The beat in which the stay in the stable world began to be timed. */
  lemma {:induction false} StayBeat(ms: seq<Machine>, bs: seq<Beat>, j: nat) returns (e: nat)
    requires IsRun(ms, bs) && j < |ms| && ms[j].phase.PostWorldStable?
    ensures 3 < e <= j && !ms[e - 1].phase.PostWorldStable? && !ms[e].snapTaken
    ensures forall k | e <= k <= j :: ms[k].phase.PostWorldStable?
    ensures e < j ==> ms[j].snapTaken && ms[j].entryTick == bs[e].snapTick
    ensures forall k | e - 4 <= k <= j :: !Exits(ms, k) || k == j
  {
    assert j > 0 ==> ms[j] == Step(ms[j - 1], bs[j - 1]);
    if ms[j - 1].phase.PostWorldStable? {
      e := StayBeat(ms, bs, j - 1);
    } else {
      e := j;
      StableTransition(ms, bs, j - 1);
      SnapInWorld(ms, bs, j - 1);
      var load := LoadBeat(ms, bs, j - 1);
    }
  }

  lemma WorldStep(m: Machine, b: Beat)
    requires m.phase.PostWorldStable?
    ensures Step(m, b).phase.WorldExitDetected? <==>
      b.tick - (if m.snapTaken then m.entryTick else b.snapTick) >= 45000 && m.quiet >= 2 && b.packages == m.prevPackages
    ensures Step(m, b).phase.WorldExitDetected? || Step(m, b).phase.PostWorldStable?
  {
  }

  /** An exit is seen exactly when the stay has lasted 45 seconds, since its first beat, and the last three beats
      mapped no package. */
  lemma ExitExactly(ms: seq<Machine>, bs: seq<Beat>, j: nat) returns (e: nat)
    requires IsRun(ms, bs) && j < |bs| && ms[j].phase.PostWorldStable?
    ensures 3 < e <= j && !ms[e - 1].phase.PostWorldStable? && forall k | e <= k <= j :: ms[k].phase.PostWorldStable?
    ensures Exits(ms, j) <==>
      bs[j].tick - bs[e].snapTick >= 45000 && QuietBeat(bs, j - 2) && QuietBeat(bs, j - 1) && QuietBeat(bs, j)
    ensures !Exits(ms, j) ==> ms[j + 1].phase.PostWorldStable?
  {
    Stepped(ms, bs, j);
    hide IsRun, Step;
    e := StayBeat(ms, bs, j);
    QuietCount(ms, bs, j, 2);
    PackagesFollow(ms, bs, j);
    WorldStep(ms[j], bs[j]);
    assert ms[j].quiet >= 2 ==> QuietBeat(bs, j - 2) && QuietBeat(bs, j - 1);
  }

  /** The baseline is the snapshot of the latest change of phase.  Only in the stable world it moves: it rises to
      a reading 150 MB or more above it, and so never stays that far below one. */
  lemma BaselineFollows(ms: seq<Machine>, bs: seq<Beat>, i: nat)
    requires IsRun(ms, bs) && i < |bs|
    ensures var rises := ms[i].phase.PostWorldStable? && bs[i].freeMb >= ms[i].phaseFreeMb + 150;
      ms[i + 1].phaseFreeMb ==
        if ms[i + 1].phase != ms[i].phase then bs[i].snapFreeMb else if rises then bs[i].freeMb else ms[i].phaseFreeMb
  {
    assert ms[i + 1] == Step(ms[i], bs[i]);
  }

  // ---------------------------------------------------------------- The thread's variables

  class Heartbeat {
    var phase: Phase
    var beatCount: nat
    var stableStreak: nat
    var mapViewQuietStreak: nat
    var prevMapViewPackageCount: nat
    var prevTotalFreeMb: int
    var phaseTotalFreeMb: int
    var worldEntrySnapTaken: bool
    var worldEntryTickMs: nat

    function Abs(): Machine
      reads this
    {
      Machine(phase, stableStreak, mapViewQuietStreak, beatCount, prevMapViewPackageCount, prevTotalFreeMb, phaseTotalFreeMb,
              worldEntrySnapTaken, worldEntryTickMs)
    }

    constructor (freeMb: int)
      ensures Abs() == Start(freeMb)
    {
      phase, beatCount, stableStreak, mapViewQuietStreak, prevMapViewPackageCount := PostInject, 0, 0, 0, 0;
      prevTotalFreeMb, phaseTotalFreeMb, worldEntrySnapTaken, worldEntryTickMs := freeMb, freeMb, false, 0;
    }

    method Beat(b: Beat)
      modifies this
      ensures Abs() == Step(old(Abs()), b)
    {
      beatCount := beatCount + 1;
      mapViewQuietStreak := if b.packages == prevMapViewPackageCount then mapViewQuietStreak + 1 else 0;
      prevMapViewPackageCount := b.packages;
      var vasDelta := b.freeMb - prevTotalFreeMb;
      stableStreak := if -STABLE_MB < vasDelta < STABLE_MB then stableStreak + 1 else 0;
      assert Abs() == Counted(old(Abs()), b);
      hide Counted, IsStable;
      if phase == PostInject && stableStreak >= 3 && beatCount >= 3 {
        TakeSnap(b, MainMenuStable);
      } else if phase == MainMenuStable && vasDelta <= -LOAD_DROP_MB {
        TakeSnap(b, WorldLoadDetected);
      } else if phase == WorldLoadDetected && stableStreak >= 3 {
        TakeSnap(b, PostWorldStable);
      } else if phase == PostWorldStable {
        WatchWorld(b);
      } else if phase == WorldExitDetected && stableStreak >= 3 {
        TakeSnap(b, MainMenuStable);
      } else {
        prevTotalFreeMb := b.freeMb;
      }
    }

    /** Enter a phase with a snapshot. */
    method TakeSnap(b: Beat, next: Phase)
      modifies this`phase, this`stableStreak, this`phaseTotalFreeMb, this`prevTotalFreeMb
      ensures Abs() == Enter(old(Abs()), b, next)
    {
      phase, stableStreak, phaseTotalFreeMb, prevTotalFreeMb := next, 0, b.snapFreeMb, b.snapFreeMb;
    }

    method WatchWorld(b: Beat)
      modifies this
      ensures Abs() == InWorld(old(Abs()), b)
    {
      if !worldEntrySnapTaken {
        worldEntryTickMs := b.snapTick;
        worldEntrySnapTaken := true;
      }
      if b.tick - worldEntryTickMs >= MIN_WORLD_MS && mapViewQuietStreak >= 3 {
        TakeSnap(b, WorldExitDetected);
        worldEntrySnapTaken := false;
        mapViewQuietStreak := 0;
      } else {
        if b.freeMb - phaseTotalFreeMb >= DRIFT_MB {
          phaseTotalFreeMb := b.freeMb;
        }
        prevTotalFreeMb := b.freeMb;
      }
    }
  }
}
