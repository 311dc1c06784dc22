/** The lock-free once-only set: open addressing in a table of atomic words, claimed by
    compare-exchange.

    A call is a sequence of atomic accesses to the table; the calls of any number of threads are
    interleaved access by access. */
module MarkOnce {
  import opened Sets

  const TABLE := 16384
  const PROBES := 64

  /** The `p`-th place where `key` may sit. */
  function Place(key: nat, p: nat): (i: nat)
    ensures i < TABLE
  {
    (key % TABLE + p) % TABLE
  }

  /** Zero marks an empty word, so a zero key is stored as one. */
  function Normalised(key: nat): nat { if key == 0 then 1 else key }

  type Table = s: seq<nat> | |s| == TABLE witness seq(TABLE, _ => 0)

  /** How a call ended: by claiming a word, by finding its key, or by running out of probes. */
  datatype Verdict = Claimed | Found | OutOfProbes

  /** What the caller learns. */
  datatype Answer = Answer(key: nat, verdict: Verdict)
  {
    predicate Seen() { verdict.Found? }
  }

  /** A call about to read its `probe`-th word, or to claim it having read zero there. */
  datatype Pc = Idle | Reading(key: nat, probe: nat) | Claiming(key: nat, probe: nat)

  /** `log` holds the answers in the order of the accesses that decided them. */
  datatype System = System(slots: Table, threads: map<int, Pc>, log: seq<Answer>)
  {
    function At(t: int): Pc { if t in threads then threads[t] else Idle }

    function With(t: int, pc: Pc): System { this.(threads := threads[t := pc]) }

    function Answered(t: int, key: nat, verdict: Verdict): System {
      With(t, Idle).(log := log + [Answer(key, verdict)])
    }

    function Onward(t: int, key: nat, probe: nat): System {
      if probe + 1 < PROBES then With(t, Reading(key, probe + 1)) else Answered(t, key, OutOfProbes)
    }
  }

  /** A thread calls with a key, or makes its next access to the table. */
  datatype Action = Call(key: nat) | Access

  predicate Enabled(s: System, t: int, a: Action) { a.Call? <==> s.At(t).Idle? }

  function Next(s: System, t: int, a: Action): System
    requires Enabled(s, t, a)
  {
    match s.At(t)
    case Idle => s.With(t, Reading(Normalised(a.key), 0))
    case Reading(key, probe) =>
      var word := s.slots[Place(key, probe)];
      if word == key then s.Answered(t, key, Found)
      else if word == 0 then s.With(t, Claiming(key, probe))
      else s.Onward(t, key, probe)
    case Claiming(key, probe) =>
      var word := s.slots[Place(key, probe)];
      if word == 0 then s.(slots := s.slots[Place(key, probe) := key]).Answered(t, key, Claimed)
      else if word == key then s.Answered(t, key, Found)
      else s.Onward(t, key, probe)
  }

  // ---------------------------------------------------------------- The table

  /** The first `p` places of `key` are taken by other keys. */
  predicate Passed(slots: Table, key: nat, p: nat) {
    forall q | 0 <= q < p :: slots[Place(key, q)] != 0 && slots[Place(key, q)] != key
  }

  /** `key` sits at its first place that other keys left free. */
  predicate SitsAt(slots: Table, key: nat, p: nat) {
    p < PROBES && slots[Place(key, p)] == key && Passed(slots, key, p)
  }

  ghost predicate Recorded(slots: Table, key: nat) { exists p :: SitsAt(slots, key, p) }

  predicate Crowded(slots: Table, key: nat) { Passed(slots, key, PROBES) }

  /** Every key in the table sits where a search for it ends. */
  ghost predicate Probed(slots: Table) {
    forall i | 0 <= i < TABLE && slots[i] != 0 :: exists p :: SitsAt(slots, slots[i], p) && Place(slots[i], p) == i
  }

  /** Words are written once. */
  predicate Extends(later: Table, slots: Table) {
    forall i | 0 <= i < TABLE && slots[i] != 0 :: later[i] == slots[i]
  }

  lemma PlacesApart(key: nat, p: nat, q: nat)
    requires p < q < PROBES
    ensures Place(key, p) != Place(key, q)
  {
    var b := key % TABLE;
    assert (b + p) % TABLE == if b + p < TABLE then b + p else b + p - TABLE;
    assert (b + q) % TABLE == if b + q < TABLE then b + q else b + q - TABLE;
  }

  /** A key is in the table at most once. */
  lemma KeyOnce(slots: Table, i: nat, j: nat)
    requires Probed(slots) && i < TABLE && j < TABLE
    requires slots[i] == slots[j] != 0
    ensures i == j
  {
    var key := slots[i];
    var p: nat :| SitsAt(slots, key, p) && Place(key, p) == i;
    var q: nat :| SitsAt(slots, key, q) && Place(key, q) == j;
    assert p == q;
  }

  lemma ExtendsKeeps(slots: Table, later: Table, key: nat, p: nat)
    requires Extends(later, slots)
    ensures Passed(slots, key, p) ==> Passed(later, key, p)
    ensures key != 0 && SitsAt(slots, key, p) ==> SitsAt(later, key, p)
  {}

  /** A claim of the first place that other keys left free keeps every key where its search ends. */
  lemma ClaimKeeps(slots: Table, key: nat, p: nat)
    requires Probed(slots) && key != 0 && p < PROBES
    requires Passed(slots, key, p) && slots[Place(key, p)] == 0
    ensures var later := slots[Place(key, p) := key];
            Probed(later) && Extends(later, slots) && SitsAt(later, key, p)
  {
    var i := Place(key, p);
    var later := slots[i := key];
    forall q | 0 <= q < p ensures Place(key, q) != i { PlacesApart(key, q, p); }
    assert SitsAt(later, key, p);
    forall j | 0 <= j < TABLE && later[j] != 0
      ensures exists q :: SitsAt(later, later[j], q) && Place(later[j], q) == j
    {
      if j != i {
        var q :| SitsAt(slots, slots[j], q) && Place(slots[j], q) == j;
        ExtendsKeeps(slots, later, slots[j], q);
      }
    }
  }

  /** No other key comes or goes. */
  lemma ClaimSparesOthers(slots: Table, key: nat, p: nat)
    requires Probed(slots) && key != 0 && p < PROBES
    requires Passed(slots, key, p) && slots[Place(key, p)] == 0
    ensures forall other | other != 0 && other != key ::
      Recorded(slots[Place(key, p) := key], other) <==> Recorded(slots, other)
  {
    var i := Place(key, p);
    var later := slots[i := key];
    forall other | other != 0 && other != key ensures Recorded(later, other) <==> Recorded(slots, other) {
      if Recorded(later, other) {
        var q :| SitsAt(later, other, q);
        assert slots[Place(other, q)] == other;
      }
      if Recorded(slots, other) {
        var q :| SitsAt(slots, other, q);
        ExtendsKeeps(slots, later, other, q);
      }
    }
  }

  /** A recorded key stays recorded, a crowded one crowded, and no key is both. */
  lemma NeverBoth(slots: Table, key: nat)
    ensures !(Recorded(slots, key) && Crowded(slots, key))
  {}

  // ---------------------------------------------------------------- Every interleaving

  ghost predicate ThreadOk(s: System, t: int) {
    match s.At(t)
    case Idle => true
    case Reading(key, p) => key != 0 && p < PROBES && Passed(s.slots, key, p)
    case Claiming(key, p) => key != 0 && p < PROBES && Passed(s.slots, key, p)
  }

  ghost predicate Answered(log: seq<Answer>, key: nat) { exists i :: 0 <= i < |log| && log[i].key == key }

  ghost predicate AnswerOk(slots: Table, a: Answer) {
    a.key != 0 && if a.verdict.OutOfProbes? then Crowded(slots, a.key) else Recorded(slots, a.key)
  }

  /** The log is that of a set on which each call is one operation: a key that is not crowded out is
      reported seen exactly when an earlier answer was about it, a crowded one never. */
  ghost predicate SetLike(slots: Table, log: seq<Answer>) {
    forall i | 0 <= i < |log| :: log[i].Seen() <==> !Crowded(slots, log[i].key) && Answered(log[..i], log[i].key)
  }

  ghost predicate Invariant(s: System) {
    && Probed(s.slots)
    && (forall t :: ThreadOk(s, t))
    && (forall i | 0 <= i < |s.log| :: AnswerOk(s.slots, s.log[i]))
    && (forall i | 0 <= i < TABLE && s.slots[i] != 0 :: Answered(s.log, s.slots[i]))
    && SetLike(s.slots, s.log)
  }

  predicate Start(s: System) {
    s.threads == map[] && s.log == [] && forall i | 0 <= i < TABLE :: s.slots[i] == 0
  }

  ghost predicate IsRun(ss: seq<System>, ts: seq<int>, acts: seq<Action>) {
    && |ss| == |ts| + 1 && |acts| == |ts|
    && (forall i {:trigger acts[i]} | 0 <= i < |acts| :: Enabled(ss[i], ts[i], acts[i]) && ss[i + 1] == Next(ss[i], ts[i], acts[i]))
  }

  lemma AnswerStays(slots: Table, later: Table, a: Answer)
    requires Extends(later, slots) && AnswerOk(slots, a)
    ensures AnswerOk(later, a)
    ensures Crowded(slots, a.key) <==> Crowded(later, a.key)
  {
    if a.verdict.OutOfProbes? {
      ExtendsKeeps(slots, later, a.key, PROBES);
    } else {
      var p :| SitsAt(slots, a.key, p);
      ExtendsKeeps(slots, later, a.key, p);
    }
  }

  lemma ThreadStays(s: System, s': System, t: int)
    requires Extends(s'.slots, s.slots) && ThreadOk(s, t) && s'.At(t) == s.At(t)
    ensures ThreadOk(s', t)
  {
    if !s.At(t).Idle? { ExtendsKeeps(s.slots, s'.slots, s.At(t).key, s.At(t).probe); }
  }

  /** One more answer on a table that meanwhile only filled up. */
  lemma AnswerKeeps(slots: Table, log: seq<Answer>, later: Table, a: Answer)
    requires Extends(later, slots) && SetLike(slots, log)
    requires forall i | 0 <= i < |log| :: AnswerOk(slots, log[i])
    requires AnswerOk(later, a)
    requires a.Seen() <==> !Crowded(later, a.key) && Answered(log, a.key)
    ensures SetLike(later, log + [a])
    ensures forall i | 0 <= i < |log| + 1 :: AnswerOk(later, (log + [a])[i])
  {
    var log' := log + [a];
    forall i | 0 <= i < |log'|
      ensures AnswerOk(later, log'[i])
      ensures log'[i].Seen() <==> !Crowded(later, log'[i].key) && Answered(log'[..i], log'[i].key)
    {
      if i < |log| {
        AnswerStays(slots, later, log[i]);
        assert log'[..i] == log[..i];
      } else {
        assert log'[..i] == log;
      }
    }
  }

  lemma LogGrows(log: seq<Answer>, a: Answer, key: nat)
    ensures Answered(log + [a], key) <==> Answered(log, key) || a.key == key
  {
    var log' := log + [a];
    if Answered(log, key) { var i :| 0 <= i < |log| && log[i].key == key; assert log'[i].key == key; }
    if a.key == key { assert log'[|log|].key == key; }
  }

  /** An answer that leaves the table alone. */
  lemma QuietAnswerKeeps(s: System, t: int, a: Answer)
    requires Invariant(s) && a.key != 0
    requires if a.Seen() then Recorded(s.slots, a.key) else Crowded(s.slots, a.key) && a.verdict.OutOfProbes?
    ensures Invariant(s.Answered(t, a.key, a.verdict))
  {
    var s' := s.Answered(t, a.key, a.verdict);
    forall u ensures ThreadOk(s', u) { if u != t { ThreadStays(s, s', u); } }
    if a.Seen() {
      var p :| SitsAt(s.slots, a.key, p);
      assert s.slots[Place(a.key, p)] == a.key;
      assert Answered(s.log, a.key);
      NeverBoth(s.slots, a.key);
    }
    assert Extends(s.slots, s.slots);
    AnswerKeeps(s.slots, s.log, s.slots, a);
    forall i | 0 <= i < TABLE && s.slots[i] != 0 ensures Answered(s'.log, s.slots[i]) { LogGrows(s.log, a, s.slots[i]); }
  }

  lemma OnwardKeeps(s: System, t: int, key: nat, p: nat)
    requires Invariant(s) && key != 0 && p < PROBES && Passed(s.slots, key, p + 1)
    ensures Invariant(s.Onward(t, key, p))
  {
    if p + 1 < PROBES {
      var s' := s.Onward(t, key, p);
      forall u ensures ThreadOk(s', u) { if u != t { ThreadStays(s, s', u); } }
    } else {
      QuietAnswerKeeps(s, t, Answer(key, OutOfProbes));
    }
  }

  /** A claimed word was the key's first report. */
  lemma ClaimStepKeeps(s: System, t: int, key: nat, p: nat)
    requires Invariant(s) && key != 0 && p < PROBES
    requires Passed(s.slots, key, p) && s.slots[Place(key, p)] == 0
    ensures Invariant(s.(slots := s.slots[Place(key, p) := key]).Answered(t, key, Claimed))
  {
    var later := s.slots[Place(key, p) := key];
    var a := Answer(key, Claimed);
    var s' := s.(slots := later).Answered(t, key, Claimed);
    ClaimKeeps(s.slots, key, p);
    forall u ensures ThreadOk(s', u) { if u != t { ThreadStays(s, s', u); } }
    assert Recorded(later, key);
    assert !Answered(s.log, key);
    AnswerKeeps(s.slots, s.log, later, a);
    forall i | 0 <= i < TABLE && later[i] != 0 ensures Answered(s'.log, later[i]) { LogGrows(s.log, a, later[i]); }
  }

  lemma StepKeeps(s: System, t: int, a: Action)
    requires Invariant(s) && Enabled(s, t, a)
    ensures Invariant(Next(s, t, a))
    ensures Extends(Next(s, t, a).slots, s.slots)
    ensures s.log <= Next(s, t, a).log
  {
    match s.At(t) {
      case Idle => CallKeeps(s, t, a.key);
      case Reading(key, p) => ReadingKeeps(s, t, key, p);
      case Claiming(key, p) => ClaimingKeeps(s, t, key, p);
    }
  }

  lemma CallKeeps(s: System, t: int, key: nat)
    requires Invariant(s) && s.At(t).Idle?
    ensures Invariant(s.With(t, Reading(Normalised(key), 0)))
  {
    var s' := s.With(t, Reading(Normalised(key), 0));
    forall u ensures ThreadOk(s', u) { if u != t { ThreadStays(s, s', u); } }
  }

  lemma ReadingKeeps(s: System, t: int, key: nat, p: nat)
    requires Invariant(s) && s.At(t) == Reading(key, p)
    ensures var s' := Next(s, t, Access); Invariant(s') && Extends(s'.slots, s.slots) && s.log <= s'.log
  {
    assert ThreadOk(s, t);
    var s', word := Next(s, t, Access), s.slots[Place(key, p)];
    if word == key {
      assert SitsAt(s.slots, key, p);
      QuietAnswerKeeps(s, t, Answer(key, Found));
    } else if word == 0 {
      forall u ensures ThreadOk(s', u) { if u != t { ThreadStays(s, s', u); } }
    } else {
      OnwardKeeps(s, t, key, p);
    }
  }

  lemma ClaimingKeeps(s: System, t: int, key: nat, p: nat)
    requires Invariant(s) && s.At(t) == Claiming(key, p)
    ensures var s' := Next(s, t, Access); Invariant(s') && Extends(s'.slots, s.slots) && s.log <= s'.log
  {
    assert ThreadOk(s, t);
    var word := s.slots[Place(key, p)];
    if word == 0 {
      ClaimStepKeeps(s, t, key, p);
      ClaimKeeps(s.slots, key, p);
    } else if word == key {
      assert SitsAt(s.slots, key, p);
      QuietAnswerKeeps(s, t, Answer(key, Found));
    } else {
      OnwardKeeps(s, t, key, p);
    }
  }

  lemma StartOk(s: System)
    requires Start(s)
    ensures Invariant(s)
  {
    forall t ensures ThreadOk(s, t) { assert s.At(t) == Idle; }
  }

  lemma SubRun(ss: seq<System>, ts: seq<int>, acts: seq<Action>, lo: nat, hi: nat)
    requires IsRun(ss, ts, acts) && lo <= hi <= |ts|
    ensures IsRun(ss[lo..hi + 1], ts[lo..hi], acts[lo..hi])
  {
    var (us, vs, bs) := (ss[lo..hi + 1], ts[lo..hi], acts[lo..hi]);
    forall i | 0 <= i < |bs| ensures Enabled(us[i], vs[i], bs[i]) && us[i + 1] == Next(us[i], vs[i], bs[i]) {
      assert bs[i] == acts[lo + i];
    }
  }

  /** Over any interleaving: words are written once, answers never revised. */
  lemma {:induction false} RunKeeps(ss: seq<System>, ts: seq<int>, acts: seq<Action>)
    requires IsRun(ss, ts, acts) && Invariant(ss[0])
    ensures Invariant(ss[|ts|])
    ensures Extends(ss[|ts|].slots, ss[0].slots)
    ensures ss[0].log <= ss[|ts|].log
    decreases |ts|
  {
    var n := |ts|;
    if n > 0 {
      SubRun(ss, ts, acts, 0, n - 1);
      RunKeeps(ss[..n], ts[..n - 1], acts[..n - 1]);
      assert acts[n - 1] == acts[n - 1];
      StepKeeps(ss[n - 1], ts[n - 1], acts[n - 1]);
    }
  }

  /** The dichotomy, for every key under every interleaving.  A key somebody was answered about is
      either recorded, and then its answers are one "new" followed by "seen" for ever after; or its
      whole window is taken by other keys for ever, and every answer about it is "new". */
  lemma OnceOnly(ss: seq<System>, ts: seq<int>, acts: seq<Action>, mid: nat, key: nat)
    requires IsRun(ss, ts, acts) && Start(ss[0]) && mid <= |ts|
    ensures ss[mid].log <= ss[|ts|].log
    ensures Answered(ss[mid].log, key) ==> (Recorded(ss[mid].slots, key) <==> !Crowded(ss[mid].slots, key))
    ensures key != 0 && Recorded(ss[mid].slots, key) ==>
              Answered(ss[mid].log, key) && Recorded(ss[|ts|].slots, key) &&
              forall i | 0 <= i < |ss[|ts|].log| && ss[|ts|].log[i].key == key ::
                ss[|ts|].log[i].Seen() <==> Answered(ss[|ts|].log[..i], key)
    ensures Crowded(ss[mid].slots, key) ==>
              Crowded(ss[|ts|].slots, key) &&
              forall i | 0 <= i < |ss[|ts|].log| && ss[|ts|].log[i].key == key :: !ss[|ts|].log[i].Seen()
  {
    RunPast(ss, ts, acts, mid);
    Dichotomy(ss[mid], ss[|ts|], key);
  }

  lemma RunPast(ss: seq<System>, ts: seq<int>, acts: seq<Action>, mid: nat)
    requires IsRun(ss, ts, acts) && Start(ss[0]) && mid <= |ts|
    ensures Invariant(ss[mid]) && Invariant(ss[|ts|])
    ensures Extends(ss[|ts|].slots, ss[mid].slots) && ss[mid].log <= ss[|ts|].log
  {
    hide Invariant, Extends, Start, Next, Enabled;
    StartOk(ss[0]);
    SubRun(ss, ts, acts, 0, mid);
    RunKeeps(ss[..mid + 1], ts[..mid], acts[..mid]);
    SubRun(ss, ts, acts, mid, |ts|);
    hide IsRun;
    RunKeeps(ss[mid..], ts[mid..], acts[mid..]);
  }

  /** What one state `m` settles about a key in any later state `s`. */
  lemma Dichotomy(m: System, s: System, key: nat)
    requires Invariant(m) && Invariant(s) && Extends(s.slots, m.slots)
    ensures Answered(m.log, key) ==> (Recorded(m.slots, key) <==> !Crowded(m.slots, key))
    ensures key != 0 && Recorded(m.slots, key) ==>
              Answered(m.log, key) && Recorded(s.slots, key) &&
              forall i | 0 <= i < |s.log| && s.log[i].key == key :: s.log[i].Seen() <==> Answered(s.log[..i], key)
    ensures Crowded(m.slots, key) ==>
              Crowded(s.slots, key) && forall i | 0 <= i < |s.log| && s.log[i].key == key :: !s.log[i].Seen()
  {
    if Answered(m.log, key) {
      var i :| 0 <= i < |m.log| && m.log[i].key == key;
      assert AnswerOk(m.slots, m.log[i]);
    }
    if key != 0 && Recorded(m.slots, key) {
      var p :| SitsAt(m.slots, key, p);
      ExtendsKeeps(m.slots, s.slots, key, p);
      assert m.slots[Place(key, p)] == key;
      NeverBoth(s.slots, key);
    }
    ExtendsKeeps(m.slots, s.slots, key, PROBES);
  }

  // ---------------------------------------------------------------- When a window can fill up

  /** The keys of the answers given so far. */
  function Keys(log: seq<Answer>): set<nat> { set i | 0 <= i < |log| :: log[i].key }

  /** The keys in the first `p` places of `key`. */
  function Neighbours(slots: Table, key: nat, p: nat): set<nat> {
    if p == 0 then {} else Neighbours(slots, key, p - 1) + {slots[Place(key, p - 1)]}
  }

  /** Two places of one window never hold the same key. */
  lemma WindowDistinct(slots: Table, key: nat, p: nat, q: nat)
    requires Probed(slots) && q < p < PROBES && slots[Place(key, p)] != 0
    ensures slots[Place(key, q)] != slots[Place(key, p)]
  {
    PlacesApart(key, q, p);
    if slots[Place(key, q)] == slots[Place(key, p)] { KeyOnce(slots, Place(key, q), Place(key, p)); }
  }

  lemma {:induction false} NeighboursAre(slots: Table, key: nat, p: nat, k: nat)
    requires k in Neighbours(slots, key, p)
    ensures exists q: nat :: q < p && slots[Place(key, q)] == k
  {
    if k == slots[Place(key, p - 1)] {} else { NeighboursAre(slots, key, p - 1, k); }
  }

  lemma {:induction false} NeighboursDistinct(slots: Table, key: nat, p: nat)
    requires Probed(slots) && p <= PROBES && Passed(slots, key, p)
    ensures |Neighbours(slots, key, p)| == p
  {
    hide Probed, Place;
    if p > 0 {
      NeighboursDistinct(slots, key, p - 1);
      var k := slots[Place(key, p - 1)];
      if k in Neighbours(slots, key, p - 1) {
        NeighboursAre(slots, key, p - 1, k);
        var q: nat :| q < p - 1 && slots[Place(key, q)] == k;
        WindowDistinct(slots, key, p - 1, q);
      }
    }
  }

  /** The homes of the two keys are less than 64 places apart, around the table. */
  predicate Near(x: nat, y: nat) {
    (x % 16384 - y % 16384) % 16384 < 64 || (y % 16384 - x % 16384) % 16384 < 64
  }

  /** The other keys answered about that can be in the way of `key`. */
  function NearKeys(log: seq<Answer>, key: nat): set<nat> {
    set k | k in Keys(log) && k != key && Near(k, key)
  }

  lemma MeetingIsNear(x: nat, y: nat, p: nat, q: nat)
    requires p < PROBES && q < PROBES && Place(x, p) == Place(y, q)
    ensures Near(x, y)
  {
    var a, b := x % TABLE, y % TABLE;
    assert (a + p) % TABLE == if a + p < TABLE then a + p else a + p - TABLE;
    assert (b + q) % TABLE == if b + q < TABLE then b + q else b + q - TABLE;
  }

  /** Calls about fewer than 64 other keys from the neighbourhood cannot crowd a key out, so it is reported new
      once, however many keys there are elsewhere. */
  lemma FewKeysNeverCrowd(s: System, key: nat)
    requires Invariant(s) && |NearKeys(s.log, key)| < 64
    ensures !Crowded(s.slots, key)
    ensures forall i | 0 <= i < |s.log| && s.log[i].key == key :: s.log[i].Seen() <==> Answered(s.log[..i], key)
  {
    if Crowded(s.slots, key) {
      var ks := Neighbours(s.slots, key, PROBES);
      NeighboursDistinct(s.slots, key, PROBES);
      forall k | k in ks ensures k in NearKeys(s.log, key) {
        NeighboursAre(s.slots, key, PROBES, k);
        var q: nat :| q < PROBES && s.slots[Place(key, q)] == k;
        assert Answered(s.log, k);
        var p: nat :| SitsAt(s.slots, k, p) && Place(k, p) == Place(key, q);
        MeetingIsNear(k, key, p, q);
      }
      SubsetSize(ks, NearKeys(s.log, key));
      assert false;
    }
  }

  // ---------------------------------------------------------------- A call alone, step by step

  ghost predicate Reaches(s0: System, s: System) {
    exists ss: seq<System>, ts: seq<int>, acts: seq<Action> :: IsRun(ss, ts, acts) && ss[0] == s0 && ss[|ts|] == s
  }

  lemma ReachesSelf(s: System)
    ensures Reaches(s, s)
  {
    var ss: seq<System>, ts: seq<int>, acts: seq<Action> := [s], [], [];
    assert IsRun(ss, ts, acts) && ss[0] == s && ss[|ts|] == s;
  }

  lemma ReachesStep(s0: System, s: System, t: int, a: Action)
    requires Reaches(s0, s) && Enabled(s, t, a)
    ensures Reaches(s0, Next(s, t, a))
  {
    hide Next, Enabled;
    var ss: seq<System>, ts: seq<int>, acts: seq<Action> :| IsRun(ss, ts, acts) && ss[0] == s0 && ss[|ts|] == s;
    var (us, vs, bs) := (ss + [Next(s, t, a)], ts + [t], acts + [a]);
    forall i | 0 <= i < |bs| ensures Enabled(us[i], vs[i], bs[i]) && us[i + 1] == Next(us[i], vs[i], bs[i]) {
      if i < |acts| { assert bs[i] == acts[i] && us[i] == ss[i] && us[i + 1] == ss[i + 1]; }
    }
    assert IsRun(us, vs, bs) && us[0] == s0 && us[|vs|] == Next(s, t, a);
  }

  /** Thread `t` about to read its `p`-th word, with everything else as in `s`. */
  function At(s: System, t: int, key: nat, p: nat): System { s.With(t, Reading(key, p)) }

  /** The search walks past places that other keys hold. */
  lemma {:induction false} WalksTo(s0: System, s: System, t: int, key: nat, p: nat)
    requires s.At(t).Idle? && Reaches(s0, At(s, t, Normalised(key), 0)) && p < PROBES && Passed(s.slots, Normalised(key), p)
    ensures Reaches(s0, At(s, t, Normalised(key), p))
  {
    if p > 0 {
      WalksTo(s0, s, t, key, p - 1);
      hide Reaches;
      var u := At(s, t, Normalised(key), p - 1);
      assert s.slots[Place(Normalised(key), p - 1)] != 0 && s.slots[Place(Normalised(key), p - 1)] != Normalised(key);
      hide Place;
      ReachesStep(s0, u, t, Access);
      assert Next(u, t, Access) == At(s, t, Normalised(key), p) by { WithTwice(s, t, Reading(Normalised(key), p - 1), Reading(Normalised(key), p)); }
    }
  }

  lemma WithTwice(s: System, t: int, pc: Pc, pc': Pc)
    ensures s.With(t, pc).With(t, pc') == s.With(t, pc')
  {
    assert s.threads[t := pc][t := pc'] == s.threads[t := pc'];
  }

  /** A call that no other thread disturbs claims the first place left free. */
  lemma LoneCallClaims(s0: System, s: System, t: int, key: nat, p: nat)
    requires Reaches(s0, s) && s.At(t).Idle? && p < PROBES
    requires Passed(s.slots, Normalised(key), p) && s.slots[Place(Normalised(key), p)] == 0
    ensures var k := Normalised(key); Reaches(s0, s.(slots := s.slots[Place(k, p) := k]).Answered(t, k, Claimed))
  {
    var k := Normalised(key);
    ReachesStep(s0, s, t, Call(key));
    WalksTo(s0, s, t, key, p);
    hide Reaches, Place, Passed;
    var u := At(s, t, k, p);
    ReachesStep(s0, u, t, Access);
    WithTwice(s, t, Reading(k, p), Claiming(k, p));
    var v := s.With(t, Claiming(k, p));
    assert Next(u, t, Access) == v;
    ReachesStep(s0, v, t, Access);
    WithTwice(s, t, Claiming(k, p), Idle);
  }

  /** A call for a recorded key that no other thread disturbs finds it. */
  lemma LoneCallFinds(s0: System, s: System, t: int, key: nat, p: nat)
    requires Reaches(s0, s) && s.At(t).Idle? && SitsAt(s.slots, Normalised(key), p)
    ensures Reaches(s0, s.Answered(t, Normalised(key), Found))
  {
    var k := Normalised(key);
    ReachesStep(s0, s, t, Call(key));
    WalksTo(s0, s, t, key, p);
    hide Reaches, Place, Passed;
    ReachesStep(s0, At(s, t, k, p), t, Access);
    WithTwice(s, t, Reading(k, p), Idle);
  }

  /** A call for a key whose window is full of others runs out of probes. */
  lemma LoneCallFails(s0: System, s: System, t: int, key: nat)
    requires Reaches(s0, s) && s.At(t).Idle? && Crowded(s.slots, Normalised(key))
    ensures Reaches(s0, s.Answered(t, Normalised(key), OutOfProbes))
  {
    var k := Normalised(key);
    ReachesStep(s0, s, t, Call(key));
    WalksTo(s0, s, t, key, PROBES - 1);
    hide Reaches;
    assert s.slots[Place(k, PROBES - 1)] != 0 && s.slots[Place(k, PROBES - 1)] != k;
    hide Place, Passed;
    ReachesStep(s0, At(s, t, k, PROBES - 1), t, Access);
    WithTwice(s, t, Reading(k, PROBES - 1), Idle);
  }

  /** A search ends at its key, at a free place, or nowhere. */
  lemma {:induction false} SearchEnds(slots: Table, key: nat, p: nat) returns (q: nat)
    requires p <= PROBES && Passed(slots, key, p)
    ensures p <= q <= PROBES && Passed(slots, key, q)
    ensures q < PROBES ==> slots[Place(key, q)] == 0 || slots[Place(key, q)] == key
    decreases PROBES - p
  {
    q := p;
    if p < PROBES && slots[Place(key, p)] != 0 && slots[Place(key, p)] != key { q := SearchEnds(slots, key, p + 1); }
  }

  /** The effect of one call on the table, with nobody else at work. */
  ghost predicate Marks(slots: Table, key: nat, seen: bool, later: Table) {
    && (seen <==> Recorded(slots, key))
    && if Recorded(slots, key) || Crowded(slots, key) then later == slots
       else exists p :: SitsAt(later, key, p) && slots[Place(key, p)] == 0 && later == slots[Place(key, p) := key]
  }

  /** In any state that a run can reach, a call that no other thread disturbs comes to its end.  It answers
      seen exactly when the key is recorded, which is when some earlier call was about it and it is not
      crowded out. */
  lemma LoneCallAnswers(s: System, t: int, key: nat) returns (s': System, a: Answer)
    requires Invariant(s) && s.At(t).Idle?
    ensures Reaches(s, s') && s'.threads == s.threads[t := Idle] && s'.log == s.log + [a]
    ensures a.key == (if key == 0 then 1 else key) && Marks(s.slots, a.key, a.Seen(), s'.slots)
    ensures a.Seen() <==> !Crowded(s.slots, a.key) && Answered(s.log, a.key)
  {
    var k := Normalised(key);
    ReachesSelf(s);
    RecordedIsAnswered(s, k);
    var p := SearchEnds(s.slots, k, 0);
    if p == PROBES {
      LoneCallFails(s, s, t, key);
      s', a := s.Answered(t, k, OutOfProbes), Answer(k, OutOfProbes);
    } else if s.slots[Place(k, p)] == k {
      LoneCallFinds(s, s, t, key, p);
      assert SitsAt(s.slots, k, p);
      s', a := s.Answered(t, k, Found), Answer(k, Found);
    } else {
      LoneCallClaims(s, s, t, key, p);
      ClaimKeeps(s.slots, k, p);
      s', a := s.(slots := s.slots[Place(k, p) := k]).Answered(t, k, Claimed), Answer(k, Claimed);
      assert SitsAt(s'.slots, k, p);
    }
  }

  lemma RecordedIsAnswered(s: System, key: nat)
    requires Invariant(s) && key != 0
    ensures Recorded(s.slots, key) <==> !Crowded(s.slots, key) && Answered(s.log, key)
  {
    NeverBoth(s.slots, key);
    if Recorded(s.slots, key) {
      var p :| SitsAt(s.slots, key, p);
      assert s.slots[Place(key, p)] == key;
    }
    if Answered(s.log, key) && !Crowded(s.slots, key) {
      var i :| 0 <= i < |s.log| && s.log[i].key == key;
      assert AnswerOk(s.slots, s.log[i]);
    }
  }

  // ---------------------------------------------------------------- A window does fill up

  /** Keys are words of this many values. */
  const KEYS := 0x1_0000_0000_0000_0000

  /** The `j`-th of the keys that share the window of `key`, above it or, to stay in a word, below. */
  function Rival(key: nat, j: nat): (r: nat)
    requires j < PROBES
    ensures key > 0 ==> r > 0
    ensures key < KEYS ==> r < KEYS
  {
    if key > PROBES * TABLE then key - (j + 1) * TABLE else key + (j + 1) * TABLE
  }

  lemma RivalSharesWindow(key: nat, j: nat, p: nat)
    requires j < PROBES
    ensures Place(Rival(key, j), p) == Place(key, p)
  {
    assert Rival(key, j) % TABLE == key % TABLE;
  }

  /** The first `i` places of the window hold rivals, the rest of it is free. */
  ghost predicate Filling(s: System, key: nat, i: nat)
    requires i <= PROBES
  {
    && s.At(0).Idle? && |s.log| == i && Keys(s.log) == Rivals(key, i)
    && (forall q | 0 <= q < i :: s.slots[Place(key, q)] == Rival(key, q))
    && (forall q | i <= q < PROBES :: s.slots[Place(key, q)] == 0)
  }

  function Rivals(key: nat, i: nat): set<nat>
    requires i <= PROBES
  {
    set j | 0 <= j < i :: Rival(key, j)
  }

  lemma {:induction false} FillWindow(s0: System, key: nat, i: nat) returns (s: System)
    requires Start(s0) && key > 0 && i <= PROBES
    ensures Reaches(s0, s) && Filling(s, key, i)
  {
    if i == 0 {
      s := s0;
      ReachesSelf(s0);
    } else {
      var u := FillWindow(s0, key, i - 1);
      var k := Rival(key, i - 1);
      forall q | 0 <= q < i - 1 ensures u.slots[Place(k, q)] != 0 && u.slots[Place(k, q)] != k {
        RivalSharesWindow(key, i - 1, q);
      }
      RivalSharesWindow(key, i - 1, i - 1);
      LoneCallClaims(s0, u, 0, k, i - 1);
      s := u.(slots := u.slots[Place(k, i - 1) := k]).Answered(0, k, Claimed);
      forall q | 0 <= q < PROBES && q != i - 1 ensures s.slots[Place(key, q)] == u.slots[Place(key, q)] {
        PlacesApart(key, if q < i - 1 then q else i - 1, if q < i - 1 then i - 1 else q);
      }
      OneMoreRival(u.log, key, i);
    }
  }

  lemma OneMoreRival(log: seq<Answer>, key: nat, i: nat)
    requires 0 < i <= PROBES && Keys(log) == Rivals(key, i - 1)
    ensures Keys(log + [Answer(Rival(key, i - 1), Claimed)]) == Rivals(key, i)
  {
    var log' := log + [Answer(Rival(key, i - 1), Claimed)];
    forall x ensures x in Keys(log') <==> x in Rivals(key, i) {
      if x in Keys(log) { var n :| 0 <= n < |log| && log[n].key == x; assert log'[n].key == x; }
      assert log'[|log|].key == Rival(key, i - 1);
      if x in Rivals(key, i) { var j :| 0 <= j < i && Rival(key, j) == x; assert j < i - 1 ==> x in Rivals(key, i - 1); }
    }
  }

  /** The other half of the dichotomy happens, for every key: 64 calls about other keys fill its window, and
      then one call after another about it is answered as new.  So 64 is the exact number. */
  lemma WindowFillsUp(s0: System, key: nat) returns (s: System)
    requires Start(s0)
    ensures var k := if key == 0 then 1 else key;
      && Reaches(s0, s) && Crowded(s.slots, k) && |Keys(s.log) - {k}| == 64
      && |s.log| == 66 && s.log[64..] == [Answer(k, OutOfProbes), Answer(k, OutOfProbes)]
      && (key < KEYS ==> forall i | 0 <= i < |s.log| :: s.log[i].key < KEYS)
  {
    var k := Normalised(key);
    var u := FillWindow(s0, k, PROBES);
    assert Crowded(u.slots, k);
    LoneCallFails(s0, u, 0, key);
    var v := u.Answered(0, k, OutOfProbes);
    LoneCallFails(s0, v, 0, key);
    s := v.Answered(0, k, OutOfProbes);
    CountRivals(k, PROBES);
    KeysAfter(u.log, k);
    assert s.log == u.log + [Answer(k, OutOfProbes), Answer(k, OutOfProbes)];
    assert k !in Rivals(k, PROBES);
    assert Keys(s.log) - {k} == Rivals(k, PROBES);
    forall i | 0 <= i < |s.log| && key < KEYS ensures s.log[i].key < KEYS { assert s.log[i].key in Keys(s.log); }
  }

  lemma KeysAfter(log: seq<Answer>, k: nat)
    ensures Keys(log + [Answer(k, OutOfProbes), Answer(k, OutOfProbes)]) == Keys(log) + {k}
  {
    var log' := log + [Answer(k, OutOfProbes), Answer(k, OutOfProbes)];
    forall x ensures x in Keys(log') <==> x in Keys(log) || x == k {
      if x in Keys(log) { var n :| 0 <= n < |log| && log[n].key == x; assert log'[n].key == x; }
      assert log'[|log|].key == k;
    }
  }

  lemma {:induction false} CountRivals(key: nat, i: nat)
    requires i <= PROBES
    ensures |Rivals(key, i)| == i
  {
    if i > 0 {
      CountRivals(key, i - 1);
      assert Rivals(key, i) == Rivals(key, i - 1) + {Rival(key, i - 1)};
      assert Rival(key, i - 1) !in Rivals(key, i - 1);
    }
  }

  // ---------------------------------------------------------------- Progress, and one call alone

  /** Accesses a call may still make: two a probe. */
  function Left(pc: Pc): int {
    match pc
    case Idle => 0
    case Reading(_, p) => 2 * (PROBES - p)
    case Claiming(_, p) => 2 * (PROBES - p) - 1
  }

  /** Whatever the others do, a call ends after at most 128 accesses of its own. */
  lemma WaitFree(s: System, t: int, a: Action)
    requires Invariant(s) && Enabled(s, t, a)
    ensures a.Access? ==> 0 <= Left(Next(s, t, a).At(t)) < Left(s.At(t))
    ensures a.Call? ==> Left(Next(s, t, a).At(t)) == 128
    ensures forall u | u != t :: Next(s, t, a).At(u) == s.At(u)
  {
    assert ThreadOk(s, t);
  }

  class DedupTable {
    const slots: array<nat>

    constructor ()
      ensures fresh(slots) && slots.Length == 16384 && Probed(slots[..])
      ensures forall key :: key != 0 ==> !Recorded(slots[..], key)
    {
      slots := new nat[TABLE](_ => 0);
    }

    /** One call while no other is under way. */
    method MarkOnce(key: nat) returns (seen: bool)
      requires slots.Length == TABLE && Probed(slots[..])
      modifies slots
      ensures Probed(slots[..])
      ensures Marks(old(slots[..]), if key == 0 then 1 else key, seen, slots[..])
      ensures key > 0 ==> (seen <==> Recorded(old(slots[..]), key)) && (Recorded(slots[..], key) || Crowded(slots[..], key))
      ensures forall other | other != 0 && other != (if key == 0 then 1 else key) :: Recorded(slots[..], other) <==> Recorded(old(slots[..]), other)
    {
      var k: nat := if key == 0 then 1 else key;
      var base := k % TABLE;
      ghost var was := slots[..];
      var probe := 0;
      while probe < PROBES
        invariant probe <= PROBES && slots[..] == was && Passed(was, k, probe)
      {
        var idx := (base + probe) % TABLE;
        assert idx == Place(k, probe);
        if slots[idx] == k {
          assert SitsAt(was, k, probe);
          return true;
        }
        if slots[idx] == 0 {
          ClaimKeeps(was, k, probe);
          ClaimSparesOthers(was, k, probe);
          slots[idx] := k;
          assert slots[..] == was[Place(k, probe) := k];
          return false;
        }
        probe := probe + 1;
      }
      return false;
    }
  }
}
