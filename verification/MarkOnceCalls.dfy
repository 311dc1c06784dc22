/** The once-only set as its callers see it: what a call answers, told from the calls that were made. */
module MarkOnceCalls {
  import opened MarkOnce

  /** Zero counts as one. */
  predicate SameKey(x: nat, y: nat) { x == y || (x <= 1 && y <= 1) }

  /** The call made at move `c` is answered at move `k`: the same thread, which made no call between. */
  predicate Ends(ss: seq<System>, ts: seq<int>, acts: seq<Action>, c: nat, k: nat)
    requires |ss| == |ts| + 1 && |acts| == |ts|
  {
    && c < k < |ts| && ts[c] == ts[k] && acts[c].Call?
    && (forall m | c < m <= k && ts[m] == ts[k] :: acts[m].Access?)
    && |ss[k].log| < |ss[k + 1].log|
  }

  /** What the caller is told at move `k`. */
  predicate SaysSeen(ss: seq<System>, k: nat)
    requires k + 1 < |ss| && |ss[k].log| < |ss[k + 1].log|
  {
    ss[k + 1].log[|ss[k].log|].Seen()
  }

  // ---------------------------------------------------------------- Calls and answers

  /** The call a thread is in, and the key it carries. */
  lemma {:induction false} CallOf(ss: seq<System>, ts: seq<int>, acts: seq<Action>, t: int, k: nat) returns (c: nat)
    requires IsRun(ss, ts, acts) && Start(ss[0]) && k < |ss| && !ss[k].At(t).Idle?
    ensures c < k && ts[c] == t && acts[c].Call? && forall m | c < m < k && ts[m] == t :: acts[m].Access?
    ensures ss[k].At(t).key == if acts[c].key == 0 then 1 else acts[c].key
  {
    assert k > 0;
    assert acts[k - 1] == acts[k - 1];
    if ts[k - 1] == t && acts[k - 1].Call? {
      c := k - 1;
    } else {
      c := CallOf(ss, ts, acts, t, k - 1);
    }
  }

  /** Every answer is to the call that its thread made, and about the key of that call. */
  lemma AnswersOwnCall(ss: seq<System>, ts: seq<int>, acts: seq<Action>, k: nat) returns (c: nat)
    requires IsRun(ss, ts, acts) && Start(ss[0]) && k < |ts| && |ss[k].log| < |ss[k + 1].log|
    ensures Ends(ss, ts, acts, c, k)
    ensures |ss[k + 1].log| == |ss[k].log| + 1
    ensures ss[k + 1].log[|ss[k].log|].key == if acts[c].key == 0 then 1 else acts[c].key
  {
    assert acts[k] == acts[k];
    c := CallOf(ss, ts, acts, ts[k], k);
  }

  lemma {:induction false} LogGrowsAlong(ss: seq<System>, ts: seq<int>, acts: seq<Action>, i: nat, j: nat)
    requires IsRun(ss, ts, acts) && Start(ss[0]) && i <= j < |ss|
    ensures ss[i].log <= ss[j].log
  {
    if i < j {
      LogGrowsAlong(ss, ts, acts, i, j - 1);
      RunPast(ss, ts, acts, j - 1);
      assert acts[j - 1] == acts[j - 1];
      hide Next, Enabled, Invariant, Extends, Start;
      StepKeeps(ss[j - 1], ts[j - 1], acts[j - 1]);
    }
  }

  /** The move that wrote the `i`-th answer. */
  lemma {:induction false} AnswerMove(ss: seq<System>, ts: seq<int>, acts: seq<Action>, n: nat, i: nat) returns (k: nat)
    requires IsRun(ss, ts, acts) && Start(ss[0]) && n < |ss| && i < |ss[n].log|
    ensures k < n && |ss[k].log| == i < |ss[k + 1].log|
  {
    assert n > 0;
    if i < |ss[n - 1].log| {
      k := AnswerMove(ss, ts, acts, n - 1, i);
    } else {
      k := n - 1;
      var c := AnswersOwnCall(ss, ts, acts, k);
    }
  }

  /** An earlier call about the same key was answered. */
  ghost predicate AnsweredBefore(ss: seq<System>, ts: seq<int>, acts: seq<Action>, c: nat, k: nat)
    requires |ss| == |ts| + 1 && |acts| == |ts| && c < |acts| && acts[c].Call?
  {
    exists d: nat, j: nat :: Ends(ss, ts, acts, d, j) && j < k && SameKey(acts[d].key, acts[c].key)
  }

  /** The log has the key before move `k` exactly when an earlier call was about it. */
  lemma LogTellsCalls(ss: seq<System>, ts: seq<int>, acts: seq<Action>, c: nat, k: nat)
    requires IsRun(ss, ts, acts) && Start(ss[0]) && c < k < |ts| && acts[c].Call?
    ensures Answered(ss[k].log, if acts[c].key == 0 then 1 else acts[c].key) <==> AnsweredBefore(ss, ts, acts, c, k)
  {
    hide Start;
    if Answered(ss[k].log, if acts[c].key == 0 then 1 else acts[c].key) {
      var i :| 0 <= i < |ss[k].log| && ss[k].log[i].key == if acts[c].key == 0 then 1 else acts[c].key;
      LogToCall(ss, ts, acts, c, k, i);
    }
    if AnsweredBefore(ss, ts, acts, c, k) {
      var d: nat, j: nat :| Ends(ss, ts, acts, d, j) && j < k && SameKey(acts[d].key, acts[c].key);
      CallToLog(ss, ts, acts, c, k, d, j);
    }
  }

  lemma LogToCall(ss: seq<System>, ts: seq<int>, acts: seq<Action>, c: nat, k: nat, i: nat)
    requires IsRun(ss, ts, acts) && Start(ss[0]) && c < k < |ts| && acts[c].Call?
    requires i < |ss[k].log| && ss[k].log[i].key == if acts[c].key == 0 then 1 else acts[c].key
    ensures AnsweredBefore(ss, ts, acts, c, k)
  {
    var j := AnswerMove(ss, ts, acts, k, i);
    var d := AnswersOwnCall(ss, ts, acts, j);
    LogGrowsAlong(ss, ts, acts, j + 1, k);
    assert SameKey(acts[d].key, acts[c].key);
  }

  lemma CallToLog(ss: seq<System>, ts: seq<int>, acts: seq<Action>, c: nat, k: nat, d: nat, j: nat)
    requires IsRun(ss, ts, acts) && Start(ss[0]) && c < k < |ts| && acts[c].Call?
    requires Ends(ss, ts, acts, d, j) && j < k && SameKey(acts[d].key, acts[c].key)
    ensures Answered(ss[k].log, if acts[c].key == 0 then 1 else acts[c].key)
  {
    var e := AnswersOwnCall(ss, ts, acts, j);
    EndsOnce(ss, ts, acts, d, e, j);
    LogGrowsAlong(ss, ts, acts, j + 1, k);
    assert ss[k].log[|ss[j].log|].key == if acts[c].key == 0 then 1 else acts[c].key;
  }

  lemma EndsOnce(ss: seq<System>, ts: seq<int>, acts: seq<Action>, c: nat, d: nat, k: nat)
    requires |ss| == |ts| + 1 && |acts| == |ts| && Ends(ss, ts, acts, c, k) && Ends(ss, ts, acts, d, k)
    ensures c == d
  {
  }

  /** In every interleaving a call is answered seen exactly when a call about the same key was answered before
      it, and the 64 places of the key are not all taken by others. */
  lemma SeenExactly(ss: seq<System>, ts: seq<int>, acts: seq<Action>, c: nat, k: nat)
    requires IsRun(ss, ts, acts) && Start(ss[0]) && Ends(ss, ts, acts, c, k)
    ensures SaysSeen(ss, k) <==>
      AnsweredBefore(ss, ts, acts, c, k) && !Crowded(ss[k + 1].slots, if acts[c].key == 0 then 1 else acts[c].key)
  {
    var d := AnswersOwnCall(ss, ts, acts, k);
    EndsOnce(ss, ts, acts, c, d, k);
    LogTellsCalls(ss, ts, acts, c, k);
    LogGrowsAlong(ss, ts, acts, k, k + 1);
    RunPast(ss, ts, acts, k + 1);
    var i := |ss[k].log|;
    assert ss[k + 1].log[..i] == ss[k].log;
    hide Crowded, IsRun, Probed, ThreadOk, AnswerOk;
    assert SetLike(ss[k + 1].slots, ss[k + 1].log);
  }

  /** So for every key, under every interleaving: either the first call answered is told new and all later ones
      seen, for ever; or every call is told new, for ever, its places being taken by 64 other keys. */
  lemma CallsOnceOrAlways(ss: seq<System>, ts: seq<int>, acts: seq<Action>, key: nat)
    requires IsRun(ss, ts, acts) && Start(ss[0])
    ensures var crowded := Crowded(ss[|ts|].slots, if key == 0 then 1 else key);
      forall c: nat, k: nat | Ends(ss, ts, acts, c, k) && SameKey(acts[c].key, key) ::
        SaysSeen(ss, k) <==> AnsweredBefore(ss, ts, acts, c, k) && !crowded
  {
    forall c: nat, k: nat | Ends(ss, ts, acts, c, k) && SameKey(acts[c].key, key)
      ensures SaysSeen(ss, k) <==>
        AnsweredBefore(ss, ts, acts, c, k) && !Crowded(ss[|ts|].slots, if key == 0 then 1 else key)
    {
      SeenExactly(ss, ts, acts, c, k);
      CrowdedAlways(ss, ts, acts, c, k);
    }
  }

  /** Whether a key that was answered is crowded out is settled with the answer. */
  lemma CrowdedAlways(ss: seq<System>, ts: seq<int>, acts: seq<Action>, c: nat, k: nat)
    requires IsRun(ss, ts, acts) && Start(ss[0]) && Ends(ss, ts, acts, c, k)
    ensures var key := if acts[c].key == 0 then 1 else acts[c].key;
      Crowded(ss[k + 1].slots, key) <==> Crowded(ss[|ts|].slots, key)
  {
    var key := if acts[c].key == 0 then 1 else acts[c].key;
    var d := AnswersOwnCall(ss, ts, acts, k);
    EndsOnce(ss, ts, acts, c, d, k);
    RunPast(ss, ts, acts, k + 1);
    var a := ss[k + 1].log[|ss[k].log|];
    assert AnswerOk(ss[k + 1].slots, a);
    hide Invariant, IsRun;
    AnswerStays(ss[k + 1].slots, ss[|ts|].slots, a);
  }
}
