/**
 The SM-aware scheduler of the fused kernels (pod_attn/pod_attn/fused_fwd_kernel.h): thread
 blocks take tickets and slots from shared counters with `atomicAdd`, in any interleaving. One
 step of the model is one `atomicAdd` of one thread block.
 */
module Scheduler {
  import opened IntMath

  datatype Op = Prefill | Decode

  function Other(op: Op): Op {
    if op == Prefill then Decode else Prefill
  }

  /**
   The slots of both operations, the number of SMs, whether tickets follow the ratio of the two
   (`FusedOp & 1`), and whether the thread blocks loop (the persistent kernel).
   */
  datatype Launch = Launch(prefill: nat, decode: nat, sms: nat, proportional: bool, persistent: bool) {
    predicate Valid() {
      sms > 0 && (proportional ==> prefill > 0 && decode > 0)
    }

    function Limit(op: Op): nat {
      if op == Prefill then prefill else decode
    }

    /** The operation a ticket of an SM stands for. */
    function Preferred(ticket: nat): Op
      requires Valid()
    {
      if proportional then
        if prefill <= decode then
          var totalTags := decode / prefill + 1;
          if ticket % totalTags > 0 then Decode else Prefill
        else
          var prefTags := prefill / decode;
          if ticket % (prefTags + 1) < prefTags then Prefill else Decode
      else if ticket % 2 == 0 then Prefill else Decode
    }

    /** The place of an operation's counter behind the SM tickets in `tbAssign`. */
    function Index(op: Op): nat {
      if op == Prefill then sms else sms + 1
    }
  }

  /** Where a thread block is between two `atomicAdd`s. */
  datatype Pc =
    | Start               // about to take a ticket of its SM
    | Draw(op: Op)        // about to draw a slot of its preferred operation
    | Redraw(op: Op)      // its first draw was out of range: about to draw from the other operation
    | Done                // holds a slot and computes it
    | Exited              // drew out of range twice and returned

  datatype Cta = Cta(sm: nat, pc: Pc)

  datatype Claim = Claim(cta: nat, op: Op, slot: nat)

  /** The shared array `tbAssign`, the thread blocks, and the slots claimed so far in order. */
  datatype State = State(tbAssign: seq<nat>, ctas: seq<Cta>, log: seq<Claim>)

  predicate WellFormed(l: Launch, s: State) {
    && l.Valid()
    && |s.tbAssign| == l.sms + 2
    && forall i :: 0 <= i < |s.ctas| ==> s.ctas[i].sm < l.sms
  }

  function Counter(l: Launch, s: State, op: Op): nat
    requires WellFormed(l, s)
  {
    s.tbAssign[l.Index(op)]
  }

  predicate Live(pc: Pc) {
    !pc.Done? && !pc.Exited?
  }

  /** What thread block `i` does with the slot it settles on. */
  function Settle(l: Launch, s: State, i: nat, op: Op, slot: nat): State
    requires i < |s.ctas|
  {
    if slot < l.Limit(op) then
      s.(ctas := s.ctas[i := s.ctas[i].(pc := if l.persistent then Start else Done)],
         log := s.log + [Claim(i, op, slot)])
    else
      s.(ctas := s.ctas[i := s.ctas[i].(pc := Exited)])
  }

  /** One `atomicAdd` of thread block `i`, with the local code up to its next one. */
  function Step(l: Launch, s: State, i: nat): State
    requires WellFormed(l, s) && i < |s.ctas| && Live(s.ctas[i].pc)
  {
    var c := s.ctas[i];
    match c.pc
    case Start =>
      State(s.tbAssign[c.sm := s.tbAssign[c.sm] + 1], s.ctas[i := c.(pc := Draw(l.Preferred(s.tbAssign[c.sm])))], s.log)
    case Draw(op) =>
      var slot := Counter(l, s, op);
      var s' := s.(tbAssign := s.tbAssign[l.Index(op) := slot + 1]);
      if slot >= l.Limit(op) then s'.(ctas := s.ctas[i := c.(pc := Redraw(Other(op)))])
      else Settle(l, s', i, op, slot)
    case Redraw(op) =>
      var slot := Counter(l, s, op);
      Settle(l, s.(tbAssign := s.tbAssign[l.Index(op) := slot + 1]), i, op, slot)
  }

  function Init(l: Launch, assignment: seq<nat>): State {
    State(seq(l.sms + 2, _ => 0), seq(|assignment|, i requires 0 <= i < |assignment| => Cta(assignment[i], Start)), [])
  }

  lemma StepWellFormed(l: Launch, s: State, i: nat)
    requires WellFormed(l, s) && i < |s.ctas| && Live(s.ctas[i].pc)
    ensures WellFormed(l, Step(l, s, i)) && |Step(l, s, i).ctas| == |s.ctas|
  {
  }

  /** Runs a schedule: at each point the next thread block that moves. Blocks that have finished do not move. */
  function Run(l: Launch, s: State, schedule: seq<nat>): (r: State)
    requires WellFormed(l, s)
    ensures WellFormed(l, r) && |r.ctas| == |s.ctas|
    decreases |schedule|
  {
    if schedule == [] then s
    else
      var i := schedule[0];
      if i < |s.ctas| && Live(s.ctas[i].pc) then
        StepWellFormed(l, s, i);
        Run(l, Step(l, s, i), schedule[1..])
      else Run(l, s, schedule[1..])
  }

  // ----- The invariant

  function Claimed(l: Launch, s: State): nat
    requires WellFormed(l, s)
  {
    Min(Counter(l, s, Prefill), l.prefill) + Min(Counter(l, s, Decode), l.decode)
  }

  /** Every claim is of a slot that was drawn, and no slot is claimed twice. */
  ghost predicate ClaimsDistinct(l: Launch, s: State)
    requires WellFormed(l, s)
  {
    && (forall a :: 0 <= a < |s.log| ==> s.log[a].slot < Min(Counter(l, s, s.log[a].op), l.Limit(s.log[a].op)))
    && forall a, b :: 0 <= a < b < |s.log| ==> s.log[a].op != s.log[b].op || s.log[a].slot != s.log[b].slot
  }

  ghost predicate InLog(log: seq<Claim>, op: Op, slot: nat) {
    exists a :: 0 <= a < |log| && log[a].op == op && log[a].slot == slot
  }

  /** Every slot that was drawn and exists is claimed. */
  ghost predicate ClaimsComplete(l: Launch, s: State)
    requires WellFormed(l, s)
  {
    forall op: Op, slot: nat :: slot < Min(Counter(l, s, op), l.Limit(op)) ==> InLog(s.log, op, slot)
  }

  predicate Exhausted(l: Launch, s: State, op: Op)
    requires WellFormed(l, s)
  {
    Counter(l, s, op) >= l.Limit(op)
  }

  /** A thread block redraws only after its preferred counter ran out, and exits only after both did. */
  ghost predicate PcsJustified(l: Launch, s: State)
    requires WellFormed(l, s)
  {
    forall i :: 0 <= i < |s.ctas| ==>
      match s.ctas[i].pc
      case Redraw(op) => Exhausted(l, s, Other(op))
      case Exited => Exhausted(l, s, Prefill) && Exhausted(l, s, Decode)
      case _ => true
  }

  /** How many thread blocks are at `pc`. */
  function Count(ctas: seq<Cta>, pc: Pc): nat {
    if ctas == [] then 0 else (if ctas[0].pc == pc then 1 else 0) + Count(ctas[1..], pc)
  }

  ghost predicate Inv(l: Launch, s: State) {
    && WellFormed(l, s)
    && ClaimsDistinct(l, s)
    && ClaimsComplete(l, s)
    && |s.log| == Claimed(l, s)
    && PcsJustified(l, s)
    && (if l.persistent then Count(s.ctas, Done) == 0 else Count(s.ctas, Done) == |s.log|)
  }

  lemma {:induction false} CountUpdate(ctas: seq<Cta>, i: nat, c: Cta, pc: Pc)
    requires i < |ctas|
    ensures Count(ctas[i := c], pc) ==
            Count(ctas, pc) - (if ctas[i].pc == pc then 1 else 0) + (if c.pc == pc then 1 else 0)
  {
    if i == 0 {
      assert ctas[0 := c][1..] == ctas[1..];
    } else {
      assert ctas[i := c][1..] == ctas[1..][i - 1 := c];
      CountUpdate(ctas[1..], i - 1, c, pc);
    }
  }

  lemma {:induction false} CountZero(ctas: seq<Cta>, pc: Pc)
    ensures Count(ctas, pc) == 0 <==> forall i :: 0 <= i < |ctas| ==> ctas[i].pc != pc
  {
    if ctas != [] {
      CountZero(ctas[1..], pc);
      assert forall i :: 0 < i < |ctas| ==> ctas[i] == ctas[1..][i - 1];
    }
  }

  lemma InitInv(l: Launch, assignment: seq<nat>)
    requires l.Valid() && forall i :: 0 <= i < |assignment| ==> assignment[i] < l.sms
    ensures Inv(l, Init(l, assignment))
  {
    CountZero(Init(l, assignment).ctas, Done);
  }

  lemma ClaimStaysComplete(l: Launch, s: State, s': State, i: nat, op: Op, slot: nat)
    requires WellFormed(l, s) && ClaimsComplete(l, s) && WellFormed(l, s') && slot == Counter(l, s, op) < l.Limit(op)
    requires s'.tbAssign == s.tbAssign[l.Index(op) := slot + 1] && s'.log == s.log + [Claim(i, op, slot)]
    ensures ClaimsComplete(l, s')
  {
    forall o: Op, k: nat | k < Min(Counter(l, s', o), l.Limit(o))
      ensures InLog(s'.log, o, k)
    {
      if o == op && k == slot {
        assert s'.log[|s.log|] == Claim(i, op, slot);
      } else {
        assert InLog(s.log, o, k);
        var a :| 0 <= a < |s.log| && s.log[a].op == o && s.log[a].slot == k;
        assert s'.log[a] == s.log[a];
      }
    }
  }

  /** A draw within range keeps the claims exact. */
  lemma ClaimKeeps(l: Launch, s: State, s': State, i: nat, op: Op, slot: nat)
    requires Inv(l, s) && WellFormed(l, s') && slot == Counter(l, s, op) < l.Limit(op)
    requires s'.tbAssign == s.tbAssign[l.Index(op) := slot + 1] && s'.log == s.log + [Claim(i, op, slot)]
    ensures ClaimsDistinct(l, s') && ClaimsComplete(l, s') && |s'.log| == Claimed(l, s')
  {
    ClaimStaysComplete(l, s, s', i, op, slot);
    assert Counter(l, s', op) == slot + 1 && Counter(l, s', Other(op)) == Counter(l, s, Other(op));
  }

  /** A draw out of range claims nothing and changes no claim. */
  lemma MissKeeps(l: Launch, s: State, s': State, op: Op)
    requires Inv(l, s) && WellFormed(l, s') && Exhausted(l, s, op)
    requires s'.tbAssign == s.tbAssign[l.Index(op) := Counter(l, s, op) + 1] && s'.log == s.log
    ensures ClaimsDistinct(l, s') && ClaimsComplete(l, s') && |s'.log| == Claimed(l, s')
  {
    forall o: Op, k: nat | k < Min(Counter(l, s', o), l.Limit(o))
      ensures InLog(s'.log, o, k)
    {
      assert InLog(s.log, o, k);
    }
  }

  lemma DrawKeeps(l: Launch, s: State, s': State, i: nat, op: Op)
    requires Inv(l, s) && i < |s.ctas| && (s.ctas[i].pc == Draw(op) || s.ctas[i].pc == Redraw(op))
    requires s' == Step(l, s, i) && WellFormed(l, s')
    ensures ClaimsDistinct(l, s') && ClaimsComplete(l, s') && |s'.log| == Claimed(l, s') && PcsJustified(l, s')
  {
    if Exhausted(l, s, op) {
      MissKeeps(l, s, s', op);
    } else {
      ClaimKeeps(l, s, s', i, op, Counter(l, s, op));
    }
  }

  lemma StepInv(l: Launch, s: State, i: nat)
    requires Inv(l, s) && i < |s.ctas| && Live(s.ctas[i].pc)
    ensures Inv(l, Step(l, s, i))
  {
    StepWellFormed(l, s, i);
    var s' := Step(l, s, i);
    CountUpdate(s.ctas, i, s'.ctas[i], Done);
    assert s'.ctas == s.ctas[i := s'.ctas[i]];
    match s.ctas[i].pc
    case Start =>
      forall o: Op, k: nat | k < Min(Counter(l, s', o), l.Limit(o))
        ensures InLog(s'.log, o, k)
      {
        assert InLog(s.log, o, k);
      }
    case Draw(op) => DrawKeeps(l, s, s', i, op);
    case Redraw(op) => DrawKeeps(l, s, s', i, op);
  }

  /** The invariant holds after every schedule. */
  lemma {:induction false} RunInv(l: Launch, s: State, schedule: seq<nat>)
    requires Inv(l, s)
    ensures Inv(l, Run(l, s, schedule))
    decreases |schedule|
  {
    if schedule != [] {
      var i := schedule[0];
      if i < |s.ctas| && Live(s.ctas[i].pc) {
        StepInv(l, s, i);
        StepWellFormed(l, s, i);
        RunInv(l, Step(l, s, i), schedule[1..]);
      } else {
        RunInv(l, s, schedule[1..]);
      }
    }
  }

  // ----- What every run achieves

  predicate Finished(s: State) {
    forall i :: 0 <= i < |s.ctas| ==> !Live(s.ctas[i].pc)
  }

  /** The slot has exactly one claim, at position `a` of the log. */
  ghost predicate ClaimedAt(log: seq<Claim>, op: Op, slot: nat, a: int) {
    && 0 <= a < |log| && log[a].op == op && log[a].slot == slot
    && forall b :: 0 <= b < |log| && log[b].op == op && log[b].slot == slot ==> b == a
  }

  ghost predicate ClaimedOnce(log: seq<Claim>, op: Op, slot: nat) {
    exists a :: ClaimedAt(log, op, slot, a)
  }

  /** Every slot of both operations is claimed exactly once. */
  ghost predicate AllClaimedOnce(l: Launch, s: State) {
    forall op: Op, slot: nat :: slot < l.Limit(op) ==> ClaimedOnce(s.log, op, slot)
  }

  lemma ExhaustedMeansAllClaimed(l: Launch, s: State)
    requires Inv(l, s) && Exhausted(l, s, Prefill) && Exhausted(l, s, Decode)
    ensures AllClaimedOnce(l, s) && |s.log| == l.prefill + l.decode
  {
    forall op: Op, slot: nat | slot < l.Limit(op)
      ensures ClaimedOnce(s.log, op, slot)
    {
      assert Exhausted(l, s, op) && InLog(s.log, op, slot);
      var a :| 0 <= a < |s.log| && s.log[a].op == op && s.log[a].slot == slot;
      assert ClaimedAt(s.log, op, slot, a);
    }
  }

  lemma {:induction false} CountSplit(ctas: seq<Cta>)
    ensures Count(ctas, Done) + Count(ctas, Exited) <= |ctas|
    ensures (forall i :: 0 <= i < |ctas| ==> !Live(ctas[i].pc)) ==> Count(ctas, Done) + Count(ctas, Exited) == |ctas|
  {
    if ctas != [] {
      CountSplit(ctas[1..]);
      assert forall i :: 0 < i < |ctas| ==> ctas[i] == ctas[1..][i - 1];
    }
  }

  /** As soon as one thread block has exited, both counters are exhausted and all slots are claimed. */
  lemma ExitMeansAllClaimed(l: Launch, s: State)
    requires Inv(l, s) && Count(s.ctas, Exited) > 0
    ensures AllClaimedOnce(l, s) && |s.log| == l.prefill + l.decode
  {
    CountZero(s.ctas, Exited);
    var i :| 0 <= i < |s.ctas| && s.ctas[i].pc == Exited;
    ExhaustedMeansAllClaimed(l, s);
  }

  /**
   The launch with one thread block per slot: at every point of every interleaving, on any
   assignment of thread blocks to SMs, no slot is claimed twice and no thread block has come away
   empty, and when all have finished every slot of both operations is claimed exactly once.
   */
  lemma OneShotExact(l: Launch, assignment: seq<nat>, schedule: seq<nat>)
    requires l.Valid() && !l.persistent && forall i :: 0 <= i < |assignment| ==> assignment[i] < l.sms
    requires |assignment| == l.prefill + l.decode
    ensures var s := Run(l, Init(l, assignment), schedule);
            && ClaimsDistinct(l, s)
            && (forall i :: 0 <= i < |s.ctas| ==> s.ctas[i].pc != Exited)
            && (Finished(s) ==> AllClaimedOnce(l, s))
  {
    InitInv(l, assignment);
    RunInv(l, Init(l, assignment), schedule);
    var s := Run(l, Init(l, assignment), schedule);
    CountSplit(s.ctas);
    CountZero(s.ctas, Exited);
    if Count(s.ctas, Exited) > 0 {
      ExitMeansAllClaimed(l, s);
    }
    if Finished(s) {
      ExhaustedMeansAllClaimed(l, s);
    }
  }

  /** With any number of thread blocks, exactly the surplus comes away empty and exactly the rest claim a slot. */
  lemma OneShotSurplus(l: Launch, assignment: seq<nat>, schedule: seq<nat>)
    requires l.Valid() && !l.persistent && forall i :: 0 <= i < |assignment| ==> assignment[i] < l.sms
    ensures var s := Run(l, Init(l, assignment), schedule);
            Finished(s) ==>
              && |s.log| == Min(|assignment|, l.prefill + l.decode)
              && Count(s.ctas, Exited) == Max(0, |assignment| - (l.prefill + l.decode))
  {
    InitInv(l, assignment);
    RunInv(l, Init(l, assignment), schedule);
    var s := Run(l, Init(l, assignment), schedule);
    CountSplit(s.ctas);
    if Count(s.ctas, Exited) > 0 {
      ExitMeansAllClaimed(l, s);
    }
  }

  /** The persistent launch: with at least one worker, when all have left every slot is claimed exactly once. */
  lemma PersistentExact(l: Launch, assignment: seq<nat>, schedule: seq<nat>)
    requires l.Valid() && l.persistent && forall i :: 0 <= i < |assignment| ==> assignment[i] < l.sms
    requires |assignment| > 0
    ensures var s := Run(l, Init(l, assignment), schedule);
            && ClaimsDistinct(l, s)
            && (forall i :: 0 <= i < |s.ctas| && s.ctas[i].pc == Exited ==> AllClaimedOnce(l, s))
            && (Finished(s) ==> AllClaimedOnce(l, s))
  {
    InitInv(l, assignment);
    RunInv(l, Init(l, assignment), schedule);
    var s := Run(l, Init(l, assignment), schedule);
    CountSplit(s.ctas);
    CountZero(s.ctas, Exited);
    if Count(s.ctas, Exited) > 0 {
      ExitMeansAllClaimed(l, s);
    }
  }

  // ----- Termination

  function Rank(pc: Pc): nat {
    match pc
    case Start => 3
    case Draw(_) => 2
    case Redraw(_) => 1
    case _ => 0
  }

  function RankSum(ctas: seq<Cta>): nat {
    if ctas == [] then 0 else Rank(ctas[0].pc) + RankSum(ctas[1..])
  }

  lemma {:induction false} RankUpdate(ctas: seq<Cta>, i: nat, c: Cta)
    requires i < |ctas|
    ensures RankSum(ctas[i := c]) == RankSum(ctas) - Rank(ctas[i].pc) + Rank(c.pc)
  {
    if i == 0 {
      assert ctas[0 := c][1..] == ctas[1..];
    } else {
      assert ctas[i := c][1..] == ctas[1..][i - 1 := c];
      RankUpdate(ctas[1..], i - 1, c);
    }
  }

  /** Unclaimed slots, three steps each, plus the steps the live thread blocks have left in their round. */
  ghost function Measure(l: Launch, s: State): nat
    requires Inv(l, s)
  {
    3 * (l.prefill + l.decode - |s.log|) + RankSum(s.ctas)
  }

  /** How many steps a schedule takes. */
  function Moves(l: Launch, s: State, schedule: seq<nat>): nat
    requires WellFormed(l, s)
    decreases |schedule|
  {
    if schedule == [] then 0
    else
      var i := schedule[0];
      if i < |s.ctas| && Live(s.ctas[i].pc) then
        StepWellFormed(l, s, i);
        1 + Moves(l, Step(l, s, i), schedule[1..])
      else Moves(l, s, schedule[1..])
  }

  lemma StepDecreases(l: Launch, s: State, i: nat)
    requires Inv(l, s) && i < |s.ctas| && Live(s.ctas[i].pc) && Inv(l, Step(l, s, i))
    ensures Measure(l, Step(l, s, i)) < Measure(l, s)
  {
    var s' := Step(l, s, i);
    assert s'.ctas == s.ctas[i := s'.ctas[i]];
    RankUpdate(s.ctas, i, s'.ctas[i]);
  }

  /** Every step of a schedule uses up part of the measure of the state it starts in. */
  lemma {:induction false} MovesUseMeasure(l: Launch, s: State, schedule: seq<nat>)
    requires Inv(l, s)
    ensures Inv(l, Run(l, s, schedule)) && Moves(l, s, schedule) + Measure(l, Run(l, s, schedule)) <= Measure(l, s)
    decreases |schedule|
  {
    if schedule != [] {
      var i := schedule[0];
      if i < |s.ctas| && Live(s.ctas[i].pc) {
        StepInv(l, s, i);
        StepDecreases(l, s, i);
        MovesUseMeasure(l, Step(l, s, i), schedule[1..]);
      } else {
        MovesUseMeasure(l, s, schedule[1..]);
      }
    }
  }

  /** No schedule can keep the thread blocks moving for more steps than the measure of the state it starts in. */
  lemma RunTerminates(l: Launch, s: State, schedule: seq<nat>)
    requires Inv(l, s)
    ensures Moves(l, s, schedule) <= Measure(l, s)
  {
    MovesUseMeasure(l, s, schedule);
  }

  // ----- Fair schedules finish

  /** The round gives every thread block a turn. */
  ghost predicate NamesAll(round: seq<nat>, ctas: nat) {
    forall i :: 0 <= i < ctas ==> i in round
  }

  ghost predicate Fair(rounds: seq<seq<nat>>, ctas: nat) {
    forall k :: 0 <= k < |rounds| ==> NamesAll(rounds[k], ctas)
  }

  function Flatten(rounds: seq<seq<nat>>): seq<nat> {
    if rounds == [] then [] else rounds[0] + Flatten(rounds[1..])
  }

  lemma {:induction false} RunConcat(l: Launch, s: State, a: seq<nat>, b: seq<nat>)
    requires WellFormed(l, s)
    ensures Run(l, s, a + b) == Run(l, Run(l, s, a), b)
    decreases |a|
  {
    if a == [] {
      assert a + b == b;
    } else {
      assert (a + b)[1..] == a[1..] + b;
      var i := a[0];
      if i < |s.ctas| && Live(s.ctas[i].pc) {
        StepWellFormed(l, s, i);
        RunConcat(l, Step(l, s, i), a[1..], b);
      } else {
        RunConcat(l, s, a[1..], b);
      }
    }
  }

  lemma {:induction false} FinishedStays(l: Launch, s: State, schedule: seq<nat>)
    requires WellFormed(l, s) && Finished(s)
    ensures Run(l, s, schedule) == s
    decreases |schedule|
  {
    if schedule != [] {
      FinishedStays(l, s, schedule[1..]);
    }
  }

  /** A round that names a live thread block moves some thread block. */
  lemma {:induction false} RoundMoves(l: Launch, s: State, round: seq<nat>, i: nat)
    requires WellFormed(l, s) && i < |s.ctas| && Live(s.ctas[i].pc) && i in round
    ensures Moves(l, s, round) >= 1
    decreases |round|
  {
    var first := round[0];
    if !(first < |s.ctas| && Live(s.ctas[first].pc)) {
      RoundMoves(l, s, round[1..], i);
    }
  }

  lemma {:induction false} LiveHasRank(ctas: seq<Cta>, i: nat)
    requires i < |ctas| && Live(ctas[i].pc)
    ensures RankSum(ctas) > 0
    decreases |ctas|
  {
    if i > 0 {
      LiveHasRank(ctas[1..], i - 1);
    }
  }

  /** As many fair rounds as the measure of a state finish every thread block. */
  lemma {:induction false} RoundsFinish(l: Launch, s: State, rounds: seq<seq<nat>>)
    requires Inv(l, s) && Fair(rounds, |s.ctas|) && |rounds| >= Measure(l, s)
    ensures Finished(Run(l, s, Flatten(rounds)))
    decreases |rounds|
  {
    if Finished(s) {
      FinishedStays(l, s, Flatten(rounds));
    } else {
      var i :| 0 <= i < |s.ctas| && Live(s.ctas[i].pc);
      LiveHasRank(s.ctas, i);
      assert NamesAll(rounds[0], |s.ctas|);
      RoundMoves(l, s, rounds[0], i);
      MovesUseMeasure(l, s, rounds[0]);
      RoundsFinish(l, Run(l, s, rounds[0]), rounds[1..]);
      RunConcat(l, s, rounds[0], Flatten(rounds[1..]));
    }
  }

  lemma {:induction false} StartRank(ctas: seq<Cta>)
    requires forall i :: 0 <= i < |ctas| ==> ctas[i].pc == Start
    ensures RankSum(ctas) == 3 * |ctas|
  {
    if ctas != [] {
      StartRank(ctas[1..]);
    }
  }

  /**
   A launch whose thread blocks all keep getting turns, three rounds for every slot and every thread
   block, finishes with every slot of both operations claimed exactly once: with one thread block
   per slot, or with any number of persistent ones.
   */
  lemma FairLaunchCompletes(l: Launch, assignment: seq<nat>, rounds: seq<seq<nat>>)
    requires l.Valid() && forall i :: 0 <= i < |assignment| ==> assignment[i] < l.sms
    requires if l.persistent then |assignment| > 0 else |assignment| == l.prefill + l.decode
    requires Fair(rounds, |assignment|) && |rounds| >= 3 * (l.prefill + l.decode) + 3 * |assignment|
    ensures var s := Run(l, Init(l, assignment), Flatten(rounds)); Finished(s) && AllClaimedOnce(l, s)
  {
    var s := Init(l, assignment);
    InitInv(l, assignment);
    StartRank(s.ctas);
    RoundsFinish(l, s, rounds);
    if l.persistent {
      PersistentExact(l, assignment, Flatten(rounds));
    } else {
      OneShotExact(l, assignment, Flatten(rounds));
    }
  }

  // ----- The mix of operations on one SM

  /** How many of the first `n` tickets of an SM stand for `op`. */
  function TicketsFor(l: Launch, op: Op, n: nat): nat
    requires l.Valid()
  {
    if n == 0 then 0 else TicketsFor(l, op, n - 1) + if l.Preferred(n - 1) == op then 1 else 0
  }

  lemma NextQuotient(a: nat, b: nat)
    requires b > 0
    ensures (a + 1) / b == a / b + if a % b == b - 1 then 1 else 0
  {
    DivMod(a, b);
    DistributeAdd(a / b, 1, b);
    DistributeAdd(a / b + 1, 1, b);
    QuotientUnique(a + 1, b, if a % b == b - 1 then a / b + 1 else a / b);
  }

  lemma RoundUpQuotient(a: nat, b: nat)
    requires b > 0
    ensures (a + b - 1) % b == b - 1 <==> a % b == 0
  {
    DivMod(a, b);
    DistributeAdd(a / b, 1, b);
    DistributeAdd(a / b + 1, 1, b);
    QuotientUnique(a + b - 1, b, if a % b == 0 then a / b else a / b + 1);
  }

  lemma {:induction false} PrefillTickets(l: Launch, tags: nat, n: nat)
    requires l.Valid() && l.proportional && l.prefill <= l.decode && tags == l.decode / l.prefill + 1
    ensures TicketsFor(l, Prefill, n) == (n + tags - 1) / tags
    decreases n
  {
    if n == 0 {
      QuotientUnique(tags - 1, tags, 0);
    } else {
      PrefillTickets(l, tags, n - 1);
      NextQuotient(n - 1 + tags - 1, tags);
      RoundUpQuotient(n - 1, tags);
    }
  }

  lemma {:induction false} DecodeTickets(l: Launch, tags: nat, n: nat)
    requires l.Valid() && l.proportional && l.prefill > l.decode && tags == l.prefill / l.decode + 1
    ensures TicketsFor(l, Decode, n) == n / tags
    decreases n
  {
    if n == 0 {
      QuotientUnique(0, tags, 0);
    } else {
      DecodeTickets(l, tags, n - 1);
      NextQuotient(n - 1, tags);
    }
  }

  /**
   The rarer operation gets one ticket in every `ratio + 1`, where `ratio` is the quotient of the
   slot counts: the first of each group if it is prefill, the last if it is decode.
   */
  lemma TicketMix(l: Launch, n: nat)
    requires l.Valid() && l.proportional
    ensures l.prefill <= l.decode ==>
      TicketsFor(l, Prefill, n) == (n + l.decode / l.prefill) / (l.decode / l.prefill + 1)
    ensures l.prefill > l.decode ==> TicketsFor(l, Decode, n) == n / (l.prefill / l.decode + 1)
  {
    if l.prefill <= l.decode {
      PrefillTickets(l, l.decode / l.prefill + 1, n);
    } else {
      DecodeTickets(l, l.prefill / l.decode + 1, n);
    }
  }
}
