/** Flow-execution bookkeeping of the scheduler: the starting-index clamp,
    the in-order action loop that stops at the first error, the cancellation
    and approval gates in front of each action, the sanitising of result keys
    with a node suffix, the folding of suffixed keys into the outputs map, and
    the local path of a pulled artifact. */
module SchedulerHandlers {
  import opened Common

  // ---------------------------------------------------------------------
  // Data

  /** A value of the flow's outputs map: a result stored at the top level,
      or the map holding one node's results. */
  datatype OutputValue = Text(text: string) | PerNode(entries: map<string, string>)

  type Outputs = map<string, OutputValue>

  /** The fields of an action that the bookkeeping looks at. */
  datatype Action = Action(id: string, name: string, approval: bool)

  datatype FlowError =
    | InvalidNamespace
    | ActionIdUpdateFailed
    | ApprovalLookupFailed
    | ActionRejected(actionName: string)
    | PendingApproval
    | ApprovalRequestFailed
    | ExecutionCancelled
    | ActionFailed(message: string)
    | CheckpointFailed

  // ---------------------------------------------------------------------
  // executeFlow: index clamp and the action loop

  /** The starting action index, clamped into [0, count]. */
  function ClampStart(idx: int, count: nat): (r: nat)
    ensures r <= count
    ensures 0 <= idx <= count ==> r == idx
    ensures idx < 0 ==> r == 0
    ensures idx > count ==> r == count
  {
    if idx < 0 then 0 else if idx > count then count else idx
  }

  /** What executeSingleAction answers for one action. */
  datatype StepResult = Step(results: map<string, string>) | StepError(err: FlowError)

  /** An action's answer is results that fold into `outputs` without a
      panic, independently of the walk order. */
  ghost predicate FoldsCleanly(step: StepResult, outputs: Outputs)
  {
    step.Step? && NoClash(outputs, step.results)
  }

  datatype FlowOutcome =
    | SetupFailed
    | Completed(outputs: Outputs)
    | Stopped(at: nat, err: FlowError)
    | OutputsPanicked(at: nat)

  /** executeFlow. `setupOk` stands for creating the artifact directory and
      the stream logger; `attempt(i, outputs)` is what executeSingleAction
      answers for action i given the outputs gathered so far. The ghost
      `ran` lists the actions attempted and `seen` the outputs each of them
      was given. */
  method ExecuteFlow(actions: seq<Action>, startIdx: int, setupOk: bool,
                     attempt: (nat, Outputs) -> StepResult)
    returns (outcome: FlowOutcome, ghost ran: seq<nat>, ghost seen: seq<Outputs>)
    ensures var s := ClampStart(startIdx, |actions|);
      && |seen| == |ran|
      && (forall j :: 0 <= j < |ran| ==> ran[j] == s + j)
      && (!setupOk <==> outcome.SetupFailed?)
      && (outcome.SetupFailed? ==> ran == [])
      && (|ran| > 0 ==> seen[0] == map[])
      && (outcome.Completed? ==> s + |ran| == |actions|)
      && (outcome.Stopped? ==>
            |ran| > 0 && outcome.at == ran[|ran| - 1] < |actions|
            && attempt(outcome.at, seen[|ran| - 1]) == StepError(outcome.err))
      && (outcome.OutputsPanicked? ==>
            |ran| > 0 && outcome.at == ran[|ran| - 1] < |actions|
            && attempt(outcome.at, seen[|ran| - 1]).Step?)
      && (forall j :: 0 <= j < |ran| - 1 ==> attempt(ran[j], seen[j]).Step?)
      && (outcome.Completed? && |ran| > 0 ==> attempt(ran[|ran| - 1], seen[|ran| - 1]).Step?)
    ensures forall j :: 0 <= j < |ran| - 1 && FoldsCleanly(attempt(ran[j], seen[j]), seen[j]) ==>
      seen[j + 1] == Folded(seen[j], attempt(ran[j], seen[j]).results)
    ensures outcome.Completed? && |ran| == 0 ==> outcome.outputs == map[]
    ensures outcome.Completed? && |ran| > 0
            && FoldsCleanly(attempt(ran[|ran| - 1], seen[|ran| - 1]), seen[|ran| - 1]) ==>
      outcome.outputs == Folded(seen[|ran| - 1], attempt(ran[|ran| - 1], seen[|ran| - 1]).results)
    ensures outcome.OutputsPanicked? ==> !FoldsCleanly(attempt(ran[|ran| - 1], seen[|ran| - 1]), seen[|ran| - 1])
  {
    var start := ClampStart(startIdx, |actions|);
    ran, seen := [], [];
    if !setupOk {
      return SetupFailed, ran, seen;
    }
    var outputs: Outputs := map[];
    var i := start;
    while i < |actions|
      invariant start <= i <= |actions|
      invariant |ran| == |seen| == i - start
      invariant forall j :: 0 <= j < |ran| ==> ran[j] == start + j
      invariant |ran| > 0 ==> seen[0] == map[]
      invariant |ran| == 0 ==> outputs == map[]
      invariant forall j :: 0 <= j < |ran| ==> attempt(ran[j], seen[j]).Step?
      invariant Chained(attempt, ran, seen)
      invariant FoldedLast(attempt, ran, seen, outputs)
    {
      var res := attempt(i, outputs);
      ChainExtend(attempt, ran, seen, i, outputs);
      ran, seen := ran + [i], seen + [outputs];
      if res.StepError? {
        return Stopped(i, res.err), ran, seen;
      }
      var ok := ProcessActionResults(res.results, outputs);
      if ok.None? {
        return OutputsPanicked(i), ran, seen;
      }
      outputs := ok.value;
      i := i + 1;
    }
    return Completed(outputs), ran, seen;
  }

  /** Each action after the first was given the fold of the outputs the
      previous one was given with its results, wherever that fold cannot
      panic. */
  ghost predicate Chained(attempt: (nat, Outputs) -> StepResult, ran: seq<nat>, seen: seq<Outputs>)
    requires |ran| == |seen|
  {
    forall j :: 0 <= j < |ran| - 1 && FoldsCleanly(attempt(ran[j], seen[j]), seen[j]) ==>
      seen[j + 1] == Folded(seen[j], attempt(ran[j], seen[j]).results)
  }

  /** `outputs` is the fold of the last action's results, when that fold
      cannot panic. */
  ghost predicate FoldedLast(attempt: (nat, Outputs) -> StepResult, ran: seq<nat>, seen: seq<Outputs>, outputs: Outputs)
    requires |ran| == |seen|
  {
    |ran| > 0 && FoldsCleanly(attempt(ran[|ran| - 1], seen[|ran| - 1]), seen[|ran| - 1]) ==>
      outputs == Folded(seen[|ran| - 1], attempt(ran[|ran| - 1], seen[|ran| - 1]).results)
  }

  lemma ChainExtend(attempt: (nat, Outputs) -> StepResult, ran: seq<nat>, seen: seq<Outputs>, i: nat, outputs: Outputs)
    requires |ran| == |seen|
    requires Chained(attempt, ran, seen) && FoldedLast(attempt, ran, seen, outputs)
    ensures Chained(attempt, ran + [i], seen + [outputs])
  {
    var ran', seen' := ran + [i], seen + [outputs];
    forall j | 0 <= j < |ran'| - 1 && FoldsCleanly(attempt(ran'[j], seen'[j]), seen'[j])
      ensures seen'[j + 1] == Folded(seen'[j], attempt(ran'[j], seen'[j]).results)
    {
      assert ran'[j] == ran[j] && seen'[j] == seen[j];
      if j + 1 < |seen| {
        assert seen'[j + 1] == seen[j + 1];
      }
    }
  }

  // ---------------------------------------------------------------------
  // executeSingleAction: cancellation, approval, run, checkpoint

  /** What runAction answered. */
  datatype RunResult = RunOk(results: map<string, string>) | RunCancelled | RunError(message: string)

  /** The answer of executeSingleAction, with whether the approval check and
      the run were reached. */
  datatype SingleOutcome = SingleOutcome(result: StepResult, approvalChecked: bool, ran: bool)

  /** executeSingleAction. `cancelled` is ctx.Err() != nil on entry;
      `approval` is what checkApproval would answer; `run` what runAction
      would answer; `checkpointOk` whether the result checkpoint is written. */
  function ExecuteSingleAction(cancelled: bool, approval: ApprovalCheck, run: RunResult,
                               checkpointOk: bool): (r: SingleOutcome)
    ensures cancelled ==> r.result == StepError(ExecutionCancelled) && !r.approvalChecked && !r.ran
    ensures r.approvalChecked <==> !cancelled
    ensures r.ran <==> !cancelled && approval.err.None?
    ensures r.approvalChecked && approval.err.Some? ==> r.result == StepError(approval.err.value)
    ensures r.ran && run.RunCancelled? ==> r.result == StepError(ExecutionCancelled)
    ensures r.ran && run.RunError? ==> r.result == StepError(ActionFailed(run.message))
    ensures r.result.Step? <==> r.ran && run.RunOk? && checkpointOk
    ensures r.result.Step? ==> r.result.results == run.results
  {
    if cancelled then SingleOutcome(StepError(ExecutionCancelled), false, false)
    else if approval.err.Some? then SingleOutcome(StepError(approval.err.value), true, false)
    else match run
      case RunCancelled => SingleOutcome(StepError(ExecutionCancelled), true, true)
      case RunError(m) => SingleOutcome(StepError(ActionFailed(m)), true, true)
      case RunOk(res) =>
        if checkpointOk then SingleOutcome(Step(res), true, true)
        else SingleOutcome(StepError(CheckpointFailed), true, true)
  }

  // ---------------------------------------------------------------------
  // checkApproval

  datatype ApprovalStatus = Approved | Rejected | Pending

  /** The stored approval request for (exec, action): a row, no row, or a
      store error other than "no rows". */
  datatype ApprovalLookup = Found(status: ApprovalStatus) | NoRows | LookupFailed

  /** The error checkApproval returns (None is nil), and whether it created
      a new approval request. */
  datatype ApprovalCheck = ApprovalCheck(err: Option<FlowError>, requested: bool)

  /** checkApproval. `namespaceIsUuid` is whether uuid.Parse accepts the
      namespace; `actionIdUpdated` whether recording the current action id
      succeeded; `requestOk` whether creating an approval request succeeds. */
  function CheckApproval(namespaceIsUuid: bool, actionIdUpdated: bool, action: Action,
                         lookup: ApprovalLookup, requestOk: bool): (r: ApprovalCheck)
    ensures !namespaceIsUuid ==> r == ApprovalCheck(Some(InvalidNamespace), false)
    ensures r.err.None? <==>
      namespaceIsUuid && actionIdUpdated && (!action.approval || lookup == Found(Approved))
    ensures namespaceIsUuid && actionIdUpdated && action.approval && lookup == Found(Rejected)
      ==> r.err == Some(ActionRejected(action.name))
    ensures r.requested <==>
      namespaceIsUuid && actionIdUpdated && action.approval && lookup == NoRows
    ensures namespaceIsUuid && actionIdUpdated && action.approval
      && (lookup == Found(Pending) || (lookup == NoRows && requestOk))
      ==> r.err == Some(PendingApproval)
  {
    if !namespaceIsUuid then ApprovalCheck(Some(InvalidNamespace), false)
    else if !actionIdUpdated then ApprovalCheck(Some(ActionIdUpdateFailed), false)
    else if !action.approval then ApprovalCheck(None, false)
    else match lookup
      case LookupFailed => ApprovalCheck(Some(ApprovalLookupFailed), false)
      case Found(Approved) => ApprovalCheck(None, false)
      case Found(Rejected) => ApprovalCheck(Some(ActionRejected(action.name)), false)
      case Found(Pending) => ApprovalCheck(Some(PendingApproval), false)
      case NoRows =>
        if requestOk then ApprovalCheck(Some(PendingApproval), true)
        else ApprovalCheck(Some(ApprovalRequestFailed), true)
  }

  // ---------------------------------------------------------------------
  // prefixResultKeys: key sanitising and node suffix

  /** Drops the leading run of characters outside [a-zA-Z0-9_]. */
  function SkipRun(s: string): (r: string)
    ensures |r| <= |s| && r == s[|s| - |r|..]
    ensures r == [] || IsWordChar(r[0])
  {
    if s == [] || IsWordChar(s[0]) then s else SkipRun(s[1..])
  }

  /** The regular-expression replacement of [^a-zA-Z0-9_]+ by "_". */
  function Sanitise(s: string): (r: string)
    ensures AllWordChars(r)
    ensures |r| <= |s|
    ensures (r == []) <==> (s == [])
    decreases |s|
  {
    if s == [] then []
    else if IsWordChar(s[0]) then [s[0]] + Sanitise(s[1..])
    else
      var rest := SkipRun(s);
      assert rest != s;
      "_" + Sanitise(rest)
  }

  /** A key made only of word characters is left as it is. */
  lemma {:induction false} SanitiseKeepsWordKeys(s: string)
    requires AllWordChars(s)
    ensures Sanitise(s) == s
  {
    if s != [] {
      SanitiseKeepsWordKeys(s[1..]);
    }
  }

  /** A run of two or more disallowed characters becomes one "_", as one
      disallowed character does. */
  lemma SanitiseCollapsesRuns(c: char, d: char, s: string)
    requires !IsWordChar(c) && !IsWordChar(d)
    ensures Sanitise([c, d] + s) == Sanitise([c] + s)
  {
    var z := [d] + s;
    assert [c, d] + s == [c] + z by {
      assert forall i :: 0 <= i < |[c, d] + s| ==> ([c, d] + s)[i] == ([c] + z)[i];
    }
    SanitiseLeadingRun(c, z);
    SkipRunLeading(d, s);
    SanitiseLeadingRun(c, s);
  }

  lemma SkipRunLeading(c: char, s: string)
    requires !IsWordChar(c)
    ensures SkipRun([c] + s) == SkipRun(s)
  {
    assert ([c] + s)[1..] == s;
  }

  lemma SanitiseLeadingRun(c: char, s: string)
    requires !IsWordChar(c)
    ensures Sanitise([c] + s) == "_" + Sanitise(SkipRun(s))
  {
    SkipRunLeading(c, s);
  }

  /** A sanitised key contains no '@'. */
  lemma SanitisedHasNoAt(s: string)
    ensures '@' !in Sanitise(s)
  {
    var r := Sanitise(s);
    forall i | 0 <= i < |r|
      ensures r[i] != '@'
    {
      assert IsWordChar(r[i]);
    }
  }

  /** The key under which prefixResultKeys stores a result. */
  function Suffixed(key: string, nodeName: string): string
  {
    if nodeName != "" then key + "@" + nodeName else key
  }

  /** `prefixed` is an outcome of prefixResultKeys(results, nodeName): one
      entry per distinct sanitised-and-suffixed key, each holding the value of
      some original key that maps to it. */
  ghost predicate IsPrefixing(prefixed: map<string, string>, results: map<string, string>, nodeName: string)
  {
    && (forall k :: k in results ==> Suffixed(Sanitise(k), nodeName) in prefixed)
    && (forall p :: p in prefixed ==>
          exists k :: k in results && Suffixed(Sanitise(k), nodeName) == p && prefixed[p] == results[k])
  }

  /** prefixResultKeys. The map is walked in an unspecified order, as Go
      walks a map; when two keys sanitise alike, the one walked last wins. */
  method PrefixResultKeys(results: map<string, string>, nodeName: string)
    returns (prefixed: map<string, string>)
    ensures IsPrefixing(prefixed, results, nodeName)
  {
    prefixed := map[];
    var remaining := results.Keys;
    while remaining != {}
      invariant remaining <= results.Keys
      invariant forall k :: k in results && k !in remaining ==> Suffixed(Sanitise(k), nodeName) in prefixed
      invariant forall p :: p in prefixed ==>
        exists k :: k in results && k !in remaining && Suffixed(Sanitise(k), nodeName) == p && prefixed[p] == results[k]
      decreases |remaining|
    {
      var key :| key in remaining;
      var prefixedKey := Sanitise(key);
      if nodeName != "" {
        prefixedKey := prefixedKey + "@" + nodeName;
      }
      assert prefixedKey == Suffixed(Sanitise(key), nodeName);
      ghost var before := prefixed;
      prefixed := prefixed[prefixedKey := results[key]];
      remaining := remaining - {key};
      forall p | p in prefixed
        ensures exists k :: k in results && k !in remaining && Suffixed(Sanitise(k), nodeName) == p && prefixed[p] == results[k]
      {
        if p != prefixedKey {
          var k :| k in results && k !in remaining + {key} && Suffixed(Sanitise(k), nodeName) == p && before[p] == results[k];
          assert k !in remaining;
        } else {
          assert key in results && key !in remaining;
        }
      }
    }
  }

  /** When no two keys sanitise alike, every value stays under its own
      sanitised key. */
  lemma PrefixingKeepsValues(prefixed: map<string, string>, results: map<string, string>, nodeName: string)
    requires IsPrefixing(prefixed, results, nodeName)
    requires forall k1, k2 :: k1 in results && k2 in results && Sanitise(k1) == Sanitise(k2) ==> k1 == k2
    ensures forall k :: k in results ==> prefixed[Suffixed(Sanitise(k), nodeName)] == results[k]
  {
    forall k | k in results
      ensures prefixed[Suffixed(Sanitise(k), nodeName)] == results[k]
    {
      var p := Suffixed(Sanitise(k), nodeName);
      var k' :| k' in results && Suffixed(Sanitise(k'), nodeName) == p && prefixed[p] == results[k'];
      SuffixedInjective(Sanitise(k), Sanitise(k'), nodeName);
    }
  }

  lemma SuffixedInjective(a: string, b: string, nodeName: string)
    requires Suffixed(a, nodeName) == Suffixed(b, nodeName)
    ensures a == b
  {
    if nodeName != "" {
      assert a == Suffixed(a, nodeName)[..|a|];
      assert |a| == |b|;
      assert b == Suffixed(b, nodeName)[..|b|];
    }
  }

  // ---------------------------------------------------------------------
  // processActionResults

  /** strings.SplitN(k, sep, 2) when it yields two parts: the text before the
      first `sep` and the text after it. */
  function SplitAtFirst(k: string, sep: char): (r: Option<(string, string)>)
    ensures r.None? <==> sep !in k
    ensures r.Some? ==> k == r.value.0 + [sep] + r.value.1 && sep !in r.value.0
  {
    if |k| == 0 then None
    else if k[0] == sep then Some(([], k[1..]))
    else match SplitAtFirst(k[1..], sep)
      case None => None
      case Some(p) => Some(([k[0]] + p.0, p.1))
  }

  /** A key without the separator, followed by it, splits back into its parts. */
  lemma {:induction false} SplitAtFirstJoin(a: string, b: string, sep: char)
    requires sep !in a
    ensures SplitAtFirst(a + [sep] + b, sep) == Some((a, b))
  {
    if a != [] {
      var k := a + [sep] + b;
      assert k[0] == a[0] != sep;
      assert k[1..] == a[1..] + [sep] + b;
      SplitAtFirstJoin(a[1..], b, sep);
      assert [a[0]] + a[1..] == a;
    } else {
      assert a + [sep] + b == [sep] + b;
    }
  }

  /** One turn of processActionResults' loop; None is the panic of the
      type assertion when outputs[node] exists but is not a map. */
  function StoreResult(outputs: Outputs, k: string, v: string): Option<Outputs>
  {
    match SplitAtFirst(k, '@')
    case None => Some(outputs[k := Text(v)])
    case Some((key, node)) =>
      if node !in outputs then Some(outputs[node := PerNode(map[key := v])])
      else if outputs[node].PerNode? then Some(outputs[node := PerNode(outputs[node].entries[key := v])])
      else None
  }

  /** The keys of `results` that carry no node suffix. */
  function PlainKeys(results: map<string, string>): set<string>
  {
    set k | k in results && '@' !in k
  }

  predicate IsNodeKey(k: string, node: string)
  {
    SplitAtFirst(k, '@').Some? && SplitAtFirst(k, '@').value.1 == node
  }

  /** The node names mentioned by suffixed keys of `results`. */
  function NodeNames(results: map<string, string>): set<string>
  {
    set k | k in results && '@' in k :: SplitAtFirst(k, '@').value.1
  }

  /** The entries that `results` files under `node`. */
  function NodeEntries(results: map<string, string>, node: string): map<string, string>
  {
    map k | k in results && IsNodeKey(k, node) :: SplitAtFirst(k, '@').value.0 := results[k]
  }

  /** The inner map that already exists for `node`, or an empty one. */
  function Existing(outputs: Outputs, node: string): map<string, string>
  {
    if node in outputs && outputs[node].PerNode? then outputs[node].entries else map[]
  }

  /** Processing `results` cannot panic and does not depend on the order:
      no unsuffixed key names a node that a suffixed key files under, and no
      such node already holds a non-map value. */
  ghost predicate NoClash(outputs: Outputs, results: map<string, string>)
  {
    forall k | k in results && '@' in k ::
      && SplitAtFirst(k, '@').value.1 !in PlainKeys(results)
      && (SplitAtFirst(k, '@').value.1 in outputs ==> outputs[SplitAtFirst(k, '@').value.1].PerNode?)
  }

  /** The outputs after processing `results`, defined entry by entry and
      independent of order: an unsuffixed key k stores Text(v) at k; a key
      k@n adds k -> v to the map at n, keeping what n held; every other entry
      is untouched. */
  function Folded(outputs: Outputs, results: map<string, string>): Outputs
  {
    map x | x in FoldedKeys(outputs, results) :: FoldedAt(outputs, results, x)
  }

  function FoldedKeys(outputs: Outputs, results: map<string, string>): set<string>
  {
    outputs.Keys + PlainKeys(results) + NodeNames(results)
  }

  function FoldedAt(outputs: Outputs, results: map<string, string>, x: string): OutputValue
    requires x in FoldedKeys(outputs, results)
  {
    if x in PlainKeys(results) then Text(results[x])
    else if x in NodeNames(results) then PerNode(Existing(outputs, x) + NodeEntries(results, x))
    else outputs[x]
  }

  /** processActionResults, updating `outputs` in place. The map is walked in
      an unspecified order; the result is None when the walk panics. */
  method ProcessActionResults(results: map<string, string>, outputs: Outputs)
    returns (updated: Option<Outputs>)
    ensures NoClash(outputs, results) ==> updated == Some(Folded(outputs, results))
  {
    var current := outputs;
    var done: map<string, string> := map[];
    var remaining := results.Keys;
    while remaining != {}
      invariant remaining <= results.Keys
      invariant done == map k | k in results && k !in remaining :: results[k]
      invariant NoClash(outputs, results) ==> current == Folded(outputs, done)
      decreases |remaining|
    {
      var k :| k in remaining;
      if NoClash(outputs, results) {
        NoClashRestrict(outputs, results, done[k := results[k]]);
        FoldStep(outputs, done, k, results[k]);
      }
      var next := StoreResult(current, k, results[k]);
      if next.None? {
        return None;
      }
      current := next.value;
      done := done[k := results[k]];
      remaining := remaining - {k};
    }
    assert done == results;
    return Some(current);
  }

  /** NoClash holds of every part of a result map for which it holds. */
  lemma NoClashRestrict(outputs: Outputs, results: map<string, string>, part: map<string, string>)
    requires NoClash(outputs, results)
    requires forall k :: k in part ==> k in results && part[k] == results[k]
    ensures NoClash(outputs, part)
  {
  }

  /** Storing one more key into the fold of the others gives the fold of all. */
  lemma FoldStep(outputs: Outputs, done: map<string, string>, k: string, v: string)
    requires k !in done
    requires NoClash(outputs, done[k := v])
    ensures StoreResult(Folded(outputs, done), k, v) == Some(Folded(outputs, done[k := v]))
  {
    if '@' in k {
      var (key, node) := SplitAtFirst(k, '@').value;
      assert k in done[k := v];
      KeySetsAddNode(done, k, v, node);
      FoldStepNodeKey(outputs, done, k, v, key, node);
    } else {
      FoldStepPlainKey(outputs, done, k, v);
    }
  }

  lemma FoldStepPlainKey(outputs: Outputs, done: map<string, string>, k: string, v: string)
    requires k !in done && '@' !in k
    requires NoClash(outputs, done[k := v])
    ensures StoreResult(Folded(outputs, done), k, v) == Some(Folded(outputs, done[k := v]))
  {
    var r := done[k := v];
    KeySetsAddPlain(done, k, v);
    forall x | x in FoldedKeys(outputs, r) && x != k
      ensures FoldedAt(outputs, r, x) == FoldedAt(outputs, done, x)
    {
      NodeEntriesOtherKey(done, k, v, x);
    }
    FoldedExtend(outputs, done, r, k, Text(v));
  }

  lemma KeySetsAddPlain(done: map<string, string>, k: string, v: string)
    requires k !in done && '@' !in k
    ensures PlainKeys(done[k := v]) == PlainKeys(done) + {k}
    ensures NodeNames(done[k := v]) == NodeNames(done)
  {
  }

  lemma KeySetsAddNode(done: map<string, string>, k: string, v: string, node: string)
    requires k !in done && '@' in k && SplitAtFirst(k, '@').value.1 == node
    ensures PlainKeys(done[k := v]) == PlainKeys(done)
    ensures NodeNames(done[k := v]) == NodeNames(done) + {node}
  {
  }

  /** Two folds that differ at one key differ as maps by that key alone. */
  lemma FoldedExtend(outputs: Outputs, done: map<string, string>, r: map<string, string>, k: string, val: OutputValue)
    requires FoldedKeys(outputs, r) == FoldedKeys(outputs, done) + {k}
    requires forall x :: x in FoldedKeys(outputs, r) && x != k ==> FoldedAt(outputs, r, x) == FoldedAt(outputs, done, x)
    requires FoldedAt(outputs, r, k) == val
    ensures Folded(outputs, r) == Folded(outputs, done)[k := val]
  {
  }

  /** Adding a key that does not file under `node` leaves node's entries alone. */
  lemma NodeEntriesOtherKey(done: map<string, string>, k: string, v: string, node: string)
    requires k !in done && !IsNodeKey(k, node)
    ensures NodeEntries(done[k := v], node) == NodeEntries(done, node)
  {
  }

  lemma FoldStepNodeKey(outputs: Outputs, done: map<string, string>, k: string, v: string, key: string, node: string)
    requires k !in done && SplitAtFirst(k, '@') == Some((key, node))
    requires node !in PlainKeys(done)
    requires node in outputs ==> outputs[node].PerNode?
    ensures StoreResult(Folded(outputs, done), k, v) == Some(Folded(outputs, done[k := v]))
  {
    var r := done[k := v];
    KeySetsAddNode(done, k, v, node);
    FoldedOthersUnchanged(outputs, done, k, v, key, node);
    FoldedAtNode(outputs, done, k, v, key, node);
    FoldedExtend(outputs, done, r, node, PerNode(Existing(outputs, node) + NodeEntries(done, node)[key := v]));
    StoreIntoFold(outputs, done, k, v, key, node);
  }

  lemma FoldedOthersUnchanged(outputs: Outputs, done: map<string, string>, k: string, v: string, key: string, node: string)
    requires k !in done && SplitAtFirst(k, '@') == Some((key, node))
    requires node !in PlainKeys(done)
    requires node in outputs ==> outputs[node].PerNode?
    ensures FoldedKeys(outputs, done[k := v]) == FoldedKeys(outputs, done) + {node}
    ensures forall x :: x in FoldedKeys(outputs, done[k := v]) && x != node ==>
      FoldedAt(outputs, done[k := v], x) == FoldedAt(outputs, done, x)
  {
    var r := done[k := v];
    KeySetsAddNode(done, k, v, node);
    forall x | x in FoldedKeys(outputs, r) && x != node
      ensures FoldedAt(outputs, r, x) == FoldedAt(outputs, done, x)
    {
      NodeEntriesOtherKey(done, k, v, x);
    }
  }

  lemma FoldedAtNode(outputs: Outputs, done: map<string, string>, k: string, v: string, key: string, node: string)
    requires k !in done && SplitAtFirst(k, '@') == Some((key, node))
    requires node !in PlainKeys(done)
    requires node in outputs ==> outputs[node].PerNode?
    ensures node in FoldedKeys(outputs, done[k := v])
    ensures FoldedAt(outputs, done[k := v], node) == PerNode(Existing(outputs, node) + NodeEntries(done, node)[key := v])
  {
    KeySetsAddNode(done, k, v, node);
    NodeEntriesStep(done, k, v, key, node);
  }

  /** Storing k = key@node into a fold adds key -> v to node's entries. */
  lemma StoreIntoFold(outputs: Outputs, done: map<string, string>, k: string, v: string, key: string, node: string)
    requires SplitAtFirst(k, '@') == Some((key, node))
    requires node !in PlainKeys(done)
    requires node in outputs ==> outputs[node].PerNode?
    ensures StoreResult(Folded(outputs, done), k, v)
      == Some(Folded(outputs, done)[node := PerNode(Existing(outputs, node) + NodeEntries(done, node)[key := v])])
  {
    var before := Folded(outputs, done);
    if node in before {
      FoldedNodeValue(outputs, done, node);
      MergeUpdate(Existing(outputs, node), NodeEntries(done, node), key, v);
    } else {
      assert node !in FoldedKeys(outputs, done);
      NoNodeEntries(done, node);
      assert Existing(outputs, node) + NodeEntries(done, node)[key := v] == map[key := v];
    }
  }

  /** A node already in the fold holds its existing entries and those of the results. */
  lemma FoldedNodeValue(outputs: Outputs, done: map<string, string>, node: string)
    requires node in FoldedKeys(outputs, done)
    requires node !in PlainKeys(done)
    requires node in outputs ==> outputs[node].PerNode?
    ensures node in Folded(outputs, done)
    ensures Folded(outputs, done)[node] == PerNode(Existing(outputs, node) + NodeEntries(done, node))
  {
    if node !in NodeNames(done) {
      NoNodeEntries(done, node);
    }
  }

  lemma NoNodeEntries(done: map<string, string>, node: string)
    requires node !in NodeNames(done)
    ensures NodeEntries(done, node) == map[]
  {
    forall k | k in done ensures !IsNodeKey(k, node) {
      if '@' in k {
        assert SplitAtFirst(k, '@').value.1 in NodeNames(done);
      }
    }
  }

  lemma MergeUpdate(a: map<string, string>, b: map<string, string>, key: string, v: string)
    ensures (a + b)[key := v] == a + b[key := v]
  {
  }

  lemma NodeEntriesStep(done: map<string, string>, k: string, v: string, key: string, node: string)
    requires k !in done
    requires SplitAtFirst(k, '@') == Some((key, node))
    ensures NodeEntries(done[k := v], node) == NodeEntries(done, node)[key := v]
  {
    forall k' | k' in done && IsNodeKey(k', node)
      ensures SplitAtFirst(k', '@').value.0 != key
    {
      assert k' == SplitAtFirst(k', '@').value.0 + "@" + node;
      assert k == key + "@" + node;
    }
  }

  /** The three cases of processActionResults, one entry at a time. */
  lemma FoldedEntries(outputs: Outputs, results: map<string, string>)
    requires NoClash(outputs, results)
    ensures forall k :: k in results && '@' !in k ==> Folded(outputs, results)[k] == Text(results[k])
    ensures forall k :: k in results && '@' in k ==>
      var (key, node) := SplitAtFirst(k, '@').value;
      node in Folded(outputs, results) && Folded(outputs, results)[node].PerNode?
      && key in Folded(outputs, results)[node].entries
      && Folded(outputs, results)[node].entries[key] == results[k]
    ensures forall x :: x in outputs && x !in PlainKeys(results) && x !in NodeNames(results) ==>
      x in Folded(outputs, results) && Folded(outputs, results)[x] == outputs[x]
    ensures forall x :: x in outputs && x in NodeNames(results) ==>
      forall e :: e in outputs[x].entries && e !in NodeEntries(results, x) ==>
        e in Folded(outputs, results)[x].entries && Folded(outputs, results)[x].entries[e] == outputs[x].entries[e]
  {
    var f := Folded(outputs, results);
    forall k | k in results && '@' in k
      ensures var (key, node) := SplitAtFirst(k, '@').value;
        node in f && f[node].PerNode? && key in f[node].entries && f[node].entries[key] == results[k]
    {
      var (key, node) := SplitAtFirst(k, '@').value;
      assert node in NodeNames(results);
      assert node !in PlainKeys(results);
      assert IsNodeKey(k, node);
      assert key in NodeEntries(results, node);
    }
    forall x | x in outputs && x in NodeNames(results)
      ensures forall e :: e in outputs[x].entries && e !in NodeEntries(results, x) ==>
        e in f[x].entries && f[x].entries[e] == outputs[x].entries[e]
    {
      var k :| k in results && '@' in k && SplitAtFirst(k, '@').value.1 == x;
      assert x !in PlainKeys(results);
      assert outputs[x].PerNode?;
    }
  }

  /** The round trip of a node's results: for a non-empty node name, the
      sanitised-and-suffixed keys split back at their '@' into the sanitised
      key and the node, so processing them cannot panic while the node holds
      no plain value, and every value lands at outputs[node][sanitised key]. */
  lemma {:induction false} PrefixedResultsLandUnderNode(
    outputs: Outputs, results: map<string, string>, nodeName: string, prefixed: map<string, string>)
    requires nodeName != ""
    requires IsPrefixing(prefixed, results, nodeName)
    requires nodeName in outputs ==> outputs[nodeName].PerNode?
    ensures NoClash(outputs, prefixed)
    ensures PlainKeys(prefixed) == {}
    ensures Folded(outputs, prefixed).Keys <= outputs.Keys + {nodeName}
    ensures forall x :: x in outputs && x != nodeName ==>
      x in Folded(outputs, prefixed) && Folded(outputs, prefixed)[x] == outputs[x]
    ensures forall k :: k in results ==>
      nodeName in Folded(outputs, prefixed) && Folded(outputs, prefixed)[nodeName].PerNode?
      && Sanitise(k) in Folded(outputs, prefixed)[nodeName].entries
      && Folded(outputs, prefixed)[nodeName].entries[Sanitise(k)] == prefixed[Sanitise(k) + "@" + nodeName]
  {
    forall p | p in prefixed
      ensures '@' in p && SplitAtFirst(p, '@').value.1 == nodeName
    {
      var k :| k in results && Suffixed(Sanitise(k), nodeName) == p && prefixed[p] == results[k];
      SanitisedHasNoAt(k);
      SplitAtFirstJoin(Sanitise(k), nodeName, '@');
      assert p == Sanitise(k) + "@" + nodeName;
      assert p[|Sanitise(k)|] == '@';
    }
    assert PlainKeys(prefixed) == {};
    assert NodeNames(prefixed) <= {nodeName};
    FoldedEntries(outputs, prefixed);
    forall k | k in results
      ensures SplitAtFirst(Sanitise(k) + "@" + nodeName, '@').value == (Sanitise(k), nodeName)
      ensures Sanitise(k) + "@" + nodeName in prefixed
    {
      SanitisedHasNoAt(k);
      SplitAtFirstJoin(Sanitise(k), nodeName, '@');
      assert Suffixed(Sanitise(k), nodeName) == Sanitise(k) + "@" + nodeName;
    }
  }

  // ---------------------------------------------------------------------
  // pullArtifactsWithDriver: where a pulled artifact is stored

  /** The non-empty elements of a path list. */
  function NonEmpty(elems: seq<string>): (r: seq<string>)
    ensures forall i :: 0 <= i < |r| ==> r[i] != ""
    ensures |r| <= |elems|
  {
    if elems == [] then []
    else if elems[0] == "" then NonEmpty(elems[1..])
    else [elems[0]] + NonEmpty(elems[1..])
  }

  /** filepath.Join without the lexical cleaning: the non-empty elements,
      separated by "/". */
  function JoinPath(elems: seq<string>): string
  {
    Join(NonEmpty(elems), "/")
  }

  /** The local path of a pulled artifact: under a directory named after
      the node when the node has a name, else straight under the artifact
      directory. */
  function LocalArtifactPath(artifactDir: string, nodeName: string, artifact: string): (r: string)
    ensures artifactDir != "" && nodeName != "" && artifact != "" ==>
      r == artifactDir + "/" + nodeName + "/" + artifact
    ensures artifactDir != "" && nodeName == "" && artifact != "" ==>
      r == artifactDir + "/" + artifact
  {
    if nodeName != "" then
      JoinThree(artifactDir, nodeName, artifact);
      JoinPath([artifactDir, nodeName, artifact])
    else
      JoinTwo(artifactDir, artifact);
      JoinPath([artifactDir, artifact])
  }

  lemma JoinTwo(a: string, b: string)
    ensures a != "" && b != "" ==> JoinPath([a, b]) == a + "/" + b
    ensures JoinPath([a, "", b]) == JoinPath([a, b])
  {
    assert [a, b][1..] == [b];
    assert [a, "", b][1..] == ["", b];
    assert ["", b][1..] == [b];
    assert [b][1..] == [];
    assert NonEmpty(["", b]) == NonEmpty([b]);
    if a == "" {
      assert NonEmpty([a, "", b]) == NonEmpty(["", b]);
      assert NonEmpty([a, b]) == NonEmpty([b]);
    } else {
      assert NonEmpty([a, "", b]) == [a] + NonEmpty(["", b]);
      assert NonEmpty([a, b]) == [a] + NonEmpty([b]);
    }
    if a != "" && b != "" {
      assert NonEmpty([b]) == [b];
      assert NonEmpty([a, b]) == [a, b];
      assert Join([a, b], "/") == a + "/" + Join([b], "/");
    }
  }

  lemma JoinThree(a: string, b: string, c: string)
    ensures a != "" && b != "" && c != "" ==> JoinPath([a, b, c]) == a + "/" + b + "/" + c
  {
    if a != "" && b != "" && c != "" {
      assert [a, b, c][1..] == [b, c];
      assert [b, c][1..] == [c];
      assert [c][1..] == [];
      assert NonEmpty([c]) == [c];
      assert NonEmpty([b, c]) == [b] + NonEmpty([c]) == [b, c];
      assert NonEmpty([a, b, c]) == [a] + NonEmpty([b, c]) == [a, b, c];
      assert Join([b, c], "/") == b + "/" + c;
      assert Join([a, b, c], "/") == a + "/" + Join([b, c], "/");
    }
  }

  /** Because Join skips empty elements, the unnamed-node branch agrees with
      joining the empty node name too. */
  lemma UnnamedNodeBranchAgrees(artifactDir: string, artifact: string)
    ensures LocalArtifactPath(artifactDir, "", artifact) == JoinPath([artifactDir, "", artifact])
  {
    JoinTwo(artifactDir, artifact);
  }
}
