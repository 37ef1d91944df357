/** The build track's progression engine: the persisted artifact store, the
    gating rule of the stage page, the upload and status actions, the
    "next" target and the completion fold of the proof page. */
module Progression {
  import opened Wrappers
  import opened Registry

  /** The persisted artifact entries.  Key k stands for the storage key
      "rb_step_{k}_artifact"; stage index i uses key i + 1. */
  type Store = map<nat, string>

  /** Storage key of the stage page showing stage `stepIndex`.  A route that
      matched no stage has stepIndex -1 and reads key 0, which no stage writes. */
  function KeyOf(stepIndex: int): (k: nat)
    requires -1 <= stepIndex
    ensures k == 0 <==> stepIndex == -1
    ensures stepIndex < N ==> k <= N
  {
    stepIndex + 1
  }

  /** The store read: the entry's value, or nothing when the key is absent. */
  function Get(store: Store, k: nat): Option<string>
  {
    if k in store then Some(store[k]) else None
  }

  /** Truthiness of a store read: absent and empty both count as false. */
  predicate Truthy(v: Option<string>)
  {
    v.Some? && v.value != ""
  }

  /** Key k holds an artifact. */
  predicate Present(store: Store, k: nat)
  {
    Truthy(Get(store, k))
  }

  /** Stage status as shown by the stage page; never persisted. */
  datatype Status = Idle | Success | Error

  /** What the stage page renders for a resolved stage index. */
  datatype Screen =
    | RedirectTo(path: string)                        // unknown stage id
    | Restricted(backPath: string, backLabel: string) // predecessor incomplete
    | Workspace(index: nat)                           // the stage itself

  /** Where the "Next Step" action goes. */
  datatype Nav = ToStage(index: nat) | ToProof

  // ---------------------------------------------------------------------
  // Gating

  /** Stage `i` may be shown: the first stage always, any later stage only
      when the key its predecessor writes holds an artifact. */
  predicate CanAccess(store: Store, i: nat)
    requires i < N
  {
    i == 0 || Present(store, KeyOf(i - 1))
  }

  /** Label of the restricted screen's "Back to Step" button: the id of the
      stage it navigates to. */
  function BackLabel(i: nat): (l: string)
    requires 0 < i < N
    ensures l == Steps[i - 1].id
    ensures forall j :: 0 <= j < N && j != i - 1 ==> l != Steps[j].id
  {
    forall j | 0 <= j < N && j != i - 1 ensures Steps[i - 1].id != Steps[j].id {
      IdsDistinct(i - 1, j);
    }
    Steps[i - 1].id
  }

  /** The same label as the source writes it: the id of the stage being
      refused rather than of the stage the button opens. */
  function BackLabelAsWritten(i: nat): string
    requires 0 < i < N
  {
    Steps[i].id
  }

  /** The as-written label never names the stage the button opens, and the
      corrected one always does. */
  lemma BackLabelAsWrittenMismatch(i: nat)
    requires 0 < i < N
    ensures BackLabelAsWritten(i) != Steps[i - 1].id
    ensures BackLabelAsWritten(2) == "03" && Steps[1].id == "02"
    ensures BackLabelAsWritten(i) != BackLabel(i)
  {
    IdsDistinct(i, i - 1);
  }

  /** The stage page's decision for resolved index `stepIndex`: redirect an
      unknown id, refuse a stage whose predecessor is incomplete, else show it.
      The refused screen carries the back button's label as the page writes it. */
  function Render(store: Store, stepIndex: int): (sc: Screen)
    requires -1 <= stepIndex < N
    ensures sc.RedirectTo? <==> stepIndex == -1
    ensures sc.RedirectTo? ==> sc.path == Steps[0].path
    ensures sc.Workspace? <==> 0 <= stepIndex && CanAccess(store, stepIndex)
    ensures sc.Workspace? ==> sc.index == stepIndex
    ensures sc.Restricted? ==> 0 < stepIndex && !Present(store, stepIndex)
    ensures sc.Restricted? ==>
              sc.backPath == Steps[stepIndex - 1].path && sc.backLabel == Steps[stepIndex].id
  {
    if stepIndex == -1 then RedirectTo(Steps[0].path)
    else if stepIndex > 0 && !Present(store, KeyOf(stepIndex - 1)) then
      Restricted(Steps[stepIndex - 1].path, BackLabelAsWritten(stepIndex))
    else Workspace(stepIndex)
  }

  /** On the page as written, every refused screen labels its back button
      with an id other than that of the stage the button opens; stage "03"
      over an empty store shows "03" on a button leading to stage "02". */
  lemma RefusedScreenMislabelled(store: Store, i: nat)
    requires 0 < i < N
    ensures Render(store, i).Restricted? ==> Render(store, i).backLabel != Steps[i - 1].id
    ensures Render(map[], 2) == Restricted(Steps[1].path, "03")
  {
    BackLabelAsWrittenMismatch(i);
  }

  /** The first stage is shown whatever the store holds. */
  lemma FirstStageAlwaysShown(store: Store)
    ensures Render(store, IndexOfStepId(Slug(0))) == Workspace(0)
  {
    SlugResolves(0);
  }

  /** At the route of stage i > 0 the page shows the stage exactly when key i
      holds an artifact, and key i is the one stage i - 1's page writes. */
  lemma GateAtRoute(store: Store, i: nat)
    requires 0 < i < N
    ensures Render(store, IndexOfStepId(Slug(i))).Workspace? <==> Present(store, i)
    ensures KeyOf(i - 1) == i
  {
    SlugResolves(i);
  }

  // ---------------------------------------------------------------------
  // Entry, upload, next

  /** Status a stage page starts with: success iff the stage's artifact is
      present, idle otherwise. */
  function EntryStatus(artifact: Option<string>): (s: Status)
    ensures s == Success <==> Truthy(artifact)
    ensures s != Error
  {
    if Truthy(artifact) then Success else Idle
  }

  /** The store after stage `i`'s page records artifact `a`. */
  function Uploaded(store: Store, i: nat, a: string): (r: Store)
    requires i < N
    ensures r.Keys == store.Keys + {KeyOf(i)}
    ensures Get(r, KeyOf(i)) == Some(a)
    ensures forall k :: k != KeyOf(i) ==> Get(r, k) == Get(store, k)
  {
    store[KeyOf(i) := a]
  }

  /** An upload opens the following stage and changes the access of no other
      stage. */
  lemma UploadOpensNext(store: Store, i: nat, a: string)
    requires i < N && a != ""
    ensures i + 1 < N ==> CanAccess(Uploaded(store, i, a), i + 1)
    ensures forall j :: 0 <= j < N && j != i + 1 ==>
              CanAccess(Uploaded(store, i, a), j) == CanAccess(store, j)
  {
  }

  /** Recording the same artifact twice leaves the store as recording it once. */
  lemma UploadIdempotent(store: Store, i: nat, a: string)
    requires i < N
    ensures Uploaded(Uploaded(store, i, a), i, a) == Uploaded(store, i, a)
  {
  }

  /** Target of "Next Step" from stage i: the following stage, or the proof
      page after the last stage. */
  function NextTarget(i: nat): (t: Nav)
    requires i < N
    ensures t == ToProof <==> i == N - 1
    ensures t.ToStage? ==> t.index == i + 1 && t.index < N
  {
    if i < N - 1 then ToStage(i + 1) else ToProof
  }

  /** Route of a navigation target. */
  function NavPath(t: Nav): (p: string)
    requires t.ToStage? ==> t.index < N
    ensures t.ToStage? ==> p == RoutePrefix + Slug(t.index)
    ensures p == ProofPath <==> t == ToProof
  {
    ProofPathIsNoStep();
    match t
    case ToStage(j) => Steps[j].path
    case ToProof => ProofPath
  }

  /** Following "Next Step" from stage i < N - 1 lands on stage i + 1's page,
      which the artifact of stage i has opened. */
  lemma NextLandsOnFollowing(store: Store, i: nat)
    requires i < N - 1 && Present(store, KeyOf(i))
    ensures NavPath(NextTarget(i)) == RoutePrefix + Slug(i + 1)
    ensures Render(store, IndexOfStepId(Slug(i + 1))) == Workspace(i + 1)
  {
    SlugResolves(i + 1);
  }

  // ---------------------------------------------------------------------
  // Completion

  /** The per-stage completion flags of the proof page. */
  function StageCompletion(store: Store): (r: seq<bool>)
    ensures |r| == N
    ensures forall i :: 0 <= i < N ==> r[i] == Present(store, KeyOf(i))
  {
    seq(N, (i: int) requires 0 <= i < N => Present(store, KeyOf(i)))
  }

  /** Every flag is set. */
  function Every(bs: seq<bool>): bool
  {
    if bs == [] then true else bs[0] && Every(bs[1..])
  }

  lemma {:induction false} EveryIff(bs: seq<bool>)
    ensures Every(bs) <==> forall i :: 0 <= i < |bs| ==> bs[i]
  {
    if bs != [] {
      EveryIff(bs[1..]);
      assert forall i :: 1 <= i < |bs| ==> bs[i] == bs[1..][i - 1];
    }
  }

  /** All stages are complete; this alone enables the final submission. */
  predicate AllCompleted(store: Store)
  {
    Every(StageCompletion(store))
  }

  /** All stages are complete iff every key 1..N holds an artifact. */
  lemma AllCompletedIff(store: Store)
    ensures AllCompleted(store) <==> forall k :: 1 <= k <= N ==> Present(store, k)
  {
    var c := StageCompletion(store);
    EveryIff(c);
    if forall k :: 1 <= k <= N ==> Present(store, k) {
      assert forall i :: 0 <= i < N ==> c[i];
    } else {
      var k :| 1 <= k <= N && !Present(store, k);
      assert !c[k - 1];
    }
  }

  /** The proof page's admission predicate for the final submission. */
  function SubmitEnabled(store: Store): (b: bool)
    ensures b <==> forall k :: 1 <= k <= N ==> Present(store, k)
  {
    AllCompletedIff(store);
    AllCompleted(store)
  }

  /** Removing any one stage's artifact makes the track incomplete. */
  lemma MissingStageBlocksSubmission(store: Store, i: nat)
    requires i < N
    ensures !AllCompleted(store - {KeyOf(i)})
  {
    AllCompletedIff(store - {KeyOf(i)});
    assert !Present(store - {KeyOf(i)}, i + 1);
  }

  // ---------------------------------------------------------------------
  // Reachable stores: artifacts only ever form a prefix of the track

  /** Whenever key k holds an artifact, so does key k - 1. */
  ghost predicate PrefixClosed(store: Store)
  {
    forall k :: 2 <= k <= N && Present(store, k) ==> Present(store, k - 1)
  }

  /** An upload from a stage the gate has opened keeps artifacts a prefix. */
  lemma UploadKeepsPrefix(store: Store, i: nat, a: string)
    requires i < N && a != ""
    requires PrefixClosed(store) && CanAccess(store, i)
    ensures PrefixClosed(Uploaded(store, i, a))
  {
    var r := Uploaded(store, i, a);
    forall k | 2 <= k <= N && Present(r, k) ensures Present(r, k - 1) {
      if k - 1 == KeyOf(i) {
        assert Get(r, k - 1) == Some(a);
      } else if k == KeyOf(i) {
        assert Present(store, k - 1);
        assert Get(r, k - 1) == Get(store, k - 1);
      } else {
        assert Get(r, k) == Get(store, k) && Get(r, k - 1) == Get(store, k - 1);
        assert Present(store, k);
        assert Present(store, k - 1);
        assert Present(r, k - 1);
      }
    }
  }

  /** In a prefix-closed store an artifact at key k implies artifacts at all
      keys from 1 to k. */
  lemma {:induction false} PrefixBelow(store: Store, k: nat, j: nat)
    requires PrefixClosed(store) && 1 <= j <= k <= N && Present(store, k)
    ensures Present(store, j)
    decreases k - j
  {
    if j < k {
      PrefixBelow(store, k - 1, j);
    }
  }

  /** In a prefix-closed store the track is complete iff the last stage is. */
  lemma CompleteIffLast(store: Store)
    requires PrefixClosed(store)
    ensures AllCompleted(store) <==> Present(store, N)
  {
    AllCompletedIff(store);
    if Present(store, N) {
      forall j | 1 <= j <= N ensures Present(store, j) {
        PrefixBelow(store, N, j);
      }
    }
  }

  /** The store after uploading artifact `a` at stages 0 .. n - 1 in order. */
  function UploadRun(store: Store, n: nat, a: string): Store
    requires n <= N
  {
    if n == 0 then store else Uploaded(UploadRun(store, n - 1, a), n - 1, a)
  }

  /** Starting from an empty store, each upload of the run happens on an
      opened stage, and after n uploads exactly keys 1..n hold artifacts. */
  lemma {:induction false} UploadRunFromEmpty(n: nat, a: string)
    requires n <= N && a != ""
    ensures forall k :: k in UploadRun(map[], n, a) ==> 1 <= k <= n
    ensures forall k :: 1 <= k <= n ==> Present(UploadRun(map[], n, a), k)
    ensures n < N ==> CanAccess(UploadRun(map[], n, a), n)
    ensures PrefixClosed(UploadRun(map[], n, a))
  {
    if n > 0 {
      var before := UploadRun(map[], n - 1, a);
      UploadRunFromEmpty(n - 1, a);
      UploadKeepsPrefix(before, n - 1, a);
      forall k | 1 <= k <= n ensures Present(UploadRun(map[], n, a), k) {
        if k < n { assert Present(before, k); }
      }
    }
  }

  /** A fresh store opens only the first stage; uploading through every stage
      in order completes the track. */
  lemma FullRunCompletes(a: string)
    requires a != ""
    ensures CanAccess(map[], 0)
    ensures forall j :: 0 < j < N ==> !CanAccess(map[], j)
    ensures !AllCompleted(UploadRun(map[], N - 1, a))
    ensures AllCompleted(UploadRun(map[], N, a))
  {
    UploadRunFromEmpty(N - 1, a);
    UploadRunFromEmpty(N, a);
    AllCompletedIff(UploadRun(map[], N, a));
    AllCompletedIff(UploadRun(map[], N - 1, a));
    assert !Present(UploadRun(map[], N - 1, a), N);
  }

  // ---------------------------------------------------------------------
  // The stage page as a stateful view over the store

  /** The stage page mounted at some route, together with the artifact store
      it reads and writes.  `artifact` and `status` are view state; only the
      store persists. */
  class StagePage {
    var store: Store
    var stepIndex: int
    var artifact: Option<string>
    var status: Status

    /** The view's artifact mirrors the store entry of its stage. */
    ghost predicate Valid()
      reads this
    {
      -1 <= stepIndex < N && artifact == Get(store, KeyOf(stepIndex))
    }

    /** What the page renders now; the gate re-reads the store. */
    function View(): Screen
      reads this
      requires Valid()
    {
      Render(store, stepIndex)
    }

    /** Mounting the page at route parameter `stepId` over a persisted store. */
    constructor (persisted: Store, stepId: string)
      ensures Valid()
      ensures store == persisted && stepIndex == IndexOfStepId(stepId)
      ensures status == EntryStatus(artifact)
    {
      store := persisted;
      stepIndex := IndexOfStepId(stepId);
      artifact := Get(persisted, KeyOf(IndexOfStepId(stepId)));
      status := EntryStatus(Get(persisted, KeyOf(IndexOfStepId(stepId))));
    }

    /** Moving to another route parameter: resolve the stage, reload its
        artifact from the store and reset the status from it. */
    method Enter(stepId: string) returns (sc: Screen)
      modifies this
      ensures Valid()
      ensures store == old(store)
      ensures stepIndex == IndexOfStepId(stepId)
      ensures status == Success <==> Present(store, KeyOf(stepIndex))
      ensures status != Error
      ensures sc == View()
    {
      stepIndex := IndexOfStepId(stepId);
      artifact := Get(store, KeyOf(stepIndex));
      status := EntryStatus(artifact);
      sc := Render(store, stepIndex);
    }

    /** Recording an artifact for the shown stage: write its key, mirror it in
        the view and mark the stage successful. */
    method Upload(a: string)
      requires Valid() && View().Workspace?
      requires a != ""
      modifies this
      ensures Valid()
      ensures stepIndex == old(stepIndex) && 0 <= stepIndex
      ensures store == Uploaded(old(store), stepIndex, a)
      ensures artifact == Some(a) && status == Success
      ensures stepIndex + 1 < N ==> CanAccess(store, stepIndex + 1)
      ensures PrefixClosed(old(store)) ==> PrefixClosed(store)
    {
      UploadOpensNext(store, stepIndex, a);
      if PrefixClosed(store) {
        UploadKeepsPrefix(store, stepIndex, a);
      }
      store := store[KeyOf(stepIndex) := a];
      artifact := Some(a);
      status := Success;
    }

    /** The "It Worked" and "Error" actions: they set the status and nothing
        else. */
    method SetStatus(s: Status)
      requires Valid() && s != Idle
      modifies this`status
      ensures Valid()
      ensures status == s
    {
      status := s;
    }

    /** The "Next Step" action: offered only once the view holds an artifact,
        it goes to the following stage, which is then open, or to the proof
        page after the last stage. */
    method Next() returns (t: Option<Nav>)
      requires Valid() && View().Workspace?
      ensures t.Some? <==> Truthy(artifact)
      ensures t.Some? ==> t.value == NextTarget(stepIndex)
      ensures t.Some? && t.value.ToStage? ==> CanAccess(store, t.value.index)
    {
      if Truthy(artifact) {
        t := Some(NextTarget(stepIndex));
      } else {
        t := None;
      }
    }
  }
}
