/** The layout header: which stage the current location is, the "Step NN of 8"
    caption, and the status tag at the top right. */
module Header {
  import opened Registry

  /** Status tag: its text and its style class. */
  datatype Tag = Tag(text: string, cls: string)

  const ProofPhase: Tag := Tag("Proof Phase", "status")
  const Finalizing: Tag := Tag("Finalizing", "warning")
  const InProgress: Tag := Tag("In Progress", "warning")
  const NotStarted: Tag := Tag("Not Started", "status")

  /** The layout's own short stage titles, in stage order. */
  const ShortTitles: seq<string> := ["Problem", "Market", "Architecture", "HLD", "LLD", "Build", "Test", "Ship"]

  /** Id and title shown for the current location. */
  datatype StepCaption = StepCaption(id: string, title: string)

  /** The location names a stage route. */
  predicate IsStepPath(pathname: string)
  {
    exists j :: 0 <= j < N && Steps[j].path == pathname
  }

  /** The stage whose route is exactly `pathname`, or -1. */
  function CurrentStepIndex(pathname: string): (r: int)
    ensures -1 <= r < N
    ensures r == -1 <==> !IsStepPath(pathname)
    ensures 0 <= r ==> Steps[r].path == pathname
  {
    FindIndex(Steps, (s: Stage) => s.path == pathname)
  }

  /** At a stage's own route the current index is that stage. */
  lemma CurrentStepIndexAtRoute(i: nat)
    requires i < N
    ensures CurrentStepIndex(Steps[i].path) == i
  {
    var r := CurrentStepIndex(Steps[i].path);
    if r != i {
      PathsDistinct(r, i);
    }
  }

  /** The caption's stage: the matched stage, or the placeholder "??"/"Proof". */
  function CurrentStep(pathname: string): (c: StepCaption)
    ensures !IsStepPath(pathname) ==> c == StepCaption("??", "Proof")
    ensures IsStepPath(pathname) ==>
              exists j :: 0 <= j < N && Steps[j].path == pathname && c == StepCaption(Steps[j].id, ShortTitles[j])
  {
    var i := CurrentStepIndex(pathname);
    if i >= 0 then StepCaption(Steps[i].id, ShortTitles[i]) else StepCaption("??", "Proof")
  }

  /** The header's status tag for the current location. */
  function GetStatus(pathname: string): (t: Tag)
    ensures pathname == ProofPath ==> t == ProofPhase
    ensures t.cls == "warning" <==> IsStepPath(pathname)
    ensures t == NotStarted <==> pathname != ProofPath && !IsStepPath(pathname)
  {
    ProofPathIsNoStep();
    var i := CurrentStepIndex(pathname);
    if pathname == ProofPath then ProofPhase
    else if i == 7 then Finalizing
    else if i >= 0 then InProgress
    else NotStarted
  }

  /** On a stage's route the tag is "Finalizing" for the last stage and "In
      Progress" for every other one. */
  lemma StatusOnStage(i: nat)
    requires i < N
    ensures GetStatus(Steps[i].path) == if i == N - 1 then Finalizing else InProgress
  {
    CurrentStepIndexAtRoute(i);
    ProofPathIsNoStep();
  }

  /** The stage page resolves route parameters by substring while the header
      matches whole routes, so a loose route such as "/rb/8" shows stage "08"
      under a "Not Started" header captioned "??". */
  lemma LooseRouteDisagrees(i: nat)
    requires i < N
    ensures IndexOfStepId([Steps[i].id[1]]) == i
    ensures CurrentStepIndex(RoutePrefix + [Steps[i].id[1]]) == -1
    ensures CurrentStep(RoutePrefix + [Steps[i].id[1]]).id == "??"
    ensures GetStatus(RoutePrefix + [Steps[i].id[1]]) == NotStarted
  {
    var loose := RoutePrefix + [Steps[i].id[1]];
    DigitResolves(i);
    forall j | 0 <= j < N ensures Steps[j].path != loose {
      IdDigit(j);
      assert |loose| == 5;
    }
    ProofPathIsNoStep();
    assert loose != ProofPath by { assert |ProofPath| != 5; }
  }
}
