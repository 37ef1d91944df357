/** The build track's stage registry: the fixed, ordered catalogue of the
    eight stages, and the two lookups that resolve a stage from a route. */
module Registry {

  /** One stage of the build track.  Titles and prompts are display text and
      are not part of the model; only the id, the route and the order matter. */
  datatype Stage = Stage(id: string, path: string)

  /** The stages in workflow order (index 0 is stage "01"). */
  const Steps: seq<Stage> := [
    Stage("01", "/rb/01-problem"),
    Stage("02", "/rb/02-market"),
    Stage("03", "/rb/03-architecture"),
    Stage("04", "/rb/04-hld"),
    Stage("05", "/rb/05-lld"),
    Stage("06", "/rb/06-build"),
    Stage("07", "/rb/07-test"),
    Stage("08", "/rb/08-ship")
  ]

  /** Number of stages. */
  const N: nat := 8

  /** Route of the proof page, the target after the last stage. */
  const ProofPath: string := "/rb/proof"

  /** Every stage route is "/rb/" followed by its slug. */
  const RoutePrefix: string := "/rb/"

  /** The route parameter `stepId` that the pattern "/rb/:stepId" extracts
      when the browser is at the route of stage `i`. */
  function Slug(i: nat): (s: string)
    requires i < N
    ensures RoutePrefix + s == Steps[i].path
  {
    Steps[i].path[|RoutePrefix|..]
  }

  // ---------------------------------------------------------------------
  // Substring search (the string method `includes`)

  /** True iff `sub` occurs in `s` at some position. */
  function Includes(s: string, sub: string): bool
    decreases |s|
  {
    if |sub| > |s| then false
    else if s[..|sub|] == sub then true
    else Includes(s[1..], sub)
  }

  /** An occurrence of `sub` at position `p` makes `Includes` true. */
  lemma {:induction false} IncludesAt(s: string, sub: string, p: nat)
    requires p + |sub| <= |s| && s[p..p + |sub|] == sub
    ensures Includes(s, sub)
    decreases p
  {
    if s[..|sub|] != sub {
      assert p > 0;
      assert s[1..][p - 1..p - 1 + |sub|] == s[p..p + |sub|];
      IncludesAt(s[1..], sub, p - 1);
    }
  }

  /** `Includes` finds an occurrence whenever it answers true. */
  lemma {:induction false} IncludesWitness(s: string, sub: string) returns (p: nat)
    requires Includes(s, sub)
    ensures p + |sub| <= |s| && s[p..p + |sub|] == sub
    decreases |s|
  {
    if s[..|sub|] == sub {
      p := 0;
    } else {
      var q := IncludesWitness(s[1..], sub);
      assert s[1..][q..q + |sub|] == s[q + 1..q + 1 + |sub|];
      p := q + 1;
    }
  }

  /** Every character of a string that `s` includes occurs in `s`. */
  lemma IncludesChar(s: string, sub: string, k: nat)
    requires Includes(s, sub) && k < |sub|
    ensures sub[k] in s
  {
    var p := IncludesWitness(s, sub);
    assert s[p + k] == s[p..p + |sub|][k];
  }

  // ---------------------------------------------------------------------
  // First-match search (the array method `findIndex`)

  /** Index of the first element satisfying `p`, or -1 when there is none. */
  function FindIndex<T>(s: seq<T>, p: T -> bool): (r: int)
    ensures -1 <= r < |s|
    ensures r == -1 <==> forall j :: 0 <= j < |s| ==> !p(s[j])
    ensures 0 <= r ==> p(s[r]) && forall j :: 0 <= j < r ==> !p(s[j])
  {
    if s == [] then -1
    else if p(s[0]) then 0
    else
      var r := FindIndex(s[1..], p);
      assert forall j :: 1 <= j < |s| ==> s[j] == s[1..][j - 1];
      if r == -1 then -1 else r + 1
  }

  /** The first match is determined: a satisfying index with no earlier
      satisfying index is the one `FindIndex` returns. */
  lemma FindIndexIs<T>(s: seq<T>, p: T -> bool, i: nat)
    requires i < |s| && p(s[i])
    requires forall j :: 0 <= j < i ==> !p(s[j])
    ensures FindIndex(s, p) == i
  {
    var r := FindIndex(s, p);
    assert r != -1;
  }

  /** The stage a route parameter resolves to in the stage page: the first
      stage whose route contains `stepId`, or -1. */
  function IndexOfStepId(stepId: string): (r: int)
    ensures -1 <= r < N
    ensures r == -1 <==> forall j :: 0 <= j < N ==> !Includes(Steps[j].path, stepId)
    ensures 0 <= r ==> Includes(Steps[r].path, stepId)
    ensures 0 <= r ==> forall j :: 0 <= j < r ==> !Includes(Steps[j].path, stepId)
  {
    FindIndex(Steps, (s: Stage) => Includes(s.path, stepId))
  }

  /** The second character of stage `i`'s id is the digit for i + 1. */
  lemma IdDigit(i: nat)
    requires i < N
    ensures Steps[i].id[1] == Slug(i)[1] == Steps[i].path[5]
    ensures Steps[i].id[1] as int == '1' as int + i
  {
    if i < 4 {
      if i == 0 {} else if i == 1 {} else if i == 2 {} else {}
    } else {
      if i == 4 {} else if i == 5 {} else if i == 6 {} else {}
    }
  }

  /** The only digit from 1 to 8 in a stage's route is its own id digit. */
  lemma RouteDigits(j: nat)
    requires j < N
    ensures forall k :: 0 <= k < |Steps[j].path| && '1' <= Steps[j].path[k] <= '8' ==> Steps[j].path[k] == Steps[j].id[1]
  {
    if j < 4 {
      if j == 0 {} else if j == 1 {} else if j == 2 {} else {}
    } else {
      if j == 4 {} else if j == 5 {} else if j == 6 {} else {}
    }
  }

  /** The second character of each stage id is a digit that occurs in no
      other stage's route. */
  lemma IdDigitIsOwn(i: nat, j: nat)
    requires i < N && j < N && i != j
    ensures Steps[i].id[1] == Slug(i)[1]
    ensures Steps[i].id[1] !in Steps[j].path
  {
    IdDigit(i);
    IdDigit(j);
    RouteDigits(j);
  }

  /** The route parameter of every stage resolves back to that stage, even
      though the stage page matches by substring. */
  lemma SlugResolves(i: nat)
    requires i < N
    ensures IndexOfStepId(Slug(i)) == i
  {
    var slug := Slug(i);
    IncludesAt(Steps[i].path, slug, |RoutePrefix|);
    forall j | 0 <= j < i
      ensures !Includes(Steps[j].path, slug)
    {
      IdDigitIsOwn(i, j);
      if Includes(Steps[j].path, slug) {
        IncludesChar(Steps[j].path, slug, 1);
      }
    }
    FindIndexIs(Steps, (s: Stage) => Includes(s.path, slug), i);
  }

  /** A route parameter holding only a stage's digit also resolves to that
      stage: the substring match accepts more than the eight routes. */
  lemma DigitResolves(i: nat)
    requires i < N
    ensures IndexOfStepId([Steps[i].id[1]]) == i
  {
    var d := [Steps[i].id[1]];
    IdDigit(i);
    IncludesAt(Steps[i].path, d, 5);
    forall j | 0 <= j < i
      ensures !Includes(Steps[j].path, d)
    {
      IdDigitIsOwn(i, j);
      if Includes(Steps[j].path, d) {
        IncludesChar(Steps[j].path, d, 0);
      }
    }
    FindIndexIs(Steps, (s: Stage) => Includes(s.path, d), i);
  }

  /** The proof page's route is no stage route. */
  lemma ProofPathIsNoStep()
    ensures forall j :: 0 <= j < N ==> Steps[j].path != ProofPath
  {
    forall j | 0 <= j < N ensures Steps[j].path != ProofPath {
      IdDigit(j);
    }
  }

  /** Stage ids are pairwise distinct. */
  lemma IdsDistinct(i: nat, j: nat)
    requires i < N && j < N && i != j
    ensures Steps[i].id != Steps[j].id
  {
    IdDigitIsOwn(i, j);
    assert Steps[i].id[1] in Steps[i].path;
  }

  /** Stage routes are pairwise distinct. */
  lemma PathsDistinct(i: nat, j: nat)
    requires i < N && j < N && i != j
    ensures Steps[i].path != Steps[j].path
  {
    IdDigitIsOwn(i, j);
    assert Steps[i].id[1] in Steps[i].path by {
      assert Steps[i].path[5] == Steps[i].id[1];
    }
  }
}
