/** The CI change classifier (`ci-classify.js`): which jobs a pull request must run, failing closed. */
module Classifier {
  import opened Text

  datatype Category =
    | Empty | Workflow | Sibling | Deps | Docs | Frontend
    | CiInfra | E2e | Migration | BackendApi | BackendModel | Unknown

  const PROJECT := "hockey-scheduler/"
  const BACKEND := PROJECT + "backend/hockey_scheduler/"
  const SIBLING_DIRS := [
    "src/", "sql/", "tests/", "config/", "k8s/", "terraform/", "tools/", "data/", "docs/", ".vscode/", ".claude/"]
  const SIBLING_FILES := [
    "build.gradle", "render.yaml", "run_local.py", "run_single_transfer.py", "document_xfer.md",
    "sample_bip_with_pre_dff_updates.json", "sample_requests.json", ".env.example", "requirements.txt",
    "README.md", ".gitignore"]
  const MANIFESTS := [
    "pyproject.toml", "setup.py", "setup.cfg", "Pipfile", "Pipfile.lock", "poetry.lock", "package.json",
    "package-lock.json", "npm-shrinkwrap.json", "yarn.lock", "pnpm-lock.yaml", "Dockerfile",
    "docker-compose.yml", "docker-compose.yaml", ".tool-versions"]

  predicate Starts(s: string, prefix: string) {
    At(s, 0, prefix)
  }

  predicate Ends(s: string, suffix: string) {
    |suffix| <= |s| && At(s, |s| - |suffix|, suffix)
  }

  /** What follows the last slash. */
  function BaseName(s: string): string {
    if s == "" || s[|s| - 1] == '/' then "" else BaseName(s[..|s| - 1]) + [s[|s| - 1]]
  }

  /** A fixed head and a fixed tail with any characters between, as in `head[^/]*tail`. */
  predicate Framed(s: string, head: string, tail: string) {
    |head| + |tail| <= |s| && Starts(s, head) && Ends(s, tail)
  }

  predicate IsManifest(base: string) {
    base in MANIFESTS || Framed(base, "requirements", ".txt") || Framed(base, "constraints", ".txt")
  }

  predicate IsSibling(f: string) {
    f in SIBLING_FILES || exists d :: d in SIBLING_DIRS && Starts(f, d)
  }

  /** The first rule that matches a trimmed path. */
  function Categorize(file: string): Category {
    var f := Trim(file);
    if f == "" then Empty
    else if Starts(f, ".github/workflows/") then Workflow
    else if IsSibling(f) then Sibling
    else if IsManifest(BaseName(f)) then Deps
    else if Starts(f, PROJECT + "docs/") || Ends(Lower(f), ".md") then Docs
    else if Starts(f, BACKEND + "web/static/") then Frontend
    else if Starts(f, PROJECT + "e2e/ci-classify") then CiInfra
    else if Starts(f, PROJECT + "e2e/") then E2e
    else if Ends(Lower(f), ".sql") || Starts(f, BACKEND + "store/migrations/") then Migration
    else if Starts(f, BACKEND + "web/") || Starts(f, BACKEND + "api/") then BackendApi
    else if Ends(Lower(f), ".py") && Starts(f, PROJECT + "backend/") then BackendModel
    else Unknown
  }

  datatype Job = Test | Postgres | FrontendCheck | BrowserSmoke | PrBodyCheck

  datatype Reason =
    | OtherEvent(name: string) | NoFiles
    | UnknownPath | ClassifierChange | DependencyManifest | WorkflowChange
    | Categories(categories: seq<Category>)

  datatype Verdict = Verdict(test: bool, postgres: bool, frontendCheck: bool, browserSmoke: bool,
                             prBodyCheck: bool, reason: Reason)
  {
    predicate Runs(job: Job) {
      match job
      case Test => test
      case Postgres => postgres
      case FrontendCheck => frontendCheck
      case BrowserSmoke => browserSmoke
      case PrBodyCheck => prBodyCheck
    }
  }

  function Full(reason: Reason): Verdict {
    Verdict(true, true, true, true, true, reason)
  }

  predicate FailsClosed(c: Category) {
    c in {Unknown, CiInfra, Deps, Workflow}
  }

  /** The routing policy, category by category: the jobs a change of that kind must not go without. */
  predicate Demands(c: Category, job: Job) {
    match job
    case Test => FailsClosed(c) || c in {Migration, BackendModel, BackendApi}
    case Postgres => FailsClosed(c) || c in {Migration, BackendModel, BackendApi}
    case FrontendCheck => FailsClosed(c) || c in {BackendApi, Frontend, E2e}
    case BrowserSmoke => FailsClosed(c) || c in {BackendApi, Frontend, E2e}
    case PrBodyCheck => c !in {Sibling, Empty}
  }

  predicate PullRequest(event: string) {
    event == "" || event == "pull_request"
  }

  /** No path is left after trimming. */
  ghost predicate Blank(files: seq<string>) {
    forall f :: f in files ==> Categorize(f) == Empty
  }

  ghost predicate Wanted(files: seq<string>, job: Job) {
    exists f :: f in files && Demands(Categorize(f), job)
  }

  /** The verdict the policy calls for: everything outside pull requests and when nothing changed, and
      otherwise exactly the jobs that some path demands. */
  ghost predicate Routes(files: seq<string>, event: string, verdict: Verdict) {
    forall job :: verdict.Runs(job) <==> !PullRequest(event) || Blank(files) || Wanted(files, job)
  }

  /** Some category of the set demands the job. */
  ghost predicate Any(kinds: set<Category>, job: Job) {
    exists c :: c in kinds && Demands(c, job)
  }

  function Distinct(kinds: seq<Category>): set<Category> {
    set c | c in kinds
  }

  /** The categories of the paths that are left after trimming, in order. */
  function Kinds(files: seq<string>): (r: seq<Category>)
    ensures forall c :: c in r <==> c != Empty && exists f :: f in files && Categorize(f) == c
  {
    if files == [] then []
    else
      var rest := Kinds(files[1..]);
      assert forall f :: f in files <==> f == files[0] || f in files[1..];
      if Categorize(files[0]) == Empty then rest else [Categorize(files[0])] + rest
  }

  /** The reason given with the verdict: the first exit taken, or the categories seen. */
  ghost predicate Explains(files: seq<string>, event: string, reason: Reason) {
    var kinds := Kinds(files);
    match reason
    case OtherEvent(name) => name == event && !PullRequest(event)
    case NoFiles => PullRequest(event) && kinds == []
    case UnknownPath => PullRequest(event) && Unknown in kinds
    case ClassifierChange => PullRequest(event) && Unknown !in kinds && CiInfra in kinds
    case DependencyManifest => PullRequest(event) && Unknown !in kinds && CiInfra !in kinds && Deps in kinds
    case WorkflowChange =>
      PullRequest(event) && Workflow in kinds && forall c :: c in kinds && FailsClosed(c) ==> c == Workflow
    case Categories(categories) =>
      PullRequest(event) && categories == kinds != [] && forall c :: c in kinds ==> !FailsClosed(c)
  }

  lemma TrimTwice(file: string)
    ensures Categorize(Trim(file)) == Categorize(file)
    ensures Trim(file) == "" <==> Categorize(file) == Empty
  {
    hide Strip, Starts, Ends, IsSibling, IsManifest, BaseName;
    StripIsTrimmed(file, JsSpace);
    StripOfTrimmed(Trim(file), JsSpace);
  }

  lemma KindsBlank(files: seq<string>)
    ensures Kinds(files) == [] <==> Blank(files)
  {
    hide Categorize;
    if Kinds(files) == [] {
      forall f | f in files ensures Categorize(f) == Empty {
        assert Categorize(f) !in Kinds(files);
      }
    } else {
      var c := Kinds(files)[0];
      assert c in Kinds(files);
    }
  }

  lemma {:induction false} KindsSnoc(files: seq<string>, file: string)
    ensures Kinds(files + [file]) == Kinds(files) + (if Categorize(file) == Empty then [] else [Categorize(file)])
  {
    hide Categorize;
    if files == [] {
      assert files + [file] == [file];
    } else {
      assert (files + [file])[1..] == files[1..] + [file];
      KindsSnoc(files[1..], file);
    }
  }

  lemma WantedByKinds(files: seq<string>, job: Job)
    ensures Wanted(files, job) <==> Any(Distinct(Kinds(files)), job)
  {
    hide Categorize, Kinds, Demands;
    if Wanted(files, job) {
      var f :| f in files && Demands(Categorize(f), job);
      EmptyDemandsNothing(job);
      assert Categorize(f) in Distinct(Kinds(files));
    }
  }

  lemma EmptyDemandsNothing(job: Job)
    ensures !Demands(Empty, job)
  {
  }

  lemma AnyAdd(kinds: set<Category>, c: Category, job: Job)
    ensures Any(kinds + {c}, job) <==> Any(kinds, job) || Demands(c, job)
  {
    hide Demands;
    if Demands(c, job) { assert c in kinds + {c}; }
    if Any(kinds, job) {
      var d :| d in kinds && Demands(d, job);
      assert d in kinds + {c};
    }
  }

  lemma ClosedDemandAll(kinds: set<Category>)
    ensures forall c :: c in kinds && FailsClosed(c) ==> forall job :: Any(kinds, job)
  {
    forall c, job | c in kinds && FailsClosed(c) ensures Any(kinds, job) { assert Demands(c, job); }
  }

  method Classify(files: seq<string>, event: string) returns (verdict: Verdict)
    ensures Routes(files, event, verdict)
    ensures Explains(files, event, verdict.reason)
  {
    hide Categorize, Kinds, Any, Demands, Blank, Wanted;
    KindsBlank(files);
    if event != "" && event != "pull_request" {
      return Full(OtherEvent(event));
    }
    var list, cats := [], [];
    KindsBlank([]);
    BlankNothing();
    for i := 0 to |files|
      invariant cats == Kinds(files[..i])
      invariant |list| == |cats|
    {
      TrimTwice(files[i]);
      KindsSnoc(files[..i], files[i]);
      assert files[..i + 1] == files[..i] + [files[i]];
      var f := Trim(files[i]);
      if f != "" {
        list, cats := list + [f], cats + [Categorize(f)];
      }
    }
    assert files[..|files|] == files;
    var seen := Distinct(cats);
    forall job ensures Wanted(files, job) <==> Any(seen, job) { WantedByKinds(files, job); }
    if |list| == 0 {
      return Full(NoFiles);
    }
    ClosedDemandAll(seen);
    if Unknown in seen {
      return Full(UnknownPath);
    }
    if CiInfra in seen {
      return Full(ClassifierChange);
    }
    if Deps in seen {
      return Full(DependencyManifest);
    }
    if Workflow in seen {
      return Full(WorkflowChange);
    }
    verdict := UnionOf(cats);
  }

  lemma BlankNothing()
    ensures Blank([])
  {
  }

  /** The flag loop over the distinct categories, when none of them fails closed. */
  method UnionOf(cats: seq<Category>) returns (verdict: Verdict)
    requires Empty !in cats && forall c :: c in cats ==> !FailsClosed(c)
    ensures forall job :: verdict.Runs(job) <==> Any(Distinct(cats), job)
    ensures verdict.reason == Categories(cats)
  {
    hide Any;
    var test, postgres, frontendCheck, browserSmoke := false, false, false, false;
    var todo := Distinct(cats);
    ghost var done: set<Category> := {};
    NothingDemanded();
    while todo != {}
      invariant todo + done == Distinct(cats)
      invariant test == postgres == Any(done, Test) == Any(done, Postgres)
      invariant frontendCheck == browserSmoke == Any(done, FrontendCheck) == Any(done, BrowserSmoke)
      decreases |todo|
    {
      var c :| c in todo;
      forall job ensures Any(done + {c}, job) <==> Any(done, job) || Demands(c, job) { AnyAdd(done, c, job); }
      if c == Migration || c == BackendModel || c == BackendApi {
        test := true;
        postgres := true;
      }
      if c == BackendApi || c == Frontend || c == E2e {
        frontendCheck := true;
        browserSmoke := true;
      }
      todo, done := todo - {c}, done + {c};
    }
    var prBodyCheck := exists c :: c in Distinct(cats) && c != Sibling;
    BodyDemanded(Distinct(cats));
    assert done == Distinct(cats);
    verdict := Verdict(test, postgres, frontendCheck, browserSmoke, prBodyCheck, Categories(cats));
  }

  lemma NothingDemanded()
    ensures forall job :: !Any({}, job)
  {
  }

  lemma BodyDemanded(kinds: set<Category>)
    requires Empty !in kinds
    ensures Any(kinds, PrBodyCheck) <==> exists c :: c in kinds && c != Sibling
  {
    if c :| c in kinds && c != Sibling { assert Demands(c, PrBodyCheck); }
  }

  /** On a pull request the verdict of a combined change is, job by job, the union of the two verdicts,
      exactly when neither part is blank or the other part runs everything anyway. */
  lemma UnionHomomorphism(a: seq<string>, b: seq<string>, event: string, va: Verdict, vb: Verdict, v: Verdict)
    requires PullRequest(event)
    requires Routes(a, event, va) && Routes(b, event, vb) && Routes(a + b, event, v)
    ensures (forall job :: v.Runs(job) <==> va.Runs(job) || vb.Runs(job)) <==>
      ((Blank(a) ==> forall job :: vb.Runs(job)) && (Blank(b) ==> forall job :: va.Runs(job)))
  {
    hide Wanted, Blank;
    forall job ensures Wanted(a + b, job) <==> Wanted(a, job) || Wanted(b, job) { WantedByEither(a, b, job); }
    BlankTogether(a, b);
  }

  lemma WantedByEither(a: seq<string>, b: seq<string>, job: Job)
    ensures Wanted(a + b, job) <==> Wanted(a, job) || Wanted(b, job)
  {
    hide Categorize, Demands;
    if f :| f in a && Demands(Categorize(f), job) { assert f in a + b; }
    if f :| f in b && Demands(Categorize(f), job) { assert f in a + b; }
  }

  lemma BlankTogether(a: seq<string>, b: seq<string>)
    ensures Blank(a + b) <==> Blank(a) && Blank(b)
    ensures Blank(a) ==> forall job :: !Wanted(a, job)
    ensures Blank(b) ==> forall job :: !Wanted(b, job)
  {
    hide Categorize;
    if Blank(a + b) {
      forall f | f in a || f in b ensures Categorize(f) == Empty { assert f in a + b; }
    }
    forall job ensures !Demands(Empty, job) { EmptyDemandsNothing(job); }
  }

  /** Every heavy job is off exactly for a pull request that changes something, all of it docs or the
      sibling project; the body check is off exactly when all of it is the sibling project. */
  lemma SkipsExactly(files: seq<string>, event: string, v: Verdict)
    requires Routes(files, event, v)
    ensures !v.test && !v.postgres && !v.frontendCheck && !v.browserSmoke <==>
      PullRequest(event) && !Blank(files) && forall f :: f in files ==> Categorize(f) in {Docs, Sibling, Empty}
    ensures !v.prBodyCheck <==>
      PullRequest(event) && !Blank(files) && forall f :: f in files ==> Categorize(f) in {Sibling, Empty}
  {
    hide Categorize;
    forall f | f in files && Categorize(f) !in {Docs, Sibling, Empty}
      ensures Wanted(files, Test) || Wanted(files, FrontendCheck)
    {
      HeavyDemand(Categorize(f));
    }
    forall f | f in files && Categorize(f) !in {Sibling, Empty} ensures Wanted(files, PrBodyCheck) {
      assert Demands(Categorize(f), PrBodyCheck);
    }
    EachJob(files, event, v);
  }

  lemma HeavyDemand(c: Category)
    ensures c !in {Docs, Sibling, Empty} <==> Demands(c, Test) || Demands(c, FrontendCheck)
  {
  }

  lemma EachJob(files: seq<string>, event: string, v: Verdict)
    requires Routes(files, event, v)
    ensures var all := !PullRequest(event) || Blank(files);
      && v.test == v.postgres == (all || Wanted(files, Test))
      && v.frontendCheck == v.browserSmoke == (all || Wanted(files, FrontendCheck))
      && v.prBodyCheck == (all || Wanted(files, PrBodyCheck))
  {
    hide Categorize, Blank;
    assert v.Runs(Test) == v.test;
    assert v.Runs(Postgres) == v.postgres;
    assert v.Runs(FrontendCheck) == v.frontendCheck;
    assert v.Runs(BrowserSmoke) == v.browserSmoke;
    assert v.Runs(PrBodyCheck) == v.prBodyCheck;
    forall f | f in files
      ensures Demands(Categorize(f), Test) == Demands(Categorize(f), Postgres)
      ensures Demands(Categorize(f), FrontendCheck) == Demands(Categorize(f), BrowserSmoke)
    {
    }
  }

  // ----- where a path is routed

  lemma StartsAt(f: string, prefix: string, k: nat)
    requires Starts(f, prefix) && k < |prefix|
    ensures k < |f| && f[k] == prefix[k]
  {
    assert f[0..|prefix|][k] == prefix[k];
  }

  lemma StartsOther(f: string, prefix: string, k: nat)
    requires k < |prefix| && (k < |f| ==> f[k] != prefix[k])
    ensures !Starts(f, prefix)
  {
    if Starts(f, prefix) { StartsAt(f, prefix, k); }
  }

  lemma StartsLonger(f: string, prefix: string, more: string)
    ensures Starts(f, prefix + more) ==> Starts(f, prefix)
  {
    if Starts(f, prefix + more) {
      assert f[0..|prefix|] == f[0..|prefix + more|][..|prefix|] == (prefix + more)[..|prefix|] == prefix;
    }
  }

  /** The sibling's patterns are anchored at the root, so they never take a path of this project. */
  lemma ProjectIsNeverSibling(f: string)
    requires Starts(f, PROJECT)
    ensures !IsSibling(f) && !Starts(f, ".github/workflows/")
  {
    StartsAt(f, PROJECT, 0);
    forall d | d in SIBLING_DIRS ensures !Starts(f, d) { StartsOther(f, d, 0); }
    StartsOther(f, ".github/workflows/", 0);
    forall g | g in SIBLING_FILES ensures g != f { assert g[0] != 'h'; }
  }

  lemma OutsideNothing(f: string)
    requires !Starts(f, PROJECT)
    ensures !Starts(f, PROJECT + "docs/") && !Starts(f, PROJECT + "backend/")
    ensures !Starts(f, PROJECT + "e2e/ci-classify") && !Starts(f, PROJECT + "e2e/")
    ensures !Starts(f, BACKEND + "web/static/") && !Starts(f, BACKEND + "store/migrations/")
    ensures !Starts(f, BACKEND + "web/") && !Starts(f, BACKEND + "api/")
  {
    hide Starts;
    StartsLonger(f, PROJECT, "docs/");
    StartsLonger(f, PROJECT, "backend/");
    StartsLonger(f, PROJECT, "e2e/ci-classify");
    StartsLonger(f, PROJECT, "e2e/");
    StartsLonger(f, PROJECT, "backend/hockey_scheduler/");
    StartsLonger(f, BACKEND, "web/static/");
    StartsLonger(f, BACKEND, "store/migrations/");
    StartsLonger(f, BACKEND, "web/");
    StartsLonger(f, BACKEND, "api/");
  }

  lemma LonePath(f: string, v: Verdict)
    requires Categorize(f) != Empty && Routes([f], "pull_request", v)
    ensures forall job :: v.Runs(job) <==> Demands(Categorize(f), job)
  {
    hide Categorize, Demands;
    forall job ensures v.Runs(job) <==> Demands(Categorize(f), job) {
      assert f in [f];
      assert Wanted([f], job) <==> Demands(Categorize(f), job);
    }
  }

  /** The header promises that a path recognised neither as this project's nor as the sibling's runs
      everything. That holds of a lone such path exactly when it does not end in `.md` or `.sql`, or is a
      manifest or workflow in spite of its ending. */
  lemma OutsiderRunsEverything(f: string, v: Verdict)
    requires Trim(f) == f != "" && !Starts(f, PROJECT) && !IsSibling(f)
    requires Routes([f], "pull_request", v)
    ensures (forall job :: v.Runs(job)) <==>
      Starts(f, ".github/workflows/") || IsManifest(BaseName(f)) || !(Ends(Lower(f), ".md") || Ends(Lower(f), ".sql"))
  {
    hide Starts, Ends, IsSibling, IsManifest, BaseName, Lower, Strip, Routes;
    OutsideNothing(f);
    LonePath(f, v);
    RunsAllExactly(f, v);
  }

  lemma RunsAllExactly(f: string, v: Verdict)
    requires forall job :: v.Runs(job) <==> Demands(Categorize(f), job)
    ensures (forall job :: v.Runs(job)) <==> FailsClosed(Categorize(f)) || Categorize(f) == BackendApi
  {
    hide Categorize;
    if forall job :: v.Runs(job) {
      assert v.Runs(Test) && v.Runs(FrontendCheck);
      assert Demands(Categorize(f), Test) && Demands(Categorize(f), FrontendCheck);
    } else {
      var job :| !v.Runs(job);
      assert !Demands(Categorize(f), job);
    }
  }

  /** A change to one of the classifier's own files runs everything exactly when the file is a manifest or
      is not Markdown. */
  lemma ClassifierGuardsItself(f: string, v: Verdict)
    requires Trim(f) == f && Starts(f, PROJECT + "e2e/ci-classify")
    requires Routes([f], "pull_request", v)
    ensures (forall job :: v.Runs(job)) <==> IsManifest(BaseName(f)) || !Ends(Lower(f), ".md")
  {
    hide Ends, IsManifest, BaseName, Lower, Strip, IsSibling, Routes, Starts;
    StartsLonger(f, PROJECT, "e2e/ci-classify");
    ProjectIsNeverSibling(f);
    StartsAt(f, PROJECT + "e2e/ci-classify", 17);
    StartsOther(f, PROJECT + "docs/", 17);
    StartsOther(f, BACKEND + "web/static/", 17);
    LonePath(f, v);
    RunsAllExactly(f, v);
  }

  /** The areas of the project do not overlap. */
  lemma AreasApart(f: string)
    ensures Starts(f, PROJECT + "e2e/") ==> !Starts(f, PROJECT + "docs/") && !Starts(f, PROJECT + "backend/")
    ensures Starts(f, PROJECT + "backend/") ==> !Starts(f, PROJECT + "docs/")
    ensures Starts(f, BACKEND + "api/") ==> !Starts(f, BACKEND + "web/") && !Starts(f, BACKEND + "store/migrations/")
    ensures Starts(f, BACKEND + "web/") ==> !Starts(f, BACKEND + "store/migrations/")
  {
    hide Starts;
    Apart(f, PROJECT + "e2e/", PROJECT + "docs/", 17);
    Apart(f, PROJECT + "e2e/", PROJECT + "backend/", 17);
    Apart(f, PROJECT + "backend/", PROJECT + "docs/", 17);
    Apart(f, BACKEND + "api/", BACKEND + "web/", 42);
    Apart(f, BACKEND + "api/", BACKEND + "store/migrations/", 42);
    Apart(f, BACKEND + "web/", BACKEND + "store/migrations/", 42);
  }

  lemma Apart(f: string, a: string, b: string, k: nat)
    requires k < |a| && k < |b| && a[k] != b[k]
    ensures Starts(f, a) ==> !Starts(f, b)
  {
    if Starts(f, a) {
      StartsAt(f, a, k);
      StartsOther(f, b, k);
    }
  }

  /** Inside an area of the project lies inside the project. */
  lemma AreaInside(f: string)
    ensures Starts(f, BACKEND + "web/static/") ==> Starts(f, BACKEND + "web/")
    ensures Starts(f, BACKEND + "web/") || Starts(f, BACKEND + "api/") || Starts(f, BACKEND + "store/migrations/") ==>
      Starts(f, PROJECT + "backend/")
    ensures Starts(f, PROJECT + "backend/") || Starts(f, PROJECT + "e2e/") ==> Starts(f, PROJECT)
    ensures Starts(f, PROJECT + "e2e/ci-classify") ==> Starts(f, PROJECT + "e2e/")
  {
    hide Starts;
    assert BACKEND + "web/static/" == BACKEND + "web/" + "static/";
    StartsLonger(f, BACKEND + "web/", "static/");
    assert BACKEND == PROJECT + "backend/" + "hockey_scheduler/";
    StartsLonger(f, BACKEND, "web/");
    StartsLonger(f, BACKEND, "api/");
    StartsLonger(f, BACKEND, "store/migrations/");
    StartsLonger(f, PROJECT + "backend/", "hockey_scheduler/");
    StartsLonger(f, PROJECT, "backend/");
    StartsLonger(f, PROJECT, "e2e/");
    assert PROJECT + "e2e/ci-classify" == PROJECT + "e2e/" + "ci-classify";
    StartsLonger(f, PROJECT + "e2e/", "ci-classify");
  }

  /** What a project path is, area by area and without regard to the order of the rules. */
  lemma ProjectKinds(f: string)
    requires Trim(f) == f && Starts(f, PROJECT)
    ensures Categorize(f) == Deps <==> IsManifest(BaseName(f))
    ensures Categorize(f) == Docs <==>
      !IsManifest(BaseName(f)) && (Starts(f, PROJECT + "docs/") || Ends(Lower(f), ".md"))
    ensures Categorize(f) == Frontend <==>
      !IsManifest(BaseName(f)) && !Ends(Lower(f), ".md") && Starts(f, BACKEND + "web/static/")
    ensures Categorize(f) == CiInfra <==>
      !IsManifest(BaseName(f)) && !Ends(Lower(f), ".md") && Starts(f, PROJECT + "e2e/ci-classify")
    ensures Categorize(f) == E2e <==>
      !IsManifest(BaseName(f)) && !Ends(Lower(f), ".md") &&
      Starts(f, PROJECT + "e2e/") && !Starts(f, PROJECT + "e2e/ci-classify")
    ensures Categorize(f) == BackendApi <==>
      !IsManifest(BaseName(f)) && !Ends(Lower(f), ".md") && !Ends(Lower(f), ".sql") &&
      (Starts(f, BACKEND + "api/") || (Starts(f, BACKEND + "web/") && !Starts(f, BACKEND + "web/static/")))
    ensures Categorize(f) == Migration <==>
      !IsManifest(BaseName(f)) && !Ends(Lower(f), ".md") &&
      (Starts(f, BACKEND + "store/migrations/") ||
       (Ends(Lower(f), ".sql") &&
        !Starts(f, PROJECT + "docs/") && !Starts(f, PROJECT + "e2e/") && !Starts(f, BACKEND + "web/static/")))
    ensures Categorize(f) == BackendModel <==>
      !IsManifest(BaseName(f)) && Ends(Lower(f), ".py") && Starts(f, PROJECT + "backend/") &&
      !Starts(f, BACKEND + "web/") && !Starts(f, BACKEND + "api/") && !Starts(f, BACKEND + "store/migrations/")
  {
    hide Starts, Ends, IsManifest, BaseName, Lower, Strip, IsSibling;
    ProjectIsNeverSibling(f);
    AreasApart(f);
    AreaInside(f);
    ProjectIsNotBlank(f);
    EndsOneWay(Lower(f));
  }

  lemma LastOf(s: string, suffix: string)
    requires suffix != "" && Ends(s, suffix)
    ensures s != "" && s[|s| - 1] == suffix[|suffix| - 1]
  {
    assert s[|s| - |suffix|..|s|][|suffix| - 1] == s[|s| - 1];
  }

  lemma EndsOneWay(s: string)
    ensures Ends(s, ".py") ==> !Ends(s, ".md") && !Ends(s, ".sql")
  {
    hide Ends;
    forall suffix: string | suffix in [".py", ".md", ".sql"] && Ends(s, suffix)
      ensures s != "" && s[|s| - 1] == suffix[|suffix| - 1]
    {
      LastOf(s, suffix);
    }
    assert ".py" in [".py", ".md", ".sql"] && ".md" in [".py", ".md", ".sql"] && ".sql" in [".py", ".md", ".sql"];
  }

  lemma ProjectIsNotBlank(f: string)
    requires Starts(f, PROJECT)
    ensures f != ""
  {
  }

  /** A change to the API surface, the transport or the facade, is promised the browser gate on top of the
      database matrix: it runs everything exactly when it is a manifest or ends in neither `.md` nor `.sql`. */
  lemma ApiChangesReachTheBrowser(f: string, v: Verdict)
    requires Trim(f) == f && Routes([f], "pull_request", v)
    requires Starts(f, BACKEND + "api/") || (Starts(f, BACKEND + "web/") && !Starts(f, BACKEND + "web/static/"))
    ensures (forall job :: v.Runs(job)) <==>
      IsManifest(BaseName(f)) || !(Ends(Lower(f), ".md") || Ends(Lower(f), ".sql"))
  {
    hide Starts, Ends, IsManifest, BaseName, Lower, Strip, IsSibling, Routes;
    AreaInside(f);
    AreasApart(f);
    ProjectIsNeverSibling(f);
    ProjectIsNotBlank(f);
    LonePath(f, v);
    RunsAllExactly(f, v);
  }

  /** The base name is what follows the last slash. */
  lemma {:induction false} BaseNameIs(dir: string, name: string)
    requires '/' !in name
    ensures BaseName(name) == name && BaseName(dir + "/" + name) == name
  {
    if name == "" {
      assert (dir + "/" + name)[|dir|] == '/';
    } else {
      var front := name[..|name| - 1];
      BaseNameIs(dir, front);
      assert name == front + [name[|name| - 1]];
      assert (dir + "/" + name)[..|dir + "/" + name| - 1] == dir + "/" + front;
    }
  }

  // ---- changes that run less than promised ----

  lemma LowerConcat(a: string, b: string)
    ensures Lower(a + b) == Lower(a) + Lower(b)
  {
  }

  lemma EndsWith(s: string, suffix: string)
    requires Lower(suffix) == suffix
    ensures Ends(Lower(s + suffix), suffix)
  {
    LowerConcat(s, suffix);
    var t := Lower(s) + suffix;
    assert t[|t| - |suffix|..|t|] == suffix;
  }

  lemma PlainPath(f: string)
    requires f != "" && !JsSpace(f[0]) && !JsSpace(f[|f| - 1])
    ensures Trim(f) == f
  {
    StripOfTrimmed(f, JsSpace);
  }

  lemma NotFramed(base: string, head: string, tail: string)
    requires base != "" && head != "" && base[0] != head[0]
    ensures !Framed(base, head, tail)
  {
    StartsOther(base, head, 0);
  }

  lemma NotesIsOutside()
    ensures !Starts("NOTES.md", PROJECT) && !IsSibling("NOTES.md") && !Starts("NOTES.md", ".github/workflows/")
    ensures !IsManifest(BaseName("NOTES.md"))
  {
    var f := "NOTES.md";
    StartsOther(f, PROJECT, 0);
    StartsOther(f, ".github/workflows/", 0);
    forall d | d in SIBLING_DIRS ensures !Starts(f, d) { StartsOther(f, d, 0); }
    forall g | g in SIBLING_FILES ensures g != f { assert g[0] != 'N'; }
    BaseNameIs("", f);
    NotFramed(f, "requirements", ".txt");
    NotFramed(f, "constraints", ".txt");
    forall g | g in MANIFESTS ensures g != f { assert g[0] != 'N'; }
  }

  /** A note outside the project and the sibling does not run everything. */
  lemma NotesRunLess(v: Verdict)
    requires Routes(["NOTES.md"], "pull_request", v)
    ensures exists job :: !v.Runs(job)
  {
    hide Starts, Ends, IsSibling, IsManifest, BaseName, Lower, Strip, Routes;
    PlainPath("NOTES.md");
    NotesIsOutside();
    assert "NOTES" + ".md" == "NOTES.md";
    MarkdownSuffix();
    EndsWith("NOTES", ".md");
    OutsiderRunsEverything("NOTES.md", v);
  }

  lemma MarkdownSuffix()
    ensures Lower(".md") == ".md" && Lower(".sql") == ".sql"
  {
  }

  lemma StartsConcat(prefix: string, rest: string)
    ensures Starts(prefix + rest, prefix)
  {
    assert (prefix + rest)[0..|prefix|] == prefix;
  }

  lemma NoManifest(dir: string, base: string)
    requires '/' !in base && base != "" && base[0] != 'r' && base !in MANIFESTS && !Starts(base, "constraints")
    ensures !IsManifest(BaseName(dir + "/" + base))
  {
    BaseNameIs(dir, base);
    NotFramed(base, "requirements", ".txt");
  }

  /** Markdown named like the classifier's own files does not run everything. */
  lemma ClassifierNotesRunLess(v: Verdict)
    requires Routes([PROJECT + "e2e/ci-classify" + ".md"], "pull_request", v)
    ensures exists job :: !v.Runs(job)
  {
    hide Starts, Ends, IsManifest, BaseName, Lower, Strip, Routes;
    var f := PROJECT + "e2e/ci-classify" + ".md";
    PlainPath(f);
    StartsConcat(PROJECT + "e2e/ci-classify", ".md");
    assert f == "hockey-scheduler/e2e" + "/" + "ci-classify.md";
    StartsOther("ci-classify.md", "constraints", 1);
    NoManifest("hockey-scheduler/e2e", "ci-classify.md");
    MarkdownSuffix();
    EndsWith(PROJECT + "e2e/ci-classify", ".md");
    ClassifierGuardsItself(f, v);
  }

  lemma ApiSqlPath(f: string)
    requires f == BACKEND + "api/" + "x.sql"
    ensures Trim(f) == f && Starts(f, BACKEND + "api/") && Ends(Lower(f), ".sql") && !IsManifest(BaseName(f))
  {
    hide Starts, Ends, IsManifest, BaseName, Lower, Strip;
    assert f[0] == 'h' && f[|f| - 1] == 'l';
    PlainPath(f);
    StartsConcat(BACKEND + "api/", "x.sql");
    assert f == PROJECT + "backend/hockey_scheduler/api" + "/" + "x.sql";
    StartsOther("x.sql", "constraints", 0);
    NoManifest(PROJECT + "backend/hockey_scheduler/api", "x.sql");
    MarkdownSuffix();
    assert f == BACKEND + "api/x" + ".sql";
    EndsWith(BACKEND + "api/x", ".sql");
  }

  /** SQL inside the API surface does not reach the browser gate. */
  lemma ApiSqlRunsLess(v: Verdict)
    requires Routes([BACKEND + "api/" + "x.sql"], "pull_request", v)
    ensures exists job :: !v.Runs(job)
  {
    hide Starts, Ends, IsManifest, BaseName, Lower, Strip, Routes;
    ApiSqlPath(BACKEND + "api/" + "x.sql");
    ApiChangesReachTheBrowser(BACKEND + "api/" + "x.sql", v);
  }
}
