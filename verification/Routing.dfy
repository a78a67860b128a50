/** Which jobs a changed path gets, by where it lies and how it is named: the routing table of the classifier,
    written over whole paths. */
module Routing {
  import opened Classifier
  import opened Text

  ghost predicate Under(p: string, dir: string) {
    |dir| <= |p| && p[..|dir|] == dir
  }

  /** The path ends so in any letter case. */
  ghost predicate EndsIn(p: string, ending: string) {
    |ending| <= |p| && SameLetters(p[|p| - |ending|..], ending)
  }

  /** What follows the last slash of the path, or the path if it has none. */
  ghost predicate Named(p: string, base: string) {
    '/' !in base && (p == base || exists dir: string :: p == dir + "/" + base)
  }

  ghost predicate Enclosed(base: string, head: string, tail: string) {
    exists middle: string :: base == head + middle + tail
  }

  ghost predicate ManifestName(base: string) {
    || Enclosed(base, "requirements", ".txt") || Enclosed(base, "constraints", ".txt")
    || base in {"pyproject.toml", "setup.py", "setup.cfg", "Pipfile", "Pipfile.lock", "poetry.lock"}
    || base in {"package.json", "package-lock.json", "npm-shrinkwrap.json", "yarn.lock", "pnpm-lock.yaml"}
    || base in {"Dockerfile", "docker-compose.yml", "docker-compose.yaml", ".tool-versions"}
  }

  ghost predicate Dependency(p: string) {
    exists base :: Named(p, base) && ManifestName(base)
  }

  /** A path of the other project in the repository. */
  ghost predicate OfSibling(p: string) {
    || p in [
      "build.gradle", "render.yaml", "run_local.py", "run_single_transfer.py", "document_xfer.md",
      "sample_bip_with_pre_dff_updates.json", "sample_requests.json", ".env.example", "requirements.txt",
      "README.md", ".gitignore"]
    || exists dir: string :: Under(p, dir) && dir in [
      "src/", "sql/", "tests/", "config/", "k8s/", "terraform/", "tools/", "data/", "docs/", ".vscode/", ".claude/"]
  }

  const HERE := "hockey-scheduler/"
  const INNER := "hockey-scheduler/" + "backend/hockey_scheduler/"

  /** Neither a workflow, nor the sibling's, nor a manifest. */
  ghost predicate Ordinary(p: string) {
    p != "" && !Under(p, ".github/workflows/") && !OfSibling(p) && !Dependency(p)
  }

  ghost predicate Note(p: string) {
    Under(p, HERE + "docs/") || EndsIn(p, ".md")
  }

  ghost predicate Static(p: string) {
    Under(p, INNER + "web/static/")
  }

  ghost predicate OwnFile(p: string) {
    Under(p, HERE + "e2e/ci-classify")
  }

  ghost predicate Journey(p: string) {
    Under(p, HERE + "e2e/") && !OwnFile(p)
  }

  ghost predicate Database(p: string) {
    || Under(p, INNER + "store/migrations/")
    || (EndsIn(p, ".sql") && !Static(p) && !OwnFile(p) && !Journey(p))
  }

  ghost predicate Surface(p: string) {
    && !Static(p) && !EndsIn(p, ".sql")
    && (|| Under(p, INNER + "web/")
        || Under(p, INNER + "api/"))
  }

  ghost predicate Model(p: string) {
    EndsIn(p, ".py") && Under(p, HERE + "backend/") && !Static(p) && !Surface(p) && !Database(p)
  }

  ghost function JobsOf(v: Verdict): set<Job> {
    set job: Job | v.Runs(job)
  }

  // ---- the tables of names ----

  lemma UnderIsStarts(p: string, dir: string)
    ensures Under(p, dir) <==> Starts(p, dir)
  {
    if |dir| <= |p| { assert p[..|dir|] == p[0..|dir|]; }
  }

  lemma EndsInIsEnds(p: string, ending: string)
    requires Lower(ending) == ending
    ensures EndsIn(p, ending) <==> Ends(Lower(p), ending)
  {
    if |ending| <= |p| {
      var tail := p[|p| - |ending|..];
      assert Lower(p)[|p| - |ending|..|p|] == Lower(tail);
      SameCased(tail, ending);
    }
  }

  lemma NamedIs(p: string, base: string)
    ensures Named(p, base) <==> BaseName(p) == base
  {
    if Named(p, base) {
      BaseNameIs("", base);
      if p != base {
        var dir: string :| p == dir + "/" + base;
        BaseNameIs(dir, base);
      }
    }
    BaseSplits(p);
  }

  lemma NamedGrows(front: string, base: string, c: char)
    requires Named(front, base) && c != '/'
    ensures Named(front + [c], base + [c])
  {
    if front != base {
      var dir: string :| front == dir + "/" + base;
      assert front + [c] == dir + "/" + (base + [c]);
    }
  }

  lemma NamedNothing(dir: string)
    ensures Named("", "") && Named(dir + "/", "")
  {
    assert dir + "/" == dir + "/" + "";
  }

  lemma {:induction false} BaseSplits(p: string)
    ensures Named(p, BaseName(p))
  {
    hide Named;
    if p == "" {
      NamedNothing("");
    } else {
      var front, last := p[..|p| - 1], p[|p| - 1];
      assert p == front + [last];
      if last == '/' {
        NamedNothing(front);
        assert p == front + "/";
      } else {
        BaseSplits(front);
        NamedGrows(front, BaseName(front), last);
      }
    }
  }

  lemma EnclosedIsFramed(base: string, head: string, tail: string)
    ensures Enclosed(base, head, tail) <==> Framed(base, head, tail)
  {
    if Framed(base, head, tail) {
      var n, m := |head|, |base| - |tail|;
      assert base == base[0..n] + base[n..m] + base[m..|base|];
    }
    if Enclosed(base, head, tail) {
      var middle: string :| base == head + middle + tail;
      assert base[0..|head|] == head && base[|base| - |tail|..|base|] == tail;
    }
  }

  lemma ManifestTable(base: string)
    ensures ManifestName(base) <==> IsManifest(base)
  {
    hide Framed, Enclosed;
    EnclosedIsFramed(base, "requirements", ".txt");
    EnclosedIsFramed(base, "constraints", ".txt");
  }

  lemma DependencyIs(p: string)
    ensures Dependency(p) <==> IsManifest(BaseName(p))
  {
    hide ManifestName, IsManifest, Named;
    forall base ensures Named(p, base) <==> BaseName(p) == base { NamedIs(p, base); }
    ManifestTable(BaseName(p));
  }

  lemma SiblingTable(p: string)
    ensures OfSibling(p) <==> IsSibling(p)
  {
    hide Starts, Under;
    forall dir ensures Under(p, dir) <==> Starts(p, dir) { UnderIsStarts(p, dir); }
  }

  // ---- the routing table ----

  lemma Endings(p: string)
    ensures EndsIn(p, ".md") <==> Ends(Lower(p), ".md")
    ensures EndsIn(p, ".sql") <==> Ends(Lower(p), ".sql")
    ensures EndsIn(p, ".py") <==> Ends(Lower(p), ".py")
  {
    hide Ends, EndsIn;
    assert Lower(".md") == ".md" && Lower(".sql") == ".sql" && Lower(".py") == ".py";
    EndsInIsEnds(p, ".md");
    EndsInIsEnds(p, ".sql");
    EndsInIsEnds(p, ".py");
  }

  lemma Starting(p: string)
    ensures forall dir :: Under(p, dir) <==> Starts(p, dir)
  {
    hide Under, Starts;
    forall dir ensures Under(p, dir) <==> Starts(p, dir) { UnderIsStarts(p, dir); }
  }

  lemma Places()
    ensures HERE == PROJECT && INNER == BACKEND
  {
  }

  lemma CategoryTable(p: string)
    requires Trim(p) == p != ""
    ensures Categorize(p) != Empty
    ensures Under(p, ".github/workflows/") ==> Categorize(p) == Workflow
    ensures !Under(p, ".github/workflows/") && OfSibling(p) ==> Categorize(p) == Sibling
    ensures !Under(p, ".github/workflows/") && !OfSibling(p) && Dependency(p) ==> Categorize(p) == Deps
    ensures Ordinary(p) && Note(p) ==> Categorize(p) == Docs
    ensures Ordinary(p) && !Note(p) && (Static(p) || Journey(p)) ==> Categorize(p) in {Frontend, E2e}
    ensures Ordinary(p) && !Note(p) && (Database(p) || Model(p)) ==> Categorize(p) in {Migration, BackendModel}
    ensures Ordinary(p) && !Note(p) && (Surface(p) || OwnFile(p)) ==> Categorize(p) in {BackendApi, CiInfra}
    ensures Ordinary(p) && !(Note(p) || Static(p) || Journey(p) || Database(p) || Model(p) || Surface(p) || OwnFile(p))
      ==> Categorize(p) == Unknown
  {
    hide Starts, Ends, IsSibling, IsManifest, BaseName, Lower, Strip, Under, EndsIn, OfSibling, Dependency;
    DependencyIs(p);
    SiblingTable(p);
    Endings(p);
    Starting(p);
    Places();
    AreasApart(p);
    AreaInside(p);
    EndsOneWay(Lower(p));
  }

  /** The jobs of a change to one path. Workflows and manifests run everything, and so do the API surface, the
      classifier's own files and what no rule knows; the sibling's paths run nothing; notes run the body check
      only; static files and journeys add the browser jobs to it, and SQL and backend Python the database jobs. */
  lemma RoutingTable(p: string, v: Verdict)
    requires Trim(p) == p != "" && Routes([p], "pull_request", v)
    ensures Under(p, ".github/workflows/") || (!OfSibling(p) && Dependency(p)) ==>
      JobsOf(v) == {Test, Postgres, FrontendCheck, BrowserSmoke, PrBodyCheck}
    ensures !Under(p, ".github/workflows/") && OfSibling(p) ==> JobsOf(v) == {}
    ensures Ordinary(p) && Note(p) ==> JobsOf(v) == {PrBodyCheck}
    ensures Ordinary(p) && !Note(p) && (Static(p) || Journey(p)) ==>
      JobsOf(v) == {FrontendCheck, BrowserSmoke, PrBodyCheck}
    ensures Ordinary(p) && !Note(p) && (Database(p) || Model(p)) ==> JobsOf(v) == {Test, Postgres, PrBodyCheck}
    ensures Ordinary(p) && !Note(p) && !Static(p) && !Journey(p) && !Database(p) && !Model(p) ==>
      JobsOf(v) == {Test, Postgres, FrontendCheck, BrowserSmoke, PrBodyCheck}
  {
    hide Categorize, Trim, Under, OfSibling, Dependency, Note, Static, Journey, Database, Model, Surface, OwnFile;
    CategoryTable(p);
    LonePath(p, v);
    JobTable(Categorize(p), v);
  }

  lemma JobTable(c: Category, v: Verdict)
    requires forall job :: v.Runs(job) <==> Demands(c, job)
    ensures c in {Workflow, Deps, BackendApi, CiInfra, Unknown} ==>
      JobsOf(v) == {Test, Postgres, FrontendCheck, BrowserSmoke, PrBodyCheck}
    ensures c in {Sibling, Empty} ==> JobsOf(v) == {}
    ensures c == Docs ==> JobsOf(v) == {PrBodyCheck}
    ensures c in {Frontend, E2e} ==> JobsOf(v) == {FrontendCheck, BrowserSmoke, PrBodyCheck}
    ensures c in {Migration, BackendModel} ==> JobsOf(v) == {Test, Postgres, PrBodyCheck}
  {
    forall job ensures job in JobsOf(v) <==> Demands(c, job) {}
  }

  /** A change of many paths runs a job exactly when the change of one of them alone does. */
  lemma EachPathDecides(files: seq<string>, v: Verdict, job: Job)
    requires Routes(files, "pull_request", v) && exists f :: f in files && Trim(f) != ""
    ensures job in JobsOf(v) <==>
      exists f, lone :: f in files && Trim(f) != "" && Routes([Trim(f)], "pull_request", lone) && job in JobsOf(lone)
  {
    hide Categorize, Demands, Strip;
    forall f ensures Trim(f) == "" <==> Categorize(f) == Empty { TrimTwice(f); }
    assert !Blank(files);
    if job in JobsOf(v) {
      var f :| f in files && Demands(Categorize(f), job);
      EmptyDemandsNothing(job);
      TrimTwice(f);
      var lone := Lone(Trim(f));
      LonePath(Trim(f), lone);
      assert job in JobsOf(lone);
    }
    forall f, lone | f in files && Trim(f) != "" && Routes([Trim(f)], "pull_request", lone) && job in JobsOf(lone)
      ensures job in JobsOf(v)
    {
      TrimTwice(f);
      LonePath(Trim(f), lone);
      assert Wanted(files, job);
    }
  }

  /** There is a verdict for a lone path. */
  lemma Lone(p: string) returns (v: Verdict)
    requires Categorize(p) != Empty
    ensures Routes([p], "pull_request", v)
  {
    hide Categorize, Demands;
    var c := Categorize(p);
    v := Verdict(Demands(c, Test), Demands(c, Postgres), Demands(c, FrontendCheck), Demands(c, BrowserSmoke),
      Demands(c, PrBodyCheck), NoFiles);
    assert p in [p];
    forall job ensures v.Runs(job) <==> Wanted([p], job) {
      assert Wanted([p], job) <==> Demands(c, job);
    }
  }

  /** Every other event runs everything, and so does a pull request whose paths are all blank; an event without
      a name is a pull request. */
  lemma OtherwiseEverything(files: seq<string>, event: string, v: Verdict)
    requires Routes(files, event, v)
    ensures event !in {"", "pull_request"} || (forall f :: f in files ==> Trim(f) == "") ==>
      JobsOf(v) == {Test, Postgres, FrontendCheck, BrowserSmoke, PrBodyCheck}
    ensures event == "" ==> Routes(files, "pull_request", v)
  {
    hide Categorize, Demands, Strip;
    forall f ensures Trim(f) == "" <==> Categorize(f) == Empty { TrimTwice(f); }
    forall job: Job | job in JobsOf(v) ensures job in {Test, Postgres, FrontendCheck, BrowserSmoke, PrBodyCheck} {
      EveryJob(job);
    }
  }

  lemma EveryJob(job: Job)
    ensures job in {Test, Postgres, FrontendCheck, BrowserSmoke, PrBodyCheck}
  {
  }
}
