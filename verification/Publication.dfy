/**
  Publish-once directories: scripts/release/baci-source-staging.ts, scripts/release/analysis-artifact.ts
  and scripts/catalog/product-catalog-artifact.ts.

  A build may fail at any step; the clean-up that follows a failure succeeds, and builds do not run at
  the same time. Files are compared by size and digest, which identify their contents.
*/
module Publication {
  import opened Common

  /** The contents of a directory. */
  type Directory = map<string, string>

  datatype Kind = Staging | Artifact | Catalog

  /** What a build wants to publish, where, and the report that goes with it. */
  datatype Input = Input(kind: Kind, path: string, files: Directory, report: string)

  /** The steps of one build that fail; a failing write leaves whatever it has written so far. */
  datatype Faults = Faults(
    prepareReport: bool, writeFiles: Option<Directory>, lookUp: bool, rename: bool,
    verify: bool, removePartial: bool, commitReport: bool)

  /** The publications that can be seen, the directory being written, and the two report files. */
  datatype Store = Store(
    published: map<string, Directory>, partial: Option<Directory>,
    preparedReport: Option<string>, report: Option<string>)

  datatype Outcome = Accepted | Failed

  datatype Published = Created | AlreadyThere | Refused

  /** The files of an existing publication that a build compares with its own. */
  function Compared(kind: Kind, files: Directory): set<string> {
    match kind
    case Staging => files.Keys
    case Artifact => {"candidate-market.duckdb", "artifact-manifest.json"}
    case Catalog => {"product-catalog.json", "catalog-manifest.json"}
  }

  predicate SameFiles(kind: Kind, there: Directory, files: Directory) {
    forall name | name in Compared(kind, files) :: name in there && name in files && there[name] == files[name]
  }

  // ---------- One build, as a function ----------

  /** `publishStaging`, `publishArtifact`, `publishCatalog`: moves the partial directory, once. */
  function Publish(s: Store, input: Input, f: Faults): (Store, Published)
    requires s.partial.Some?
  {
    if f.lookUp then (s, Refused)
    else if input.path !in s.published then
      if f.rename then (s, Refused)
      else (s.(published := s.published[input.path := s.partial.value], partial := None), Created)
    else if f.verify || !SameFiles(input.kind, s.published[input.path], input.files) || f.removePartial then (s, Refused)
    else (s.(partial := None), AlreadyThere)
  }

  /** After a failure: no prepared report, no partial directory, and no catalogue that this build created. */
  function CleanedUp(s: Store, input: Input, created: bool): Store {
    var t := s.(preparedReport := None, partial := None);
    if input.kind == Catalog && created then t.(published := s.published - {input.path}) else t
  }

  function Build(s: Store, input: Input, f: Faults): (Store, Outcome) {
    if f.prepareReport then (s.(preparedReport := None, partial := None), Failed)
    else
      var prepared := s.(preparedReport := Some(input.report));
      if f.writeFiles.Some? then (CleanedUp(prepared.(partial := f.writeFiles), input, false), Failed)
      else
        var (placed, result) := Publish(prepared.(partial := Some(input.files)), input, f);
        if result == Refused then (CleanedUp(placed, input, false), Failed)
        else if f.commitReport then (CleanedUp(placed, input, result == Created), Failed)
        else (placed.(report := Some(input.report), preparedReport := None), Accepted)
  }

  // ---------- The same build, step by step ----------

  class Workspace {
    var store: Store

    constructor (store: Store)
      ensures this.store == store
    {
      this.store := store;
    }

    method PublishDirectory(input: Input, f: Faults) returns (result: Published)
      requires store.partial.Some?
      modifies this
      ensures (store, result) == Publish(old(store), input, f)
    {
      if f.lookUp {
        return Refused;
      }
      if input.path !in store.published {
        if f.rename {
          return Refused;
        }
        store := store.(published := store.published[input.path := store.partial.value], partial := None);
        return Created;
      }
      if f.verify {
        return Refused;
      }
      var there := store.published[input.path];
      if exists name | name in Compared(input.kind, input.files) ::
          name !in there || name !in input.files || there[name] != input.files[name] {
        return Refused;
      }
      if f.removePartial {
        return Refused;
      }
      store := store.(partial := None);
      return AlreadyThere;
    }

    /** The `catch` block of a build. */
    method CleanUp(input: Input, publicationCreated: bool)
      modifies this
      ensures store == CleanedUp(old(store), input, publicationCreated)
    {
      store := store.(preparedReport := None);
      store := store.(partial := None);
      if input.kind == Catalog && publicationCreated {
        store := store.(published := store.published - {input.path});
      }
    }

    method BuildAndPublish(input: Input, f: Faults) returns (outcome: Outcome)
      modifies this
      ensures (store, outcome) == Build(old(store), input, f)
    {
      if f.prepareReport {
        store := store.(preparedReport := None, partial := None);
        return Failed;
      }
      store := store.(preparedReport := Some(input.report));
      if f.writeFiles.Some? {
        store := store.(partial := f.writeFiles);
        CleanUp(input, false);
        return Failed;
      }
      store := store.(partial := Some(input.files));
      var result := PublishDirectory(input, f);
      if result == Refused {
        CleanUp(input, false);
        return Failed;
      }
      if f.commitReport {
        CleanUp(input, result == Created);
        return Failed;
      }
      store := store.(report := Some(input.report), preparedReport := None);
      return Accepted;
    }
  }

  // ---------- Every sequence of builds ----------

  /** Everything that was published before is still there, file for file. */
  ghost predicate Keeps(before: map<string, Directory>, after: map<string, Directory>) {
    forall path :: path in before ==> path in after && after[path] == before[path]
  }

  /**
    One build never changes or removes what was visible before it. The only thing it can add is its own
    directory, complete. A failing catalogue build adds nothing; a failing build of another kind adds its
    publication exactly when everything but the report was already in place.
  */
  lemma BuildIsSafe(s: Store, input: Input, f: Faults)
    requires Compared(input.kind, input.files) <= input.files.Keys
    ensures var (after, outcome) := Build(s, input, f);
            && Keeps(s.published, after.published)
            && (forall path :: path in after.published && path !in s.published ==>
                  path == input.path && after.published[path] == input.files)
            && after.partial == None && after.preparedReport == None
            && (outcome == Accepted ==>
                  && input.path in after.published
                  && SameFiles(input.kind, after.published[input.path], input.files)
                  && after.report == Some(input.report))
            && (outcome == Failed ==> after.report == s.report)
            && (outcome == Failed && after.published != s.published <==>
                  && input.kind != Catalog && input.path !in s.published && f.commitReport
                  && !f.prepareReport && f.writeFiles == None && !f.lookUp && !f.rename)
  {
    var (after, outcome) := Build(s, input, f);
    if input.kind == Catalog && input.path !in s.published {
      assert s.published[input.path := input.files] - {input.path} == s.published;
    }
    if after.published != s.published {
      assert input.path in after.published;
    }
  }

  /** The case that differs from a catalogue build: all is in place, and putting the report in place fails. */
  lemma FailingBuildPublishes(s: Store, input: Input)
    requires input.kind != Catalog && input.path !in s.published
    ensures var (after, outcome) := Build(s, input, Faults(false, None, false, false, false, false, true));
            && outcome == Failed && after.report == s.report
            && after.published == s.published[input.path := input.files] && after.published != s.published
  {
    var after := Build(s, input, Faults(false, None, false, false, false, false, true)).0;
    assert input.path in after.published;
  }

  // ---------- When a build is accepted ----------

  ghost predicate SameAt(name: string, there: Directory, files: Directory) {
    name in there && name in files && there[name] == files[name]
  }

  /** What must agree with a publication that is already there: of a staging every file, else the data and its manifest. */
  ghost predicate Agrees(kind: Kind, there: Directory, files: Directory) {
    match kind
    case Staging => forall name :: name in files ==> name in there && there[name] == files[name]
    case Artifact => SameAt("candidate-market.duckdb", there, files) && SameAt("artifact-manifest.json", there, files)
    case Catalog => SameAt("product-catalog.json", there, files) && SameAt("catalog-manifest.json", there, files)
  }

  /**
    A build is accepted exactly when it can write and its report can be put in place, and either its path is
    free, or what is there can be read and agrees. What is there is never overwritten.
  */
  lemma AcceptedIff(s: Store, input: Input, f: Faults)
    ensures var (after, outcome) := Build(s, input, f);
            outcome == Accepted
            <==> && !f.prepareReport && f.writeFiles.None? && !f.lookUp && !f.commitReport
                 && if input.path in s.published then
                      !f.verify && !f.removePartial && Agrees(input.kind, s.published[input.path], input.files)
                    else !f.rename
  {
    if input.path in s.published {
      AgreesIff(input.kind, s.published[input.path], input.files);
    }
  }

  lemma AgreesIff(kind: Kind, there: Directory, files: Directory)
    ensures SameFiles(kind, there, files) <==> Agrees(kind, there, files)
  {
    if SameFiles(kind, there, files) {
      assert kind == Artifact ==> "candidate-market.duckdb" in Compared(kind, files)
                                  && "artifact-manifest.json" in Compared(kind, files);
      assert kind == Catalog ==> "product-catalog.json" in Compared(kind, files)
                                 && "catalog-manifest.json" in Compared(kind, files);
    }
  }

  /** A repeated build is accepted, and changes nothing that is visible: it is the same publication. */
  lemma RepeatedBuildIsAccepted(s: Store, input: Input)
    requires input.path in s.published && s.published[input.path] == input.files
    requires Compared(input.kind, input.files) <= input.files.Keys
    ensures var (after, outcome) := Build(s, input, Faults(false, None, false, false, false, false, false));
            outcome == Accepted && after.published == s.published && after.report == Some(input.report)
  {
  }

  /** An artifact or a catalogue may differ from the publication that is there in any other file: what is there stays. */
  lemma ReportIsNotCompared(s: Store, input: Input, name: string, other: string)
    requires input.kind != Staging && Compared(input.kind, input.files) <= input.files.Keys
    requires name !in Compared(input.kind, input.files)
    requires input.path in s.published && s.published[input.path] == input.files[name := other]
    ensures var (after, outcome) := Build(s, input, Faults(false, None, false, false, false, false, false));
            outcome == Accepted && after.published == s.published
  {
    var there := s.published[input.path];
    forall compared | compared in Compared(input.kind, input.files) ensures SameAt(compared, there, input.files) {
      assert compared != name;
    }
    assert SameFiles(input.kind, there, input.files);
  }

  datatype Attempt = Attempt(input: Input, faults: Faults)

  ghost function AfterBuilds(s: Store, attempts: seq<Attempt>): Store {
    if attempts == [] then s
    else Build(AfterBuilds(s, attempts[..|attempts| - 1]), attempts[|attempts| - 1].input, attempts[|attempts| - 1].faults).0
  }

  /** A publication is complete: it is, file for file, what some build set out to publish there. */
  ghost predicate CompleteOf(path: string, there: Directory, attempts: seq<Attempt>) {
    exists k :: 0 <= k < |attempts| && attempts[k].input.path == path && attempts[k].input.files == there
  }

  ghost predicate WellFormed(attempts: seq<Attempt>) {
    forall a :: a in attempts ==> Compared(a.input.kind, a.input.files) <= a.input.files.Keys
  }

  /**
    Over any sequence of builds, each failing anywhere or not at all: whatever is visible was there at
    the start or is complete; and whatever is visible at some point stays, unaltered, to the end.
  */
  lemma {:induction false} BuildsAreSafe(s: Store, attempts: seq<Attempt>, n: nat)
    requires n <= |attempts| && WellFormed(attempts)
    ensures var after := AfterBuilds(s, attempts).published;
            && Keeps(AfterBuilds(s, attempts[..n]).published, after)
            && (forall path :: path in after ==>
                  (path in s.published && after[path] == s.published[path]) || CompleteOf(path, after[path], attempts))
    decreases |attempts|
  {
    if n == |attempts| {
      TakeAll(attempts);
    }
    if attempts != [] {
      var init, last := attempts[..|attempts| - 1], attempts[|attempts| - 1];
      assert last in attempts;
      BuildsAreSafe(s, init, if n < |attempts| then n else n - 1);
      if n < |attempts| {
        assert init[..n] == attempts[..n];
      }
      var before := AfterBuilds(s, init);
      BuildIsSafe(before, last.input, last.faults);
      var after := AfterBuilds(s, attempts).published;
      forall path | path in after
        ensures (path in s.published && after[path] == s.published[path]) || CompleteOf(path, after[path], attempts)
      {
        if path in before.published {
          if CompleteOf(path, after[path], init) {
            var k :| 0 <= k < |init| && init[k].input.path == path && init[k].input.files == after[path];
            assert attempts[k] == init[k];
          }
        } else {
          assert attempts[|attempts| - 1].input.path == path;
        }
      }
    }
  }
}
