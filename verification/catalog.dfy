/**
 The decisions `buildPacksJson` (build.js:173-234) and `getPackInfo` (build.js:82-118) make
 once the file system is taken away: every TSV file of every pack is normalised and
 validated and, when valid, alphabetised; a pack with a manifest and only valid files
 yields a catalog entry; and the catalog, sorted by id, is written only when no file
 failed. Directories are given as values, in the order the listing returns them.
 */
module Catalog {
  import opened Wrappers
  import opened Text
  import opened Collation
  import opened Normalizer
  import opened Validator
  import opened Alphabetizer
  import Pipeline

  /** A manifest category; an empty string stands for a missing field. */
  datatype Category = Category(name: string, id: string)

  /** The fields of `manifest.json` the build reads, already parsed. */
  datatype Manifest = Manifest(
    id: string,
    name: string,
    version: Option<string>,
    description: Option<string>,
    author: Option<string>,
    categories: Option<seq<Category>>)

  /** A file in a pack directory. */
  datatype Entry = Entry(name: string, content: string)

  /** A pack directory: its name, its files, and its manifest when one exists. */
  datatype PackDir = PackDir(name: string, entries: seq<Entry>, manifest: Option<Manifest>)

  /** One catalog entry as `getPackInfo` assembles it. */
  datatype Pack = Pack(
    id: string,
    name: string,
    version: string,
    description: Option<string>,
    author: string,
    downloadUrl: string,
    promptCount: nat,
    categories: seq<string>)

  /** A refused file: the pack directory, the file name and the validator's reason. */
  datatype FileError = FileError(pack: string, file: string, error: TsvError)

  const DefaultVersion: string := "1.0.0"
  const DefaultAuthor: string := "Idea Loom"
  const DownloadPrefix: string := "https://raw.githubusercontent.com/atomantic/IdeatorPromptPacks/main/packs/"
  const TsvSuffix: string := ".tsv"

  /** `file.endsWith('.tsv')`. */
  predicate IsTsv(name: string) {
    |name| >= |TsvSuffix| && name[|name| - |TsvSuffix|..] == TsvSuffix
  }

  /** `path.basename(file, '.tsv')` for a file name without directory part. */
  function BaseName(name: string): (b: string)
    requires IsTsv(name)
    ensures b + TsvSuffix == name
  {
    name[..|name| - |TsvSuffix|]
  }

  /** What one pass of the file loop leaves on disk, and the validator's verdict. */
  datatype FileResult = FileResult(content: string, verdict: Verdict)

  /** The validator's verdict on a file once normalised (build.js:195-196). */
  function FileVerdict(content: string): Verdict {
    Validate(Normalize(content).content)
  }

  /** One iteration of the file loop (build.js:193-205): normalise, validate the
      normalised content, and alphabetise it when it passed. A file that passed is left
      valid, with one prompt per row normalisation produced; a refused file is left
      normalised, so normalising it again changes nothing. */
  function ProcessFile(content: string): (r: FileResult)
    ensures r.verdict != Invalid(EmptyFile)
    ensures r.verdict == Valid ==>
      Validate(r.content) == Valid && CountPrompts(r.content) == |RowsOf(content)|
    ensures r.verdict.Invalid? ==>
      Normalize(r.content) == Normalize(content) && Validate(r.content) == r.verdict
  {
    var normalized := Normalize(content).content;
    var verdict := FileVerdict(content);
    if verdict == Valid then
      Pipeline.AlphabetizeNormalized(content);
      FileResult(Alphabetize(normalized), verdict)
    else
      NormalizeIdempotent(content);
      FileResult(normalized, verdict)
  }

  /** One file after the file loop: a TSV file rewritten, any other file untouched. */
  function ProcessEntry(e: Entry): (r: Entry)
    ensures r.name == e.name
  {
    if IsTsv(e.name) then Entry(e.name, ProcessFile(e.content).content) else e
  }

  /** The directory after the file loop. */
  function ProcessEntries(entries: seq<Entry>): (r: seq<Entry>)
    ensures |r| == |entries|
    ensures forall i | 0 <= i < |entries| :: r[i] == ProcessEntry(entries[i])
  {
    if |entries| == 0 then [] else [ProcessEntry(entries[0])] + ProcessEntries(entries[1..])
  }

  /** The refusals of the file loop, one per invalid TSV file, in listing order. */
  function FileErrors(pack: string, entries: seq<Entry>): (errs: seq<FileError>)
  {
    if |entries| == 0 then []
    else
      var e := entries[0];
      var here := if IsTsv(e.name) && FileVerdict(e.content).Invalid?
        then [FileError(pack, e.name, FileVerdict(e.content).error)] else [];
      here + FileErrors(pack, entries[1..])
  }

  /** `cat.name || cat.id`. */
  function Label(c: Category): string {
    if c.name != [] then c.name else c.id
  }

  function Labels(cs: seq<Category>): (r: seq<string>)
    ensures |r| == |cs|
    ensures forall i | 0 <= i < |cs| :: r[i] == Label(cs[i])
  {
    seq(|cs|, i requires 0 <= i < |cs| => Label(cs[i]))
  }

  /** The TSV file names without their extension, in listing order: every name listed
      is that of a TSV file, and every TSV file is listed. */
  function TsvNames(entries: seq<Entry>): (r: seq<string>)
    ensures |r| <= |entries|
    ensures forall k | 0 <= k < |r| :: r[k] + TsvSuffix in NamesOf(entries)
    ensures forall i | 0 <= i < |entries| && IsTsv(entries[i].name) :: BaseName(entries[i].name) in r
  {
    if |entries| == 0 then []
    else
      var rest := TsvNames(entries[1..]);
      assert forall k | 0 <= k < |rest| :: rest[k] + TsvSuffix in NamesOf(entries) by {
        assert forall n :: n in NamesOf(entries[1..]) ==> n in NamesOf(entries);
      }
      var here := if IsTsv(entries[0].name) then [BaseName(entries[0].name)] else [];
      assert forall k | 0 <= k < |here| :: here[k] + TsvSuffix == entries[0].name;
      assert forall i | 1 <= i < |entries| :: entries[i] == entries[1..][i - 1];
      here + rest
  }

  function NamesOf(entries: seq<Entry>): set<string> {
    set i | 0 <= i < |entries| :: entries[i].name
  }

  /** The sum of `countPrompts` over a directory's TSV files. */
  function TotalPrompts(entries: seq<Entry>): nat {
    if |entries| == 0 then 0
    else
      var here := if IsTsv(entries[0].name) then CountPrompts(entries[0].content) else 0;
      here + TotalPrompts(entries[1..])
  }

  function Identity(s: string): string { s }

  /** `x || fallback` on an optional string field. */
  function OrDefault(x: Option<string>, fallback: string): (r: string)
    ensures x.Some? && x.value != [] ==> r == x.value
    ensures x.None? || x.value == [] ==> r == fallback
  {
    if x.Some? && x.value != [] then x.value else fallback
  }

  /** `getPackInfo` on a directory as it stands after the file loop: nothing without a
      manifest, otherwise the manifest's fields with their defaults, the prompt total, and
      the categories sorted. */
  function PackInfo(d: PackDir): (r: Option<Pack>)
    ensures r.Some? <==> d.manifest.Some?
    ensures r.Some? ==> r.value.version != [] && r.value.author != []
    ensures r.Some? ==> forall i, j | 0 <= i < j < |r.value.categories| ::
      LocaleLeq(r.value.categories[i], r.value.categories[j])
  {
    if d.manifest.None? then None
    else
      var m := d.manifest.value;
      var names := if m.categories.Some? then Labels(m.categories.value) else TsvNames(d.entries);
      Some(Pack(
        m.id,
        m.name,
        OrDefault(m.version, DefaultVersion),
        m.description,
        OrDefault(m.author, DefaultAuthor),
        DownloadPrefix + m.id + "/",
        TotalPrompts(d.entries),
        SortedLabels(names)))
  }

  /** The labels in collation order. */
  function SortedLabels(names: seq<string>): (r: seq<string>)
    ensures multiset(r) == multiset(names)
    ensures forall i, j | 0 <= i < j < |r| :: LocaleLeq(r[i], r[j])
  {
    var sorted := SortBy(names, Identity);
    assert forall i, j | 0 <= i < j < |sorted| :: LocaleLeq(Identity(sorted[i]), Identity(sorted[j]));
    sorted
  }

  /** A directory after its file loop. */
  function ProcessedDir(d: PackDir): (r: PackDir)
    ensures r.name == d.name && r.manifest == d.manifest && |r.entries| == |d.entries|
  {
    d.(entries := ProcessEntries(d.entries))
  }

  /** What one pass of the pack loop pushes (build.js:208-216): the pack's details, asked
      for only when none of its files failed. */
  function PackStep(d: PackDir): Option<Pack> {
    if FileErrors(d.name, d.entries) == [] then PackInfo(ProcessedDir(d)) else None
  }

  /** The pack loop (build.js:184-219) splits into three independent results, since no
      pass depends on another: the directories as left on disk, every refusal, and the
      packs pushed, each in directory order. */
  function LoopDirs(dirs: seq<PackDir>): (r: seq<PackDir>)
    ensures |r| == |dirs|
    ensures forall i | 0 <= i < |dirs| :: r[i] == ProcessedDir(dirs[i])
  {
    if |dirs| == 0 then [] else [ProcessedDir(dirs[0])] + LoopDirs(dirs[1..])
  }

  function LoopErrors(dirs: seq<PackDir>): seq<FileError> {
    if |dirs| == 0 then [] else FileErrors(dirs[0].name, dirs[0].entries) + LoopErrors(dirs[1..])
  }

  function LoopPacks(dirs: seq<PackDir>): (r: seq<Pack>)
    ensures |r| <= |dirs|
  {
    Pushed(seq(|dirs|, i requires 0 <= i < |dirs| => PackStep(dirs[i])))
  }

  /** The values of the passes that pushed one, in order. */
  function Pushed<T>(steps: seq<Option<T>>): (r: seq<T>)
    ensures |r| <= |steps|
  {
    if |steps| == 0 then []
    else (if steps[0].Some? then [steps[0].value] else []) + Pushed(steps[1..])
  }

  function PackId(p: Pack): string { p.id }

  /** What the build leaves behind: the rewritten directories, the refusals, and the
      catalog it writes, or nothing when it exits with an error. */
  datatype BuildResult = BuildResult(dirs: seq<PackDir>, errors: seq<FileError>, catalog: Option<seq<Pack>>)

  /** `buildPacksJson`. Every directory is rewritten under its own name and manifest; a
      catalog is written exactly when nothing was refused, and it is sorted by id. */
  function Build(dirs: seq<PackDir>): (b: BuildResult)
    ensures |b.dirs| == |dirs|
    ensures forall i | 0 <= i < |dirs| ::
      b.dirs[i].name == dirs[i].name && b.dirs[i].manifest == dirs[i].manifest
    ensures b.catalog.Some? <==> b.errors == []
    ensures b.catalog.Some? ==> forall i, j | 0 <= i < j < |b.catalog.value| ::
      LocaleLeq(b.catalog.value[i].id, b.catalog.value[j].id)
  {
    var errors := LoopErrors(dirs);
    BuildResult(LoopDirs(dirs), errors,
      if errors != [] then None else Some(SortedById(LoopPacks(dirs))))
  }

  /** The packs in collation order of their ids. */
  function SortedById(packs: seq<Pack>): (r: seq<Pack>)
    ensures multiset(r) == multiset(packs)
    ensures forall i, j | 0 <= i < j < |r| :: LocaleLeq(r[i].id, r[j].id)
  {
    var sorted := SortBy(packs, PackId);
    assert forall i, j | 0 <= i < j < |sorted| :: LocaleLeq(PackId(sorted[i]), PackId(sorted[j]));
    sorted
  }

  // ---------------------------------------------------------------------------
  // Properties

  /** Every TSV file of the directory passes the validator once normalised. */
  predicate AllFilesValid(entries: seq<Entry>) {
    forall i | 0 <= i < |entries| :: IsTsv(entries[i].name) ==> FileVerdict(entries[i].content) == Valid
  }

  /** A directory reports a refusal exactly when one of its TSV files fails the
      validator after normalisation. */
  lemma {:induction false} FileErrorsEmptyIff(pack: string, entries: seq<Entry>)
    ensures FileErrors(pack, entries) == [] <==> AllFilesValid(entries)
  {
    if |entries| > 0 {
      FileErrorsHead(pack, entries);
      FileErrorsEmptyIff(pack, entries[1..]);
      AllFilesValidHead(entries);
    }
  }

  /** The first file adds a refusal exactly when it is a TSV file that fails. */
  lemma FileErrorsHead(pack: string, entries: seq<Entry>)
    requires |entries| > 0
    ensures FileErrors(pack, entries) == [] <==>
      (IsTsv(entries[0].name) ==> FileVerdict(entries[0].content) == Valid)
      && FileErrors(pack, entries[1..]) == []
  {
  }

  lemma AllFilesValidHead(entries: seq<Entry>)
    requires |entries| > 0
    ensures AllFilesValid(entries) <==>
      (IsTsv(entries[0].name) ==> FileVerdict(entries[0].content) == Valid)
      && AllFilesValid(entries[1..])
  {
    assert forall i | 1 <= i < |entries| :: entries[i] == entries[1..][i - 1];
  }

  /** The pack loop reports a refusal exactly when some directory reports one. */
  lemma {:induction false} LoopErrorsEmptyIff(dirs: seq<PackDir>)
    ensures LoopErrors(dirs) == [] <==>
      forall i | 0 <= i < |dirs| :: FileErrors(dirs[i].name, dirs[i].entries) == []
  {
    if |dirs| > 0 {
      LoopErrorsEmptyIff(dirs[1..]);
      assert forall i | 1 <= i < |dirs| :: dirs[i] == dirs[1..][i - 1];
    }
  }

  /** The catalog is written exactly when every TSV file of every pack validates after
      normalisation, missing manifests notwithstanding. */
  lemma BuildWritesIffAllValid(dirs: seq<PackDir>)
    ensures Build(dirs).catalog.Some? <==>
      forall i | 0 <= i < |dirs| :: AllFilesValid(dirs[i].entries)
  {
    LoopErrorsEmptyIff(dirs);
    forall i | 0 <= i < |dirs|
      ensures FileErrors(dirs[i].name, dirs[i].entries) == [] <==> AllFilesValid(dirs[i].entries)
    {
      FileErrorsEmptyIff(dirs[i].name, dirs[i].entries);
    }
  }

  /** A written catalog lists the pushed packs, each once per push, sorted by id. */
  lemma CatalogSorted(dirs: seq<PackDir>)
    requires Build(dirs).catalog.Some?
    ensures multiset(Build(dirs).catalog.value) == multiset(LoopPacks(dirs))
    ensures forall i, j | 0 <= i < j < |Build(dirs).catalog.value| ::
      LocaleLeq(Build(dirs).catalog.value[i].id, Build(dirs).catalog.value[j].id)
  {
  }

  /** Each pass pushes a pack exactly when the directory has a manifest and no refused
      file, and the pack is described from the rewritten directory. */
  lemma PackStepDecision(d: PackDir)
    ensures PackStep(d).Some? <==> d.manifest.Some? && AllFilesValid(d.entries)
    ensures PackStep(d).Some? ==> PackStep(d) == PackInfo(ProcessedDir(d))
  {
    FileErrorsEmptyIff(d.name, d.entries);
  }

  /** Pushing over two runs of passes pushes the first run's values, then the second's. */
  lemma {:induction false} PushedAppend<T>(a: seq<Option<T>>, b: seq<Option<T>>)
    ensures Pushed(a + b) == Pushed(a) + Pushed(b)
  {
    if |a| > 0 {
      assert (a + b)[0] == a[0] && (a + b)[1..] == a[1..] + b;
      PushedAppend(a[1..], b);
    } else {
      assert a + b == b;
    }
  }

  /** One pass pushes its value once, or nothing. */
  lemma PushedSingle<T>(s: Option<T>)
    ensures Pushed([s]) == if s.Some? then [s.value] else []
  {
    assert [s][1..] == [];
  }

  /** A value is pushed exactly when some pass produced it. */
  lemma {:induction false} PushedMembers<T>(steps: seq<Option<T>>)
    ensures forall x :: x in Pushed(steps) <==> exists i | 0 <= i < |steps| :: steps[i] == Some(x)
  {
    if |steps| > 0 {
      PushedMembers(steps[1..]);
      forall x ensures x in Pushed(steps) <==> exists i | 0 <= i < |steps| :: steps[i] == Some(x) {
        if x in Pushed(steps[1..]) {
          var k :| 0 <= k < |steps[1..]| && steps[1..][k] == Some(x);
          assert steps[k + 1] == Some(x);
        }
        if exists i | 0 <= i < |steps| :: steps[i] == Some(x) {
          var i :| 0 <= i < |steps| && steps[i] == Some(x);
          if i > 0 {
            assert steps[1..][i - 1] == Some(x);
          }
        }
      }
    }
  }

  /** The packs pushed are exactly the packs the passes produce. */
  lemma PushedPacks(dirs: seq<PackDir>)
    ensures forall p :: p in LoopPacks(dirs) <==>
      exists i | 0 <= i < |dirs| :: PackStep(dirs[i]) == Some(p)
  {
    var steps := seq(|dirs|, i requires 0 <= i < |dirs| => PackStep(dirs[i]));
    PushedMembers(steps);
    assert forall i | 0 <= i < |dirs| :: steps[i] == PackStep(dirs[i]);
  }

  /** A directory without a manifest whose files all validate adds no refusal and no
      pack; with an invalid file it is refused like any other. */
  lemma MissingManifestSkipped(d: PackDir)
    requires d.manifest.None?
    ensures PackStep(d).None?
    ensures FileErrors(d.name, d.entries) == [] <==> AllFilesValid(d.entries)
  {
    FileErrorsEmptyIff(d.name, d.entries);
  }

  /** The number of rows normalisation produces from each TSV file, summed. */
  function TotalRows(entries: seq<Entry>): nat {
    if |entries| == 0 then 0
    else
      var here := if IsTsv(entries[0].name) then |RowsOf(entries[0].content)| else 0;
      here + TotalRows(entries[1..])
  }

  /** For a pack whose files all validate, the prompt count counts the rows normalisation
      produced, whatever else the original files held. */
  lemma {:induction false} PromptCountIsRows(entries: seq<Entry>)
    requires AllFilesValid(entries)
    ensures TotalPrompts(ProcessEntries(entries)) == TotalRows(entries)
  {
    if |entries| > 0 {
      var after := ProcessEntries(entries);
      assert after[1..] == ProcessEntries(entries[1..]);
      assert forall i | 1 <= i < |entries| :: entries[i] == entries[1..][i - 1];
      PromptCountIsRows(entries[1..]);
      if IsTsv(entries[0].name) {
        Pipeline.AlphabetizeNormalized(entries[0].content);
      }
    }
  }

  /** A listed pack's count is that of its rows, its categories a sorted arrangement of
      the manifest's labels or, lacking those, of the TSV file names without extension,
      and its version and author fall back to their defaults. */
  lemma PackInfoShape(d: PackDir)
    requires d.manifest.Some? && AllFilesValid(d.entries)
    ensures var p := PackInfo(ProcessedDir(d)).value;
      var m := d.manifest.value;
      && p.id == m.id && p.name == m.name && p.description == m.description
      && p.promptCount == TotalRows(d.entries)
      && (m.categories.Some? ==> multiset(p.categories) == multiset(Labels(m.categories.value)))
      && (m.categories.None? ==> multiset(p.categories) == multiset(TsvNames(d.entries)))
      && (forall i, j | 0 <= i < j < |p.categories| :: LocaleLeq(p.categories[i], p.categories[j]))
      && (m.version.Some? && m.version.value != [] ==> p.version == m.version.value)
      && (m.version.None? || m.version.value == [] ==> p.version == DefaultVersion)
      && (m.author.Some? && m.author.value != [] ==> p.author == m.author.value)
      && (m.author.None? || m.author.value == [] ==> p.author == DefaultAuthor)
      && p.downloadUrl == DownloadPrefix + m.id + "/"
  {
    var after := ProcessedDir(d);
    PromptCountIsRows(d.entries);
    TsvNamesKept(d.entries);
  }

  /** The names are listed in the order of the files: those of a listing's front part
      come before those of its back part. */
  lemma {:induction false} TsvNamesAppend(a: seq<Entry>, b: seq<Entry>)
    ensures TsvNames(a + b) == TsvNames(a) + TsvNames(b)
  {
    if |a| > 0 {
      assert (a + b)[0] == a[0] && (a + b)[1..] == a[1..] + b;
      TsvNamesAppend(a[1..], b);
    } else {
      assert a + b == b;
    }
  }

  /** A single file contributes its base name when it is a TSV file, and nothing otherwise. */
  lemma TsvNamesSingle(e: Entry)
    ensures IsTsv(e.name) ==> TsvNames([e]) == [BaseName(e.name)]
    ensures !IsTsv(e.name) ==> TsvNames([e]) == []
  {
    assert [e][1..] == [];
  }

  /** Processing rewrites contents only, so the TSV file names are the same after. */
  lemma {:induction false} TsvNamesKept(entries: seq<Entry>)
    ensures TsvNames(ProcessEntries(entries)) == TsvNames(entries)
  {
    if |entries| > 0 {
      var after := ProcessEntries(entries);
      assert after[0] == ProcessEntry(entries[0]);
      assert after[1..] == ProcessEntries(entries[1..]);
      TsvNamesKept(entries[1..]);
    }
  }

  /** Directory `d`, rewritten, describes pack `p`; only a directory with a manifest does. */
  predicate Describes(d: PackDir, p: Pack) {
    d.manifest.Some? && PackInfo(ProcessedDir(d)) == Some(p)
  }

  /** The description of every directory that has a manifest, one each, in listing order. */
  function ManifestPacks(dirs: seq<PackDir>): (r: seq<Pack>)
    ensures |r| <= |dirs|
    ensures (forall i | 0 <= i < |dirs| :: dirs[i].manifest.Some?) ==> |r| == |dirs|
  {
    if |dirs| == 0 then []
    else
      var here := if dirs[0].manifest.Some? then [PackInfo(ProcessedDir(dirs[0])).value] else [];
      here + ManifestPacks(dirs[1..])
  }

  /** When every file validates, the pushed packs are the descriptions of the directories
      that have a manifest. */
  lemma ValidPushedPacks(dirs: seq<PackDir>)
    requires forall i | 0 <= i < |dirs| :: AllFilesValid(dirs[i].entries)
    ensures forall p :: p in LoopPacks(dirs) <==> exists i | 0 <= i < |dirs| :: Describes(dirs[i], p)
  {
    PushedPacks(dirs);
    forall i, p | 0 <= i < |dirs| ensures PackStep(dirs[i]) == Some(p) <==> Describes(dirs[i], p) {
      PackStepDecision(dirs[i]);
    }
  }

  /** When every file validates, the loop pushes one pack per directory with a manifest,
      in listing order: the pushed list is the list of descriptions itself. */
  lemma {:induction false} ValidLoopPacks(dirs: seq<PackDir>)
    requires forall i | 0 <= i < |dirs| :: AllFilesValid(dirs[i].entries)
    ensures LoopPacks(dirs) == ManifestPacks(dirs)
  {
    if |dirs| > 0 {
      var steps := seq(|dirs|, i requires 0 <= i < |dirs| => PackStep(dirs[i]));
      var rest := seq(|dirs| - 1, i requires 0 <= i < |dirs| - 1 => PackStep(dirs[1..][i]));
      assert steps[1..] == rest;
      assert LoopPacks(dirs[1..]) == Pushed(rest);
      PackStepDecision(dirs[0]);
      assert forall i | 0 <= i < |dirs[1..]| :: dirs[1..][i] == dirs[i + 1];
      ValidLoopPacks(dirs[1..]);
    }
  }

  /** A written catalog is the list of descriptions rearranged: each directory with a
      manifest contributes exactly one entry. */
  lemma CatalogIsManifestPacks(dirs: seq<PackDir>)
    requires Build(dirs).catalog.Some?
    ensures multiset(Build(dirs).catalog.value) == multiset(ManifestPacks(dirs))
    ensures |Build(dirs).catalog.value| == |ManifestPacks(dirs)|
  {
    BuildWritesIffAllValid(dirs);
    ValidLoopPacks(dirs);
    CatalogSorted(dirs);
    var c := Build(dirs).catalog.value;
    assert |c| == |multiset(c)|;
  }

  /** A written catalog holds exactly the packs of the directories that have a manifest,
      each described from its rewritten files, one entry per such directory. */
  lemma CatalogContents(dirs: seq<PackDir>)
    requires Build(dirs).catalog.Some?
    ensures forall p :: p in Build(dirs).catalog.value <==>
      exists i | 0 <= i < |dirs| :: Describes(dirs[i], p)
    ensures multiset(Build(dirs).catalog.value) == multiset(ManifestPacks(dirs))
    ensures |Build(dirs).catalog.value| == |ManifestPacks(dirs)|
  {
    var c := Build(dirs).catalog.value;
    assert forall p :: p in c <==> exists i | 0 <= i < |dirs| :: Describes(dirs[i], p) by {
      BuildWritesIffAllValid(dirs);
      ValidPushedPacks(dirs);
      CatalogSorted(dirs);
      forall p ensures p in c <==> p in LoopPacks(dirs) {
        assert p in c <==> p in multiset(c);
        assert p in LoopPacks(dirs) <==> p in multiset(LoopPacks(dirs));
      }
    }
    CatalogIsManifestPacks(dirs);
  }

  /** With no pack directories the build writes an empty catalog. */
  lemma NoPacksWritesEmptyCatalog()
    ensures Build([]) == BuildResult([], [], Some([]))
  {
  }

  /** Without categories in the manifest, files `idea.tsv` and `critique.tsv` give the
      categories `critique` and `idea`, in that order. */
  lemma CategoriesFromFileNames(d: PackDir, first: string, second: string)
    requires d.manifest.Some? && d.manifest.value.categories.None?
    requires first == "idea.tsv" && second == "critique.tsv"
    requires |d.entries| == 2 && d.entries[0].name == first && d.entries[1].name == second
    ensures PackInfo(d).Some?
    ensures PackInfo(d).value.categories == ["critique", "idea"]
  {
    assert TsvNames(d.entries) == ["idea", "critique"] by {
      TwoTsvNames(d.entries, first, second);
    }
    assert PackInfo(d).value.categories == SortedLabels(TsvNames(d.entries));
    SortedIdeaCritique();
  }

  lemma TwoTsvNames(entries: seq<Entry>, first: string, second: string)
    requires first == "idea.tsv" && second == "critique.tsv"
    requires |entries| == 2 && entries[0].name == first && entries[1].name == second
    ensures TsvNames(entries) == ["idea", "critique"]
  {
    assert IsTsv(first) && BaseName(first) == "idea";
    assert IsTsv(second) && BaseName(second) == "critique";
    assert entries == [entries[0]] + [entries[1]];
    TsvNamesAppend([entries[0]], [entries[1]]);
    TsvNamesSingle(entries[0]);
    TsvNamesSingle(entries[1]);
  }

  lemma SortedIdeaCritique()
    ensures SortedLabels(["idea", "critique"]) == ["critique", "idea"]
  {
    assert LocaleLeq("critique", "idea") && !LocaleLeq("idea", "critique");
    assert ["idea", "critique"][1..] == ["critique"];
    assert SortBy(["critique"], Identity) == ["critique"] by {
      assert ["critique"][1..] == [];
    }
    assert Insert("idea", ["critique"], Identity) == ["critique"] + Insert("idea", [], Identity);
  }
}
