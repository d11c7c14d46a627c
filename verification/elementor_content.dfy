/** The Elementor content runner (ElementorContent): the run gate, and one
    import run — kit bookkeeping, the settings override, and the entry loop. */
module ElementorContent {
  import opened Basics
  import opened OrderedMaps
  import opened PhpValues
  import opened KitSettings
  import opened Kits
  import opened EntryImport
  import opened ImportLoop

  /** The package manifest: `platform`, `content` (entries by post type),
      `has_settings` and the package `name`. A missing `platform` or
      `has_settings` reads as null. */
  datatype Manifest = Manifest(platform: Value, content: Contents, hasSettings: Value, name: string)

  /** The exception that escapes `import`: reading the settings file failed. */
  datatype ImportError = SettingsUnreadable

  /** `['content' => $results]` */
  datatype ImportResult = ImportResult(content: OMap<TypeResult>)

  /** What one run leaves behind: the site, the returned value or the escaped
      exception, the progress values emitted, and whether the logo uploader
      was called. */
  datatype RunOutcome = RunOutcome(site: Site, result: Result<ImportResult, ImportError>, progress: seq<int>, logoUploaded: bool)

  /** The collaborators of one run: the package's settings file (`None` when
      reading it throws), the logo uploader, and the entry-level host. */
  datatype Env = Env(settingsFile: Option<Settings>, upload: Logo -> Logo, host: Host)

  /** One call of `import` in a sequence of runs on the same site. */
  datatype Invocation = Invocation(manifest: Manifest, selections: Selections, env: Env)

  /** `should_run`: the runner applies to Elementor packages that carry
      content. The platform comparison is strict, so only the string
      `elementor` passes; `content` passes when it holds any post type. */
  function ShouldRun(m: Manifest): (r: bool)
    ensures r <==> m.platform == Str("elementor") && |m.content| > 0
  {
    m.platform == Str("elementor") && Truthy(ContentValue(m.content))
  }

  /** The manifest's `content` as the decoded PHP array it is: post type to
      entry id to entry settings. */
  function ContentValue(cs: Contents): (v: Value)
    ensures v.Arr? && |v.items| == |cs|
  {
    Arr(seq(|cs|, i requires 0 <= i < |cs| => (cs[i].0, EntriesValue(cs[i].1))))
  }

  /** One post type's entries as a decoded PHP array. */
  function EntriesValue(es: Entries): (v: Value)
    ensures v.Arr? && |v.items| == |es|
  {
    Arr(seq(|es|, i requires 0 <= i < |es| => (es[i].0, Arr(es[i].1))))
  }

  /** The part of `import` after the kit bookkeeping: make sure an active kit
      exists, then run the entry loop over all of `content`. */
  function ImportContent(m: Manifest, s: Site, host: Host, uploaded: bool): (o: RunOutcome)
    ensures o.result.Success? && o.logoUploaded == uploaded
    ensures HasActiveKit(o.site) && (HasActiveKit(s) ==> o.site == s)
    ensures Valid(s) ==> Valid(o.site)
    ensures o.site.backupOption == s.backupOption
    ensures !HasActiveKit(s) ==>
      o.site.kits[o.site.activeOption] == Kit(DefaultKitTitle, DefaultSettings) &&
      o.site.kits.Keys == s.kits.Keys + {o.site.activeOption} && o.site.nextPostId == s.nextPostId + 1
    ensures Valid(s) ==> forall id :: id in s.kits ==> id in o.site.kits && o.site.kits[id] == s.kits[id]
    ensures |o.progress| == ProcessedCount(m.content, host.postTypeExists)
    ensures forall k :: 0 <= k < |o.progress| ==> o.progress[k] == Percent(k + 1, Total(m.content))
    ensures forall k :: 0 <= k < |o.progress| ==> 0 <= o.progress[k] <= 100
    ensures forall a, b :: 0 <= a <= b < |o.progress| ==> o.progress[a] <= o.progress[b]
    ensures |o.progress| > 0 ==>
      (o.progress[|o.progress| - 1] == 100 <==>
        forall i :: 0 <= i < |m.content| && |m.content[i].1| > 0 ==> host.postTypeExists(m.content[i].0))
  {
    var ready := EnsureActiveKit(s);
    var total := Total(m.content);
    var pass := ImportTypes(m.content, host, total, 0);
    TypesProgress(m.content, host, total, 0);
    ProgressShape(pass.log, total);
    ProcessedAll(m.content, host.postTypeExists);
    RunOutcome(ready, Success(ImportResult(pass.results)), pass.log, uploaded)
  }

  /** `import`: with `has_settings`, back up the active kit id (once), build
      the overridden settings from the settings file and install them as a new
      active kit titled `"<name> Kit"`; then make sure an active kit exists and
      import the entries. A settings file that cannot be read aborts the run
      after the backup and before any entry. */
  function Import(m: Manifest, sel: Selections, site: Site, env: Env): (o: RunOutcome)
    ensures o.result.Failure? <==> Truthy(m.hasSettings) && env.settingsFile.None?
    ensures o.result.Failure? ==> o.progress == [] && !o.logoUploaded
    ensures o.result.Failure? ==>
      o.site.kits == site.kits && o.site.activeOption == site.activeOption && o.site.nextPostId == site.nextPostId
    ensures o.site.backupOption ==
      if Truthy(m.hasSettings) && site.backupOption.None? then Some(site.activeOption) else site.backupOption
    ensures Valid(site) ==> Valid(o.site)
    ensures o.result.Success? ==> HasActiveKit(o.site)
    ensures o.result.Success? ==>
      o.site.kits.Keys <= site.kits.Keys + {o.site.activeOption} && o.site.nextPostId <= site.nextPostId + 1
    ensures o.result.Success? && Valid(site) ==>
      forall id :: id in site.kits ==> id in o.site.kits && o.site.kits[id] == site.kits[id]
    ensures Truthy(m.hasSettings) && env.settingsFile.Some? ==>
      o.site.kits[o.site.activeOption] ==
        Kit(m.name + " Kit", BuildSettings(env.settingsFile.value, sel, ActiveLogo(site), env.upload).settings)
    ensures Truthy(m.hasSettings) && env.settingsFile.Some? && Valid(site) ==> o.site.activeOption !in site.kits
    ensures !Truthy(m.hasSettings) && HasActiveKit(site) ==> o.site == site
    ensures o.logoUploaded <==>
      Truthy(m.hasSettings) && env.settingsFile.Some? &&
      |sel.logo| > 0 && !HasId(sel.logo) && !HasId(ActiveLogo(site))
    ensures o.result.Success? ==> |o.progress| == ProcessedCount(m.content, env.host.postTypeExists)
    ensures forall k :: 0 <= k < |o.progress| ==> o.progress[k] == Percent(k + 1, Total(m.content))
    ensures forall k :: 0 <= k < |o.progress| ==> 0 <= o.progress[k] <= 100
    ensures forall a, b :: 0 <= a <= b < |o.progress| ==> o.progress[a] <= o.progress[b]
    ensures Total(m.content) == 0 ==> o.progress == []
    ensures |o.progress| > 0 ==>
      (o.progress[|o.progress| - 1] == 100 <==>
        forall i :: 0 <= i < |m.content| && |m.content[i].1| > 0 ==> env.host.postTypeExists(m.content[i].0))
  {
    var oldLogo := ActiveLogo(site);
    if Truthy(m.hasSettings) then
      var backedUp := BackupActiveKit(site);
      match env.settingsFile
      case None => RunOutcome(backedUp, Failure(SettingsUnreadable), [], false)
      case Some(template) =>
        var built := BuildSettings(template, sel, oldLogo, env.upload);
        var installed := InstallPackageKit(backedUp, m.name, built.settings);
        ImportContent(m, installed, env.host, built.uploaded)
    else
      ImportContent(m, site, env.host, false)
  }

  /** The site after a sequence of runs, the last one applied last. */
  function RunAll(site: Site, runs: seq<Invocation>): Site
    decreases |runs|
  {
    if |runs| == 0 then site
    else
      var last := runs[|runs| - 1];
      Import(last.manifest, last.selections, RunAll(site, runs[..|runs| - 1]), last.env).site
  }

  /** Runs without `has_settings` never touch the backup option. */
  lemma {:induction false} BackupUntouched(site: Site, runs: seq<Invocation>)
    requires forall j :: 0 <= j < |runs| ==> !Truthy(runs[j].manifest.hasSettings)
    ensures RunAll(site, runs).backupOption == site.backupOption
  {
    if |runs| > 0 {
      BackupUntouched(site, runs[..|runs| - 1]);
    }
  }

  /** Once written, the backup option never changes, whatever runs follow. */
  lemma {:induction false} BackupStable(site: Site, runs: seq<Invocation>)
    requires site.backupOption.Some?
    ensures RunAll(site, runs).backupOption == site.backupOption
  {
    if |runs| > 0 {
      BackupStable(site, runs[..|runs| - 1]);
    }
  }

  /** Write-once backup: starting without a backup, after any sequence of runs
      the backup holds the kit that was active when the first run with
      `has_settings` began. */
  lemma {:induction false} BackupKeepsFirst(site: Site, runs: seq<Invocation>, i: nat)
    requires site.backupOption.None?
    requires i < |runs| && Truthy(runs[i].manifest.hasSettings)
    requires forall j :: 0 <= j < i ==> !Truthy(runs[j].manifest.hasSettings)
    ensures RunAll(site, runs).backupOption == Some(RunAll(site, runs[..i]).activeOption)
  {
    var n := |runs|;
    var init := runs[..n - 1];
    if n == i + 1 {
      assert init == runs[..i];
      BackupUntouched(site, init);
    } else {
      assert init[..i] == runs[..i];
      BackupKeepsFirst(site, init, i);
    }
  }

  /** A manifest the gate refuses for lack of content imports nothing: no
      results and no progress. */
  lemma NoContentNoWork(m: Manifest, sel: Selections, site: Site, env: Env)
    requires |m.content| == 0
    ensures !ShouldRun(m)
    ensures Import(m, sel, site, env).progress == []
    ensures Import(m, sel, site, env).result.Success? ==>
      Import(m, sel, site, env).result.value.content == []
  {
  }

  /** When every post type of an Elementor package is recognised and has
      entries, the gate admits the package exactly when a successful run
      does some work. */
  lemma GateMatchesWork(m: Manifest, sel: Selections, site: Site, env: Env)
    requires m.platform == Str("elementor")
    requires forall i :: 0 <= i < |m.content| ==> env.host.postTypeExists(m.content[i].0) && |m.content[i].1| > 0
    requires Import(m, sel, site, env).result.Success?
    ensures ShouldRun(m) <==> |Import(m, sel, site, env).progress| > 0
  {
    ProcessedAll(m.content, env.host.postTypeExists);
    TotalZero(m.content);
  }

  /** The result partition of a whole run over a well-formed manifest: a post
      type appears in the result exactly when it is recognised and has
      entries, and then each of its entries is recorded exactly once —
      succeeded with its truthy document id or failed with its falsy value. */
  lemma RunPartition(m: Manifest, sel: Selections, site: Site, env: Env)
    requires WellFormed(m.content)
    requires Import(m, sel, site, env).result.Success?
    ensures var results := Import(m, sel, site, env).result.value.content;
      && (forall i :: 0 <= i < |m.content| ==>
           (m.content[i].0 in Keys(results) <==> env.host.postTypeExists(m.content[i].0) && |m.content[i].1| > 0))
      && (forall i :: 0 <= i < |m.content| && m.content[i].0 in Keys(results) ==>
           Partitions(Get(results, m.content[i].0).value, m.content[i].0, m.content[i].1, env.host))
      && (forall q :: q in results ==> q.0 in Keys(m.content))
      && UniqueKeys(results)
  {
    TypesPartition(m.content, env.host, Total(m.content), 0);
  }

  /** A site whose active kit exists. */
  const ExampleSite: Site := Site(1, map[1 := Kit("Site Kit", DefaultSettings)], None, 2)

  /** A one-page Elementor package without settings, every entry importing
      as document `docId` unless `failing` names it. */
  function ExampleEnv(failing: string, docId: int): Env
  {
    Env(None, (l: Logo) => l,
        Host((t: string) => t == "page",
             (t: string, id: string) => EntryOutcome(id == failing, Some([]), false, Int(docId))))
  }

  /** Entry settings with the given title and no `data`. */
  function PageEntry(title: string): EntrySettings
  {
    [("doc_type", Str("page")), ("title", Str(title))]
  }

  /** A single page imported as document 42 is recorded as succeeded, with
      one progress value of 100. */
  lemma ExampleSinglePage()
    ensures var m := Manifest(Str("elementor"), [("page", [("1", PageEntry("Home"))])], Bool(false), "Demo");
      var o := Import(m, Selections([], []), ExampleSite, ExampleEnv("", 42));
      o.result == Success(ImportResult([("page", TypeResult([("1", Int(42))], []))])) && o.progress == [100]
  {
    var es := [("1", PageEntry("Home"))];
    var m := Manifest(Str("elementor"), [("page", es)], Bool(false), "Demo");
    var env := ExampleEnv("", 42);
    assert EntryValue(env.host, "page", es[0]) == Int(42);
    assert Percent(1, 1) == 100;
    assert Total(m.content) == 1 by {
      assert m.content[1..] == [];
    }
    var b := ImportEntries("page", es, env.host, 1, 0);
    assert es[1..] == [];
    assert b == Batch(TypeResult([("1", Int(42))], []), [100]);
    assert m.content[1..] == [];
    assert ImportTypes(m.content, env.host, 1, 0) == Pass([("page", b.result)], [100]);
    assert HasActiveKit(ExampleSite);
  }

  /** A page whose document cannot be created is recorded as failed with
      `false`; the run still succeeds and reports its progress. */
  lemma ExampleFailingPage()
    ensures var m := Manifest(Str("elementor"), [("page", [("1", PageEntry("Home"))])], Bool(false), "Demo");
      var o := Import(m, Selections([], []), ExampleSite, ExampleEnv("1", 42));
      o.result == Success(ImportResult([("page", TypeResult([], [("1", Bool(false))]))])) && o.progress == [100]
  {
    var es := [("1", PageEntry("Home"))];
    var m := Manifest(Str("elementor"), [("page", es)], Bool(false), "Demo");
    var env := ExampleEnv("1", 42);
    assert EntryValue(env.host, "page", es[0]) == Bool(false);
    assert Percent(1, 1) == 100;
    assert Total(m.content) == 1 by {
      assert m.content[1..] == [];
    }
    var b := ImportEntries("page", es, env.host, 1, 0);
    assert es[1..] == [];
    assert b == Batch(TypeResult([], [("1", Bool(false))]), [100]);
    assert m.content[1..] == [];
    assert ImportTypes(m.content, env.host, 1, 0) == Pass([("page", b.result)], [100]);
    assert HasActiveKit(ExampleSite);
  }
}
