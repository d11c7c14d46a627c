/** Kit bookkeeping: the site's kits (Elementor's global design settings
    documents), the option naming the active one, and the option that backs up
    the previously active kit id. Elementor's kits manager and WordPress's
    options table are modelled as this one state record. */
module Kits {
  import opened Basics
  import opened PhpValues
  import opened KitSettings

  /** Elementor's title for the kit it creates when none exists. */
  const DefaultKitTitle: string := "Default Kit"

  /** The settings a default kit starts with. */
  const DefaultSettings: Settings := Settings([], [], None, [])

  /** A kit document: its post title and its settings. */
  datatype Kit = Kit(title: string, settings: Settings)

  /** Post ids WordPress hands out are positive. */
  type PostId = x: int | x > 0 witness 1

  /** The part of the site the runner touches.
      - `activeOption`: the active-kit option (0 when unset);
      - `kits`: kit documents by post id;
      - `backupOption`: the runner's own backup option, absent until written;
      - `nextPostId`: the id the next created post receives. */
  datatype Site = Site(activeOption: int, kits: map<int, Kit>, backupOption: Option<int>, nextPostId: PostId)

  /** A kit creation: the new site and the new kit's id. */
  datatype Created = Created(site: Site, id: int)

  /** Every kit has a positive id below the next one handed out,
      so a created post never replaces an existing one. */
  ghost predicate Valid(s: Site)
  {
    forall id :: id in s.kits ==> 0 < id < s.nextPostId
  }

  /** `get_kit($id)->get_id()`: the kit's own id, or 0 for the placeholder
      kit Elementor hands back for an id that names no kit. */
  function KitId(s: Site, id: int): (r: int)
    ensures r != 0 ==> r == id && id in s.kits
    ensures Valid(s) ==> (r != 0 <==> id in s.kits)
  {
    if id in s.kits then id else 0
  }

  /** `$kit->get_id()` of the kit the active-kit option names is truthy. */
  predicate HasActiveKit(s: Site)
    ensures HasActiveKit(s) ==> s.activeOption in s.kits
    ensures Valid(s) ==> (HasActiveKit(s) <==> s.activeOption in s.kits)
  {
    Truthy(Int(KitId(s, s.activeOption)))
  }

  /** `$old_logo`: `site_logo` of the kit active when the run starts. The
      placeholder kit and a kit without a logo read as the empty array, so a
      logo with an id always comes from an existing kit. */
  function ActiveLogo(s: Site): (r: Logo)
    ensures HasId(r) ==> s.activeOption in s.kits && s.kits[s.activeOption].settings.siteLogo == Some(r)
    ensures s.activeOption !in s.kits ==> r == []
    ensures s.activeOption in s.kits && s.kits[s.activeOption].settings.siteLogo.None? ==> r == []
    ensures s.activeOption in s.kits && s.kits[s.activeOption].settings.siteLogo.Some? ==>
      r == s.kits[s.activeOption].settings.siteLogo.value
  {
    if s.activeOption in s.kits then s.kits[s.activeOption].settings.siteLogo.GetOr([]) else []
  }

  /** WordPress's `add_option`: stores the value only when the option does not
      exist yet. */
  function AddBackupOption(s: Site, value: int): (r: Site)
    ensures s.backupOption.None? ==> r == s.(backupOption := Some(value))
    ensures s.backupOption.Some? ==> r == s
  {
    if s.backupOption.None? then s.(backupOption := Some(value)) else s
  }

  /** Backs up the active kit id before a new kit replaces it. The guard reads
      the option (`!get_option(...)`, absent or falsy) and `add_option`
      refuses to overwrite, so the backup is written exactly when it is absent
      and is never changed afterwards. */
  function BackupActiveKit(s: Site): (r: Site)
    ensures s.backupOption.None? ==> r.backupOption == Some(s.activeOption)
    ensures s.backupOption.Some? ==> r.backupOption == s.backupOption
    ensures r.activeOption == s.activeOption && r.kits == s.kits && r.nextPostId == s.nextPostId
  {
    var stored := match s.backupOption case Some(v) => Int(v) case None => Bool(false);
    if !Truthy(stored) then AddBackupOption(s, s.activeOption) else s
  }

  /** `create_new_kit($name, $settings, true)`: a fresh kit titled `title`
      with the given settings, made the active one. */
  function CreateNewKit(s: Site, title: string, settings: Settings): (c: Created)
    ensures Valid(s) ==> Valid(c.site) && c.id !in s.kits
    ensures c.id == s.nextPostId && c.site.nextPostId == s.nextPostId + 1
    ensures c.site.kits.Keys == s.kits.Keys + {c.id}
    ensures c.id in c.site.kits && c.site.kits[c.id] == Kit(title, settings)
    ensures c.site.activeOption == c.id
    ensures forall id :: id in s.kits && id != c.id ==> id in c.site.kits && c.site.kits[id] == s.kits[id]
    ensures c.site.backupOption == s.backupOption
  {
    var id := s.nextPostId;
    Created(s.(kits := s.kits[id := Kit(title, settings)], activeOption := id, nextPostId := id + 1), id)
  }

  /** `create_default()`: a fresh default kit, not yet made active. */
  function CreateDefaultKit(s: Site): (c: Created)
    ensures Valid(s) ==> Valid(c.site) && c.id !in s.kits
    ensures c.id == s.nextPostId && c.site.nextPostId == s.nextPostId + 1
    ensures c.site.kits.Keys == s.kits.Keys + {c.id}
    ensures c.id in c.site.kits && c.site.kits[c.id] == Kit(DefaultKitTitle, DefaultSettings)
    ensures c.site.activeOption == s.activeOption && c.site.backupOption == s.backupOption
    ensures forall id :: id in s.kits && id != c.id ==> id in c.site.kits && c.site.kits[id] == s.kits[id]
  {
    var id := s.nextPostId;
    Created(s.(kits := s.kits[id := Kit(DefaultKitTitle, DefaultSettings)], nextPostId := id + 1), id)
  }

  /** `wp_update_post` with a new post title; an unknown id changes nothing. */
  function UpdatePostTitle(s: Site, id: int, title: string): (r: Site)
    ensures id in s.kits ==> r.kits == s.kits[id := s.kits[id].(title := title)]
    ensures id !in s.kits ==> r == s
    ensures r.activeOption == s.activeOption && r.backupOption == s.backupOption
    ensures r.nextPostId == s.nextPostId && r.kits.Keys == s.kits.Keys
  {
    if id in s.kits then s.(kits := s.kits[id := s.kits[id].(title := title)]) else s
  }

  /** Creates the package's kit from the built settings, activates it and
      renames it to `"<name> Kit"`; no existing kit changes. */
  function InstallPackageKit(s: Site, name: string, settings: Settings): (r: Site)
    ensures HasActiveKit(r)
    ensures r.kits[r.activeOption] == Kit(name + " Kit", settings)
    ensures Valid(s) ==> Valid(r) && r.activeOption !in s.kits
    ensures r.activeOption == s.nextPostId && r.nextPostId == s.nextPostId + 1
    ensures r.kits.Keys == s.kits.Keys + {r.activeOption}
    ensures forall id :: id in s.kits && id != r.activeOption ==> id in r.kits && r.kits[id] == s.kits[id]
    ensures r.backupOption == s.backupOption
  {
    var c := CreateNewKit(s, name, settings);
    UpdatePostTitle(c.site, c.id, name + " Kit")
  }

  /** The defensive step before the entry loop: when the active-kit option
      names no kit, a default kit is created and stored as the active one.
      Afterwards an active kit always exists. */
  function EnsureActiveKit(s: Site): (r: Site)
    ensures HasActiveKit(r)
    ensures HasActiveKit(s) ==> r == s
    ensures !HasActiveKit(s) ==> r.kits[r.activeOption] == Kit(DefaultKitTitle, DefaultSettings)
    ensures !HasActiveKit(s) ==>
      r.activeOption == s.nextPostId && r.nextPostId == s.nextPostId + 1 &&
      r.kits.Keys == s.kits.Keys + {r.activeOption}
    ensures Valid(s) ==> Valid(r)
    ensures Valid(s) ==> forall id :: id in s.kits ==> id in r.kits && r.kits[id] == s.kits[id]
    ensures r.backupOption == s.backupOption
  {
    if HasActiveKit(s) then s
    else
      var c := CreateDefaultKit(s);
      c.site.(activeOption := c.id)
  }
}
