/** The settings-override builder: the package's kit settings template with
    the user's colour selections and logo choice applied to it
    (ElementorContent::import, the block guarded by `has_settings`). */
module KitSettings {
  import opened Basics
  import opened OrderedMaps
  import opened PhpValues

  /** A logo reference is a PHP array such as `['id' => 12, 'url' => ...]`;
      an absent or null logo reads as the empty array. */
  type Logo = OMap<Value>

  /** One entry of `system_colors` or `custom_colors`: its `_id`, its `color`
      and every other field (title and the like), carried through untouched. */
  datatype ColorEntry = ColorEntry(id: string, color: Value, attrs: OMap<Value>)

  /** The kit settings template read from the package's settings file.
      An absent colour list reads as the empty one. */
  datatype Settings = Settings(
    systemColors: seq<ColorEntry>,
    customColors: seq<ColorEntry>,
    siteLogo: Option<Logo>,
    attrs: OMap<Value>)

  /** The user's selections (`$data`): colour overrides keyed by colour `_id`,
      and a logo (the empty array when none was chosen). */
  datatype Selections = Selections(color: OMap<Value>, logo: Logo)

  /** The result of building the settings, and whether the logo uploader was
      called on the way. */
  datatype Built = Built(settings: Settings, uploaded: bool)

  /** The logo decision: the value of `site_logo` after the override, and
      whether an upload was attempted. */
  datatype LogoDecision = LogoDecision(siteLogo: Option<Logo>, uploaded: bool)

  /** `!empty($logo['id'])` */
  predicate HasId(logo: Logo)
  {
    Truthy(Field(logo, "id"))
  }

  /** The override for colour `id`, as PHP's `isset` sees it. */
  predicate Overridden(colors: OMap<Value>, id: string)
  {
    Field(colors, id) != Null
  }

  /** One colour entry after `$data['color'][$color['_id']] ?? $color['color']`. */
  function OverrideColor(e: ColorEntry, colors: OMap<Value>): (r: ColorEntry)
    ensures r.id == e.id && r.attrs == e.attrs
    ensures Overridden(colors, e.id) ==> r.color == Field(colors, e.id)
    ensures !Overridden(colors, e.id) ==> r.color == e.color
  {
    match Get(colors, e.id)
    case Some(c) => if c != Null then e.(color := c) else e
    case None => e
  }

  /** The `foreach` over one colour list: every entry is overridden in place. */
  function OverrideColors(entries: seq<ColorEntry>, colors: OMap<Value>): (r: seq<ColorEntry>)
    ensures |r| == |entries|
    ensures forall i :: 0 <= i < |r| ==> r[i].id == entries[i].id && r[i].attrs == entries[i].attrs
    ensures forall i :: 0 <= i < |r| && Overridden(colors, entries[i].id) ==>
      r[i].color == Field(colors, entries[i].id)
    ensures forall i :: 0 <= i < |r| && !Overridden(colors, entries[i].id) ==>
      r[i].color == entries[i].color
  {
    if |entries| == 0 then []
    else [OverrideColor(entries[0], colors)] + OverrideColors(entries[1..], colors)
  }

  /** The logo rule: an override with an id wins verbatim; an override without
      an id keeps the old logo when that has an id, and otherwise tries an
      upload, falling back to the old logo when the upload yields no id; with
      no override `site_logo` is left as it is. */
  function DecideLogo(override: Logo, oldLogo: Logo, current: Option<Logo>, upload: Logo -> Logo): (r: LogoDecision)
    ensures HasId(override) ==> r == LogoDecision(Some(override), false)
    ensures !HasId(override) && |override| > 0 && HasId(oldLogo) ==>
      r == LogoDecision(Some(oldLogo), false)
    ensures !HasId(override) && |override| > 0 && !HasId(oldLogo) ==>
      r.siteLogo == Some(if HasId(upload(override)) then upload(override) else oldLogo)
    ensures |override| == 0 ==> r == LogoDecision(current, false)
    ensures r.uploaded <==> |override| > 0 && !HasId(override) && !HasId(oldLogo)
    ensures |override| > 0 && (HasId(override) || HasId(oldLogo) || HasId(upload(override))) ==>
      r.siteLogo.Some? && HasId(r.siteLogo.value)
  {
    if HasId(override) then LogoDecision(Some(override), false)
    else if Truthy(Arr(override)) then
      if !HasId(oldLogo) then
        var uploaded := upload(override);
        LogoDecision(Some(if HasId(uploaded) then uploaded else oldLogo), true)
      else
        LogoDecision(Some(oldLogo), false)
    else
      LogoDecision(current, false)
  }

  /** Applies the user's selections to the settings template. Colours change
      only where an override is set, nothing but the colour of an entry
      changes, and the logo follows `DecideLogo`. */
  function BuildSettings(template: Settings, sel: Selections, oldLogo: Logo, upload: Logo -> Logo): (r: Built)
    ensures r.settings.attrs == template.attrs
    ensures |r.settings.systemColors| == |template.systemColors|
    ensures |r.settings.customColors| == |template.customColors|
    ensures forall i :: 0 <= i < |template.systemColors| ==>
      var (e, e') := (template.systemColors[i], r.settings.systemColors[i]);
      e'.id == e.id && e'.attrs == e.attrs &&
      e'.color == (if Overridden(sel.color, e.id) then Field(sel.color, e.id) else e.color)
    ensures forall i :: 0 <= i < |template.customColors| ==>
      var (e, e') := (template.customColors[i], r.settings.customColors[i]);
      e'.id == e.id && e'.attrs == e.attrs &&
      e'.color == (if Overridden(sel.color, e.id) then Field(sel.color, e.id) else e.color)
    ensures r.settings.siteLogo == DecideLogo(sel.logo, oldLogo, template.siteLogo, upload).siteLogo
    ensures r.uploaded == DecideLogo(sel.logo, oldLogo, template.siteLogo, upload).uploaded
  {
    var colored :=
      if Truthy(Arr(sel.color)) then
        template.(systemColors := OverrideColors(template.systemColors, sel.color),
                  customColors := OverrideColors(template.customColors, sel.color))
      else template;
    var logo := DecideLogo(sel.logo, oldLogo, template.siteLogo, upload);
    Built(colored.(siteLogo := logo.siteLogo), logo.uploaded)
  }
}
