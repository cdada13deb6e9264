/**
 * The attributes the preview adds to every svg root: `color` (what `currentColor` resolves
 * to) and the user's own presets, of which only presentation attributes with text or number
 * values are taken.
 */
module Presets {
  import opened Wrappers
  import opened XmlTree
  import opened PresentationAttributes

  /** A value of the user's `preset` setting: only text and numbers are usable. */
  datatype ConfigValue = ConfigText(text: string) | ConfigNumber(number: real) | ConfigOther

  /** The kinds of colour theme the editor reports. */
  datatype ThemeKind = Light | Dark | HighContrast | HighContrastLight

  /** `white` on dark themes, `black` on light ones. */
  function ThemeColor(kind: ThemeKind): string {
    match kind
    case Dark => "white"
    case HighContrast => "white"
    case Light => "black"
    case HighContrastLight => "black"
  }

  /** `currentColor || theme colour`: an empty or missing setting gives the theme's colour. */
  function CurrentColor(setting: Option<string>, kind: ThemeKind): string {
    if setting.Some? && setting.value != "" then setting.value else ThemeColor(kind)
  }

  /** A user preset entry is taken when its name is a presentation attribute and its value usable. */
  predicate Accepted(entry: (string, ConfigValue)) {
    IsSvgPresentationAttribute(entry.0) && !entry.1.ConfigOther?
  }

  function ToValue(v: ConfigValue): Value
    requires !v.ConfigOther?
  {
    match v
    case ConfigText(s) => Text(s)
    case ConfigNumber(n) => Number(n)
  }

  /** The preset after the entries have been processed in order. */
  function AddPresets(preset: Attributes, entries: seq<(string, ConfigValue)>): Attributes
    decreases |entries|
  {
    if entries == [] then preset
    else
      var before := AddPresets(preset, entries[..|entries| - 1]);
      var last := entries[|entries| - 1];
      if Accepted(last) then Put(before, last.0, ToValue(last.1)) else before
  }

  /** The loop of `reset` over the user's `preset` entries: it computes `AddPresets`. */
  method MergePresets(preset: Attributes, entries: seq<(string, ConfigValue)>) returns (merged: Attributes)
    ensures merged == AddPresets(preset, entries)
  {
    merged := preset;
    var i := 0;
    while i < |entries|
      invariant 0 <= i <= |entries|
      invariant merged == AddPresets(preset, entries[..i])
    {
      if Accepted(entries[i]) {
        merged := Put(merged, entries[i].0, ToValue(entries[i].1));
      }
      assert entries[..i + 1][..i] == entries[..i];
      i := i + 1;
    }
    assert entries[..i] == entries;
  }

  /** The first object of a reset: only `color`. */
  function InitialPreset(currentColor: Option<string>, kind: ThemeKind): (r: Attributes)
    ensures Names(r) == ["color"] && Get(r, "color") == Some(Text(CurrentColor(currentColor, kind)))
  {
    [("color", Text(CurrentColor(currentColor, kind)))]
  }

  /** The value of the last accepted entry named `name`, if any: a reference for `AddPresets`. */
  function LastAccepted(entries: seq<(string, ConfigValue)>, name: string): (r: Option<Value>)
    decreases |entries|
  {
    if entries == [] then None
    else
      var last := entries[|entries| - 1];
      if Accepted(last) && last.0 == name then Some(ToValue(last.1))
      else LastAccepted(entries[..|entries| - 1], name)
  }

  /** Each name ends with the value of its last accepted entry, or keeps its earlier value. */
  lemma {:induction false} AddPresetsGet(preset: Attributes, entries: seq<(string, ConfigValue)>, name: string)
    ensures Get(AddPresets(preset, entries), name) ==
      if LastAccepted(entries, name).Some? then LastAccepted(entries, name) else Get(preset, name)
    decreases |entries|
  {
    if entries != [] {
      AddPresetsGet(preset, entries[..|entries| - 1], name);
    }
  }

  /** An accepted entry always has a presentation-attribute name. */
  lemma {:induction false} LastAcceptedIsPresentation(entries: seq<(string, ConfigValue)>, name: string)
    requires LastAccepted(entries, name).Some?
    ensures IsSvgPresentationAttribute(name)
    decreases |entries|
  {
    var last := entries[|entries| - 1];
    if !(Accepted(last) && last.0 == name) {
      LastAcceptedIsPresentation(entries[..|entries| - 1], name);
    }
  }

  /** A name is in the result only if it was there before or an entry for it was accepted. */
  lemma AddPresetsNames(preset: Attributes, entries: seq<(string, ConfigValue)>)
    ensures forall n :: n in Names(AddPresets(preset, entries)) ==> n in Names(preset) || LastAccepted(entries, n).Some?
  {
    forall n | n in Names(AddPresets(preset, entries))
      ensures n in Names(preset) || LastAccepted(entries, n).Some?
    {
      AddPresetsGet(preset, entries, n);
    }
  }

  /** The preset a reset produces: `color` first, then the accepted user entries. */
  function ResetPreset(currentColor: Option<string>, kind: ThemeKind, user: Option<seq<(string, ConfigValue)>>): Attributes {
    var initial := InitialPreset(currentColor, kind);
    if user.Some? then AddPresets(initial, user.value) else initial
  }

  /**
   * Every name in a preset is a presentation attribute, so a preset never sets `width`,
   * `height` or `xmlns`.
   */
  lemma ResetPresetNames(currentColor: Option<string>, kind: ThemeKind, user: Option<seq<(string, ConfigValue)>>)
    ensures forall n :: n in Names(ResetPreset(currentColor, kind, user)) ==> IsSvgPresentationAttribute(n)
  {
    var initial := InitialPreset(currentColor, kind);
    var preset := ResetPreset(currentColor, kind, user);
    ColorIsPresentationAttribute();
    if user.Some? {
      AddPresetsNames(initial, user.value);
      forall n | n in Names(preset) ensures IsSvgPresentationAttribute(n) {
        if n != "color" {
          LastAcceptedIsPresentation(user.value, n);
        }
      }
    }
  }

  /** `color` stays the first attribute of a preset. */
  lemma ResetPresetColorFirst(currentColor: Option<string>, kind: ThemeKind, user: Option<seq<(string, ConfigValue)>>)
    ensures |ResetPreset(currentColor, kind, user)| > 0 && Names(ResetPreset(currentColor, kind, user))[0] == "color"
  {
    var initial := InitialPreset(currentColor, kind);
    if user.Some? {
      AddPresetsPrefix(initial, user.value);
      var names := Names(ResetPreset(currentColor, kind, user));
      assert names[..1] == ["color"];
      assert names[0] == names[..1][0];
    }
  }

  /** The earlier preset's names stay where they were. */
  lemma {:induction false} AddPresetsPrefix(preset: Attributes, entries: seq<(string, ConfigValue)>)
    ensures |preset| <= |AddPresets(preset, entries)|
    ensures Names(AddPresets(preset, entries))[..|preset|] == Names(preset)
    decreases |entries|
  {
    if entries != [] {
      var init := entries[..|entries| - 1];
      AddPresetsPrefix(preset, init);
      var before := AddPresets(preset, init);
      assert Names(before)[..|preset|] == Names(preset);
      if Accepted(entries[|entries| - 1]) {
        var after := AddPresets(preset, entries);
        assert Names(after)[..|before|] == Names(before);
        assert Names(after)[..|preset|] == Names(after)[..|before|][..|preset|];
      }
    }
  }

  /** A user `color` preset wins over `currentColor` and the theme. */
  lemma UserColorWins(currentColor: Option<string>, kind: ThemeKind, user: seq<(string, ConfigValue)>)
    ensures Get(ResetPreset(currentColor, kind, Some(user)), "color") ==
      if LastAccepted(user, "color").Some? then LastAccepted(user, "color")
      else Some(Text(CurrentColor(currentColor, kind)))
  {
    AddPresetsGet(InitialPreset(currentColor, kind), user, "color");
  }

  /**
   * Without an accepted user `color`, the preset's `color` is the `currentColor` setting when
   * it is set and not empty, otherwise `white` on dark and high-contrast themes and `black`
   * on light and high-contrast-light ones.
   */
  lemma PresetColor(currentColor: Option<string>, kind: ThemeKind, user: Option<seq<(string, ConfigValue)>>)
    requires user.None? || LastAccepted(user.value, "color").None?
    ensures Get(ResetPreset(currentColor, kind, user), "color") == Some(Text(
      if currentColor.Some? && currentColor.value != "" then currentColor.value
      else if kind == Dark || kind == HighContrast then "white"
      else "black"))
  {
    if user.Some? {
      UserColorWins(currentColor, kind, user.value);
    }
  }

  /** Names that are not presentation attributes are ignored, whatever their value. */
  lemma {:induction false} RejectedEntryIgnored(entries: seq<(string, ConfigValue)>, name: string)
    requires !IsSvgPresentationAttribute(name)
    ensures LastAccepted(entries, name).None?
    decreases |entries|
  {
    if entries != [] {
      RejectedEntryIgnored(entries[..|entries| - 1], name);
    }
  }
}
