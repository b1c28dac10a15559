/** The named style registry of src/Style.php. The source keeps it in one
    process-wide static array; here it is an explicit `Registry` value
    that every operation takes and the mutators return. */
module Style {
  import opened Wrappers
  import opened Text
  import FS = FormatterStyle
  import Ansi

  /** One registry entry: colour names, not validated when stored. */
  datatype Colors = Colors(foreground: string, background: string)

  type Registry = map<string, Colors>

  /** Which field `get` reads. */
  datatype Setting = Foreground | Background

  /** The registry at process start. */
  const Defaults: Registry := map[
    "normal" := Colors("white", ""),
    "error" := Colors("white", "red"),
    "warning" := Colors("cyan", ""),
    "info" := Colors("green", ""),
    "comment" := Colors("green", ""),
    "title" := Colors("yellow", "")]

  /** `setStyle`: inserts or overwrites one entry; all others are kept. */
  function SetStyle(reg: Registry, name: string, foreground: string, background: string): (r: Registry)
    ensures name in r && r[name] == Colors(foreground, background)
    ensures r.Keys == reg.Keys + {name}
    ensures forall n :: n in reg && n != name ==> r[n] == reg[n]
  {
    reg[name := Colors(foreground, background)]
  }

  /** `getStyle`: the entry, or `None` for the source's empty array. */
  function GetStyle(reg: Registry, name: string): (r: Option<Colors>)
    ensures r.Some? <==> name in reg
    ensures r.Some? ==> r.value == reg[name]
  {
    if name in reg then Some(reg[name]) else None
  }

  /** `forgetStyle`: removes one entry if present. */
  function ForgetStyle(reg: Registry, name: string): (r: Registry)
    ensures r.Keys == reg.Keys - {name}
    ensures forall n :: n in r ==> r[n] == reg[n]
  {
    reg - {name}
  }

  /** `get`: one field of an entry, or the default `""` when absent. */
  function Get(reg: Registry, name: string, setting: Setting): (r: string)
    ensures name !in reg ==> r == ""
    ensures name in reg && setting == Foreground ==> r == reg[name].foreground
    ensures name in reg && setting == Background ==> r == reg[name].background
  {
    if name in reg then
      match setting
      case Foreground => reg[name].foreground
      case Background => reg[name].background
    else ""
  }

  /** `getForeground`: the stored foreground name, or `""` when absent. */
  function GetForeground(reg: Registry, name: string): (r: string)
    ensures name !in reg ==> r == ""
    ensures name in reg ==> r == reg[name].foreground
  {
    Get(reg, name, Foreground)
  }

  /** `getBackground`: the stored background name, or `""` when absent. */
  function GetBackground(reg: Registry, name: string): (r: string)
    ensures name !in reg ==> r == ""
    ensures name in reg ==> r == reg[name].background
  {
    Get(reg, name, Background)
  }

  /** A colour name `apply` accepts: empty for "not set", or a known colour. */
  predicate Acceptable(color: string)
  {
    color == "" || FS.IsColor(color)
  }

  /** The composer state `apply` sets up for acceptable names. */
  function ColorsComposer(foreground: string, background: string): FS.Composer
    requires Acceptable(foreground) && Acceptable(background)
  {
    FS.Composer(
      if foreground == "" then None else Some(FS.Code(30 + FS.ColorOffset(foreground), 39)),
      if background == "" then None else Some(FS.Code(40 + FS.ColorOffset(background), 49)),
      [])
  }

  /** The composer `apply` builds: an empty name means "not set". It fails
      on the first unknown name, foreground first. */
  function Compose(foreground: string, background: string): (r: Result<FS.Composer, FS.StyleError>)
    ensures r.Ok? <==> Acceptable(foreground) && Acceptable(background)
    ensures r.Ok? ==> r.value == ColorsComposer(foreground, background)
    ensures !Acceptable(foreground) ==> r == Err(FS.InvalidForeground(foreground))
    ensures Acceptable(foreground) && !Acceptable(background) ==> r == Err(FS.InvalidBackground(background))
  {
    var c0 := ComposeForeground(foreground);
    if c0.Err? then c0
    else if background != "" then FS.SetBackground(c0.value, Some(background))
    else c0
  }

  /** The first step of `apply`: a fresh composer with the foreground set
      unless the name is empty. */
  function ComposeForeground(foreground: string): (r: Result<FS.Composer, FS.StyleError>)
    ensures r.Ok? <==> Acceptable(foreground)
    ensures r.Ok? ==> r.value.background.None? && r.value.options == []
    ensures r.Ok? ==> r.value.foreground == (if foreground == "" then None else Some(FS.Code(30 + FS.ColorOffset(foreground), 39)))
    ensures r.Err? ==> r.error == FS.InvalidForeground(foreground)
  {
    if foreground != "" then FS.SetForeground(FS.Plain, Some(foreground)) else Ok(FS.Plain)
  }

  /** `apply`: the forgiving facade. With acceptable colour names it is the
      composer's `apply`; if either name is unknown the text comes back
      unchanged, whatever the other name is. */
  function Apply(text: string, foreground: string, background: string): (r: string)
    ensures !Acceptable(foreground) || !Acceptable(background) ==> r == text
    ensures Acceptable(foreground) && Acceptable(background) ==>
              r == FS.Apply(ColorsComposer(foreground, background), text)
    ensures foreground == "" && background == "" ==> r == text
  {
    match Compose(foreground, background)
    case Ok(c) => FS.Apply(c, text)
    case Err(_) => text
  }

  /** `applyStyle`: `apply` with the colours stored under `name`. */
  function ApplyStyle(reg: Registry, text: string, name: string): (r: string)
    ensures name !in reg ==> r == text
    ensures name in reg ==> r == Apply(text, reg[name].foreground, reg[name].background)
  {
    Apply(text, GetForeground(reg, name), GetBackground(reg, name))
  }

  /** Styling never changes the display length of escape-free text: the
      table can measure a cell before styling it. */
  lemma ApplyStyleKeepsDisplayLength(reg: Registry, text: string, name: string)
    requires Ansi.ESC !in text
    ensures Ansi.Length(ApplyStyle(reg, text, name)) == |text|
  {
    var fg, bg := GetForeground(reg, name), GetBackground(reg, name);
    match Compose(fg, bg)
    case Ok(c) => FS.ApplyKeepsDisplayLength(c, text);
    case Err(_) =>
  }

  // ---------------------------------------------------------------------
  // Properties the tests exercise

  /** The built-in registry holds exactly six styles; "error" is white on red. */
  lemma DefaultStyles()
    ensures Defaults.Keys == {"normal", "error", "warning", "info", "comment", "title"}
    ensures GetStyle(Defaults, "error") == Some(Colors("white", "red"))
    ensures GetStyle(Defaults, "info") == Some(Colors("green", ""))
    ensures forall n :: n in Defaults ==> FS.IsColor(Defaults[n].foreground)
    ensures forall n :: n in Defaults ==> Defaults[n].background == "" || FS.IsColor(Defaults[n].background)
  {
  }

  /** Storing then reading a style returns what was stored, colour names or not. */
  lemma SetThenGet(reg: Registry, name: string, foreground: string, background: string)
    ensures GetStyle(SetStyle(reg, name, foreground, background), name) == Some(Colors(foreground, background))
    ensures GetForeground(SetStyle(reg, name, foreground, background), name) == foreground
    ensures GetBackground(SetStyle(reg, name, foreground, background), name) == background
  {
  }

  /** After forgetting, the name reads as absent and its fields as "". */
  lemma ForgetThenGet(reg: Registry, name: string)
    ensures GetStyle(ForgetStyle(reg, name), name) == None
    ensures GetForeground(ForgetStyle(reg, name), name) == ""
    ensures GetBackground(ForgetStyle(reg, name), name) == ""
    ensures name !in reg ==> ForgetStyle(reg, name) == reg
  {
  }

  /** Forgetting a freshly added style restores the registry. */
  lemma ForgetUndoesSet(reg: Registry, name: string, foreground: string, background: string)
    requires name !in reg
    ensures ForgetStyle(SetStyle(reg, name, foreground, background), name) == reg
  {
    var r := ForgetStyle(SetStyle(reg, name, foreground, background), name);
    assert r.Keys == reg.Keys;
  }

  /** `applyStyle` through an unknown name returns the text unchanged. */
  lemma ApplyStyleUnknown(reg: Registry, text: string, name: string)
    requires name !in reg
    ensures ApplyStyle(reg, text, name) == text
  {
  }

  /** `apply("test", "white", "red")` equals the composer's `apply` after
      setting white and red. */
  lemma ApplyMatchesComposer()
    ensures Apply("test", "white", "red")
         == FS.Apply(FS.SetBackground(FS.SetForeground(FS.Plain, Some("white")).value, Some("red")).value, "test")
  {
    assert Compose("white", "red").value
        == FS.SetBackground(FS.SetForeground(FS.Plain, Some("white")).value, Some("red")).value;
  }

  /** `applyStyle("test", "error")` on the built-in registry is `apply` with white and red. */
  lemma ApplyStyleError()
    ensures ApplyStyle(Defaults, "test", "error") == Apply("test", "white", "red")
  {
    assert "error" in Defaults && Defaults["error"] == Colors("white", "red");
  }

  /** `apply("hi", "magenta", "black")` is ESC[35;40m hi ESC[39;49m. */
  lemma ApplyMagentaOnBlack()
    ensures Apply("hi", "magenta", "black") == Ansi.Sgr("35;40") + "hi" + Ansi.Sgr("39;49")
  {
    var c := FS.Composer(Some(FS.Code(35, 39)), Some(FS.Code(40, 49)), []);
    MagentaOnBlackComposer();
    MagentaOnBlackParams();
    assert Apply("hi", "magenta", "black") == FS.Apply(c, "hi");
  }

  lemma MagentaOnBlackComposer()
    ensures Acceptable("magenta") && Acceptable("black")
    ensures ColorsComposer("magenta", "black") == FS.Composer(Some(FS.Code(35, 39)), Some(FS.Code(40, 49)), [])
  {
    MagentaOffset();
    BlackOffset();
  }

  lemma MagentaOffset()
    ensures FS.IsColor("magenta") && FS.ColorOffset("magenta") == 5
  {
    assert FS.Palette[5] == "magenta";
    FS.ColorCodes("magenta");
  }

  lemma BlackOffset()
    ensures FS.IsColor("black") && FS.ColorOffset("black") == 0
  {
    assert FS.Palette[0] == "black";
  }

  lemma MagentaOnBlackParams()
    ensures FS.OnCodes(FS.Composer(Some(FS.Code(35, 39)), Some(FS.Code(40, 49)), [])) == [35, 40]
    ensures FS.OffCodes(FS.Composer(Some(FS.Code(35, 39)), Some(FS.Code(40, 49)), [])) == [39, 49]
    ensures FS.Params([35, 40]) == "35;40"
    ensures FS.Params([39, 49]) == "39;49"
  {
    DecimalOf(35, "35");
    DecimalOf(40, "40");
    DecimalOf(39, "39");
    DecimalOf(49, "49");
    assert FS.Numerals([35, 40]) == ["35", "40"];
    assert FS.Numerals([39, 49]) == ["39", "49"];
  }

  lemma DecimalOf(n: nat, s: string)
    requires 10 <= n < 100 && |s| == 2 && s[0] == DigitChar(n / 10) && s[1] == DigitChar(n % 10)
    ensures NatToDecimal(n) == s
  {
  }
}
