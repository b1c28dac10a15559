/** The SGR composer of src/Helpers/OutputFormatterStyle.php: a foreground
    colour, a background colour and a list of text options, each held as
    the pair of SGR parameters that switch it on and off (section 8.3.117
    of ECMA-48), and `Apply`, which wraps text in the combined "on" and
    "off" sequences. Setters that the source lets throw return a `Result`. */
module FormatterStyle {
  import opened Wrappers
  import opened Text
  import opened Ansi

  /** SGR parameters that switch one attribute on and back off. */
  datatype Code = Code(on: nat, off: nat)

  /** The three exceptions the setters raise. */
  datatype StyleError =
    | InvalidForeground(color: string)
    | InvalidBackground(color: string)
    | InvalidOption(option: string)

  /** The state of one formatter-style object. */
  datatype Composer = Composer(foreground: Option<Code>, background: Option<Code>, options: seq<Code>)

  /** A freshly constructed object: nothing set. */
  const Plain: Composer := Composer(None, None, [])

  const ForegroundColors: map<string, Code> := map[
    "black" := Code(30, 39), "red" := Code(31, 39), "green" := Code(32, 39),
    "yellow" := Code(33, 39), "blue" := Code(34, 39), "magenta" := Code(35, 39),
    "cyan" := Code(36, 39), "white" := Code(37, 39), "default" := Code(39, 39)]

  const BackgroundColors: map<string, Code> := map[
    "black" := Code(40, 49), "red" := Code(41, 49), "green" := Code(42, 49),
    "yellow" := Code(43, 49), "blue" := Code(44, 49), "magenta" := Code(45, 49),
    "cyan" := Code(46, 49), "white" := Code(47, 49), "default" := Code(49, 49)]

  const Options: map<string, Code> := map[
    "bold" := Code(1, 22), "underscore" := Code(4, 24), "blink" := Code(5, 25),
    "reverse" := Code(7, 27), "conceal" := Code(8, 28)]

  /** The eight colours of ECMA-48 SGR, in parameter order (30+i, 40+i). */
  const Palette: seq<string> := ["black", "red", "green", "yellow", "blue", "magenta", "cyan", "white"]

  predicate IsColor(name: string)
  {
    name in Palette || name == "default"
  }

  /** Offset of a colour from the base 30 / 40; ECMA-48 puts "default" at 9. */
  function ColorOffset(name: string): nat
    requires IsColor(name)
  {
    if name == "default" then 9 else IndexOf(Palette, name)
  }

  /** The colour tables hold exactly the palette and "default", at their
      ECMA-48 parameters. */
  lemma ColorCodes(name: string)
    ensures name in ForegroundColors <==> IsColor(name)
    ensures name in BackgroundColors <==> IsColor(name)
    ensures IsColor(name) ==> ForegroundColors[name] == Code(30 + ColorOffset(name), 39)
    ensures IsColor(name) ==> BackgroundColors[name] == Code(40 + ColorOffset(name), 49)
  {
    if name in Palette {
      PaletteOffset(name);
    }
  }

  lemma PaletteOffset(name: string)
    requires name in Palette
    ensures name in ForegroundColors && ForegroundColors[name] == Code(30 + IndexOf(Palette, name), 39)
    ensures name in BackgroundColors && BackgroundColors[name] == Code(40 + IndexOf(Palette, name), 49)
  {
    var k := IndexOf(Palette, name);
    PaletteEntry(k);
  }

  /** The table entries of the colour at palette position k. */
  lemma PaletteEntry(k: nat)
    requires k < |Palette|
    ensures Palette[k] in ForegroundColors && ForegroundColors[Palette[k]] == Code(30 + k, 39)
    ensures Palette[k] in BackgroundColors && BackgroundColors[Palette[k]] == Code(40 + k, 49)
  {
  }

  // ---------------------------------------------------------------------
  // Setters

  /** `setForeground`: `None` clears the colour, a known name sets it, any
      other name fails and leaves the object as it was. */
  function SetForeground(c: Composer, color: Option<string>): (r: Result<Composer, StyleError>)
    ensures color.None? ==> r == Ok(c.(foreground := None))
    ensures color.Some? && !IsColor(color.value) ==> r == Err(InvalidForeground(color.value))
    ensures color.Some? && IsColor(color.value) ==>
              r == Ok(c.(foreground := Some(Code(30 + ColorOffset(color.value), 39))))
  {
    match color
    case None => Ok(c.(foreground := None))
    case Some(name) =>
      ColorCodes(name);
      if name in ForegroundColors then Ok(c.(foreground := Some(ForegroundColors[name])))
      else Err(InvalidForeground(name))
  }

  /** `setBackground`: as `SetForeground`, with parameters 40-47 / 49. */
  function SetBackground(c: Composer, color: Option<string>): (r: Result<Composer, StyleError>)
    ensures color.None? ==> r == Ok(c.(background := None))
    ensures color.Some? && !IsColor(color.value) ==> r == Err(InvalidBackground(color.value))
    ensures color.Some? && IsColor(color.value) ==>
              r == Ok(c.(background := Some(Code(40 + ColorOffset(color.value), 49))))
  {
    match color
    case None => Ok(c.(background := None))
    case Some(name) =>
      ColorCodes(name);
      if name in BackgroundColors then Ok(c.(background := Some(BackgroundColors[name])))
      else Err(InvalidBackground(name))
  }

  /** `setOption`: appends the option's code unless it is already there. */
  function SetOption(c: Composer, name: string): (r: Result<Composer, StyleError>)
    ensures r.Err? <==> name !in Options
    ensures r.Err? ==> r.error == InvalidOption(name)
    ensures r.Ok? ==> r.value.foreground == c.foreground && r.value.background == c.background
    ensures r.Ok? && Options[name] in c.options ==> r.value == c
    ensures r.Ok? && Options[name] !in c.options ==> r.value.options == c.options + [Options[name]]
    ensures r.Ok? && NoDups(c.options) ==> NoDups(r.value.options)
  {
    if name !in Options then Err(InvalidOption(name))
    else
      var code := Options[name];
      Ok(if code in c.options then c else c.(options := c.options + [code]))
  }

  /** `unsetOption`: removes the option's code if present. */
  function UnsetOption(c: Composer, name: string): (r: Result<Composer, StyleError>)
    ensures r.Err? <==> name !in Options
    ensures r.Err? ==> r.error == InvalidOption(name)
    ensures r.Ok? ==> r.value.foreground == c.foreground && r.value.background == c.background
    ensures r.Ok? && Options[name] !in c.options ==> r.value == c
    ensures r.Ok? && Options[name] in c.options ==> |r.value.options| == |c.options| - 1
    ensures r.Ok? && NoDups(c.options) ==> NoDups(r.value.options) && Options[name] !in r.value.options
    ensures r.Ok? && NoDups(c.options) ==> forall o :: o in r.value.options <==> o in c.options && o != Options[name]
    ensures r.Ok? && Options[name] in c.options ==>
              exists k :: 0 <= k < |c.options| && c.options[k] == Options[name] && Options[name] !in c.options[..k]
                          && r.value.options == c.options[..k] + c.options[k + 1..]
  {
    if name !in Options then Err(InvalidOption(name))
    else Ok(c.(options := RemoveFirst(c.options, Options[name])))
  }

  /** The loop of `setOptions`: `SetOption` for each name, stopping at the
      first failure. */
  function AddOptions(c: Composer, names: seq<string>): (r: Result<Composer, StyleError>)
    decreases |names|
  {
    if |names| == 0 then Ok(c)
    else
      match SetOption(c, names[0])
      case Err(e) => Err(e)
      case Ok(c1) => AddOptions(c1, names[1..])
  }

  /** `setOptions`: clears the option list, then adds the names in order. */
  function SetOptions(c: Composer, names: seq<string>): Result<Composer, StyleError>
  {
    AddOptions(c.(options := []), names)
  }

  /** The constructor: optional colours, then options when any are given. */
  function NewComposer(fg: Option<string>, bg: Option<string>, names: seq<string>): Result<Composer, StyleError>
  {
    var c1 := WithColors(fg, bg);
    if c1.Err? then c1
    else if |names| > 0 then SetOptions(c1.value, names)
    else c1
  }

  /** The colour half of the constructor: each given name must be known,
      the foreground is checked first. */
  function WithColors(fg: Option<string>, bg: Option<string>): (r: Result<Composer, StyleError>)
    ensures r.Ok? <==> (fg.Some? ==> IsColor(fg.value)) && (bg.Some? ==> IsColor(bg.value))
    ensures fg.Some? && !IsColor(fg.value) ==> r == Err(InvalidForeground(fg.value))
    ensures (fg.Some? ==> IsColor(fg.value)) && bg.Some? && !IsColor(bg.value) ==> r == Err(InvalidBackground(bg.value))
    ensures r.Ok? ==> r.value.options == []
    ensures r.Ok? ==> r.value.foreground == (if fg.None? then None else Some(Code(30 + ColorOffset(fg.value), 39)))
    ensures r.Ok? ==> r.value.background == (if bg.None? then None else Some(Code(40 + ColorOffset(bg.value), 49)))
  {
    var c0 := if fg.Some? then SetForeground(Plain, fg) else Ok(Plain);
    if c0.Err? then c0
    else if bg.Some? then SetBackground(c0.value, bg)
    else c0
  }

  /** The constructor succeeds exactly when every given colour and option
      name is known; it reports the foreground first, then the background,
      then the first unknown option. On success the colours are the named
      ones and the options are the names deduplicated in first-occurrence
      order. */
  lemma NewComposerSpec(fg: Option<string>, bg: Option<string>, names: seq<string>)
    ensures NewComposer(fg, bg, names).Ok? <==>
              (fg.Some? ==> IsColor(fg.value)) && (bg.Some? ==> IsColor(bg.value))
              && forall i :: 0 <= i < |names| ==> names[i] in Options
    ensures fg.Some? && !IsColor(fg.value) ==> NewComposer(fg, bg, names) == Err(InvalidForeground(fg.value))
    ensures (fg.Some? ==> IsColor(fg.value)) && bg.Some? && !IsColor(bg.value) ==>
              NewComposer(fg, bg, names) == Err(InvalidBackground(bg.value))
    ensures NewComposer(fg, bg, names).Ok? ==>
              && NewComposer(fg, bg, names).value.foreground
                 == (if fg.None? then None else Some(Code(30 + ColorOffset(fg.value), 39)))
              && NewComposer(fg, bg, names).value.background
                 == (if bg.None? then None else Some(Code(40 + ColorOffset(bg.value), 49)))
              && (forall i :: 0 <= i < |FirstOccurrences(names)| ==> FirstOccurrences(names)[i] in Options)
              && NewComposer(fg, bg, names).value.options == CodesOf(FirstOccurrences(names))
  {
    var c1 := WithColors(fg, bg);
    if c1.Ok? {
      SetOptionsReplaces(c1.value, names);
      if |names| == 0 {
        assert FirstOccurrences(names) == [];
      }
    }
  }

  // ---------------------------------------------------------------------
  // Apply

  /** The "on" parameters: foreground, background, then options in order. */
  function OnCodes(c: Composer): seq<nat>
  {
    (if c.foreground.Some? then [c.foreground.value.on] else [])
    + (if c.background.Some? then [c.background.value.on] else [])
    + seq(|c.options|, i requires 0 <= i < |c.options| => c.options[i].on)
  }

  /** The matching "off" parameters, in the same order. */
  function OffCodes(c: Composer): (r: seq<nat>)
    ensures |r| == |OnCodes(c)|
  {
    (if c.foreground.Some? then [c.foreground.value.off] else [])
    + (if c.background.Some? then [c.background.value.off] else [])
    + seq(|c.options|, i requires 0 <= i < |c.options| => c.options[i].off)
  }

  /** The decimal numerals of the codes. */
  function Numerals(codes: seq<nat>): (r: seq<string>)
    ensures |r| == |codes|
    ensures forall i :: 0 <= i < |codes| ==> r[i] == NatToDecimal(codes[i])
  {
    seq(|codes|, i requires 0 <= i < |codes| => NatToDecimal(codes[i]))
  }

  /** An SGR parameter string: decimal numbers joined by ';'. */
  function Params(codes: seq<nat>): string
  {
    Join(Numerals(codes), ";")
  }

  /** `apply`: text unchanged when nothing is set, otherwise wrapped as
      ESC[<on codes>m text ESC[<off codes>m. */
  function Apply(c: Composer, text: string): (r: string)
    ensures |OnCodes(c)| == 0 <==> r == text
  {
    var on := OnCodes(c);
    if |on| == 0 then text else Sgr(Params(on)) + text + Sgr(Params(OffCodes(c)))
  }

  /** Styling never changes the display length of escape-free text. */
  lemma ApplyKeepsDisplayLength(c: Composer, text: string)
    requires ESC !in text
    ensures Length(Apply(c, text)) == |text|
  {
    var on := OnCodes(c);
    if |on| > 0 {
      var p, q := Params(on), Params(OffCodes(c));
      ParamsAreDigits(on);
      ParamsAreDigits(OffCodes(c));
      assert Apply(c, text) == Sgr(p) + (text + Sgr(q));
      StripAfterSgr(p, text + Sgr(q));
      StripAfterPlain(text, Sgr(q));
      StripAfterSgr(q, "");
      assert Sgr(q) + "" == Sgr(q);
    }
  }

  /** Styling adds only SGR sequences: a character that cannot occur in
      one and is absent from the text is absent from the result. */
  lemma ApplyExcludes(c: Composer, text: string, x: char)
    requires x !in text && !IsDigit(x) && x != ';' && x != ESC && x != '[' && x != 'm'
    ensures x !in Apply(c, text)
  {
    var on := OnCodes(c);
    if |on| > 0 {
      ParamsAreDigits(on);
      ParamsAreDigits(OffCodes(c));
    }
  }

  // ---------------------------------------------------------------------
  // Reading a styled string back

  /** Every character of a parameter string is a digit or ';'. */
  lemma {:induction false} ParamsAreDigits(codes: seq<nat>)
    ensures forall i :: 0 <= i < |Params(codes)| ==> IsDigit(Params(codes)[i]) || Params(codes)[i] == ';'
    ensures 'm' !in Params(codes) && ESC !in Params(codes)
    decreases |codes|
  {
    JoinDigits(Numerals(codes));
  }

  lemma {:induction false} JoinDigits(parts: seq<string>)
    requires forall i :: 0 <= i < |parts| ==> AllDigits(parts[i])
    ensures forall i :: 0 <= i < |Join(parts, ";")| ==> IsDigit(Join(parts, ";")[i]) || Join(parts, ";")[i] == ';'
    decreases |parts|
  {
    if |parts| > 1 {
      JoinDigits(parts[1..]);
      var s := Join(parts, ";");
      assert s == parts[0] + ";" + Join(parts[1..], ";");
      forall i | 0 <= i < |s|
        ensures IsDigit(s[i]) || s[i] == ';'
      {
        if i < |parts[0]| {
          assert s[i] == parts[0][i];
        } else if i > |parts[0]| {
          assert s[i] == Join(parts[1..], ";")[i - |parts[0]| - 1];
        }
      }
    }
  }

  /** Every piece is a non-empty decimal numeral. */
  predicate AllNumerals(parts: seq<string>)
  {
    forall i :: 0 <= i < |parts| ==> |parts[i]| > 0 && AllDigits(parts[i])
  }

  function Values(parts: seq<string>): (r: seq<nat>)
    requires AllNumerals(parts)
    ensures |r| == |parts|
    ensures forall i :: 0 <= i < |parts| ==> r[i] == DecimalToNat(parts[i])
  {
    seq(|parts|, i requires 0 <= i < |parts| && AllDigits(parts[i]) => DecimalToNat(parts[i]))
  }

  /** Parses an SGR parameter string back into numbers. */
  function ParseParams(p: string): Option<seq<nat>>
  {
    var parts := Split(p, ';');
    if AllNumerals(parts) then Some(Values(parts)) else None
  }

  lemma DigitsHaveNoSemicolon(s: string)
    requires AllDigits(s)
    ensures ';' !in s
  {
    assert forall i :: 0 <= i < |s| ==> s[i] != ';';
  }

  /** Parameter strings round-trip. */
  lemma ParamsRoundTrip(codes: seq<nat>)
    requires |codes| > 0
    ensures ParseParams(Params(codes)) == Some(codes)
  {
    var parts := Numerals(codes);
    forall i | 0 <= i < |parts|
      ensures ';' !in parts[i]
    {
      DigitsHaveNoSemicolon(parts[i]);
    }
    SplitJoin(parts, ';');
    assert AllNumerals(parts);
    var parsed := Values(parts);
    forall i | 0 <= i < |codes|
      ensures parsed[i] == codes[i]
    {
      DecimalRoundTrip(codes[i]);
    }
    assert parsed == codes;
  }

  /** Splits `ESC[p]m text ESC[q]m` into p, the text and q. The leading
      sequence ends at the first 'm'; the trailing one starts at the last
      ESC. */
  function SplitWrapped(s: string): Option<(string, string, string)>
  {
    if !StartsWithSgr(s) then None
    else
      var n := SgrEnd(s);
      var rest := s[n..];
      if ESC !in rest then None
      else
        var j := LastIndexOf(rest, ESC);
        var tail := rest[j..];
        if |tail| >= 3 && tail[1] == '[' && tail[|tail| - 1] == 'm' && 'm' !in tail[2..|tail| - 1] then
          Some((s[2..n - 1], rest[..j], tail[2..|tail| - 1]))
        else None
  }

  /** Reads a styled string back into its "on" codes, text and "off" codes. */
  function Unwrap(s: string): Option<(seq<nat>, string, seq<nat>)>
  {
    match SplitWrapped(s)
    case None => None
    case Some((p, text, q)) =>
      var on, off := ParseParams(p), ParseParams(q);
      if on.Some? && off.Some? then Some((on.value, text, off.value)) else None
  }

  lemma LeadingSgr(p: string, rest: string)
    requires 'm' !in p
    ensures StartsWithSgr(Sgr(p) + rest)
    ensures SgrEnd(Sgr(p) + rest) == |p| + 3
    ensures (Sgr(p) + rest)[2..|p| + 2] == p
    ensures (Sgr(p) + rest)[|p| + 3..] == rest
  {
    var s := Sgr(p) + rest;
    assert s[2..] == p + ['m'] + rest;
    IndexOfAfterPrefix(p, 'm', rest);
  }

  lemma EscNotInClosing(q: string)
    requires ESC !in q
    ensures ESC !in ['['] + q + ['m']
  {
    var b := ['['] + q + ['m'];
    assert forall i :: 0 < i < |b| - 1 ==> b[i] == q[i - 1];
    assert forall i :: 0 <= i < |b| ==> b[i] != ESC;
  }

  lemma TrailingSgr(text: string, q: string)
    requires ESC !in q
    ensures ESC in text + Sgr(q)
    ensures LastIndexOf(text + Sgr(q), ESC) == |text|
  {
    var b := ['['] + q + ['m'];
    EscNotInClosing(q);
    SgrParts(q);
    assert text + [ESC] + b == text + ([ESC] + b);
    LastIndexOfBeforeSuffix(text, ESC, b);
  }

  lemma SgrParts(q: string)
    ensures Sgr(q) == [ESC] + (['['] + q + ['m'])
  {
  }

  lemma SplitWrappedSgr(p: string, text: string, q: string)
    requires 'm' !in p && 'm' !in q && ESC !in q
    ensures SplitWrapped(Sgr(p) + text + Sgr(q)) == Some((p, text, q))
  {
    var s := Sgr(p) + text + Sgr(q);
    assert s == Sgr(p) + (text + Sgr(q));
    LeadingSgr(p, text + Sgr(q));
    TrailingSgr(text, q);
    var rest := text + Sgr(q);
    assert rest[..|text|] == text;
    assert rest[|text|..] == Sgr(q);
    var tail := Sgr(q);
    assert tail[2..|tail| - 1] == q;
  }

  /** Whenever anything is set, `Apply`'s output reads back as exactly the
      "on" codes (foreground, background, options in order), the original
      text, and the matching "off" codes, whatever the text contains. */
  lemma ApplyUnwraps(c: Composer, text: string)
    requires |OnCodes(c)| > 0
    ensures Unwrap(Apply(c, text)) == Some((OnCodes(c), text, OffCodes(c)))
  {
    var p, q := Params(OnCodes(c)), Params(OffCodes(c));
    ParamsAreDigits(OnCodes(c));
    ParamsAreDigits(OffCodes(c));
    assert Apply(c, text) == Sgr(p) + text + Sgr(q);
    SplitWrappedSgr(p, text, q);
    ParamsRoundTrip(OnCodes(c));
    ParamsRoundTrip(OffCodes(c));
  }

  // ---------------------------------------------------------------------
  // Option-list properties

  /** Adding an option twice is the same as adding it once. */
  lemma SetOptionIdempotent(c: Composer, name: string)
    requires SetOption(c, name).Ok?
    ensures SetOption(SetOption(c, name).value, name) == SetOption(c, name)
  {
  }

  /** Removing an option that was just added restores the object. */
  lemma UnsetUndoesSet(c: Composer, name: string)
    requires name in Options && Options[name] !in c.options
    ensures UnsetOption(SetOption(c, name).value, name) == Ok(c)
  {
    var code := Options[name];
    var s := c.options + [code];
    IndexOfAfterPrefix(c.options, code, []);
    assert c.options + [code] + [] == s;
    assert s[..|c.options|] == c.options;
    assert s[|c.options| + 1..] == [];
    assert RemoveFirst(s, code) == c.options;
  }

  /** The codes of a list of option names. */
  function CodesOf(names: seq<string>): (r: seq<Code>)
    requires forall i :: 0 <= i < |names| ==> names[i] in Options
    ensures |r| == |names|
    ensures forall i :: 0 <= i < |names| ==> r[i] == Options[names[i]]
  {
    seq(|names|, i requires 0 <= i < |names| && names[i] in Options => Options[names[i]])
  }

  /** `setOptions` succeeds exactly when every name is an option; the
      resulting list is the names deduplicated in first-occurrence order,
      whatever options were set before; colours are untouched. On failure
      the error names the first unknown option. */
  lemma {:induction false} SetOptionsReplaces(c: Composer, names: seq<string>)
    ensures SetOptions(c, names).Ok? <==> forall i :: 0 <= i < |names| ==> names[i] in Options
    ensures SetOptions(c, names).Ok? ==>
              && SetOptions(c, names).value.foreground == c.foreground
              && SetOptions(c, names).value.background == c.background
              && (forall i :: 0 <= i < |FirstOccurrences(names)| ==> FirstOccurrences(names)[i] in Options)
              && SetOptions(c, names).value.options == CodesOf(FirstOccurrences(names))
    ensures SetOptions(c, names).Err? ==>
              exists k :: 0 <= k < |names| && names[k] !in Options
                && (forall i :: 0 <= i < k ==> names[i] in Options)
                && SetOptions(c, names).error == InvalidOption(names[k])
  {
    var c0 := c.(options := []);
    AddOptionsSpec(c0, names);
    if forall i :: 0 <= i < |names| ==> names[i] in Options {
      AppendNewDedups([], CodesOf(names));
      assert [] + CodesOf(names) == CodesOf(names);
      FirstOccurrencesMembers(names);
      FirstOccurrencesOfCodes(names);
    }
  }

  /** The loop of `setOptions` is "append if absent" over the names' codes. */
  lemma AddOptionsSpec(c: Composer, names: seq<string>)
    ensures AddOptions(c, names).Ok? <==> forall i :: 0 <= i < |names| ==> names[i] in Options
    ensures AddOptions(c, names).Ok? ==>
              && (forall i :: 0 <= i < |names| ==> names[i] in Options)
              && AddOptions(c, names).value == c.(options := AppendNew(c.options, CodesOf(names)))
    ensures AddOptions(c, names).Err? ==>
              exists k :: 0 <= k < |names| && names[k] !in Options
                && (forall i :: 0 <= i < k ==> names[i] in Options)
                && AddOptions(c, names).error == InvalidOption(names[k])
  {
    AddOptionsOk(c, names);
    AddOptionsErr(c, names);
  }

  lemma {:induction false} AddOptionsOk(c: Composer, names: seq<string>)
    ensures AddOptions(c, names).Ok? <==> forall i :: 0 <= i < |names| ==> names[i] in Options
    ensures AddOptions(c, names).Ok? ==> AddOptions(c, names).value == c.(options := AppendNew(c.options, CodesOf(names)))
  {
    AddOptionsSucceeds(c, names);
    if forall i :: 0 <= i < |names| ==> names[i] in Options {
      AddOptionsValue(c, names);
    }
  }

  lemma {:induction false} AddOptionsSucceeds(c: Composer, names: seq<string>)
    ensures AddOptions(c, names).Ok? <==> forall i :: 0 <= i < |names| ==> names[i] in Options
    decreases |names|
  {
    if |names| > 0 && names[0] in Options {
      AddOptionsSucceeds(SetOption(c, names[0]).value, names[1..]);
      assert forall i :: 0 < i < |names| ==> names[i] == names[1..][i - 1];
    }
  }

  lemma {:induction false} AddOptionsValue(c: Composer, names: seq<string>)
    requires forall i :: 0 <= i < |names| ==> names[i] in Options
    ensures AddOptions(c, names).Ok?
    ensures AddOptions(c, names).value == c.(options := AppendNew(c.options, CodesOf(names)))
    decreases |names|
  {
    if |names| > 0 {
      var codes := CodesOf(names);
      var c1 := SetOption(c, names[0]).value;
      assert codes[0] == Options[names[0]];
      assert codes[1..] == CodesOf(names[1..]);
      AppendNewStep(c.options, codes);
      assert c1.options == c.options + (if codes[0] in c.options then [] else [codes[0]]);
      AddOptionsValue(c1, names[1..]);
    }
  }

  lemma {:induction false} AddOptionsErr(c: Composer, names: seq<string>)
    ensures AddOptions(c, names).Err? ==>
              exists k :: 0 <= k < |names| && names[k] !in Options
                && (forall i :: 0 <= i < k ==> names[i] in Options)
                && AddOptions(c, names).error == InvalidOption(names[k])
    decreases |names|
  {
    if |names| > 0 {
      if names[0] in Options {
        var c1 := SetOption(c, names[0]).value;
        AddOptionsErr(c1, names[1..]);
        if AddOptions(c1, names[1..]).Err? {
          var k :| 0 <= k < |names[1..]| && names[1..][k] !in Options
                && (forall i :: 0 <= i < k ==> names[1..][i] in Options)
                && AddOptions(c1, names[1..]).error == InvalidOption(names[1..][k]);
          assert names[k + 1] !in Options;
          assert forall i :: 0 < i < k + 1 ==> names[i] == names[1..][i - 1];
        }
      } else {
        assert names[0] !in Options;
      }
    }
  }

  lemma CodesOfAppend(a: seq<string>, b: seq<string>)
    requires forall i :: 0 <= i < |a| ==> a[i] in Options
    requires forall i :: 0 <= i < |b| ==> b[i] in Options
    ensures forall i :: 0 <= i < |a + b| ==> (a + b)[i] in Options
    ensures CodesOf(a + b) == CodesOf(a) + CodesOf(b)
  {
  }

  /** Distinct option names have distinct codes. */
  lemma CodeInCodesOf(names: seq<string>, x: string)
    requires forall i :: 0 <= i < |names| ==> names[i] in Options
    requires x in Options
    ensures Options[x] in CodesOf(names) <==> x in names
  {
    if Options[x] in CodesOf(names) {
      var j :| 0 <= j < |names| && CodesOf(names)[j] == Options[x];
      assert Options[names[j]] == Options[x];
    }
    if x in names {
      var j :| 0 <= j < |names| && names[j] == x;
      assert CodesOf(names)[j] == Options[x];
    }
  }

  /** Option codes are distinct per name, so deduplicating codes is
      deduplicating names. */
  lemma {:induction false} FirstOccurrencesOfCodes(names: seq<string>)
    requires forall i :: 0 <= i < |names| ==> names[i] in Options
    ensures forall i :: 0 <= i < |FirstOccurrences(names)| ==> FirstOccurrences(names)[i] in Options
    ensures FirstOccurrences(CodesOf(names)) == CodesOf(FirstOccurrences(names))
    decreases |names|
  {
    FirstOccurrencesMembers(names);
    if |names| > 0 {
      var init, last := names[..|names| - 1], names[|names| - 1];
      FirstOccurrencesOfCodes(init);
      var codes := CodesOf(names);
      assert codes[..|codes| - 1] == CodesOf(init);
      assert codes[|codes| - 1] == Options[last];
      CodeInCodesOf(init, last);
      var extra := if last in init then [] else [last];
      assert FirstOccurrences(codes) == FirstOccurrences(CodesOf(init)) + CodesOf(extra);
      FirstOccurrencesMembers(init);
      CodesOfAppend(FirstOccurrences(init), extra);
    }
  }
}
