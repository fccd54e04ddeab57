/** The visualizer's colour themes and HUD colour schemes: the theme
    buttons, which also pick a HUD scheme, and the number keys 1 to 5,
    which pick a HUD scheme directly. */
module Themes {
  import opened Options
  import opened JsText

  /** The theme names in the order the theme table declares them, which is
      the order `Object.keys` lists them. */
  const ThemeNames: seq<string> := ["cyan", "purple", "green", "red", "gold", "blue"]

  /** The properties every object literal inherits from `Object.prototype`.
      Looking one of them up in the theme table gives a function or an
      object, which is truthy. */
  const InheritedNames: seq<string> := [
    "constructor", "__defineGetter__", "__defineSetter__", "hasOwnProperty",
    "__lookupGetter__", "__lookupSetter__", "isPrototypeOf",
    "propertyIsEnumerable", "toString", "valueOf", "__proto__", "toLocaleString"]

  /** `themes[name]` is truthy: the name is a theme or an inherited property. */
  predicate Found(name: string) {
    name in ThemeNames || name in InheritedNames
  }

  /** The names of the HUD colour schemes, in table order. */
  const HudSchemes: seq<string> := ["Cyan", "Green", "Amber", "Purple", "Red"]

  /** What the theme controls and keys change: the current theme's name and
      the index of the current HUD scheme. */
  datatype Display = Display(theme: string, hudScheme: int)

  /** The display right after start-up: the cyan theme and the first HUD scheme. */
  const Initial: Display := Display("cyan", 0)

  /** The HUD scheme index names a scheme. */
  predicate Valid(d: Display) {
    0 <= d.hudScheme < |HudSchemes|
  }

  /** `names.indexOf(name)`: the first position of `name`, or -1. */
  function IndexOf(names: seq<string>, name: string): (i: int)
    ensures -1 <= i < |names|
    ensures i == -1 <==> name !in names
    ensures i >= 0 ==> names[i] == name && forall k :: 0 <= k < i ==> names[k] != name
  {
    if names == [] then -1
    else if names[0] == name then 0
    else
      var i := IndexOf(names[1..], name);
      if i == -1 then -1 else i + 1
  }

  // ---------------------------------------------------------------------
  // colour names

  /** ASCII lower case. */
  function Lower(s: string): (r: string)
    ensures |r| == |s|
  {
    if s == [] then []
    else [LowerChar(s[0])] + Lower(s[1..])
  }

  /** A theme and a HUD scheme show the same colour: the scheme's name is the
      theme's name capitalised, or the gold theme meets the amber scheme. */
  predicate SameColour(theme: string, scheme: string) {
    Lower(scheme) == theme || (theme == "gold" && scheme == "Amber")
  }

  /** The first HUD scheme with the theme's colour, if there is one. */
  function MatchingScheme(theme: string, from: nat): (r: Option<nat>)
    requires from <= |HudSchemes|
    ensures r.Some? ==> from <= r.value < |HudSchemes| && SameColour(theme, HudSchemes[r.value])
    ensures r.Some? ==> forall k :: from <= k < r.value ==> !SameColour(theme, HudSchemes[k])
    ensures r.None? ==> forall k :: from <= k < |HudSchemes| ==> !SameColour(theme, HudSchemes[k])
    decreases |HudSchemes| - from
  {
    if from == |HudSchemes| then None
    else if SameColour(theme, HudSchemes[from]) then Some(from)
    else MatchingScheme(theme, from + 1)
  }

  // ---------------------------------------------------------------------
  // applyTheme

  /** `applyTheme(themeName)` as written: a name the theme table does not
      find changes nothing; a found one becomes the current theme, and the
      HUD scheme becomes the theme's position among the theme names when
      that is a valid scheme index. An inherited name such as "toString" is
      found but has no position, so it becomes the current theme and leaves
      the HUD alone. The CSS variables, waveform colour and button states
      it also sets are not modelled. */
  function ApplyThemeAsWritten(d: Display, name: string): (r: Display)
    ensures !Found(name) ==> r == d
    ensures Found(name) ==> r.theme == name
    ensures name in ThemeNames && IndexOf(ThemeNames, name) < |HudSchemes| ==>
      0 <= r.hudScheme < |HudSchemes| && ThemeNames[r.hudScheme] == name
    ensures !(name in ThemeNames && IndexOf(ThemeNames, name) < |HudSchemes|) ==>
      r.hudScheme == d.hudScheme
    ensures Valid(d) ==> Valid(r)
  {
    if !Found(name) then d
    else
      var i := IndexOf(ThemeNames, name);
      Display(name, if 0 <= i < |HudSchemes| then i else d.hudScheme)
  }

  /** An inherited name such as "toString" becomes the current theme as
      written, and leaves the HUD scheme alone. */
  lemma InheritedNameSetsTheme(d: Display, name: string)
    requires name in InheritedNames
    ensures ApplyThemeAsWritten(d, name) == Display(name, d.hudScheme)
  {
    assert name !in ThemeNames;
  }

  /** Choosing the purple theme as written switches the HUD to the green
      scheme; only cyan gets a HUD scheme of its own colour. */
  lemma PurpleShowsGreen(d: Display)
    ensures ApplyThemeAsWritten(d, "purple").hudScheme == 1
    ensures HudSchemes[1] == "Green"
    ensures !SameColour("purple", HudSchemes[1])
  {
    assert ThemeNames[1] == "purple";
    assert Lower("Green") == "green";
  }

  /** `applyTheme(themeName)` with the HUD scheme chosen by colour, as the
      code's own comment intends: a found name becomes current and
      switches the HUD to the scheme of the same colour, or leaves the HUD
      alone when no scheme has its colour. The lookup is the same as
      written, inherited names included. */
  function ApplyTheme(d: Display, name: string): (r: Display)
    ensures !Found(name) ==> r == d
    ensures Found(name) ==> r.theme == name
    ensures Found(name) && (exists k :: 0 <= k < |HudSchemes| && SameColour(name, HudSchemes[k])) ==>
      0 <= r.hudScheme < |HudSchemes| && SameColour(name, HudSchemes[r.hudScheme])
    ensures (forall k :: 0 <= k < |HudSchemes| ==> !SameColour(name, HudSchemes[k])) ==>
      r.hudScheme == d.hudScheme
    ensures Valid(d) ==> Valid(r)
  {
    if !Found(name) then d
    else
      match MatchingScheme(name, 0)
      case Some(k) => Display(name, k)
      case None => Display(name, d.hudScheme)
  }

  /** ASCII lower case of one character. */
  function LowerChar(c: char): char {
    if 'A' <= c <= 'Z' then (c as int + 32) as char else c
  }

  /** The HUD scheme names in lower case. */
  lemma LowerCyanGreen()
    ensures Lower("Cyan") == "cyan" && Lower("Green") == "green"
  {
    LowerWord("Cyan", "cyan");
    LowerWord("Green", "green");
  }

  lemma LowerAmberPurpleRed()
    ensures Lower("Amber") == "amber" && Lower("Purple") == "purple" && Lower("Red") == "red"
  {
    LowerWord("Amber", "amber");
    LowerWord("Purple", "purple");
    LowerWord("Red", "red");
  }

  /** `Lower` works character by character. */
  lemma {:induction false} LowerWord(s: string, t: string)
    requires |s| == |t| && forall i :: 0 <= i < |s| ==> LowerChar(s[i]) == t[i]
    ensures Lower(s) == t
  {
    if s != [] {
      LowerWord(s[1..], t[1..]);
    }
  }

  /** A known theme whose colour first appears at scheme `j` selects `j`. */
  lemma SelectsScheme(d: Display, name: string, j: nat)
    requires name in ThemeNames && j < |HudSchemes|
    requires SameColour(name, HudSchemes[j])
    requires forall k :: 0 <= k < j ==> !SameColour(name, HudSchemes[k])
    ensures ApplyTheme(d, name) == Display(name, j)
  {
    var m := MatchingScheme(name, 0);
    assert m.Some?;
    assert !(m.value < j) && !(j < m.value);
  }

  /** Under the corrected rule every theme but blue selects the HUD scheme
      of its colour: cyan Cyan, purple Purple, green Green, red Red and
      gold Amber; blue, which has no scheme, leaves the HUD alone. */
  lemma ThemesFindTheirColour(d: Display)
    ensures ApplyTheme(d, "cyan").hudScheme == 0 && HudSchemes[0] == "Cyan"
    ensures ApplyTheme(d, "purple").hudScheme == 3 && HudSchemes[3] == "Purple"
    ensures ApplyTheme(d, "green").hudScheme == 1 && HudSchemes[1] == "Green"
    ensures ApplyTheme(d, "red").hudScheme == 4 && HudSchemes[4] == "Red"
    ensures ApplyTheme(d, "gold").hudScheme == 2 && HudSchemes[2] == "Amber"
    ensures ApplyTheme(d, "blue") == Display("blue", d.hudScheme)
  {
    CyanScheme(d);
    PurpleScheme(d);
    GreenScheme(d);
    RedScheme(d);
    GoldScheme(d);
    BlueKeepsHud(d);
  }

  lemma CyanScheme(d: Display)
    ensures ApplyTheme(d, "cyan").hudScheme == 0
  {
    LowerCyanGreen();
    assert ThemeNames[0] == "cyan";
    SelectsScheme(d, "cyan", 0);
  }

  lemma PurpleScheme(d: Display)
    ensures ApplyTheme(d, "purple").hudScheme == 3
  {
    LowerCyanGreen();
    LowerAmberPurpleRed();
    assert ThemeNames[1] == "purple";
    SelectsScheme(d, "purple", 3);
  }

  lemma GreenScheme(d: Display)
    ensures ApplyTheme(d, "green").hudScheme == 1
  {
    LowerCyanGreen();
    assert ThemeNames[2] == "green";
    SelectsScheme(d, "green", 1);
  }

  lemma RedScheme(d: Display)
    ensures ApplyTheme(d, "red").hudScheme == 4
  {
    LowerCyanGreen();
    LowerAmberPurpleRed();
    assert ThemeNames[3] == "red";
    SelectsScheme(d, "red", 4);
  }

  lemma GoldScheme(d: Display)
    ensures ApplyTheme(d, "gold").hudScheme == 2
  {
    LowerCyanGreen();
    LowerAmberPurpleRed();
    assert ThemeNames[4] == "gold";
    SelectsScheme(d, "gold", 2);
  }

  lemma BlueKeepsHud(d: Display)
    ensures ApplyTheme(d, "blue") == Display("blue", d.hudScheme)
  {
    LowerCyanGreen();
    LowerAmberPurpleRed();
    assert ThemeNames[5] == "blue";
    assert forall k :: 0 <= k < |HudSchemes| ==> !SameColour("blue", HudSchemes[k]);
  }

  // ---------------------------------------------------------------------
  // number keys

  /** The key handler's test `e.key >= '1' && e.key <= '5'`, on strings. */
  predicate SchemeKey(key: string) {
    LexLessEq("1", key) && LexLessEq(key, "5")
  }

  /** The test admits exactly the keys that start with a digit from 1 to 5,
      where a key starting with 5 must be "5" itself. */
  lemma SchemeKeyIff(key: string)
    ensures SchemeKey(key) <==>
      key != [] && '1' <= key[0] <= '5' && (key[0] == '5' ==> key == "5")
  {
    assert "1"[1..] == [] && "5"[1..] == [];
    assert LexLess(key, "1") <==> key == [] || key[0] < '1';
    assert LexLess("5", key) <==> key != [] && ('5' < key[0] || (key[0] == '5' && |key| > 1));
  }

  /** A one-digit key reads as its digit. */
  lemma DigitKeyValue(c: char)
    requires IsDigit(c)
    ensures ParseInt([c]) == Some(DigitValue(c))
  {
    ParseDigitsOfDigits([c], []);
    assert [c] + [] == [c];
    assert DigitsValue([c]) == DigitValue(c) by {
      assert [c][..0] == [];
    }
    ParseIntUnsigned([c], DigitValue(c));
  }

  /** A number key: `currentHUDScheme = parseInt(e.key) - 1` when the key
      passes the test; every other key leaves the HUD alone. (`parseInt`
      without a radix reads decimal here, since the key starts with a
      digit from 1 to 5 and so never with "0x".) */
  function PressKey(d: Display, key: string): (r: Display)
    ensures !SchemeKey(key) ==> r == d
    ensures r.theme == d.theme
  {
    if SchemeKey(key) then
      match ParseInt(key)
      case Some(v) => d.(hudScheme := v - 1)
      case None => d
    else d
  }

  /** The single-character keys 1 to 5 select schemes 0 to 4; any other
      single character leaves the display alone. So every key the browser
      reports as one character keeps the HUD scheme valid. */
  lemma DigitKeySelects(d: Display, c: char)
    ensures '1' <= c <= '5' ==> PressKey(d, [c]) == d.(hudScheme := DigitValue(c) - 1)
    ensures !('1' <= c <= '5') ==> PressKey(d, [c]) == d
    ensures Valid(d) ==> Valid(PressKey(d, [c]))
  {
    if '1' <= c <= '5' {
      DigitKeyPressed(d, c);
    } else {
      SchemeKeyIff([c]);
    }
  }

  lemma DigitKeyPressed(d: Display, c: char)
    requires '1' <= c <= '5'
    ensures PressKey(d, [c]) == d.(hudScheme := DigitValue(c) - 1)
  {
    SchemeKeyIff([c]);
    DigitKeyValue(c);
    PressParsed(d, [c], DigitValue(c));
  }

  /** A key that passes the test and parses to `v` selects scheme `v - 1`. */
  lemma PressParsed(d: Display, key: string, v: int)
    requires SchemeKey(key) && ParseInt(key) == Some(v)
    ensures PressKey(d, key) == d.(hudScheme := v - 1)
  {
  }

  // ---------------------------------------------------------------------
  // the controls together

  /** What the user can do to the display: click a theme button, or press a
      key that the browser reports as one character. */
  datatype Control = ThemeButton(name: string) | Key(c: char)

  /** Which HUD rule the theme buttons follow: the page's own, or the
      colour-matching one its comment intends. */
  datatype HudRule = AsWritten | ByColour

  function Apply(d: Display, c: Control, rule: HudRule): Display {
    match c
    case ThemeButton(name) =>
      if rule == AsWritten then ApplyThemeAsWritten(d, name) else ApplyTheme(d, name)
    case Key(ch) => PressKey(d, [ch])
  }

  function Run(d: Display, controls: seq<Control>, rule: HudRule): Display
    decreases |controls|
  {
    if controls == [] then d else Run(Apply(d, controls[0], rule), controls[1..], rule)
  }

  /** Starting from a display with a valid HUD scheme, such as the initial
      one, no sequence of theme buttons and one-character keys ever leaves
      the HUD scheme index outside the table, under the page's rule as
      under the corrected one. */
  lemma {:induction false} AlwaysValid(d: Display, controls: seq<Control>, rule: HudRule)
    requires Valid(d)
    ensures Valid(Run(d, controls, rule))
    decreases |controls|
  {
    if controls != [] {
      if controls[0].Key? {
        DigitKeySelects(d, controls[0].c);
      }
      AlwaysValid(Apply(d, controls[0], rule), controls[1..], rule);
    }
  }
}
