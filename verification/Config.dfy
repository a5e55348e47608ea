/** The strict client configuration: a fold over lines, and what an accepted file means. */
module Config {
  import opened Basics

  const MAX_CONFIG_BYTES: nat := 16 * 1024
  const MAX_LINES: nat := 64

  datatype Color =
    | Black | Red | Green | Yellow | Blue | Magenta | Cyan | White | DarkGrey | Grey
    | Rgb(red: byte, green: byte, blue: byte)

  datatype Field = PaneBorder | FocusedBorder | StatusText | StatusBackground | Foreground | Background

  datatype Theme = Theme(
    paneBorder: Color, focusedBorder: Color, status: Color, statusBackground: Color, foreground: Color,
    background: Color)
  {
    function Get(field: Field): Color {
      match field
      case PaneBorder => paneBorder
      case FocusedBorder => focusedBorder
      case StatusText => status
      case StatusBackground => statusBackground
      case Foreground => foreground
      case Background => background
    }

    function Set(field: Field, color: Color): Theme {
      match field
      case PaneBorder => this.(paneBorder := color)
      case FocusedBorder => this.(focusedBorder := color)
      case StatusText => this.(status := color)
      case StatusBackground => this.(statusBackground := color)
      case Foreground => this.(foreground := color)
      case Background => this.(background := color)
    }
  }

  datatype Animation = AnimationOff | Subtle
  datatype Screensaver = ScreensaverOff | PandaClimb | CatPlay
  datatype SceneStyle = Unicode | Ascii

  datatype Settings = Settings(
    theme: Theme, animation: Animation, screensaver: Screensaver, idleSeconds: u16, sceneStyle: SceneStyle)

  const DEFAULT_THEME := Theme(DarkGrey, Cyan, Black, Cyan, White, Black)
  const DEFAULTS := Settings(DEFAULT_THEME, AnimationOff, ScreensaverOff, 300, Unicode)

  /** The palettes that use one foreground for text and status. */
  function RgbTheme(pane: Color, focused: Color, background: Color, statusBackground: Color, foreground: Color): Theme {
    Theme(pane, focused, foreground, statusBackground, foreground, background)
  }

  function ThemeNamed(name: string): Option<Theme> {
    match name
    case "default" => Some(DEFAULT_THEME)
    case "high-contrast" => Some(Theme(White, Yellow, Black, Yellow, White, Black))
    case "sakura" => Some(Theme(Rgb(118, 81, 138), Rgb(255, 92, 168), Rgb(255, 238, 248), Rgb(125, 45, 118),
                                Rgb(248, 232, 244), Rgb(24, 15, 30)))
    case "dracula" => Some(RgbTheme(Rgb(68, 71, 90), Rgb(189, 147, 249), Rgb(40, 42, 54), Rgb(255, 121, 198),
                                    Rgb(248, 248, 242)))
    case "cyberpunk" => Some(RgbTheme(Rgb(61, 43, 88), Rgb(0, 255, 224), Rgb(18, 10, 36), Rgb(255, 35, 149),
                                      Rgb(246, 241, 255)))
    case "ocean" => Some(RgbTheme(Rgb(35, 78, 112), Rgb(77, 220, 255), Rgb(8, 27, 42), Rgb(20, 115, 145),
                                  Rgb(221, 247, 255)))
    case "forest" => Some(RgbTheme(Rgb(54, 91, 67), Rgb(144, 238, 144), Rgb(13, 31, 20), Rgb(45, 103, 63),
                                   Rgb(230, 247, 232)))
    case "nord" => Some(RgbTheme(Rgb(76, 86, 106), Rgb(136, 192, 208), Rgb(46, 52, 64), Rgb(94, 129, 172),
                                 Rgb(236, 239, 244)))
    case "solarized-dark" => Some(RgbTheme(Rgb(88, 110, 117), Rgb(181, 137, 0), Rgb(0, 43, 54), Rgb(7, 54, 66),
                                           Rgb(147, 161, 161)))
    case "sunset" => Some(RgbTheme(Rgb(120, 68, 92), Rgb(255, 180, 84), Rgb(35, 20, 42), Rgb(171, 58, 91),
                                   Rgb(255, 235, 208)))
    case _ => None
  }

  // ---- Values ----

  function HexDigit(c: char): Option<nat> {
    if '0' <= c <= '9' then Some(c as int - '0' as int)
    else if 'a' <= c <= 'f' then Some(c as int - 'a' as int + 10)
    else if 'A' <= c <= 'F' then Some(c as int - 'A' as int + 10)
    else None
  }

  /** `u8::from_str_radix` of two characters in base 16: a leading plus sign is allowed. */
  function Component(first: char, second: char): Option<byte> {
    match (HexDigit(first), HexDigit(second))
    case (Some(high), Some(low)) => (assert high < 16 && low < 16; Some(16 * high + low))
    case (None, Some(low)) => if first == '+' then Some(low) else None
    case _ => None
  }

  function NamedColor(value: string): Option<Color> {
    match value
    case "black" => Some(Black)
    case "red" => Some(Red)
    case "green" => Some(Green)
    case "yellow" => Some(Yellow)
    case "blue" => Some(Blue)
    case "magenta" => Some(Magenta)
    case "cyan" => Some(Cyan)
    case "white" => Some(White)
    case "dark-grey" => Some(DarkGrey)
    case "grey" => Some(Grey)
    case _ => None
  }

  /** `parse_color`, of an ASCII value. */
  function ParseColor(value: string): Option<Color> {
    if NamedColor(value).Some? then NamedColor(value)
    else if |value| == 7 && value[0] == '#' then
      match (Component(value[1], value[2]), Component(value[3], value[4]), Component(value[5], value[6]))
      case (Some(red), Some(green), Some(blue)) => Some(Rgb(red, green, blue))
      case _ => None
    else None
  }

  /** Digits in base 10; None as soon as the number leaves the range of a u16. */
  function Decimal(digits: string, value: u16): Option<u16> {
    if digits == [] then Some(value)
    else if !('0' <= digits[0] <= '9') || 10 * value + (digits[0] as int - '0' as int) > U16_MAX then None
    else Decimal(digits[1..], 10 * value + (digits[0] as int - '0' as int))
  }

  /** `str::parse::<u16>`: digits, after an optional plus sign. */
  function ParseU16(value: string): Option<u16> {
    var digits := if |value| > 1 && value[0] == '+' then value[1..] else value;
    if digits == [] then None else Decimal(digits, 0)
  }

  // ---- What a setting changes ----

  datatype Change =
    | ToTheme(theme: Theme)
    | ToColor(field: Field, color: Color)
    | ToAnimation(animation: Animation)
    | ToScreensaver(screensaver: Screensaver)
    | ToIdle(seconds: u16)
    | ToScene(style: SceneStyle)

  datatype Reason =
    | LineTooLong | ExpectedKeyValue | EmptyKeyOrValue | DuplicateKey | UnknownKey | BadValue | TooManyLines

  function ColorChange(field: Field, value: string): Option<Change> {
    match ParseColor(value) case Some(color) => Some(ToColor(field, color)) case None => None
  }

  function ThemeChange(value: string): Option<Change> {
    match ThemeNamed(value) case Some(theme) => Some(ToTheme(theme)) case None => None
  }

  function AnimationChange(value: string): Option<Change> {
    match value
    case "off" => Some(ToAnimation(AnimationOff))
    case "subtle" => Some(ToAnimation(Subtle))
    case _ => None
  }

  function ScreensaverChange(value: string): Option<Change> {
    match value
    case "off" => Some(ToScreensaver(ScreensaverOff))
    case "panda-climb" => Some(ToScreensaver(PandaClimb))
    case "cat-play" => Some(ToScreensaver(CatPlay))
    case _ => None
  }

  function IdleChange(value: string): Option<Change> {
    match ParseU16(value)
    case Some(seconds) => if 10 <= seconds <= 3600 then Some(ToIdle(seconds)) else None
    case None => None
  }

  function SceneChange(value: string): Option<Change> {
    match value
    case "unicode" => Some(ToScene(Unicode))
    case "ascii" => Some(ToScene(Ascii))
    case _ => None
  }

  /** What a line can set. */
  datatype Kind = ThemeKind | AnimationKind | ScreensaverKind | IdleKind | SceneKind | ColorKind(field: Field)

  /** The key of each kind of setting. */
  function NameOf(kind: Kind): string {
    match kind
    case ThemeKind => "theme"
    case AnimationKind => "animation"
    case ScreensaverKind => "screensaver"
    case IdleKind => "idle_seconds"
    case SceneKind => "scene_style"
    case ColorKind(PaneBorder) => "pane_border"
    case ColorKind(FocusedBorder) => "focused_border"
    case ColorKind(StatusText) => "status"
    case ColorKind(StatusBackground) => "status_background"
    case ColorKind(Foreground) => "foreground"
    case ColorKind(Background) => "background"
  }

  function KindNamed(name: string): Option<Kind> {
    match name
    case "theme" => Some(ThemeKind)
    case "animation" => Some(AnimationKind)
    case "screensaver" => Some(ScreensaverKind)
    case "idle_seconds" => Some(IdleKind)
    case "scene_style" => Some(SceneKind)
    case "pane_border" => Some(ColorKind(PaneBorder))
    case "focused_border" => Some(ColorKind(FocusedBorder))
    case "status" => Some(ColorKind(StatusText))
    case "status_background" => Some(ColorKind(StatusBackground))
    case "foreground" => Some(ColorKind(Foreground))
    case "background" => Some(ColorKind(Background))
    case _ => None
  }

  /** Keys and kinds correspond one to one. */
  lemma KeysAreKinds(name: string, kind: Kind)
    ensures KindNamed(name) == Some(kind) <==> name == NameOf(kind)
  {
  }

  function ReadValue(kind: Kind, value: string): Option<Change> {
    match kind
    case ThemeKind => ThemeChange(value)
    case AnimationKind => AnimationChange(value)
    case ScreensaverKind => ScreensaverChange(value)
    case IdleKind => IdleChange(value)
    case SceneKind => SceneChange(value)
    case ColorKind(field) => ColorChange(field, value)
  }

  /** The change that a key and its value ask for. */
  function ChangeFor(name: string, value: string): Result<Change, Reason> {
    match KindNamed(name)
    case None => Failure(UnknownKey)
    case Some(kind) =>
      match ReadValue(kind, value)
      case Some(change) => Success(change)
      case None => Failure(BadValue)
  }

  function Applied(settings: Settings, change: Change): Settings {
    match change
    case ToTheme(theme) => settings.(theme := theme)
    case ToColor(field, color) => settings.(theme := settings.theme.Set(field, color))
    case ToAnimation(animation) => settings.(animation := animation)
    case ToScreensaver(screensaver) => settings.(screensaver := screensaver)
    case ToIdle(seconds) => settings.(idleSeconds := seconds)
    case ToScene(style) => settings.(sceneStyle := style)
  }

  // ---- The fold over lines ----

  /** A line, trimmed and split at its first equals sign. */
  datatype Line =
    | TooLong
    | Ignored // blank, or a comment
    | NoEquals
    | EmptyPart // an empty key or value
    | Setting(name: string, value: string)

  datatype ConfigError = TooLarge | Invalid(line: nat, reason: Reason)

  /** How keys and values are read; the fold is the same for any way of reading them. */
  type ReadSetting = (string, string) -> Result<Change, Reason>

  /** One line after the settings `names` have been seen. */
  function Step(read: ReadSetting, settings: Settings, names: seq<string>, line: Line): Result<Settings, Reason> {
    match line
    case TooLong => Failure(LineTooLong)
    case Ignored => Success(settings)
    case NoEquals => Failure(ExpectedKeyValue)
    case EmptyPart => Failure(EmptyKeyOrValue)
    case Setting(name, value) =>
      if name in names then Failure(DuplicateKey)
      else
        match read(name, value)
        case Failure(reason) => Failure(reason)
        case Success(change) => Success(Applied(settings, change))
  }

  function Names(lines: seq<Line>): seq<string> {
    if lines == [] then []
    else Names(lines[..|lines| - 1]) + if lines[|lines| - 1].Setting? then [lines[|lines| - 1].name] else []
  }

  /** The settings after all lines, or the first line that is refused. */
  function Folded(read: ReadSetting, lines: seq<Line>): (r: Result<Settings, ConfigError>)
    ensures r.Failure? ==> r.error.Invalid? && 1 <= r.error.line <= |lines|
  {
    if lines == [] then Success(DEFAULTS)
    else
      var n := |lines| - 1;
      match Folded(read, lines[..n])
      case Failure(error) => Failure(error)
      case Success(settings) =>
        match Step(read, settings, Names(lines[..n]), lines[n])
        case Failure(reason) => Failure(Invalid(n + 1, reason))
        case Success(after) => Success(after)
  }

  /** `parse`, of a source of so many bytes. */
  function Parsed(size: nat, lines: seq<Line>): Result<Settings, ConfigError> {
    if size > MAX_CONFIG_BYTES then Failure(TooLarge)
    else if |lines| > MAX_LINES then Failure(Invalid(MAX_LINES + 1, TooManyLines))
    else Folded(ChangeFor, lines)
  }

  /** A line that is refused is refused whatever follows it. */
  lemma {:induction false} FoldedPrefix(read: ReadSetting, lines: seq<Line>, k: nat)
    requires k <= |lines|
    ensures Folded(read, lines[..k]).Failure? ==> Folded(read, lines) == Folded(read, lines[..k])
    decreases |lines|
  {
    if k == |lines| {
      assert lines[..k] == lines;
    } else {
      var front := lines[..|lines| - 1];
      FoldedPrefix(read, front, k);
      assert front[..k] == lines[..k];
    }
  }

  method ParseLines(read: ReadSetting, lines: seq<Line>) returns (r: Result<Settings, ConfigError>)
    ensures r == Folded(read, lines)
  {
    var settings := DEFAULTS;
    var seen: seq<string> := [];
    for i := 0 to |lines|
      invariant Folded(read, lines[..i]) == Success(settings) && seen == Names(lines[..i])
    {
      assert lines[..i + 1][..i] == lines[..i];
      FoldedPrefix(read, lines, i + 1);
      match lines[i] {
        case TooLong => return Failure(Invalid(i + 1, LineTooLong));
        case Ignored =>
        case NoEquals => return Failure(Invalid(i + 1, ExpectedKeyValue));
        case EmptyPart => return Failure(Invalid(i + 1, EmptyKeyOrValue));
        case Setting(name, value) =>
          if name in seen {
            return Failure(Invalid(i + 1, DuplicateKey));
          }
          var change := read(name, value);
          if change.Failure? {
            return Failure(Invalid(i + 1, change.error));
          }
          seen := seen + [name];
          settings := Applied(settings, change.value);
      }
    }
    assert lines[..|lines|] == lines;
    r := Success(settings);
  }

  method Parse(size: nat, lines: seq<Line>) returns (r: Result<Settings, ConfigError>)
    ensures r == Parsed(size, lines)
  {
    if size > MAX_CONFIG_BYTES {
      return Failure(TooLarge);
    }
    if |lines| > MAX_LINES {
      return Failure(Invalid(MAX_LINES + 1, TooManyLines));
    }
    r := ParseLines(ChangeFor, lines);
  }

  // ---- Which files are accepted ----

  /** A line that is acceptable by itself. */
  predicate Acceptable(read: ReadSetting, line: Line) {
    line.Ignored? || (line.Setting? && read(line.name, line.value).Success?)
  }

  lemma {:induction false} NamesAreSet(lines: seq<Line>, name: string)
    ensures name in Names(lines) <==> exists i | 0 <= i < |lines| :: lines[i].Setting? && lines[i].name == name
  {
    if lines != [] {
      var n := |lines| - 1;
      NamesAreSet(lines[..n], name);
      if i :| 0 <= i < |lines| && lines[i].Setting? && lines[i].name == name {
        assert i < n ==> lines[..n][i] == lines[i];
      }
    }
  }

  /** No key is set twice. */
  predicate KeysDistinct(lines: seq<Line>) {
    forall i, j | 0 <= i < j < |lines| && lines[i].Setting? && lines[j].Setting? :: lines[i].name != lines[j].name
  }

  /** A file is accepted exactly when every line is acceptable and no key is set twice. */
  lemma {:induction false} AcceptedIff(read: ReadSetting, lines: seq<Line>)
    ensures Folded(read, lines).Success? <==>
            (forall i | 0 <= i < |lines| :: Acceptable(read, lines[i])) && KeysDistinct(lines)
  {
    if lines != [] {
      var n := |lines| - 1;
      var before, last := lines[..n], lines[n];
      AcceptedIff(read, before);
      assert forall i | 0 <= i < n :: before[i] == lines[i];
      if last.Setting? {
        NamesAreSet(before, last.name);
      }
    }
  }

  // ---- What an accepted file means ----

  /** The change each line asks for, if any. */
  function Changes(read: ReadSetting, lines: seq<Line>): seq<Option<Change>> {
    seq(|lines|, i requires 0 <= i < |lines| =>
      if lines[i].Setting? && read(lines[i].name, lines[i].value).Success?
      then Some(read(lines[i].name, lines[i].value).value) else None)
  }

  function Effect(changes: seq<Option<Change>>): Settings {
    if changes == [] then DEFAULTS
    else
      var before := Effect(changes[..|changes| - 1]);
      match changes[|changes| - 1]
      case Some(change) => Applied(before, change)
      case None => before
  }

  lemma {:induction false} AcceptedIsEffect(read: ReadSetting, lines: seq<Line>)
    requires Folded(read, lines).Success?
    ensures Folded(read, lines).value == Effect(Changes(read, lines))
  {
    if lines != [] {
      var n := |lines| - 1;
      AcceptedIsEffect(read, lines[..n]);
      assert Changes(read, lines)[..n] == Changes(read, lines[..n]);
    }
  }

  /** What the last change that speaks about something says; `otherwise` if none does. */
  function Latest<T>(changes: seq<Option<Change>>, says: Change -> Option<T>, otherwise: T): T {
    if changes == [] then otherwise
    else
      var n := |changes| - 1;
      match Heard(changes[n], says)
      case Some(value) => value
      case None => Latest(changes[..n], says, otherwise)
  }

  function Heard<T>(change: Option<Change>, says: Change -> Option<T>): Option<T> {
    match change case Some(c) => says(c) case None => None
  }

  lemma {:induction false} LatestAt<T>(changes: seq<Option<Change>>, says: Change -> Option<T>, otherwise: T, k: nat)
    requires k < |changes| && Heard(changes[k], says).Some?
    requires forall j | k < j < |changes| :: Heard(changes[j], says).None?
    ensures Latest(changes, says, otherwise) == Heard(changes[k], says).value
  {
    var n := |changes| - 1;
    if k < n {
      assert Heard(changes[n], says).None?;
      LatestAt(changes[..n], says, otherwise, k);
    }
  }

  lemma {:induction false} LatestOfNone<T>(changes: seq<Option<Change>>, says: Change -> Option<T>, otherwise: T)
    requires forall j | 0 <= j < |changes| :: Heard(changes[j], says).None?
    ensures Latest(changes, says, otherwise) == otherwise
  {
    if changes != [] {
      LatestOfNone(changes[..|changes| - 1], says, otherwise);
    }
  }

  /** A change sets what it speaks about to what it says, and leaves it alone otherwise. */
  ghost predicate Tells<T(!new)>(get: Settings -> T, says: Change -> Option<T>) {
    forall settings: Settings, change: Change ::
      get(Applied(settings, change)) == (match says(change) case Some(value) => value case None => get(settings))
  }

  lemma {:induction false} EffectIsLatest<T(!new)>(
    changes: seq<Option<Change>>, get: Settings -> T, says: Change -> Option<T>)
    requires Tells(get, says)
    ensures get(Effect(changes)) == Latest(changes, says, get(DEFAULTS))
  {
    if changes != [] {
      EffectIsLatest(changes[..|changes| - 1], get, says);
    }
  }

  /** A theme speaks about every color. */
  function SaysColor(field: Field): Change -> Option<Color> {
    (c: Change) =>
      if c.ToTheme? then Some(c.theme.Get(field))
      else if c.ToColor? && c.field == field then Some(c.color)
      else None
  }

  function SaysAnimation(c: Change): Option<Animation> {
    if c.ToAnimation? then Some(c.animation) else None
  }

  function SaysScreensaver(c: Change): Option<Screensaver> {
    if c.ToScreensaver? then Some(c.screensaver) else None
  }

  function SaysIdle(c: Change): Option<u16> {
    if c.ToIdle? then Some(c.seconds) else None
  }

  function SaysScene(c: Change): Option<SceneStyle> {
    if c.ToScene? then Some(c.style) else None
  }

  function KindOf(change: Change): Kind {
    match change
    case ToTheme(_) => ThemeKind
    case ToColor(field, _) => ColorKind(field)
    case ToAnimation(_) => AnimationKind
    case ToScreensaver(_) => ScreensaverKind
    case ToIdle(_) => IdleKind
    case ToScene(_) => SceneKind
  }

  /** Every line that asks for a change of one kind has the key of that kind. */
  ghost predicate Keyed(read: ReadSetting) {
    forall name, value | read(name, value).Success? :: name == NameOf(KindOf(read(name, value).value))
  }

  lemma ChangesAreKeyed()
    ensures Keyed(ChangeFor)
  {
    forall name, value | ChangeFor(name, value).Success?
      ensures name == NameOf(KindOf(ChangeFor(name, value).value))
    {
      ChangeHasItsKey(name, value);
    }
  }

  lemma ChangeHasItsKey(name: string, value: string)
    ensures ChangeFor(name, value).Success? ==> name == NameOf(KindOf(ChangeFor(name, value).value))
  {
    if ChangeFor(name, value).Success? {
      KeysAreKinds(name, KindNamed(name).value);
    }
  }

  predicate Asks(read: ReadSetting, line: Line, change: Change) {
    line.Setting? && read(line.name, line.value) == Success(change)
  }

  /** In an accepted file no two lines ask for the same kind of change. */
  lemma AsksOnce(read: ReadSetting, lines: seq<Line>, i: nat, j: nat, first: Change, second: Change)
    requires Keyed(read) && Folded(read, lines).Success?
    requires i < |lines| && j < |lines| && Asks(read, lines[i], first) && Asks(read, lines[j], second)
    requires KindOf(first) == KindOf(second)
    ensures i == j
  {
    AcceptedIff(read, lines);
  }

  lemma HeardIsAsked<T>(read: ReadSetting, lines: seq<Line>, says: Change -> Option<T>, j: nat)
    requires j < |lines|
    ensures var heard := Heard(Changes(read, lines)[j], says);
            heard.Some? ==> exists change :: Asks(read, lines[j], change) && says(change) == heard
  {
    var asked := Changes(read, lines)[j];
    if asked.Some? {
      assert Asks(read, lines[j], asked.value);
    }
  }

  /** A setting is what a line says about it, unless a line of another key speaks about it later. */
  lemma OnlyLineSays<T(!new)>(
    read: ReadSetting, lines: seq<Line>, get: Settings -> T, says: Change -> Option<T>, k: nat, change: Change)
    requires Keyed(read) && Folded(read, lines).Success? && Tells(get, says)
    requires k < |lines| && Asks(read, lines[k], change) && says(change).Some?
    requires forall j, other | k < j < |lines| && Asks(read, lines[j], other) && says(other).Some? ::
               KindOf(other) == KindOf(change)
    ensures get(Folded(read, lines).value) == says(change).value
  {
    var changes := Changes(read, lines);
    AcceptedIsEffect(read, lines);
    EffectIsLatest(changes, get, says);
    forall j | k < j < |changes|
      ensures Heard(changes[j], says).None?
    {
      HeardIsAsked(read, lines, says, j);
      if other :| Asks(read, lines[j], other) && says(other).Some? && Heard(changes[j], says).Some? {
        AsksOnce(read, lines, k, j, change, other);
      }
    }
    LatestAt(changes, says, get(DEFAULTS), k);
  }

  /** A setting that no line speaks about has its default. */
  lemma UnsaidIsDefault<T(!new)>(read: ReadSetting, lines: seq<Line>, get: Settings -> T, says: Change -> Option<T>)
    requires Keyed(read) && Folded(read, lines).Success? && Tells(get, says)
    requires forall j, change | 0 <= j < |lines| && Asks(read, lines[j], change) :: says(change).None?
    ensures get(Folded(read, lines).value) == get(DEFAULTS)
  {
    var changes := Changes(read, lines);
    AcceptedIsEffect(read, lines);
    EffectIsLatest(changes, get, says);
    forall j | 0 <= j < |changes|
      ensures Heard(changes[j], says).None?
    {
      HeardIsAsked(read, lines, says, j);
    }
    LatestOfNone(changes, says, get(DEFAULTS));
  }

  lemma ColorTells(field: Field)
    ensures Tells((s: Settings) => s.theme.Get(field), SaysColor(field))
  {
  }

  /** A color comes from its own line if no theme line follows it. */
  lemma OwnLineWins(read: ReadSetting, lines: seq<Line>, k: nat, field: Field, color: Color)
    requires Keyed(read) && Folded(read, lines).Success?
    requires k < |lines| && Asks(read, lines[k], ToColor(field, color))
    requires forall j, theme | k < j < |lines| :: !Asks(read, lines[j], ToTheme(theme))
    ensures Folded(read, lines).value.theme.Get(field) == color
  {
    ColorTells(field);
    OnlyLineSays(read, lines, (s: Settings) => s.theme.Get(field), SaysColor(field), k, ToColor(field, color));
  }

  /** A color comes from the theme line if its own line does not follow that. */
  lemma ThemeLineWins(read: ReadSetting, lines: seq<Line>, k: nat, field: Field, theme: Theme)
    requires Keyed(read) && Folded(read, lines).Success?
    requires k < |lines| && Asks(read, lines[k], ToTheme(theme))
    requires forall j, color | k < j < |lines| :: !Asks(read, lines[j], ToColor(field, color))
    ensures Folded(read, lines).value.theme.Get(field) == theme.Get(field)
  {
    ColorTells(field);
    OnlyLineSays(read, lines, (s: Settings) => s.theme.Get(field), SaysColor(field), k, ToTheme(theme));
  }

  /** A color that neither its own line nor a theme line sets has its default. */
  lemma UnsetColor(read: ReadSetting, lines: seq<Line>, field: Field)
    requires Keyed(read) && Folded(read, lines).Success?
    requires forall j, theme | 0 <= j < |lines| :: !Asks(read, lines[j], ToTheme(theme))
    requires forall j, color | 0 <= j < |lines| :: !Asks(read, lines[j], ToColor(field, color))
    ensures Folded(read, lines).value.theme.Get(field) == DEFAULT_THEME.Get(field)
  {
    ColorTells(field);
    UnsaidIsDefault(read, lines, (s: Settings) => s.theme.Get(field), SaysColor(field));
  }

  /** `get` is what the lines of this kind set, and no other line does. */
  ghost predicate Owns<T(!new)>(kind: Kind, get: Settings -> T, says: Change -> Option<T>) {
    Tells(get, says) && forall change :: says(change).Some? <==> KindOf(change) == kind
  }

  /** A setting of one key is what its line says, wherever that is, or the default if there is no such line. */
  lemma OwnedMeans<T(!new)>(
    read: ReadSetting, lines: seq<Line>, kind: Kind, get: Settings -> T, says: Change -> Option<T>)
    requires Keyed(read) && Folded(read, lines).Success? && Owns(kind, get, says)
    ensures forall k, change | 0 <= k < |lines| && Asks(read, lines[k], change) && says(change).Some? ::
              get(Folded(read, lines).value) == says(change).value
    ensures (forall k, change | 0 <= k < |lines| && Asks(read, lines[k], change) :: says(change).None?) ==>
            get(Folded(read, lines).value) == get(DEFAULTS)
  {
    forall k, change | 0 <= k < |lines| && Asks(read, lines[k], change) && says(change).Some?
      ensures get(Folded(read, lines).value) == says(change).value
    {
      OnlyLineSays(read, lines, get, says, k, change);
    }
    if forall k, change | 0 <= k < |lines| && Asks(read, lines[k], change) :: says(change).None? {
      UnsaidIsDefault(read, lines, get, says);
    }
  }

  function AnimationOf(settings: Settings): Animation {
    settings.animation
  }

  function ScreensaverOf(settings: Settings): Screensaver {
    settings.screensaver
  }

  function IdleOf(settings: Settings): u16 {
    settings.idleSeconds
  }

  function SceneOf(settings: Settings): SceneStyle {
    settings.sceneStyle
  }

  /** Every setting but the colors has a key of its own, so the order of those lines is without effect. */
  lemma KeysOwnSettings()
    ensures Owns(AnimationKind, AnimationOf, SaysAnimation)
    ensures Owns(ScreensaverKind, ScreensaverOf, SaysScreensaver)
    ensures Owns(IdleKind, IdleOf, SaysIdle)
    ensures Owns(SceneKind, SceneOf, SaysScene)
  {
  }

  // ---- An accepted file is what it declares ----

  /** Where a key is set; in an accepted file there is one such line or none. */
  function LineOf(lines: seq<Line>, name: string): (r: Option<nat>)
    ensures match r
            case Some(i) => i < |lines| && lines[i].Setting? && lines[i].name == name
            case None => forall i | 0 <= i < |lines| && lines[i].Setting? :: lines[i].name != name
  {
    if lines == [] then None
    else
      var n := |lines| - 1;
      if lines[n].Setting? && lines[n].name == name then Some(n) else LineOf(lines[..n], name)
  }

  /** What the line of a kind of setting asks for. */
  function Said(read: ReadSetting, lines: seq<Line>, kind: Kind): Option<Change> {
    match LineOf(lines, NameOf(kind))
    case None => None
    case Some(i) =>
      match read(lines[i].name, lines[i].value)
      case Success(change) => Some(change)
      case Failure(_) => None
  }

  /** Whether the line of a color comes after the theme line, if there is one. */
  predicate Overrides(lines: seq<Line>, field: Field) {
    match (LineOf(lines, NameOf(ColorKind(field))), LineOf(lines, NameOf(ThemeKind)))
    case (None, _) => false
    case (Some(_), None) => true
    case (Some(own), Some(theme)) => theme < own
  }

  function DeclaredColor(read: ReadSetting, lines: seq<Line>, field: Field): Color {
    match (Said(read, lines, ColorKind(field)), Said(read, lines, ThemeKind))
    case (Some(ToColor(_, color)), Some(ToTheme(theme))) => if Overrides(lines, field) then color else theme.Get(field)
    case (Some(ToColor(_, color)), _) => color
    case (_, Some(ToTheme(theme))) => theme.Get(field)
    case _ => DEFAULT_THEME.Get(field)
  }

  /** A setting with a key of its own. */
  function DeclaredSetting<T>(
    read: ReadSetting, lines: seq<Line>, kind: Kind, says: Change -> Option<T>, otherwise: T): T
  {
    match Said(read, lines, kind)
    case Some(change) => if says(change).Some? then says(change).value else otherwise
    case None => otherwise
  }

  function DeclaredTheme(read: ReadSetting, lines: seq<Line>): Theme {
    Theme(DeclaredColor(read, lines, PaneBorder), DeclaredColor(read, lines, FocusedBorder),
          DeclaredColor(read, lines, StatusText), DeclaredColor(read, lines, StatusBackground),
          DeclaredColor(read, lines, Foreground), DeclaredColor(read, lines, Background))
  }

  function DeclaredBy(read: ReadSetting, lines: seq<Line>): Settings {
    Settings(
      DeclaredTheme(read, lines),
      DeclaredSetting(read, lines, AnimationKind, SaysAnimation, AnimationOff),
      DeclaredSetting(read, lines, ScreensaverKind, SaysScreensaver, ScreensaverOff),
      DeclaredSetting(read, lines, IdleKind, SaysIdle, 300),
      DeclaredSetting(read, lines, SceneKind, SaysScene, Unicode))
  }

  /** The settings that the lines of a file declare, each looked up by its key. */
  function Declared(lines: seq<Line>): Settings {
    DeclaredBy(ChangeFor, lines)
  }

  lemma KindsHaveOwnNames(a: Kind, b: Kind)
    ensures NameOf(a) == NameOf(b) <==> a == b
  {
    KeysAreKinds(NameOf(a), a);
    KeysAreKinds(NameOf(a), b);
  }

  lemma SaidIsAsked(read: ReadSetting, lines: seq<Line>, kind: Kind)
    requires Keyed(read) && Folded(read, lines).Success?
    ensures match LineOf(lines, NameOf(kind))
            case Some(i) =>
              Said(read, lines, kind).Some? && Asks(read, lines[i], Said(read, lines, kind).value)
              && KindOf(Said(read, lines, kind).value) == kind
            case None =>
              Said(read, lines, kind) == None
              && forall j, change | 0 <= j < |lines| && Asks(read, lines[j], change) :: KindOf(change) != kind
  {
    AcceptedIff(read, lines);
    match LineOf(lines, NameOf(kind))
    case Some(i) =>
      assert Acceptable(read, lines[i]);
      KindsHaveOwnNames(KindOf(Said(read, lines, kind).value), kind);
    case None =>
  }

  /** After the one line of a kind, or if there is none, no line asks for that kind of setting. */
  lemma NoLaterLine(read: ReadSetting, lines: seq<Line>, k: nat, kind: Kind)
    requires Keyed(read) && Folded(read, lines).Success? && k < |lines|
    requires LineOf(lines, NameOf(kind)).Some? ==> LineOf(lines, NameOf(kind)).value <= k
    ensures forall j, change | k < j < |lines| && Asks(read, lines[j], change) :: KindOf(change) != kind
  {
    SaidIsAsked(read, lines, kind);
    forall j, change | k < j < |lines| && Asks(read, lines[j], change)
      ensures KindOf(change) != kind
    {
      if KindOf(change) == kind && LineOf(lines, NameOf(kind)).Some? {
        AsksOnce(read, lines, LineOf(lines, NameOf(kind)).value, j, Said(read, lines, kind).value, change);
      }
    }
  }

  lemma OwnColorIsDeclared(read: ReadSetting, lines: seq<Line>, field: Field, color: Color)
    requires Keyed(read) && Folded(read, lines).Success? && Overrides(lines, field)
    requires Said(read, lines, ColorKind(field)) == Some(ToColor(field, color))
    ensures Folded(read, lines).value.theme.Get(field) == color
  {
    var own := LineOf(lines, NameOf(ColorKind(field))).value;
    SaidIsAsked(read, lines, ColorKind(field));
    NoLaterLine(read, lines, own, ThemeKind);
    OwnLineWins(read, lines, own, field, color);
  }

  lemma ThemeColorIsDeclared(read: ReadSetting, lines: seq<Line>, field: Field, theme: Theme)
    requires Keyed(read) && Folded(read, lines).Success? && !Overrides(lines, field)
    requires Said(read, lines, ThemeKind) == Some(ToTheme(theme))
    ensures Folded(read, lines).value.theme.Get(field) == theme.Get(field)
  {
    var at := LineOf(lines, NameOf(ThemeKind)).value;
    SaidIsAsked(read, lines, ThemeKind);
    NoLaterLine(read, lines, at, ColorKind(field));
    ThemeLineWins(read, lines, at, field, theme);
  }

  lemma ColorIsDeclared(read: ReadSetting, lines: seq<Line>, field: Field)
    requires Keyed(read) && Folded(read, lines).Success?
    ensures Folded(read, lines).value.theme.Get(field) == DeclaredColor(read, lines, field)
  {
    SaidIsAsked(read, lines, ColorKind(field));
    SaidIsAsked(read, lines, ThemeKind);
    if Overrides(lines, field) {
      OwnColorIsDeclared(read, lines, field, Said(read, lines, ColorKind(field)).value.color);
    } else if LineOf(lines, NameOf(ThemeKind)).Some? {
      ThemeColorIsDeclared(read, lines, field, Said(read, lines, ThemeKind).value.theme);
    } else {
      UnsetColor(read, lines, field);
    }
  }

  lemma SettingIsDeclared<T(!new)>(
    read: ReadSetting, lines: seq<Line>, settings: Settings, kind: Kind, get: Settings -> T, says: Change -> Option<T>)
    requires Keyed(read) && Folded(read, lines) == Success(settings) && Owns(kind, get, says)
    ensures get(settings) == DeclaredSetting(read, lines, kind, says, get(DEFAULTS))
  {
    SaidIsAsked(read, lines, kind);
    OwnedMeans(read, lines, kind, get, says);
  }

  lemma ThemeIsDeclared(read: ReadSetting, lines: seq<Line>, theme: Theme)
    requires Keyed(read) && Folded(read, lines).Success? && theme == Folded(read, lines).value.theme
    ensures theme == DeclaredTheme(read, lines)
  {
    forall field: Field
      ensures theme.Get(field) == DeclaredColor(read, lines, field)
    {
      ColorIsDeclared(read, lines, field);
    }
    ColorsMakeTheme(read, lines, theme);
  }

  lemma ColorsMakeTheme(read: ReadSetting, lines: seq<Line>, theme: Theme)
    requires forall field: Field :: theme.Get(field) == DeclaredColor(read, lines, field)
    ensures theme == DeclaredTheme(read, lines)
  {
    var declared := DeclaredTheme(read, lines);
    assert theme.Get(PaneBorder) == declared.paneBorder && theme.Get(FocusedBorder) == declared.focusedBorder;
    assert theme.Get(StatusText) == declared.status && theme.Get(StatusBackground) == declared.statusBackground;
    assert theme.Get(Foreground) == declared.foreground && theme.Get(Background) == declared.background;
  }

  lemma FoldedIsDeclared(read: ReadSetting, lines: seq<Line>, settings: Settings)
    requires Keyed(read) && Folded(read, lines) == Success(settings)
    ensures settings == DeclaredBy(read, lines)
  {
    KeysOwnSettings();
    ThemeIsDeclared(read, lines, settings.theme);
    SettingIsDeclared(read, lines, settings, AnimationKind, AnimationOf, SaysAnimation);
    SettingIsDeclared(read, lines, settings, ScreensaverKind, ScreensaverOf, SaysScreensaver);
    SettingIsDeclared(read, lines, settings, IdleKind, IdleOf, SaysIdle);
    SettingIsDeclared(read, lines, settings, SceneKind, SceneOf, SaysScene);
  }

  /** An accepted file has the settings it declares: order matters for nothing but the theme and the colors. */
  lemma AcceptedIsDeclared(size: nat, lines: seq<Line>)
    requires Parsed(size, lines).Success?
    ensures Parsed(size, lines).value == Declared(lines)
  {
    ChangesAreKeyed();
    FoldedIsDeclared(ChangeFor, lines, Parsed(size, lines).value);
  }

  // ---- How many settings a file can hold ----

  const KEYS: seq<string> :=
    ["theme", "animation", "screensaver", "idle_seconds", "scene_style", "pane_border", "focused_border", "status",
     "status_background", "foreground", "background"]

  function Elements(names: seq<string>): set<string> {
    set name | name in names
  }

  lemma {:induction false} AtMostLength(names: seq<string>)
    ensures |Elements(names)| <= |names|
  {
    if names != [] {
      var front := names[..|names| - 1];
      AtMostLength(front);
      assert Elements(names) == Elements(front) + {names[|names| - 1]};
    }
  }

  lemma SubsetNoLarger(small: set<string>, large: set<string>)
    requires small <= large
    ensures |small| <= |large|
    decreases large
  {
    if name :| name in large {
      SubsetNoLarger(small - {name}, large - {name});
    }
  }

  lemma {:induction false} NamesAreKeys(lines: seq<Line>)
    requires Folded(ChangeFor, lines).Success?
    ensures |Elements(Names(lines))| == |Names(lines)|
    ensures forall name | name in Names(lines) :: name in KEYS
  {
    if lines != [] {
      var n := |lines| - 1;
      var before, last := lines[..n], lines[n];
      NamesAreKeys(before);
      if last.Setting? {
        var front := Names(before);
        assert Names(lines) == front + [last.name];
        assert Elements(Names(lines)) == Elements(front) + {last.name};
        assert last.name !in Elements(front);
        KeyIsKnown(last.name, last.value);
      } else {
        assert Names(lines) == Names(before);
      }
    }
  }

  lemma KeyIsKnown(name: string, value: string)
    requires ChangeFor(name, value).Success?
    ensures name in KEYS
  {
    KeysAreKinds(name, KindNamed(name).value);
    assert KEYS[0] == "theme" && KEYS[1] == "animation" && KEYS[2] == "screensaver" && KEYS[3] == "idle_seconds";
    assert KEYS[4] == "scene_style" && KEYS[5] == "pane_border" && KEYS[6] == "focused_border" && KEYS[7] == "status";
    assert KEYS[8] == "status_background" && KEYS[9] == "foreground" && KEYS[10] == "background";
  }

  /** An accepted file holds at most eleven settings. */
  lemma AtMostElevenSettings(size: nat, lines: seq<Line>)
    requires Parsed(size, lines).Success?
    ensures |Names(lines)| <= 11
  {
    NamesAreKeys(lines);
    SubsetNoLarger(Elements(Names(lines)), Elements(KEYS));
    AtMostLength(KEYS);
  }

  // ---- Which colors are accepted ----

  /** The documented form of a color: `#` and six hexadecimal digits. */
  predicate SixHexDigits(value: string) {
    |value| == 7 && value[0] == '#' && forall i | 1 <= i < 7 :: HexDigit(value[i]).Some?
  }

  /** Like the documented form, but with a plus sign for the first digit of one or more components. */
  predicate PlusForm(value: string) {
    && |value| == 7 && value[0] == '#'
    && (value[1] == '+' || value[3] == '+' || value[5] == '+')
    && forall i | 0 <= i < 3 ::
         (value[2 * i + 1] == '+' || HexDigit(value[2 * i + 1]).Some?) && HexDigit(value[2 * i + 2]).Some?
  }

  lemma ColorForms(value: string)
    requires |value| == 7 && value[0] == '#'
    ensures SixHexDigits(value) || PlusForm(value) <==>
            && Component(value[1], value[2]).Some? && Component(value[3], value[4]).Some?
            && Component(value[5], value[6]).Some?
    ensures !(SixHexDigits(value) && PlusForm(value))
  {
    if SixHexDigits(value) || PlusForm(value) {
      assert HexDigit(value[2 * 0 + 2]).Some? && HexDigit(value[2 * 1 + 2]).Some? && HexDigit(value[2 * 2 + 2]).Some?;
      assert value[2 * 0 + 1] == '+' || HexDigit(value[2 * 0 + 1]).Some?;
      assert value[2 * 1 + 1] == '+' || HexDigit(value[2 * 1 + 1]).Some?;
      assert value[2 * 2 + 1] == '+' || HexDigit(value[2 * 2 + 1]).Some?;
    }
  }

  /** Exactly the documented colors are accepted, except that a plus sign may stand for a leading digit. */
  lemma ColorAcceptedIff(value: string)
    ensures ParseColor(value).Some? <==> NamedColor(value).Some? || SixHexDigits(value) || PlusForm(value)
    ensures (ParseColor(value).Some? <==> NamedColor(value).Some? || SixHexDigits(value)) <==> !PlusForm(value)
  {
    if |value| == 7 && value[0] == '#' {
      ColorForms(value);
    }
  }

  /** A plus sign in place of a leading digit is accepted although it is not documented. */
  lemma PlusSignAccepted()
    ensures ParseColor("#+1+2+3") == Some(Rgb(1, 2, 3)) && PlusForm("#+1+2+3") && !SixHexDigits("#+1+2+3")
  {
    var value := "#+1+2+3";
    assert value[0] == '#' && value[1] == '+' && value[2] == '1';
    assert value[3] == '+' && value[4] == '2' && value[5] == '+' && value[6] == '3';
  }
}
