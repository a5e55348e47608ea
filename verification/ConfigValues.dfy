/** What the values of a configuration mean: numbers by their digits, colors by their components, words as such. */
module ConfigValues {
  import opened Basics
  import opened Config

  // ---- What is refused, where and why ----

  /** A source of more than 16384 bytes is refused, and so is one of more than 64 lines, at line 65. */
  lemma LimitsAre(size: nat, lines: seq<Line>)
    ensures size > 16384 <==> Parsed(size, lines) == Failure(TooLarge)
    ensures size <= 16384 && |lines| > 64 ==> Parsed(size, lines) == Failure(Invalid(65, TooManyLines))
    ensures size <= 16384 && |lines| <= 64 ==> Parsed(size, lines) == Folded(ChangeFor, lines)
  {
  }

  /** The first line that is refused is reported, with the first reason that applies to it. */
  lemma RefusedBecause(read: ReadSetting, lines: seq<Line>, k: nat)
    requires k < |lines| && Folded(read, lines[..k]).Success?
    ensures match lines[k]
            case TooLong => Folded(read, lines) == Failure(Invalid(k + 1, LineTooLong))
            case Ignored => Folded(read, lines[..k + 1]) == Folded(read, lines[..k])
            case NoEquals => Folded(read, lines) == Failure(Invalid(k + 1, ExpectedKeyValue))
            case EmptyPart => Folded(read, lines) == Failure(Invalid(k + 1, EmptyKeyOrValue))
            case Setting(name, value) =>
              if exists i | 0 <= i < k :: lines[i].Setting? && lines[i].name == name
              then Folded(read, lines) == Failure(Invalid(k + 1, DuplicateKey))
              else if read(name, value).Failure?
              then Folded(read, lines) == Failure(Invalid(k + 1, read(name, value).error))
              else Folded(read, lines[..k + 1]).Success?
  {
    assert lines[..k + 1][..k] == lines[..k] && lines[..k + 1][k] == lines[k];
    if lines[k].Setting? {
      NamesAreSet(lines[..k], lines[k].name);
      assert forall i | 0 <= i < k :: lines[..k][i] == lines[i];
    }
    FoldedPrefix(read, lines, k + 1);
  }

  /** A key that is none of the eleven is unknown; a known one has a bad value if it asks for nothing. */
  lemma ValueRefused(name: string, value: string)
    ensures name !in KEYS ==> ChangeFor(name, value) == Failure(UnknownKey)
    ensures name in KEYS && ChangeFor(name, value).Failure? ==> ChangeFor(name, value) == Failure(BadValue)
  {
    if name in KEYS {
      var i :| 0 <= i < |KEYS| && KEYS[i] == name;
      KeyAt(i);
    } else if KindNamed(name).Some? {
      var kind := KindNamed(name).value;
      KeysAreKinds(name, kind);
      KindIsKey(kind);
    }
  }

  lemma KeyAt(i: nat)
    requires i < |KEYS|
    ensures KindNamed(KEYS[i]).Some?
  {
  }

  lemma KindIsKey(kind: Kind)
    ensures NameOf(kind) in KEYS
  {
    assert KEYS[0] == "theme" && KEYS[1] == "animation" && KEYS[2] == "screensaver" && KEYS[3] == "idle_seconds";
    assert KEYS[4] == "scene_style" && KEYS[5] == "pane_border" && KEYS[6] == "focused_border" && KEYS[7] == "status";
    assert KEYS[8] == "status_background" && KEYS[9] == "foreground" && KEYS[10] == "background";
  }

  // ---- Decimal numbers ----

  predicate AllDigits(s: string) {
    forall i | 0 <= i < |s| :: '0' <= s[i] <= '9'
  }

  /** The number that decimal digits denote when they follow `high`. */
  function NumberAfter(high: nat, digits: string): nat
    requires AllDigits(digits)
  {
    if digits == [] then high
    else
      var n := |digits| - 1;
      10 * NumberAfter(high, digits[..n]) + (digits[n] as int - '0' as int)
  }

  function Number(digits: string): nat
    requires AllDigits(digits)
  {
    NumberAfter(0, digits)
  }

  lemma {:induction false} NumberFirst(high: nat, digits: string)
    requires AllDigits(digits) && digits != []
    ensures NumberAfter(high, digits) == NumberAfter(10 * high + (digits[0] as int - '0' as int), digits[1..])
  {
    var n := |digits| - 1;
    if n > 0 {
      NumberFirst(high, digits[..n]);
      assert digits[..n][1..] == digits[1..][..n - 1];
    }
  }

  lemma {:induction false} NumberGrows(high: nat, digits: string)
    requires AllDigits(digits)
    ensures NumberAfter(high, digits) >= high
  {
    if digits != [] {
      NumberGrows(high, digits[..|digits| - 1]);
    }
  }

  lemma {:induction false} DecimalIs(digits: string, high: u16)
    ensures Decimal(digits, high) ==
            if AllDigits(digits) && NumberAfter(high, digits) <= U16_MAX then Some(NumberAfter(high, digits)) else None
  {
    if digits != [] {
      if '0' <= digits[0] <= '9' {
        var next := 10 * high + (digits[0] as int - '0' as int);
        assert AllDigits(digits) <==> AllDigits(digits[1..]) by {
          assert digits == [digits[0]] + digits[1..];
        }
        if AllDigits(digits) {
          NumberFirst(high, digits);
          NumberGrows(next, digits[1..]);
        }
        if next <= U16_MAX {
          DecimalIs(digits[1..], next);
        }
      } else {
        assert !AllDigits(digits);
      }
    }
  }

  /** The digits of a number, after the plus sign if there is one. */
  function Unsigned(value: string): string {
    if value != [] && value[0] == '+' then value[1..] else value
  }

  /** Exactly the numbers up to 65535 are read, in decimal digits, with or without a plus sign. */
  lemma NumberReadIff(value: string, n: u16)
    ensures ParseU16(value) == Some(n) <==>
            Unsigned(value) != [] && AllDigits(Unsigned(value)) && Number(Unsigned(value)) == n
  {
    DecimalIs(Unsigned(value), 0);
    if value == ['+'] {
      DecimalIs(value, 0);
    }
  }

  /** The idle time is a number of seconds from 10 to 3600. */
  lemma IdleReadIff(value: string, n: u16)
    ensures ChangeFor("idle_seconds", value) == Success(ToIdle(n)) <==>
            Unsigned(value) != [] && AllDigits(Unsigned(value)) && Number(Unsigned(value)) == n && 10 <= n <= 3600
  {
    KeysAreKinds("idle_seconds", IdleKind);
    NumberReadIff(value, n);
  }

  // ---- Colors ----

  /** A hexadecimal digit as it is written, in either case. */
  function DigitChar(d: nat, upper: bool): char
    requires d < 16
  {
    if d < 10 then ('0' as int + d) as char
    else if upper then ('A' as int + (d - 10)) as char
    else ('a' as int + (d - 10)) as char
  }

  lemma DigitReadIff(c: char, d: nat)
    requires d < 16
    ensures HexDigit(c) == Some(d) <==> c == DigitChar(d, false) || c == DigitChar(d, true)
  {
  }

  /** A component is its two digits, most significant first; a plus sign counts for nothing. */
  lemma ComponentReads(first: char, second: char, high: nat, low: nat)
    requires low < 16 && HexDigit(second) == Some(low)
    ensures high < 16 && HexDigit(first) == Some(high) ==> Component(first, second) == Some(16 * high + low)
    ensures first == '+' ==> Component(first, second) == Some(low)
  {
  }

  /** `n` as two hexadecimal digits, each in either case. */
  function Hex(n: byte, upper: (bool, bool)): string {
    [DigitChar(n / 16, upper.0), DigitChar(n % 16, upper.1)]
  }

  lemma HexReads(n: byte, upper: (bool, bool))
    ensures Component(Hex(n, upper)[0], Hex(n, upper)[1]) == Some(n)
  {
    DigitReadIff(Hex(n, upper)[0], n / 16);
    DigitReadIff(Hex(n, upper)[1], n % 16);
    ComponentReads(Hex(n, upper)[0], Hex(n, upper)[1], n / 16, n % 16);
  }

  /** `#` and three components in hexadecimal, red first, are that color, whatever the case of the digits. */
  lemma ColorReads(red: byte, green: byte, blue: byte, r: (bool, bool), g: (bool, bool), b: (bool, bool))
    ensures ParseColor("#" + Hex(red, r) + Hex(green, g) + Hex(blue, b)) == Some(Rgb(red, green, blue))
  {
    var value := "#" + Hex(red, r) + Hex(green, g) + Hex(blue, b);
    HexReads(red, r);
    HexReads(green, g);
    HexReads(blue, b);
    assert value[0] == '#' && value[1] == Hex(red, r)[0] && value[2] == Hex(red, r)[1];
    assert value[3] == Hex(green, g)[0] && value[4] == Hex(green, g)[1];
    assert value[5] == Hex(blue, b)[0] && value[6] == Hex(blue, b)[1];
    HashIsNoName(value);
  }

  lemma HashIsNoName(value: string)
    requires value != [] && value[0] == '#'
    ensures NamedColor(value) == None
  {
  }

  function ColorName(color: Color): string
    requires !color.Rgb?
  {
    match color
    case Black => "black"
    case Red => "red"
    case Green => "green"
    case Yellow => "yellow"
    case Blue => "blue"
    case Magenta => "magenta"
    case Cyan => "cyan"
    case White => "white"
    case DarkGrey => "dark-grey"
    case Grey => "grey"
  }

  /** A name is read as the color of that name, and as no other. */
  lemma NameReadsIff(value: string, color: Color)
    requires !color.Rgb?
    ensures ParseColor(value) == Some(color) <==> value == ColorName(color)
  {
    NamedIff(value, color);
  }

  lemma NamedIff(value: string, color: Color)
    requires !color.Rgb?
    ensures NamedColor(value) == Some(color) <==> value == ColorName(color)
  {
  }

  // ---- Words ----

  lemma WordsReadIff(value: string)
    ensures AnimationChange(value) == Some(ToAnimation(AnimationOff)) <==> value == "off"
    ensures AnimationChange(value) == Some(ToAnimation(Subtle)) <==> value == "subtle"
    ensures ScreensaverChange(value) == Some(ToScreensaver(ScreensaverOff)) <==> value == "off"
    ensures ScreensaverChange(value) == Some(ToScreensaver(PandaClimb)) <==> value == "panda-climb"
    ensures ScreensaverChange(value) == Some(ToScreensaver(CatPlay)) <==> value == "cat-play"
    ensures SceneChange(value) == Some(ToScene(Unicode)) <==> value == "unicode"
    ensures SceneChange(value) == Some(ToScene(Ascii)) <==> value == "ascii"
  {
  }
}
