/**
 * Small pure pieces of the twelve-player front end's settings and touch
 * layout: the player roster with colours and default keys, the label shown
 * for a stored control value, and the touch buttons.
 */
module Controls {
  import opened Wrappers
  import opened Rules

  // ---------------------------------------------------------------------
  // Numbers as text

  function DigitChar(d: int): char
    requires 0 <= d < 10
  {
    "0123456789"[d]
  }

  /** The decimal text of a natural number, as a template literal prints it. */
  function NatToString(n: nat): (s: string)
    ensures |s| >= 1
  {
    if n < 10 then [DigitChar(n)] else NatToString(n / 10) + [DigitChar(n % 10)]
  }

  function IntToString(i: int): string
  {
    if i < 0 then "-" + NatToString(-i) else NatToString(i)
  }

  /** The value of a digit character in bases up to 36, or 36 for anything else. */
  function DigitValue(c: char): (v: nat)
    ensures v <= 36
  {
    if '0' <= c <= '9' then c as int - '0' as int
    else if 'a' <= c <= 'z' then c as int - 'a' as int + 10
    else if 'A' <= c <= 'Z' then c as int - 'A' as int + 10
    else 36
  }

  /** The whitespace parseInt skips before the number. */
  predicate IsSpace(c: char)
  {
    c == ' ' || c == '\t' || c == '\n' || c == '\r' || c == '\U{000B}' || c == '\U{000C}'
    || c == '\U{00A0}' || c == '\U{FEFF}' || c == '\U{2028}' || c == '\U{2029}'
  }

  function TrimStart(s: string): (t: string)
    ensures |t| <= |s| && t == s[|s| - |t|..]
    ensures forall i | 0 <= i < |s| - |t| :: IsSpace(s[i])
    ensures |t| > 0 ==> !IsSpace(t[0])
  {
    if |s| > 0 && IsSpace(s[0]) then TrimStart(s[1..]) else s
  }

  /** Length of the longest prefix of s made of digits of the radix. */
  function LeadingDigits(s: string, radix: nat): (n: nat)
    ensures n <= |s|
    ensures forall i | 0 <= i < n :: DigitValue(s[i]) < radix
    ensures n < |s| ==> DigitValue(s[n]) >= radix
  {
    if |s| > 0 && DigitValue(s[0]) < radix then 1 + LeadingDigits(s[1..], radix) else 0
  }

  /** The value of a string of digits, most significant first. */
  function Value(s: string, radix: nat): nat
  {
    if |s| == 0 then 0 else Value(s[..|s| - 1], radix) * radix + DigitValue(s[|s| - 1])
  }

  /** The digits after any sign: a 0x or 0X prefix selects hexadecimal; None when no digit follows. */
  function Unsigned(u: string): Option<nat>
  {
    var hex := |u| >= 2 && u[0] == '0' && (u[1] == 'x' || u[1] == 'X');
    var radix := if hex then 16 else 10;
    var v := if hex then u[2..] else u;
    var n := LeadingDigits(v, radix);
    if n == 0 then None else Some(Value(v[..n], radix))
  }

  /**
   * parseInt with no radix: leading whitespace, an optional sign, then the
   * unsigned part; None is NaN.
   */
  function ParseInt(s: string): (r: Option<int>)
  {
    var t := TrimStart(s);
    if |t| > 0 && (t[0] == '-' || t[0] == '+') then
      match Unsigned(t[1..])
      case None => None
      case Some(m) => Some(if t[0] == '-' then -(m as int) else m as int)
    else
      match Unsigned(t)
      case None => None
      case Some(m) => Some(m)
  }

  lemma {:induction false} NatToStringDigits(n: nat)
    ensures forall i | 0 <= i < |NatToString(n)| :: DigitValue(NatToString(n)[i]) < 10
    ensures NatToString(n)[0] == '0' ==> n == 0 && NatToString(n) == "0"
    decreases n
  {
    if n >= 10 {
      NatToStringDigits(n / 10);
      var s := NatToString(n / 10);
      assert NatToString(n) == s + [DigitChar(n % 10)];
      assert NatToString(n)[0] == s[0];
    }
  }

  lemma {:induction false} NatToStringValue(n: nat)
    ensures Value(NatToString(n), 10) == n
    decreases n
  {
    if n >= 10 {
      NatToStringValue(n / 10);
      var s := NatToString(n);
      assert s[..|s| - 1] == NatToString(n / 10);
    } else {
      var s := NatToString(n);
      assert s[..|s| - 1] == [];
    }
  }

  /** A run of decimal digits not starting with 0x reads back as its value. */
  lemma UnsignedDigits(u: string)
    requires |u| >= 1 && forall i | 0 <= i < |u| :: DigitValue(u[i]) < 10
    requires u[0] == '0' ==> |u| == 1
    ensures Unsigned(u) == Some(Value(u, 10))
  {
    assert LeadingDigits(u, 10) == |u|;
    assert u[..|u|] == u;
  }

  /** Reading back the printed decimal text of a natural number gives the number. */
  lemma ParseNatToString(n: nat)
    ensures ParseInt(NatToString(n)) == Some(n)
  {
    var s := NatToString(n);
    assert DigitValue(s[0]) < 10 by {
      NatToStringDigits(n);
    }
    assert TrimStart(s) == s;
    assert Unsigned(s) == Some(n) by {
      NatToStringDigits(n);
      NatToStringValue(n);
      UnsignedDigits(s);
    }
  }

  // ---------------------------------------------------------------------
  // Control labels

  const MOUSE_PREFIX: string := "mouse"

  /** The names of mouse buttons 0 to 4. */
  function MouseButtonName(b: int): Option<string>
  {
    if b == 0 then Some("鼠标左键")
    else if b == 1 then Some("鼠标中键")
    else if b == 2 then Some("鼠标右键")
    else if b == 3 then Some("鼠标侧键1")
    else if b == 4 then Some("鼠标侧键2")
    else None
  }

  /** A mouse button's label: its name, or the generic label with its number (NaN when unparsed). */
  function MouseLabel(b: Option<int>): (text: string)
    ensures b.Some? && MouseButtonName(b.value).Some? ==> text == MouseButtonName(b.value).value
    ensures !(b.Some? && MouseButtonName(b.value).Some?) ==>
      && |text| > 4 && text[..4] == "鼠标按键"
      && text[4..] == if b.Some? then IntToString(b.value) else "NaN"
  {
    if b.Some? && MouseButtonName(b.value).Some? then MouseButtonName(b.value).value
    else "鼠标按键" + (if b.Some? then IntToString(b.value) else "NaN")
  }

  const WHEEL_UP: string := "wheelUp"
  const WHEEL_DOWN: string := "wheelDown"
  const WHEEL_UP_LABEL: string := "滚轮上滚"
  const WHEEL_DOWN_LABEL: string := "滚轮下滚"

  predicate StartsWithMouse(k: string)
  {
    |k| >= |MOUSE_PREFIX| && k[..|MOUSE_PREFIX|] == MOUSE_PREFIX
  }

  /** The text shown in the settings panel for a stored control value. */
  function GetDisplayValue(k: string): (d: string)
    ensures !StartsWithMouse(k) && k != WHEEL_UP && k != WHEEL_DOWN ==> d == k
    ensures k == WHEEL_UP ==> d == WHEEL_UP_LABEL
    ensures k == WHEEL_DOWN ==> d == WHEEL_DOWN_LABEL
  {
    assert !StartsWithMouse(WHEEL_UP) && !StartsWithMouse(WHEEL_DOWN) by {
      assert WHEEL_UP[0] != MOUSE_PREFIX[0] && WHEEL_DOWN[0] != MOUSE_PREFIX[0];
    }
    if StartsWithMouse(k) then MouseLabel(ParseInt(k[|MOUSE_PREFIX|..]))
    else if k == WHEEL_UP then WHEEL_UP_LABEL
    else if k == WHEEL_DOWN then WHEEL_DOWN_LABEL
    else k
  }

  /** What capturing mouse button b stores, and what it shows at that moment. */
  function CapturedMouse(b: nat): (string, string)
  {
    (MOUSE_PREFIX + NatToString(b), MouseLabel(Some(b)))
  }

  /** What capturing a wheel turn stores, and what it shows at that moment. */
  function CapturedWheel(deltaY: real): (string, string)
  {
    if deltaY > 0.0 then (WHEEL_DOWN, WHEEL_DOWN_LABEL) else (WHEEL_UP, WHEEL_UP_LABEL)
  }

  /** Reopening the settings shows for a captured mouse button exactly what the capture showed. */
  lemma MouseLabelRoundTrip(b: nat)
    ensures GetDisplayValue(CapturedMouse(b).0) == CapturedMouse(b).1
  {
    var k := CapturedMouse(b).0;
    assert k[..|MOUSE_PREFIX|] == MOUSE_PREFIX;
    assert k[|MOUSE_PREFIX|..] == NatToString(b);
    ParseNatToString(b);
  }

  /** The same for a captured wheel turn. */
  lemma WheelLabelRoundTrip(deltaY: real)
    ensures GetDisplayValue(CapturedWheel(deltaY).0) == CapturedWheel(deltaY).1
  {
  }

  /** A stored value that starts with "mouse" but has no number after it is labelled with NaN. */
  lemma UnnumberedMouse(k: string)
    requires StartsWithMouse(k) && ParseInt(k[|MOUSE_PREFIX|..]) == None
    ensures GetDisplayValue(k) == "鼠标按键NaN"
  {
    assert GetDisplayValue(k) == MouseLabel(None);
    assert MouseLabel(None) == "鼠标按键" + "NaN";
  }

  /** Text starting with a character that is no space, sign or decimal digit has no number in it. */
  lemma NoLeadingDigit(u: string)
    requires |u| > 0 && !IsSpace(u[0]) && u[0] != '-' && u[0] != '+' && DigitValue(u[0]) >= 10
    ensures ParseInt(u) == None
  {
    assert TrimStart(u) == u;
    assert LeadingDigits(u, 10) == 0;
  }

  // ---------------------------------------------------------------------
  // Touch buttons

  datatype Rect = Rect(x: real, y: real, width: real, height: real)

  /** A touch at (px, py) presses the button only strictly inside its rectangle. */
  predicate IsPressed(b: Rect, px: real, py: real)
  {
    b.x < px < b.x + b.width && b.y < py < b.y + b.height
  }

  /** The two-player front end's button test, which also accepts a touch on the rectangle's border. */
  predicate IsPressedClosed(b: Rect, px: real, py: real)
  {
    b.x <= px <= b.x + b.width && b.y <= py <= b.y + b.height
  }

  /**
   * A press under the strict test is a press under the closed one; the
   * top-left corner of a button presses it only under the closed test.
   */
  lemma StrictPressIsClosedPress(b: Rect, px: real, py: real)
    ensures IsPressed(b, px, py) ==> IsPressedClosed(b, px, py)
    ensures b.width >= 0.0 && b.height >= 0.0 ==> IsPressedClosed(b, b.x, b.y) && !IsPressed(b, b.x, b.y)
  {
  }

  /** Player i's joystick centre: three per row, 200 apart, starting at (100, 100). */
  function JoystickAt(i: nat): (real, real)
  {
    (((i % 3) * 200 + 100) as real, ((i / 3) * 200 + 100) as real)
  }

  function ShootButton(i: nat): Rect
  {
    var (jx, jy) := JoystickAt(i);
    Rect(jx - 50.0, jy + 100.0, 100.0, 50.0)
  }

  function ShieldButton(i: nat): Rect
  {
    var (jx, jy) := JoystickAt(i);
    Rect(jx - 50.0, jy + 200.0, 100.0, 50.0)
  }

  /**
   * No touch presses two of the touch buttons: a pressed button tells
   * which player and which action it is.
   */
  lemma TouchButtonsDisjoint(i: nat, j: nat, px: real, py: real)
    ensures !(IsPressed(ShootButton(i), px, py) && IsPressed(ShieldButton(j), px, py))
    ensures IsPressed(ShootButton(i), px, py) && IsPressed(ShootButton(j), px, py) ==> i == j
    ensures IsPressed(ShieldButton(i), px, py) && IsPressed(ShieldButton(j), px, py) ==> i == j
  {
    assert i == 3 * (i / 3) + i % 3 && j == 3 * (j / 3) + j % 3;
  }

  /** A touch on a button's edge presses nothing. */
  lemma EdgeNotPressed(b: Rect, py: real)
    ensures !IsPressed(b, b.x, py) && !IsPressed(b, b.x + b.width, py)
  {
  }

  /** From the seventh player on, both touch buttons lie below the 600-pixel canvas. */
  lemma LowerButtonsOffCanvas(i: nat, px: real, py: real)
    requires i >= 6
    ensures IsPressed(ShootButton(i), px, py) ==> py > SCREEN_HEIGHT as real
    ensures IsPressed(ShieldButton(i), px, py) ==> py > SCREEN_HEIGHT as real
  {
  }

  // ---------------------------------------------------------------------
  // The roster

  datatype KeySet = KeySet(aimMode: string, leftKey: string, rightKey: string, shootKey: string, shieldKey: string)

  datatype PlayerSetting = PlayerSetting(id: nat, color: Color, name: string, controls: KeySet)

  const PLAYER_COLORS: seq<Color> := [
    BLUE, RED, Rgb(0, 255, 0), Rgb(255, 255, 0), Rgb(255, 0, 255), Rgb(0, 255, 255),
    Rgb(255, 165, 0), Rgb(128, 0, 128), Rgb(255, 192, 203), Rgb(165, 42, 42), Rgb(0, 128, 128), Rgb(128, 128, 0)]

  const DEFAULT_CONTROLS: seq<KeySet> := [
    KeySet("keys", "a", "d", "w", "s"),
    KeySet("keys", "ArrowLeft", "ArrowRight", " ", "Shift"),
    KeySet("keys", "j", "l", "i", "k"),
    KeySet("keys", "f", "h", "t", "g"),
    KeySet("keys", "q", "e", "r", "w"),
    KeySet("keys", "u", "o", "y", "i"),
    KeySet("keys", "z", "c", "x", "v"),
    KeySet("keys", "n", "m", "b", "v"),
    KeySet("keys", "1", "3", "2", "4"),
    KeySet("keys", "7", "9", "8", "0")]

  const MAX_PLAYERS: nat := 12

  /** The display name of player slot i: 玩家 followed by the slot number i + 1. */
  function SlotName(i: nat): string
  {
    "玩家" + NatToString(i + 1)
  }

  /**
   * The loop filling the twelve player slots: slot i gets number i + 1, its
   * name, and the colour and key set at i in their tables, cycling.
   */
  method InitializePlayers() returns (settings: seq<PlayerSetting>)
    ensures |settings| == MAX_PLAYERS
    ensures forall i | 0 <= i < MAX_PLAYERS ::
      && settings[i].id == i + 1 && settings[i].name == SlotName(i)
      && settings[i].color == PLAYER_COLORS[i % |PLAYER_COLORS|]
      && settings[i].controls == DEFAULT_CONTROLS[i % |DEFAULT_CONTROLS|]
  {
    settings := [];
    var i := 0;
    while i < MAX_PLAYERS
      invariant 0 <= i <= MAX_PLAYERS && |settings| == i
      invariant forall j | 0 <= j < i ::
        && settings[j].id == j + 1 && settings[j].name == SlotName(j)
        && settings[j].color == PLAYER_COLORS[j % |PLAYER_COLORS|]
        && settings[j].controls == DEFAULT_CONTROLS[j % |DEFAULT_CONTROLS|]
    {
      var playerIndex := i % |DEFAULT_CONTROLS|;
      settings := settings + [PlayerSetting(i + 1, PLAYER_COLORS[i % |PLAYER_COLORS|], SlotName(i), DEFAULT_CONTROLS[playerIndex])];
      i := i + 1;
    }
  }

  /**
   * The colour table has twelve different colours; only the first two are
   * the blue and red that territory walls are hostile to.
   */
  lemma ColoursDistinct(i: nat, j: nat)
    requires i < j < |PLAYER_COLORS|
    ensures PLAYER_COLORS[i] != PLAYER_COLORS[j]
    ensures PLAYER_COLORS[0] == BLUE && PLAYER_COLORS[1] == RED
    ensures 2 <= i ==> PLAYER_COLORS[i] != BLUE && PLAYER_COLORS[i] != RED
  {
  }

  /** Slot names differ between slots. */
  lemma SlotNamesDistinct(i: nat, j: nat)
    requires i != j
    ensures SlotName(i) != SlotName(j)
  {
    if SlotName(i) == SlotName(j) {
      var p := "玩家";
      assert NatToString(i + 1) == SlotName(i)[|p|..];
      assert NatToString(j + 1) == SlotName(j)[|p|..];
      NatToStringInjective(i + 1, j + 1);
    }
  }

  /** Different numbers print differently, so the slot names are all different. */
  lemma {:induction false} NatToStringInjective(m: nat, n: nat)
    requires NatToString(m) == NatToString(n)
    ensures m == n
  {
    NatToStringValue(m);
    NatToStringValue(n);
  }
}
