/** Entrance-direction classes of the service cards and the project grid:
    pure functions of the viewport width (`window.innerWidth`) and the
    card's position. */
module Stagger {
  import opened ModArith

  /** `getDeviceType` of the service cards. */
  datatype DeviceType = Laptop | Tablet | Mobile

  function GetDeviceType(width: int): (d: DeviceType)
    ensures d == Laptop <==> width >= 1024
    ensures d == Mobile <==> width < 768
  {
    if width >= 1024 then Laptop else if width >= 768 then Tablet else Mobile
  }

  /** The classes `applyEntranceClasses` gives one card: `from-left` or
      `from-right`, and whether it carries `delay-1s`. */
  datatype Entrance = Entrance(fromLeft: bool, delayed: bool)

  /** `applyEntranceClasses` for the card at zero-based position `idx`; the
      source tests the one-based `i = idx + 1` against fixed lists. */
  function EntranceClasses(width: int, idx: nat): Entrance {
    var i := idx + 1;
    match GetDeviceType(width)
    case Laptop => Entrance(i in [1, 2, 5, 6], i in [1, 4, 5, 8])
    case Tablet => Entrance(i in [1, 2, 5, 6], false)
    case Mobile => Entrance(i in [1, 3, 5, 7], false)
  }

  /** The lists describe eight cards laid out in pairs (wide screens) or
      alternately (narrow screens); every card after the eighth comes from
      the right without delay, and only laptops delay. */
  lemma EntrancePattern(width: int, idx: nat)
    ensures var e := EntranceClasses(width, idx);
            && (idx >= 8 ==> !e.fromLeft && !e.delayed)
            && (e.delayed ==> width >= 1024)
            && (idx < 8 && width >= 768 ==> (e.fromLeft <==> idx % 4 < 2))
            && (idx < 8 && width >= 1024 ==> (e.delayed <==> idx % 4 == 0 || idx % 4 == 3))
            && (idx < 8 && width < 768 ==> (e.fromLeft <==> idx % 2 == 0))
  {
  }

  /** `getDevice` of the project grid: its breakpoints are inclusive upper
      bounds, unlike the service cards' inclusive lower bounds. */
  datatype GridDevice = MobileSmall | GridMobile | GridTablet | GridLaptop

  function GetDevice(width: int): (d: GridDevice)
    ensures d == GridLaptop <==> width > 1024
    ensures d == MobileSmall <==> width <= 360
    ensures d == GridTablet <==> 768 < width <= 1024
  {
    if width <= 360 then MobileSmall
    else if width <= 768 then GridMobile
    else if width <= 1024 then GridTablet
    else GridLaptop
  }

  datatype Direction = FromLeft | FromBottom | FromRight

  /** `applyStaggerClasses` for the card at position `idx`. */
  function StaggerClass(width: int, idx: nat): Direction {
    match GetDevice(width)
    case GridLaptop => (var pos := idx % 3; if pos == 0 then FromLeft else if pos == 1 then FromBottom else FromRight)
    case GridTablet => if idx % 2 == 0 then FromLeft else FromRight
    case _ => if idx % 2 == 0 then FromLeft else FromRight
  }

  /** Wide screens cycle left, bottom, right through every row of three,
      starting from the left; narrower screens alternate left and right,
      even positions from the left, and never use bottom. The pattern
      repeats every six cards on every screen. */
  lemma StaggerPattern(width: int, idx: nat)
    ensures width > 1024 ==> StaggerClass(width, idx) == [FromLeft, FromBottom, FromRight][idx % 3]
    ensures width <= 1024 ==> (StaggerClass(width, idx) == FromLeft <==> idx % 2 == 0)
    ensures width > 1024 ==>
              {StaggerClass(width, idx), StaggerClass(width, idx + 1), StaggerClass(width, idx + 2)}
              == {FromLeft, FromBottom, FromRight}
    ensures width <= 1024 ==>
              StaggerClass(width, idx) != FromBottom
              && StaggerClass(width, idx + 1) != StaggerClass(width, idx)
    ensures StaggerClass(width, idx + 6) == StaggerClass(width, idx)
  {
    var q3, q2 := idx / 3, idx / 2;
    assert idx == 3 * q3 + idx % 3 && idx == 2 * q2 + idx % 2;
    ModUnique(idx + 1, 3, if idx % 3 == 2 then q3 + 1 else q3, (idx + 1) - 3 * (if idx % 3 == 2 then q3 + 1 else q3));
    ModUnique(idx + 2, 3, if idx % 3 == 0 then q3 else q3 + 1, (idx + 2) - 3 * (if idx % 3 == 0 then q3 else q3 + 1));
    ModUnique(idx + 1, 2, if idx % 2 == 1 then q2 + 1 else q2, (idx + 1) - 2 * (if idx % 2 == 1 then q2 + 1 else q2));
    ModUnique(idx + 6, 3, q3 + 2, idx % 3);
    ModUnique(idx + 6, 2, q2 + 3, idx % 2);
  }

  /** How wide each classifier thinks the screen is: 2 for laptop, 1 for
      tablet, 0 for any phone. */
  function CardTier(d: DeviceType): nat {
    match d
    case Laptop => 2
    case Tablet => 1
    case Mobile => 0
  }

  function GridTier(d: GridDevice): nat {
    match d
    case GridLaptop => 2
    case GridTablet => 1
    case _ => 0
  }

  /** The two classifiers disagree on exactly two widths: at 768 the cards
      use the tablet layout and the grid the phone one, and at 1024 the
      cards use the laptop layout and the grid the tablet one. */
  lemma BreakpointsDisagree(width: int)
    ensures CardTier(GetDeviceType(width)) != GridTier(GetDevice(width)) <==> width == 768 || width == 1024
    ensures width == 768 || width == 1024 ==>
              CardTier(GetDeviceType(width)) == GridTier(GetDevice(width)) + 1
  {
  }
}
