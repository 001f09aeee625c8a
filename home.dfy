/** The stateful part of the `Home` page component: the countdown record
    that every tick overwrites and the flag of the mobile menu. */
module HomePage {
  import opened Countdown

  class Home {
    /** The deadline as a millisecond timestamp, fixed when the page mounts. */
    const target: int
    var timeLeft: TimeLeft
    var isMenuOpen: bool

    /** The countdown record always holds a well-formed reading. */
    predicate Valid()
      reads this
    {
      WellFormed(timeLeft)
    }

    /** The page as first rendered: all fields zero, menu closed. */
    constructor (target: int)
      ensures this.target == target
      ensures timeLeft == Zero && !isMenuOpen
      ensures Valid()
    {
      this.target := target;
      timeLeft := Zero;
      isMenuOpen := false;
    }

    /** `updateCountdown` at clock reading `now`: overwrites all four fields
        from the distance to the deadline and touches nothing else. */
    method Tick(now: int)
      modifies this`timeLeft
      ensures timeLeft == Decompose(target - now)
      ensures Valid()
      ensures now >= target ==> timeLeft == Zero
      ensures now <= target ==> TotalSeconds(timeLeft) == (target - now) / MsPerSecond
      ensures isMenuOpen == old(isMenuOpen)
    {
      if now >= target {
        DecomposeExpired(target - now);
      } else {
        DecomposeRecombines(target - now);
      }
      timeLeft := Decompose(target - now);
    }

    /** The menu button: flips the flag and leaves the countdown alone. */
    method ToggleMenu()
      modifies this`isMenuOpen
      ensures isMenuOpen == !old(isMenuOpen)
      ensures timeLeft == old(timeLeft)
    {
      isMenuOpen := !isMenuOpen;
    }

    /** The four countdown cells in display order, each through the
        `v < 0 ? 0 : v` clamp; on a valid state the clamp changes nothing. */
    method Cells() returns (cells: seq<int>)
      requires Valid()
      ensures cells == [timeLeft.days, timeLeft.hours, timeLeft.minutes, timeLeft.seconds]
    {
      cells := [];
      var units := [timeLeft.days, timeLeft.hours, timeLeft.minutes, timeLeft.seconds];
      for i := 0 to |units|
        invariant cells == units[..i]
      {
        cells := cells + [Displayed(units[i])];
      }
    }
  }

  /** Two ticks at the same clock reading leave the state one tick leaves. */
  method TickIdempotent(home: Home, now: int) returns (afterOne: TimeLeft)
    modifies home
    ensures home.timeLeft == afterOne == Decompose(home.target - now)
    ensures home.isMenuOpen == old(home.isMenuOpen)
  {
    home.Tick(now);
    afterOne := home.timeLeft;
    home.Tick(now);
  }

  /** Pressing the menu button twice restores the flag and the countdown. */
  method ToggleMenuTwice(home: Home)
    modifies home
    ensures home.isMenuOpen == old(home.isMenuOpen)
    ensures home.timeLeft == old(home.timeLeft)
  {
    home.ToggleMenu();
    home.ToggleMenu();
  }
}
