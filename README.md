# Countdown of the recruitment landing page

The landing page (`app/page.tsx`, component `Home`) shows a countdown to the
application deadline. Once a second, `updateCountdown` takes the signed
millisecond distance `targetDate - now` and splits it into whole days, hours,
minutes and seconds. It uses `Math.floor` and JavaScript's `%` to do so, and
clamps each field at zero with `Math.max(0, …)`. The result overwrites the
component's `timeLeft` record. A second piece of state, `isMenuOpen`, is
flipped by the mobile menu button. Each countdown field is shown through a
`v < 0 ? 0 : v` clamp.

The project has two modules:

- `Countdown` (countdown.dfy) holds the pure arithmetic. `JsRem` is
  JavaScript's truncating remainder, whose result takes the sign of the
  dividend. `FloorDiv` is `Math.floor(a / b)` for a positive divisor, and
  `Max0` is `Math.max(0, x)`. `Decompose` is the field computation, and
  `Displayed` is the display clamp. The module also proves lemmas about them.
  `TotalSeconds` recombines a reading, and `WellFormed` states the
  field ranges.
- `HomePage` (home.dfy) holds the class `Home`. It has the fields `timeLeft`
  and `isMenuOpen`, and the deadline as a constant. `Tick(now)` models one
  call of `updateCountdown` with the clock reading passed in. `ToggleMenu`
  models the menu button, and `Cells` models the four rendered cells.

The countdown state is described as derived from `max(0, target - now)`,
but the code clamps each field on its own. `DecomposeClampFirst` proves that
the two agree, because `%` truncates. With a Euclidean remainder they would
not agree: a distance of -1 ms would show 23 hours. A possible non-monotonic
reading at expiry was also raised as a concern. `DecomposeMonotone` proves
that the total shown never grows as the clock advances.

## Model

| member | source | states |
|---|---|---|
| Countdown.JsRem | app/page.tsx:45-47 | the remainder has the sign of the dividend, its magnitude is below the divisor, and dividend minus remainder is a multiple of the divisor |
| Countdown.FloorDiv | app/page.tsx:44-47 | `Math.floor(a / b)` is the largest q with q*b <= a |
| Countdown.Max0 | app/page.tsx:44-47 | `Math.max(0, x)` is non-negative, at least x, and is either 0 or x |
| Countdown.Decompose | app/page.tsx:41-48 | every reading is well formed: all fields >= 0, hours <= 23, minutes <= 59, seconds <= 59, for any distance, negative included |
| Countdown.Displayed | app/page.tsx:134 | the displayed value is never negative |
| Countdown.DecomposeBySeconds | app/page.tsx:41-47 | before the deadline the fields are s/86400, (s%86400)/3600, (s%3600)/60 and s%60, where s is the number of whole seconds left |
| Countdown.DecomposeRecombines | app/page.tsx:41-47 | for distance >= 0: days*86400 + hours*3600 + minutes*60 + seconds == floor(distance/1000), and days == floor(distance/86400000) |
| Countdown.DecomposeExpired | app/page.tsx:41-47 | for distance <= 0, i.e. now >= target, all four fields are 0 |
| Countdown.DecomposeClampFirst | app/page.tsx:44-47 | clamping each field gives the same reading as clamping the distance at zero first |
| Countdown.DecomposeInverts | app/page.tsx:44-47 | Decompose inverts TotalSeconds: each well-formed reading comes back from every distance in the second it stands for |
| Countdown.DecomposeMonotone | app/page.tsx:39-48 | a smaller distance (a later clock reading) never shows more total seconds |
| Countdown.DisplayedIsIdentity | app/page.tsx:134 | the display clamp is the identity on every field a tick produces |
| Countdown.OneDayBefore | app/page.tsx:44-47 | exactly one day before the deadline the reading is 1 day, 0 hours, 0 minutes, 0 seconds |
| Countdown.JsRemEuclidean | app/page.tsx:45-47 | the truncating remainder equals the Euclidean one exactly when the dividend is non-negative or divisible |
| HomePage.Home.constructor | app/page.tsx:33-34 | initially `timeLeft` is all zeros and `isMenuOpen` is false |
| HomePage.Home.Tick | app/page.tsx:39-48 | overwrites `timeLeft` with Decompose(target - now), leaves `isMenuOpen` alone, is all zeros once now >= target, and before that recombines to the whole seconds left |
| HomePage.Home.ToggleMenu | app/page.tsx:88 | flips `isMenuOpen` and leaves `timeLeft` unchanged |
| HomePage.Home.Cells | app/page.tsx:125-134 | the four cells show days, hours, minutes and seconds in that order, unchanged by the display clamp |
| HomePage.TickIdempotent | app/page.tsx:39-48 | two ticks at the same clock reading leave the same state as one |
| HomePage.ToggleMenuTwice | app/page.tsx:88 | pressing the menu button twice restores the flag and leaves the countdown unchanged |

## Left out

- Countdown.JsRem: requires a positive divisor. The page only divides by positive constants, while JavaScript's `%` also accepts negative divisors.
- Numbers are unbounded integers. Floating point, and the negative zero that `%` can return, are not modelled. `Math.floor(a / b)` is exact floor division only for integers below about 2^52, and millisecond timestamps are far below that.
- The deadline is an opaque integer constant. Parsing `'2025-03-18T23:59:59'` with `new Date` depends on the local time zone.
- The clock (`Date.now()`) is the `now` parameter of `Tick`.
- `setInterval` / `clearInterval` scheduling and the React effect lifecycle are not modelled. This includes the first call at mount and the cancellation at teardown. A tick is an explicit `Tick(now)` call.
- The GSAP typing animation and the framer-motion flip variants are not modelled. They are foreign animation libraries, and they use floating-point durations.
- Audio and video playback and `window.open` to the application form are not modelled. They are browser side effects.
- Font loading, plugin registration, and all JSX markup (navigation, hero, FAQ accordions, footer) are not modelled. They are static presentation with no behaviour to state.
