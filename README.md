# Portfolio script logic, modelled in Dafny

A model of the parts of a portfolio website's client-side script
(`js/scripts.js`) that have behaviour worth stating exactly:

- **Theme preference** (module `Theme`, `theme.dfy`). The theme is `light` or
  `dark`. It is resolved from the stored choice in `localStorage`
  (`user-theme-preference`), then the `prefers-color-scheme: dark` media
  signal, then `light`. It is applied to the `data-theme` attribute and the
  `themeIcon` class, flipped and stored by the toggle button, and re-applied
  on a system colour-scheme change unless a value is stored. The page state
  is the value `Env`; the handlers are the methods of the class
  `ThemeController`, each specified by a transition function on `Env`
  (`Applied`, `Toggled`, `Initialized`, `IconRefreshed`, `SystemChanged`).
- **Thousands separators** (module `NumberFormat`, `number_format.dfy`).
  `formatNumber` inserts commas into the decimal representation of a count.
  It is modelled by a recursive grouping from the right, `Group`, applied to
  `Digits(n)`. It is proved equal to `CommaRule`, a position-by-position
  reference stating which positions the regular expression
  `\B(?=(\d{3})+(?!\d))` selects. No regular expression engine is modelled.
- **Active navigation link** (module `Nav`, `nav.dfy`). `updateActiveNavLink`
  updates an array of links in place. The result is specified by
  `Highlighted`.
- **View counter** (module `ViewCounter`, `view_counter.dfy`). This is the page-load handler that
  sends a "hit" (increment) or a "get" request to the counter service. Which
  one depends on the `sessionStorage` marker `hasVisited`. There is one
  fallback request and a `?` sentinel. Each request's result is a `Response`
  parameter: `Fail`, `Value(n)` or `NoValue`. The handler is
  `ViewCounterClient.OnContentLoaded`, specified by `PageLoad`. Successive loads
  in one browser session are `RunSession`.

JavaScript truthiness is modelled explicitly (`Wrappers.Truthy`). A stored or
attribute value of `null` or `""` is false. So `attr || getTheme()` and
`!localStorage.getItem(...)` treat an empty string like an absent one.

Behaviour of the code worth noting:

- In the first-visit branch, a hit that answers without a `value` does nothing
  more. No get is sent and the display is unchanged. Only a rejected hit falls
  back to a get.
- In the returning-visit branch, the inner hit (sent when the get has no
  `value`) has no error handler. If it fails, the display keeps its previous
  text rather than showing `?`.
- In the returning-visit branch, a get without a value triggers a hit. So the
  remote counter can be incremented more than once per session, although the
  comment at js/scripts.js:261 speaks of preventing multiple increments per
  session (`SessionCanHitTwice`). What holds is that the session marker is set
  at most once per session (`CountedAtMostOnce`).
- The system-change handler tests truthiness of the stored string. Any
  non-empty stored value blocks it, including one that `getTheme` ignores,
  such as `"blue"`, although the comment at js/scripts.js:71 speaks of a
  preference the user has set manually.

## Model

| member | source | states |
|---|---|---|
| Theme.GetTheme | js/scripts.js:9-19 | the result is always light or dark; a stored `light`/`dark` is returned as is; otherwise the result is dark exactly when `matchMedia` exists and reports dark |
| Theme.StoredChoiceWins | js/scripts.js:10-13 | a valid stored theme is the result whatever the system signal |
| Theme.SystemDecidesWithoutChoice | js/scripts.js:14-18 | without a valid stored value (absent, empty or invalid string) the result depends only on the signal: dark iff `matchMedia` exists and matches, light without `matchMedia` |
| Theme.IconFor | js/scripts.js:31-35 | the icon is one of two classes, and it is the sun exactly for dark |
| Theme.ApplyEffect | js/scripts.js:22-37 | applying sets the attribute to the theme, sets the icon (sun iff dark) when the icon element exists, and leaves storage and the media signal unchanged |
| Theme.Flip | js/scripts.js:42 | the new theme is light or dark, and light exactly when the current one is dark |
| Theme.ToggleFlipsAndPersists | js/scripts.js:40-45 | a toggle stores and applies the flip of the current theme; after it storage equals the attribute and the page is consistent |
| Theme.ToggleFromAttribute | js/scripts.js:41-44 | with a non-empty attribute the toggle flips the attribute, ignoring storage and the system |
| Theme.ToggleFromResolved | js/scripts.js:41 | with an absent or empty attribute the toggle flips the resolved theme |
| Theme.ToggleTwiceRestores | js/scripts.js:40-45 | two toggles from light or dark restore the attribute, and storage then equals it |
| Theme.InitEstablishesConsistency | js/scripts.js:48-51 | initialisation shows the resolved theme with a matching icon and does not write storage |
| Theme.SystemChangeApplied | js/scripts.js:68-77 | with the listener present and no truthy stored value, a change applies dark iff it matches, the same theme resolution would give |
| Theme.SystemChangeBlocked | js/scripts.js:68-77 | a truthy stored value, or no `matchMedia`, leaves the page unchanged |
| Theme.SystemChangePreserves | js/scripts.js:70-76 | a system change never writes storage and keeps a consistent page consistent |
| Theme.UserChoiceSticks | js/scripts.js:71-72 | once a truthy value is stored, no run of system changes changes attribute, icon or storage |
| Theme.ToggleThenSystemChanges | js/scripts.js:40-45 | after a toggle, the toggled theme survives every later system change |
| Theme.IconRefreshIdle | js/scripts.js:62-64 | the DOMContentLoaded icon refresh changes nothing on a consistent page |
| Theme.IconRefreshRepairs | js/scripts.js:62-64 | the refresh sets a present icon to that of the current theme (a truthy attribute, else `getTheme`), leaves attribute and storage, and makes a page whose attribute holds a theme consistent |
| Theme.LateIconRepaired | js/scripts.js:52-64 | `initTheme` leaves a missing icon alone; an icon element present by the time the DOM is ready, whatever its class, is made consistent by the refresh |
| Theme.ThemeController.constructor | js/scripts.js:5-6 | the page state before the script runs |
| Theme.ThemeController.ResolveTheme | js/scripts.js:9-19 | returns `GetTheme` of the current storage and signal |
| Theme.ThemeController.UpdateThemeIcon | js/scripts.js:28-37 | the new state is `IconUpdated` of the old |
| Theme.ThemeController.ApplyTheme | js/scripts.js:22-25 | the new state is `Applied` of the old; storage unchanged |
| Theme.ThemeController.InitTheme | js/scripts.js:48-54 | the new state is `Initialized` of the old and is consistent |
| Theme.ThemeController.ToggleTheme | js/scripts.js:40-45 | the new state is `Toggled` of the old; storage equals the attribute and the page is consistent |
| Theme.ThemeController.RefreshIcon | js/scripts.js:57-65 | the new state is `IconRefreshed` of the old |
| Theme.ThemeController.OnSystemChange | js/scripts.js:68-77 | the new state is `SystemChanged` of the old; storage unchanged |
| NumberFormat.Digits | js/scripts.js:244 | `toString` of a natural number: a non-empty digit string without leading zero |
| NumberFormat.DigitsRoundTrip | js/scripts.js:244 | the digit string denotes the number |
| NumberFormat.DigitsLength | js/scripts.js:244 | at most three digits exactly below 1000 |
| NumberFormat.GroupStrip | js/scripts.js:244 | grouping only inserts commas: without commas the output is the input without commas |
| NumberFormat.GroupShape | js/scripts.js:244 | grouping yields the comma-every-three shape with (len - 1) / 3 commas |
| NumberFormat.WellGroupedStep | js/scripts.js:244 | a well-grouped string followed by a comma and three non-comma characters is well grouped |
| NumberFormat.CommaRuleShort | js/scripts.js:244 | the rule inserts no comma into a string of at most three digits, counting from the first |
| NumberFormat.CommaRuleAppendGroup | js/scripts.js:244 | appending three digits makes the rule put one comma in front of them and changes nothing before |
| NumberFormat.GroupMatchesCommaRule | js/scripts.js:244 | grouping puts commas exactly where the regular expression's rule does |
| NumberFormat.WellGroupedCommaNeighbours | js/scripts.js:244 | in a well-grouped string every comma is strictly inside and has a non-comma on each side |
| NumberFormat.CharsOfGroup | js/scripts.js:244 | every character of a grouped digit string is a comma or a digit |
| NumberFormat.FormatNumberDigits | js/scripts.js:243-245 | removing the commas from `formatNumber(n)` yields the decimal representation of n, which reads back as n |
| NumberFormat.FormatNumberSmall | js/scripts.js:243-245 | the output equals plain `toString` exactly when n < 1000 |
| NumberFormat.FormatNumberShape | js/scripts.js:243-245 | first group of one to three digits, then groups of exactly three; no leading or trailing comma; the length |
| NumberFormat.FormatNumberCommasBetweenDigits | js/scripts.js:243-245 | every comma has a digit on each side |
| NumberFormat.FormatNumberMatchesRegex | js/scripts.js:244 | the output has a comma before digit position p iff p > 0 and the digits from p on are a positive multiple of three |
| Nav.Highlighted | js/scripts.js:104-111 | the update keeps the number of links |
| Nav.HighlightedAt | js/scripts.js:105-110 | every link keeps its section and is active iff its section equals the id |
| Nav.HighlightedForgetsActive | js/scripts.js:106 | the result depends only on the sections, not on which link was active before |
| Nav.HighlightedIdempotent | js/scripts.js:104-111 | updating twice with the same id equals updating once |
| Nav.AtMostOneActive | js/scripts.js:104-111 | with distinct sections no two links are active |
| Nav.UpdateActiveNavLink | js/scripts.js:104-111 | the array after the loop is `Highlighted` of the array before |
| ViewCounter.NoElementNoRequest | js/scripts.js:234-235 | without the `#viewCount` element nothing is sent or changed |
| ViewCounter.FirstVisitCounted | js/scripts.js:264-273 | no marker and a hit with a value: the formatted value is shown, the marker set, one hit sent |
| ViewCounter.FirstVisitNotCounted | js/scripts.js:264-287 | no marker and no hit value: the marker stays unset; a failed hit leads to exactly one get, whose value is shown, `?` if it fails, nothing if it has no value; a hit without value does nothing more |
| ViewCounter.ReturningVisit | js/scripts.js:288-310 | marker present: the marker is unchanged; a hit is sent iff the get has no value; a failed get shows `?`; a failed or value-less inner hit leaves the display |
| ViewCounter.PageLoadRequests | js/scripts.js:262-310 | each load appends its requests to the log: none without the element, otherwise at most two and at most one hit |
| ViewCounter.PageLoadMarker | js/scripts.js:262-310 | the marker is never cleared, and it changes only when the element exists and a hit answered with a value, which is then the only request |
| ViewCounter.PageLoadDisplay | js/scripts.js:262-310 | the display is unchanged, `?`, or the formatted value of one of the responses |
| ViewCounter.AllFailuresShowUnknown | js/scripts.js:274-286 | when every request fails the display is `?` and the marker is not set |
| ViewCounter.MarkerStaysSet | js/scripts.js:262-264 | once set, the marker stays for the whole session and is not set again |
| ViewCounter.CountedAtMostOnce | js/scripts.js:261-273 | within a session, at most one load sets the marker |
| ViewCounter.SessionCanHitTwice | js/scripts.js:262-310 | a counted first load followed by a returning load whose get has no value sends a hit, a get and a second hit |
| ViewCounter.ViewCounterClient.constructor | js/scripts.js:233-262 | the session marker and the element's text before the handler runs |
| ViewCounter.ViewCounterClient.UpdateViewCount | js/scripts.js:248-259 | the text becomes the formatted count; marker and requests unchanged |
| ViewCounter.ViewCounterClient.Request | js/scripts.js:266 | a request is appended to the log of requests sent |
| ViewCounter.ViewCounterClient.OnContentLoaded | js/scripts.js:233-311 | the new state is `PageLoad` of the old with the given responses |

## Left out

- DOM querying, event-listener registration and the `DOMContentLoaded`/`load` hooks are host plumbing. Only the handler bodies are modelled, as methods on an abstract state.
- `fetch`, JSON parsing and the asynchronous promise chains are network I/O and event-loop concurrency. Each request is a `Response` parameter and the handler runs sequentially. A request that never settles is not modelled.
- Interleaving of handlers on the event loop is not modelled: all of a page load's requests complete before the next event.
- Response values that are not natural numbers (`null`, strings, negative numbers, fractions) are not modelled. A `null` value would make `formatNumber` throw inside the promise chain, which the model does not capture.
- `NumberFormat.Digits`: models `toString` for every natural number. Above 2^53 JavaScript numbers lose precision, and from 10^21 on `toString` uses exponential notation. Neither is modelled.
- `updateViewCount`'s opacity/scale animation and its `setTimeout` are presentation and timers. Only the text is set.
- Smooth-scroll offsets, parallax, ripple geometry, card and resume fade-ins with their stagger delays, skill hover transforms, and the gradient-angle animation are floating-point layout math, styling and timers.
- The IntersectionObserver setup is not modelled; only the `updateActiveNavLink` call it makes is.
- Console logging and the branding messages are output only.
- Classes of a nav link other than `active` are not modelled. The update touches only `active`.
- `localStorage.getItem`/`setItem` and `sessionStorage.getItem`/`setItem` are modelled as never throwing. Blocked storage or a full quota makes them throw a `SecurityError` or `QuotaExceededError`: at js/scripts.js:10 during the call at line 54 it would abort the whole script before any listener is registered; at line 43 it would leave the toggled theme unapplied; at line 271 it would reach the `.catch` at line 274 and send a get after the count was shown, with the marker still unset.
- Theme.ToggleFlipsAndPersists: storage equalling the attribute after a toggle rests on `setItem` never throwing.
- ViewCounter.FirstVisitCounted: exactly one request and a set marker rest on `sessionStorage.setItem` never throwing.
- The icon element appearing in the document between the call at js/scripts.js:54 and `DOMContentLoaded` is not an operation of the model. `Theme.LateIconRepaired` expresses it as `e.(hasIcon := true, icon := icon)`.
