# Wedding website: a Dafny model of its page logic

The site is a static wedding page driven by one script, `js/app.js`, with a reduced variant, `js/test.js`. On load the page reads `config.json`, optionally merges a customisation stored in the browser, and then fills the page from the resulting configuration. It also wires up interactive parts: a countdown to the ceremony, a lightbox and carousels for photos, an FAQ accordion, a navigation bar with a mobile menu and a scroll spy, an RSVP section with a deadline and an embedded form, a flip-book modal, a responsive hero image and an optional falling-petals animation.

This project models the deterministic rules inside that script. The browser is replaced by explicit inputs:

- instants are integer milliseconds;
- the outcome of `fetch` and of `JSON.parse` on the stored customisation are values;
- what the DOM holds (flags, attribute values, texts) becomes fields of classes.

Methods on those fields have `modifies` clauses. Each method is tied to a specification function, and the lemmas state what the site promises.

## Layout

| file | module | what it holds |
|---|---|---|
| `js_value.dfy` | `JsValue` | JSON values, `undefined` as `None`, truthiness, `\|\|`, optional chaining, own entries for object spread, template-literal stringification, decimal printing |
| `arithmetic.dfy` | `Arithmetic` | uniqueness of Euclidean quotient and remainder |
| `page.dfy` | `Page` | the shared document state: body scroll lock and the screen-reader announcement text |
| `config_loader.dfy` | `ConfigLoader` | `loadConfig`: fetch, stored override merge, five-field fallback |
| `countdown.dfy` | `Countdown` | `updateCountdown` |
| `lightbox.dfy` | `Lightbox` | the lightbox session (`lightboxImages`, `currentLightboxIndex`, open flag) |
| `carousel.dfy` | `Carousel` | carousel keyboard rule, dots, drag flag, slide click |
| `faq.dfy` | `Faq` | the exclusive-expand accordion |
| `navigation.dfy` | `Navigation` | mobile menu, scroll spy, scroll thresholds, link click |
| `rsvp.dfy` | `Rsvp` | RSVP deadline, trigger dispatch, RSVP and flip-book modals, focus trap |
| `hero.dfy` | `Hero` | responsive hero image choice and preload fallback |
| `content.dfy` | `Content` | `updateElement`, the calendar file name, logo size variables |
| `petals.dfy` | `Petals` | petal enabling, section visibility, per-frame activation and throttle |
| `test_script.dfy` | `TestScript` | `js/test.js`: loader, minute countdown, hero choice, content filler |

The lightbox, the navigation bar, the carousels (through their lightbox) and the RSVP modal share one `Page.Document`. Two of them write `document.body.style.overflow`: the mobile menu and the lightbox. So, for example, closing the lightbox also releases a scroll lock that the mobile menu set. Three of them announce through the same `#sr-announcements` element: the lightbox, the carousels and the RSVP modal. The flip-book modal touches neither and has no `Page.Document`.

JavaScript semantics that matter for the configuration are written out, not approximated away:

- `a || b` picks the first truthy operand, and `undefined`, `null`, `false`, `0` and `""` are falsy.
- `x?.k` on `undefined` or `null` is `undefined`.
- `{...a, ...b}` copies index keys from arrays and strings, and nothing from numbers, booleans or `null`.
- `${v}` prints `undefined` as "undefined" and arrays comma-joined.

## Model

| member | source | states |
|---|---|---|
| `JsValue.Or` | js/app.js:1531-1545 | `a \|\| b` is `a` when `a` is truthy and `b` otherwise, and it is truthy iff either operand is |
| `JsValue.Member` | js/app.js:869-870 | `v?.k` is `undefined` on `undefined` or `null`; on an object it is defined iff `k` is an own key, and then it is that key's value |
| `JsValue.NatString` | js/app.js:469 | the printed index is a non-empty string of decimal digits, with two or more digits iff the number is at least 10 |
| `JsValue.NatStringInjective` | js/app.js:151 | different numbers print differently, so the index keys of a spread array are distinct |
| `JsValue.OwnEntries` | js/app.js:151 | the properties spread copies: all fields of an object, index keys `"0".."n-1"` of an array or string with the element (or one-character string) at each, nothing for null, booleans and numbers |
| `JsValue.IndexEntries` | js/app.js:151 | the index-keyed map of a sequence has exactly the keys `"0".."n-1"`, each mapped to its element |
| `JsValue.ToJsString` | js/app.js:1552 | template-literal text: `undefined` prints as "undefined" and a string prints as itself |
| `Page.Document.constructor` | js/app.js:1616-1624 | the page starts unlocked with no announcement |
| `Page.Document.Announce` | js/app.js:1616-1620 | the announcement text becomes the message and the scroll lock is untouched |
| `ConfigLoader.Fallback` | js/app.js:156-162 | the fallback is an object with exactly names, dateISO, locationShort, tagline and heroImage, and heroImage is "images/hero.jpg" |
| `ConfigLoader.Spread` | js/app.js:151 | the merge has the union of both own-key sets; override keys carry the override's value and all other keys the base's |
| `ConfigLoader.Load` | js/app.js:141-164 | any failure of the fetch, the status, the body or a non-empty stored override gives the fallback; otherwise the fetched body, with a non-empty stored override spread over it |
| `ConfigLoader.FailureGivesFallback` | js/app.js:141-164 | a rejected fetch, a non-OK status, an unparsable body or an unparsable stored override each give exactly the fallback |
| `ConfigLoader.NoOverrideGivesFetched` | js/app.js:145-149 | with no stored override, or an empty one, the fetched configuration is used unchanged |
| `ConfigLoader.OverrideWinsPerKey` | js/app.js:148-152 | with a parsed override, every top-level override key replaces the fetched value, every other fetched key is kept, and no other key appears |
| `ConfigLoader.ObjectsMergeAsMapUnion` | js/app.js:151 | two objects merge as a map union in which the override wins |
| `ConfigLoader.SpreadIdempotent` | js/app.js:151 | merging the same override twice gives the same result as merging it once |
| `ConfigLoader.ConfigStore.constructor` | js/app.js:7 | `config` starts as the empty object |
| `ConfigLoader.ConfigStore.LoadConfig` | js/app.js:141-164 | the step-by-step assignments leave `config` equal to the loader function for the same fetch and stored override |
| `Countdown.Decompose` | js/app.js:294-308 | a reading is produced iff the difference is positive; then hours < 24, minutes < 60, seconds < 60 and days·86400 + hours·3600 + minutes·60 + seconds = ⌊d/1000⌋ |
| `Countdown.DecomposeSumsToSeconds` | js/app.js:297-300 | the four quotients recombine into the whole seconds of the difference |
| `Countdown.CountdownDisplay.constructor` | js/app.js:282-287 | the countdown starts unfinished |
| `Countdown.CountdownDisplay.Tick` | js/app.js:291-309 | a positive difference writes exactly the decomposed fields; otherwise the finished message replaces the countdown and no field is written |
| `Lightbox.Step` | js/app.js:473-480 | with n ≥ 1 images the new index is in [0, n) from any start; an in-range move is taken as is |
| `Lightbox.WrapsAtBothEnds` | js/app.js:476-480 | −1 from the first image gives the last, +1 from the last gives the first |
| `Lightbox.StepsUndoEachOther` | js/app.js:473-480 | a step back undoes a step forward and vice versa |
| `Lightbox.ForwardIsModular` | js/app.js:473-480 | k forward steps from i land on (i + k) mod n |
| `Lightbox.FullCycleReturns` | js/app.js:473-480 | n forward steps return to the starting image |
| `Lightbox.Position` | js/app.js:469 | the announcement text starts with "Image " |
| `Lightbox.PositionInjective` | js/app.js:469 | different positions or counts are announced with different texts |
| `Lightbox.Lightbox.constructor` | js/app.js:8-9 | the session starts with no images, index 0, closed |
| `Lightbox.Lightbox.Open` | js/app.js:455-471 | images and index are replaced unconditionally; only when image i exists the overlay opens, shows it, locks scrolling and announces "Image i+1 of n opened" |
| `Lightbox.Lightbox.Navigate` | js/app.js:473-489 | the index moves by the wrap rule; an existing image is shown and announced; open flag and scroll lock are untouched |
| `Lightbox.Lightbox.Close` | js/app.js:420-424 | the overlay closes, scrolling is released and "Image viewer closed" is announced; the session and the shown image are kept |
| `Lightbox.Lightbox.Click` | js/app.js:431-433 | a click on the backdrop itself closes the lightbox, releases scrolling and announces "Image viewer closed"; any other click changes nothing |
| `Lightbox.Lightbox.KeyDown` | js/app.js:436-452 | while open, Escape closes, releases scrolling and announces "Image viewer closed", and the arrow keys step −1/+1 and show and announce the new image when it exists; while closed, or for any other key, nothing changes |
| `Carousel.KeyTarget` | js/app.js:639-662 | the target is a slide in range; Home gives 0, End gives n−1, other keys and focus outside the slides give no target |
| `Carousel.ArrowsAgreeWithLightbox` | js/app.js:645-650 | ArrowLeft/ArrowRight are exactly the lightbox's −1/+1 wrap rule |
| `Carousel.ArrowsWrap` | js/app.js:645-650 | ArrowRight from the last slide gives 0; ArrowLeft from 0 gives the last |
| `Carousel.ArrowsUndoEachOther` | js/app.js:645-650 | ArrowLeft after ArrowRight, and the reverse, return to the same slide |
| `Carousel.OnlyActiveDotIsCurrent` | js/app.js:703-714 | when each dot is current iff it is the active index, the current dots are exactly that index (or none when out of range) |
| `Carousel.Carousel.constructor` | js/app.js:527-544 | one dot per slide, only the first current; no dots without a dots container |
| `Carousel.Carousel.UpdateActiveDot` | js/app.js:703-714 | every dot carries `aria-current` iff it is at the active index |
| `Carousel.Carousel.ClickDot` | js/app.js:537-540 | after a dot click exactly that dot is current |
| `Carousel.Carousel.KeyDown` | js/app.js:639-668 | the focus moves to the key's target and exactly its dot becomes current; an unhandled key leaves the dots unchanged |
| `Carousel.Carousel.SlideInView` | js/app.js:623-628 | the slide in view becomes the current dot and "Slide k+1 of n in view" is announced |
| `Carousel.Carousel.Press` | js/app.js:561-566 | the track is pressed; the drag flag is kept |
| `Carousel.Carousel.Move` | js/app.js:583-591 | a move while down makes the gesture a drag; otherwise nothing changes |
| `Carousel.Carousel.Release` | js/app.js:573-581 | the press ends and the cooldown is scheduled iff a drag happened |
| `Carousel.Carousel.Leave` | js/app.js:568-571 | the press ends; the drag flag is kept |
| `Carousel.Carousel.CooldownElapsed` | js/app.js:580 | the drag flag is cleared |
| `Carousel.Carousel.ClickSlide` | js/app.js:671-684 | while dragging the click is suppressed and the lightbox and document are unchanged; otherwise the lightbox opens on this carousel's images at the clicked slide, shows that slide's image, locks scrolling and announces "Image k+1 of n opened" |
| `Faq.AfterClick` | js/app.js:728-738 | a click keeps one flag per question |
| `Faq.ClickIsExclusive` | js/app.js:723-739 | after any click at most one question is expanded; the clicked one is expanded iff it was collapsed, all others are collapsed |
| `Faq.SecondClickMovesExpansion` | js/app.js:723-739 | opening i and then j ≠ i leaves only j expanded |
| `Faq.ClickTwiceCollapses` | js/app.js:723-739 | clicking the same question twice from all-collapsed collapses everything again |
| `Faq.Accordion.constructor` | js/app.js:1493 | every question is rendered collapsed |
| `Faq.Accordion.Click` | js/app.js:723-739 | the reset loop and the conditional expand leave exactly the specified flags |
| `Faq.Accordion.KeyDown` | js/app.js:742-747 | Enter and Space act as a click; other keys change nothing |
| `Navigation.LastContaining` | js/app.js:252-266 | the winning section contains the spy position and no later section does; no winner means no section contains it |
| `Navigation.LastContainingExtend` | js/app.js:256-266 | one more section wins iff it contains the position, otherwise the earlier winner stays |
| `Navigation.FirstWithHref` | js/app.js:263 | the selector's match is the first link with that href, or none exists |
| `Navigation.Highlighted` | js/app.js:262-264 | a highlight keeps one flag per link |
| `Navigation.HighlightMarksFirstMatchingLink` | js/app.js:262-264 | at most one link is active, it is the first with `#id`, and one is active iff some link points at the section |
| `Navigation.TargetId` | js/app.js:223 | the target id is the href without its first character |
| `Navigation.TargetIdOfAnchor` | js/app.js:223-224 | a `#id` link targets `id` |
| `Navigation.IsScrolled` | js/app.js:269-275 | the bar is in its scrolled style exactly above 50 px (no contract of its own; `Navigation.Navigation.OnScroll` ties the class to it) |
| `Navigation.ShowsBackToTop` | js/app.js:396-400 | the back-to-top button shows exactly above 600 px (no contract of its own; `Navigation.Navigation.BackToTopOnScroll` ties the class to it) |
| `Navigation.BackToTopImpliesScrolled` | js/app.js:396-400 | whenever the back-to-top button shows (above 600) the bar is in its scrolled style (above 50) |
| `Navigation.Navigation.constructor` | js/app.js:189-192 | the menu starts closed, no link active |
| `Navigation.Navigation.CloseMenu` | js/app.js:234-236 | the menu closes, `aria-expanded` becomes false and scrolling is released |
| `Navigation.Navigation.Toggle` | js/app.js:195-205 | a toggle click flips the menu; `aria-expanded` and the scroll lock follow the new state |
| `Navigation.Navigation.DocumentClick` | js/app.js:208-217 | a click outside both menu and toggle closes an open menu; any other click changes nothing; the scroll styles and the announcement are never touched |
| `Navigation.Navigation.LinkClick` | js/app.js:219-239 | the target is the element whose id is the link's href without `#`; when it exists the page scrolls to 70 px above it and the menu closes, otherwise nothing changes; the scroll styles and the announcement are never touched |
| `Navigation.Navigation.KeyDown` | js/app.js:242-249 | Escape closes an open menu and resets `aria-expanded`; otherwise nothing changes; the scroll styles and the announcement are never touched |
| `Navigation.Navigation.Highlight` | js/app.js:262-264 | all links lose `active`, then the first link to the section gains it |
| `Navigation.Navigation.OnScroll` | js/app.js:252-276 | the highlight is that of the last section containing scrollY + 100, or unchanged when none does; `is-scrolled` iff scrollY > 50 |
| `Navigation.Navigation.BackToTopOnScroll` | js/app.js:392-401 | the button shows iff scrollY > 600 |
| `Rsvp.EndOfLocalDay` | js/app.js:876 | the end of day is in the same local day as the deadline, is the latest instant of it, and is not before the deadline |
| `Rsvp.IsClosed` | js/app.js:869-878 | RSVP is never closed without a truthy deadline, and closed only when the deadline is a valid date and now is after it |
| `Rsvp.StaysClosed` | js/app.js:869-878 | once closed, RSVP stays closed at every later instant |
| `Rsvp.ClosedIffLaterLocalDay` | js/app.js:869-878 | RSVP is closed exactly when now's local day is later than the deadline's local day |
| `Rsvp.LocalDayMonotone` | js/app.js:876-878 | a later instant never has an earlier local day |
| `Rsvp.NoDeadlineNeverCloses` | js/app.js:870 | without a truthy `rsvp.deadlineISO`, or with an Invalid Date, RSVP never closes |
| `Rsvp.DateOnlyDeadlineDay` | js/app.js:873-876 | a date-only deadline (UTC midnight) stays open through its own local day at or east of UTC, and only through the previous local day west of UTC |
| `Rsvp.RsvpPanel.constructor` | js/app.js:880-881 | trigger enabled, note hidden, no contact link |
| `Rsvp.RsvpPanel.CheckDeadline` | js/app.js:869-901 | when closed the trigger is disabled and hidden; the note shows `closedMessage` only if it is present, with a `mailto:` link only if `rsvpEmail` is present; otherwise nothing changes |
| `Rsvp.TriggerClick` | js/app.js:807-816 | the modal opens iff `rsvp.embed` is truthy; otherwise `rsvp.link` opens in a new tab, which throws iff `rsvp` is undefined or null |
| `Rsvp.EmbedAlwaysShowsModal` | js/app.js:808-810 | an object config with a truthy embed flag always shows the modal |
| `Rsvp.RsvpModal.constructor` | js/app.js:799-803 | the modal starts hidden with no form loaded |
| `Rsvp.RsvpModal.Open` | js/app.js:834-851 | with an iframe the form loads `rsvp.link`, the modal shows and "RSVP form opened" is announced; without one nothing happens |
| `Rsvp.RsvpModal.Close` | js/app.js:853-866 | with an iframe the modal hides, the form is unloaded and "RSVP form closed" is announced |
| `Rsvp.RsvpModal.ClickTrigger` | js/app.js:807-816 | the dispatch is the trigger rule; with an iframe the modal branch loads `rsvp.link`, shows the modal and announces "RSVP form opened"; every other case leaves the modal and the announcement unchanged; the scroll lock is never touched |
| `Rsvp.RsvpModal.KeyDown` | js/app.js:821-825 | Escape on a shown modal with an iframe hides it, unloads the form and announces "RSVP form closed"; otherwise nothing changes; the scroll lock is never touched |
| `Rsvp.RsvpModal.Click` | js/app.js:828-832 | a backdrop click with an iframe hides the modal, unloads the form and announces "RSVP form closed"; otherwise nothing changes; the scroll lock is never touched |
| `Rsvp.FlipModal.constructor` | js/app.js:1344-1349 | the flip-book modal starts hidden |
| `Rsvp.FlipModal.OpenLink` | js/app.js:1355-1375 | the iframe shows the link's href, titled "Flip book: " and the link text, and the modal shows |
| `Rsvp.FlipModal.Close` | js/app.js:1378-1387 | the modal hides and the iframe source is cleared |
| `Rsvp.FlipModal.KeyDown` | js/app.js:1393-1397 | Escape leaves the modal hidden and empty; other keys change nothing; the iframe title is kept |
| `Rsvp.FlipModal.Click` | js/app.js:1400-1404 | only a backdrop click closes the modal; the iframe title is kept |
| `Rsvp.TrapTarget` | js/app.js:914-928 | the trap acts only on Tab inside the modal: Shift+Tab on the first element goes to the last, Tab on the last goes to the first |
| `Rsvp.TabFrom` | js/app.js:914-928 | Tab moves to the next focusable and Shift+Tab to the previous one, except that the last wraps to the first and the first to the last |
| `Rsvp.TabCyclesInsideModal` | js/app.js:914-928 | with the browser's default move elsewhere, Tab/Shift+Tab cycle through the focusables as the lightbox cycles images, never leaving [0, n) |
| `Hero.HeroUrl` | js/app.js:1519-1549 | a non-responsive value is used verbatim, a present retina variant wins on high-density screens, and a desktop-width screen always gets a truthy URL |
| `Hero.IsResponsive` | js/app.js:1526 | only an object or array value with a truthy `desktop` is treated as responsive; strings, numbers, booleans and null never are |
| `Hero.StringHeroIsVerbatim` | js/app.js:1546-1548 | a string `heroImage` is used as is at every width and density |
| `Hero.BreakpointChain` | js/app.js:1530-1540 | phones take mobile, else fallback; tablets take tablet, else the phone choice; wider screens take desktop |
| `Hero.FallbackMeansSomeImage` | js/app.js:1531-1545 | a present fallback guarantees a truthy choice at every width |
| `Hero.FallbackConfigHero` | js/app.js:161 | the fallback configuration's hero is "images/hero.jpg" everywhere |
| `Hero.LoadFailureShowsDefaultHero` | js/app.js:153-162 | after any failed load the hero background is `url('images/hero.jpg')` |
| `Hero.PreloadFallback` | js/app.js:1579-1585 | the fallback replaces the failed URL iff it is present and differs from it |
| `Hero.FallbackNotRetried` | js/app.js:1579-1585 | the fallback never replaces itself, so the substitution happens at most once |
| `Hero.CssUrl` | js/app.js:1552 | the background value is `url('…')` around the printed URL |
| `Hero.HeroBackground.constructor` | js/app.js:1520 | no background is set initially |
| `Hero.HeroBackground.Update` | js/app.js:1519-1568 | with the element and a truthy `heroImage`, the background shows the chosen URL, parallax is on above 768 px, and a truthy URL is preloaded; otherwise nothing changes |
| `Hero.HeroBackground.PreloadFailed` | js/app.js:1577-1586 | the background switches to the fallback exactly when the preload rule substitutes |
| `Content.UpdateElement` | js/app.js:1145-1154 | it skips iff the element is missing or the content falsy, and writes HTML iff the content is a string containing `<` |
| `Content.WrittenStringIsContent` | js/app.js:1147-1151 | whatever is written is the content's string form |
| `Content.PlainStringIsText` | js/app.js:1149-1151 | a non-empty string without `<` is written verbatim as text |
| `Content.StripNonAlnum` | js/app.js:360 | the stripped name is no longer than the input and all ASCII letters and digits |
| `Content.StripConcat` | js/app.js:360 | stripping distributes over concatenation |
| `Content.StripKeepsAlnum` | js/app.js:360 | an all-alphanumeric name is unchanged |
| `Content.StripIdempotent` | js/app.js:360 | stripping twice is stripping once |
| `Content.StripKeepsEachAlnumCount` | js/app.js:360 | every letter and digit keeps its number of occurrences |
| `Content.CalendarFileName` | js/app.js:360 | the file name is the stripped names followed by "-Wedding.ics" |
| `Content.NavLogoSizes` | js/app.js:1169-1181 | each value is the printed size followed by `px`: an object or array gives its `desktop` and `mobile` members, anything else one value for both layouts |
| `Content.NumberSizeForBoth` | js/app.js:1177-1181 | a numeric size n gives "npx" for both layouts |
| `Content.ResponsiveSizes` | js/app.js:1173-1176 | an object with numeric desktop and mobile sizes gives each layout its own `px` value |
| `Content.ResponsiveSizesIndependent` | js/app.js:1173-1176 | in an object size, changing one member never changes the other layout's value |
| `Content.MissingSizeIsUndefinedPx` | js/app.js:1173-1176 | a member missing from an object size prints as "undefinedpx", and so do both values of an array size |
| `Content.RootStyle.constructor` | js/app.js:1167-1168 | no custom property is set initially |
| `Content.RootStyle.ApplyLogoSizes` | js/app.js:1167-1189 | a truthy nav size sets both nav variables, a truthy footer size sets the footer variable, and nothing else changes |
| `Petals.Enabled` | js/app.js:949 | the petals only start with a truthy object `decor.petals` |
| `Petals.EnabledIffImages` | js/app.js:949 | with `enabled: true` the petals run iff the image list is non-empty |

| `Petals.LoadFailureDisablesPetals` | js/app.js:949 | the fallback configuration never enables petals |
| `Petals.VisibleIffOverlaps` | js/app.js:1050-1051 | a section is visible iff some row of it is on screen |
| `Petals.Visible` | js/app.js:1050-1051 | a section entirely above or entirely below the viewport is not visible |
| `Petals.ShouldShow` | js/app.js:1039-1054 | with either section missing the petals never show |
| `Petals.Animator.constructor` | js/app.js:954-956 | petals start inactive with no petal created |
| `Petals.Animator.Frame` | js/app.js:1039-1077 | after a frame the petals are active iff both sections exist and one of them is visible; a petal is created iff active and more than 750 ms have passed; created petals stay more than 750 ms apart |
| `TestScript.LoadSimple` | js/test.js:7-24 | any failure gives the fallback; a successful fetch gives the fetched body |
| `TestScript.LoadSimpleIsLoadWithoutOverride` | js/test.js:7-24 | it is the full loader with no stored override |
| `TestScript.DecomposeMinutes` | js/test.js:49-59 | a reading is produced iff the difference is positive; then hours < 24, minutes < 60 and days·1440 + hours·60 + minutes = ⌊d/60000⌋ |
| `TestScript.DecomposeMinutesSum` | js/test.js:50-52 | the three quotients recombine into the whole minutes of the difference |
| `TestScript.CountdownsAgree` | js/test.js:49-59 | both countdowns agree on finished, days, hours and minutes |
| `TestScript.HeroUrlNoRetina` | js/test.js:76-96 | a non-responsive value is used verbatim and a wide screen gets desktop |
| `TestScript.HeroMatchesLowDensity` | js/test.js:76-96 | it is the full choice on a screen that is not high-density |
| `TestScript.HeroDiffersOnlyByRetina` | js/test.js:76-96 | on high-density screens the two scripts differ iff the retina override applies and picks another image |
| `TestScript.ContentEntries` | js/test.js:159-164 | four entries, with hero-date taken from `config.date` |
| `TestScript.WrittenStep` | js/test.js:166-171 | one more entry writes on top of the earlier ones |
| `TestScript.WrittenSpec` | js/test.js:166-171 | an id is written iff it exists and an entry for it has truthy content, and it holds that content's text |
| `TestScript.FallbackLeavesHeroDateEmpty` | js/test.js:161 | with the fallback configuration the hero date is never written |
| `TestScript.TestSite.constructor` | js/test.js:4 | `config` starts as the empty object |
| `TestScript.TestSite.LoadConfig` | js/test.js:7-24 | `config` becomes the simple loader's result; title, texts, countdown and hero are unchanged |
| `TestScript.TestSite.Tick` | js/test.js:37-60 | a positive difference writes the decomposed fields; otherwise the finished message shows; config, title, texts and hero are unchanged |
| `TestScript.TestSite.SetupHero` | js/test.js:68-114 | with the element and a truthy `heroImage` the background shows the chosen URL and parallax follows the 768 px breakpoint; config, title, texts and countdown are unchanged |
| `TestScript.TestSite.PopulateContent` | js/test.js:152-172 | a falsy config changes nothing; otherwise the title is names + " Wedding" and each existing id with truthy content gets that text; config, countdown and hero are unchanged |

## Left out

- Network, storage and parsing: `fetch`, `localStorage` and `JSON.parse` are inputs. The outcome of `new Date(x)` is the parameter `dateOf`.
- JSON numbers are integers. Floating-point values do not occur in the model.
- Time zones: local time is a fixed UTC offset in milliseconds. Daylight-saving transitions are not modelled.
- Timers: `setInterval`, the 100 ms drag cooldown, `debounce`, `requestAnimationFrame` and the one-second clearing of announcements. Only the step each callback performs is modelled, or the cooldown as the explicit `CooldownElapsed` step.
- Observers: IntersectionObserver and MutationObserver are push callbacks. The slide observer's step is `SlideInView`. The MutationObserver only removes the focus-trap listener.
- Randomness and floats: petal image, size, position and duration, drag pixel arithmetic, the `--vh` variable and the 0.9 `scrollBy` factor. `devicePixelRatio > 1.5` is the boolean `hiDpi`.
- Focus and scrolling effects: `focus()`, `scrollIntoView`, smooth `scrollTo` and the flip modal's `returnFocus`. `LinkClick` returns the scroll target instead.
- The answer panels' `open` class in the FAQ mirrors `aria-expanded` and is not modelled separately.
- The swipe hint (`hasStartedSwiping`, `swiping-started`) is not modelled.
- The carousel's previous/next buttons scroll by a fraction of the width and change no modelled state.
- The iCalendar text (section 3.6.1 of RFC 5545), the Blob download and its announcement. Only the file name is modelled.
- HTML templating through `innerHTML`: schedule, venue, gallery, stays, attire, registry and FAQ markup. Dates formatted by `toLocaleDateString` in `populateContent` and `populateRSVPSection` are also out.
- The two-second fixer, `applyTheme` (never called), `configureFonts`, the global error handlers, the polyfill injection and the touchend click re-dispatch. The gallery's seeding of lightbox images is also out.
- js/test.js's navigation handlers are not modelled. They toggle and remove a class only.
- A fetched `null` configuration makes plain property reads such as `config.heroImage` throw in the site; reads on a number, string, boolean or array give `undefined`, as in the model. The model reads every property with optional-chaining semantics, so for `null` it gives `undefined` where the site throws; only the RSVP trigger's `Throws` outcome is modelled.
- Scroll positions (`scrollY`, `offsetTop`), `getBoundingClientRect()` values and the animation frame timestamp are doubles in the site and integers here. `Petals.VisibleIffOverlaps` picks an integer row as its witness, which does not carry over to fractional rectangles.
- JavaScript string `.length` and string spread count UTF-16 code units; a Dafny `string` counts characters, so the two differ for characters outside the Basic Multilingual Plane.
- Countdown.CountdownDisplay.Tick: all four number elements are assumed present. The `initializeCountdown` guard on a missing element or `dateISO` is not modelled, and neither is the `NaN` difference of an unparsable date.
- Hero.PreloadFallback: compares the failed URL with the fallback as values. JavaScript's `!==` compares objects and arrays by identity, which the model does not capture.
- Page.Document.Announce: the `#sr-announcements` element is assumed present.
- Content.CalendarFileName: takes the names as a string. A non-string `config.names` makes `replace` throw in the site, which is not modelled.
- Navigation.Highlighted: only promises one flag per link. What the flags mean is the lemma `Navigation.HighlightMarksFirstMatchingLink`.
- Faq.AfterClick: only promises one flag per question. What the flags mean is the lemma `Faq.ClickIsExclusive`.
