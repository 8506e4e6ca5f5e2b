# Admissions site front end: the stateful cores, modelled in Dafny

This project models the four pieces of the admissions site's React front end
that hold real logic, and proves what their code promises.

- **Hero slideshow** (`hero_slideshow.dfy`, module `HeroSlideshow`). This is
  the crossfading banner of the home page. A class `Slideshow` holds the
  current and previous slide, the "next image loaded" flag, the write-once
  table of loaded slide images, the autoplay interval handle and the touch
  start coordinate. Its methods are the handlers of the page: `start`,
  `stop`, `goTo`, the arrows, the autoplay tick, both image `onLoad`
  handlers, the two touch handlers, and the mount, visibility and hover
  wiring. The browser's interval registry appears as a set of live handles,
  so the class invariant can say that no interval ever leaks.
- **Fee table** (`fees_table.dfy`, module `FeesTable`, with `stable_sort.dfy`,
  module `StableSort`). The rows are bucketed by year into an
  insertion-ordered map; this is a loop, method `BucketByYear`. The years are
  then sorted by the first number in their label, with ties going to a string
  comparison, and each year's rows are sorted by semester number. Method
  `Flatten` then flattens the result into table rows, and the first row of
  each year carries a year cell spanning the whole year. The sort that
  `Array.prototype.sort` performs is modelled as a stable insertion sort,
  proved to permute its input, to order it and to be stable.
- **Certificate lightbox** (`certificate_slider.dfy`, module
  `CertificateSlider`). It covers the nine certificates, `isNonEmpty` over
  the full ECMAScript whitespace set, the headline fallbacks, and the slider
  settings for each viewport. A class `Lightbox` holds the open flag and the
  nullable index, with open, close, wrap-around next and previous, and the
  key handler.
- **Navigation bar** (`navbar.dfy`, module `Navbar`). It covers
  `isPathActive`, `isDropdownActive` and the navigation structure. A class
  `Menu` holds the mobile menu flag, the desktop and mobile dropdowns and the
  scroll flag, with every handler that changes them.

`wrappers.dfy` holds the `Option` type shared by the modules.

Two things the slideshow code does not have:

- `goTo` takes only an updater (Home.tsx:92-100). There is no form that
  takes a slide index. The next and previous updaters are the only ones
  passed to it.
- The image `onLoad` handlers always write the loaded table (Home.tsx:164-167,
  277). Nothing guards against a load that arrives after unmount.

## Model

| member | source | states |
|---|---|---|
| HeroSlideshow.JsRem | src/pages/Home.tsx:69 | JavaScript `%`: agrees with the mathematical remainder for non-negative dividends; otherwise the result lies in (-b, 0] |
| HeroSlideshow.Next | src/pages/Home.tsx:69 | the next updater keeps an index in [0, n), moves i to i+1 below the last slide and wraps the last slide to 0 |
| HeroSlideshow.Prev | src/pages/Home.tsx:229-230 | the previous updater keeps an index in [0, n), moves i to i-1 above 0 and wraps 0 to the last slide |
| HeroSlideshow.PrevNextInverse | src/pages/Home.tsx:111-112 | on every slide index, previous undoes next and next undoes previous |
| HeroSlideshow.NextPowIsShift | src/pages/Home.tsx:68-70 | k <= n autoplay steps from slide i land on slide (i + k) mod n |
| HeroSlideshow.NextCycle | src/pages/Home.tsx:68-70 | n steps of next return to the starting slide |
| HeroSlideshow.NextPowPeriodic | src/pages/Home.tsx:68-70 | k + n steps land where k steps do, so with the shift lemma the slide after any number of steps is (i + k) mod n |
| HeroSlideshow.Slideshow.constructor | src/pages/Home.tsx:59-64 | first render: idx = prevIdx = 0, isNextLoaded, empty loaded table, no interval, no touch |
| HeroSlideshow.Slideshow.Start | src/pages/Home.tsx:66-71 | any running interval is cleared before a fresh one is scheduled, so exactly one interval is live afterwards; slide state unchanged |
| HeroSlideshow.Slideshow.Stop | src/pages/Home.tsx:73-78 | the interval is cleared and the handle forgotten; with no interval it changes nothing |
| HeroSlideshow.Slideshow.GoTo | src/pages/Home.tsx:92-100 | prevIdx becomes the old idx, idx becomes updater(old idx), and isNextLoaded says whether the table already holds the new slide; the previous layer fades out at once (opacity 0, Home.tsx:136) exactly when the new slide's image has already loaded |
| HeroSlideshow.Slideshow.NextSlide | src/pages/Home.tsx:249 | the next arrow is goTo with the next updater |
| HeroSlideshow.Slideshow.PrevSlide | src/pages/Home.tsx:229-230 | the previous arrow is goTo with the previous updater |
| HeroSlideshow.Slideshow.Tick | src/pages/Home.tsx:68-70 | one interval firing advances one slide from the live index, the timer untouched |
| HeroSlideshow.Slideshow.CurrentImageLoaded | src/pages/Home.tsx:164-167 | the current slide is recorded as loaded and the previous layer is released (opacity 0) |
| HeroSlideshow.Slideshow.PreloadImageLoaded | src/pages/Home.tsx:277 | only the table changes: slide i is recorded as loaded |
| HeroSlideshow.Slideshow.TouchStart | src/pages/Home.tsx:104-106 | the touch start coordinate is recorded |
| HeroSlideshow.Slideshow.TouchEnd | src/pages/Home.tsx:107-114 | with no recorded start nothing moves; a drag over 40 px right goes back, over 40 px left goes forward, otherwise nothing moves; the start is cleared in every case |
| HeroSlideshow.Slideshow.Mount | src/pages/Home.tsx:80-84 | mounting starts autoplay with exactly one live interval |
| HeroSlideshow.Slideshow.Unmount | src/pages/Home.tsx:85-87 | unmounting stops autoplay and leaves no live interval |
| HeroSlideshow.Slideshow.VisibilityChange | src/pages/Home.tsx:82 | a hidden page stops autoplay; a visible page restarts it with a fresh interval |
| HeroSlideshow.Slideshow.PointerEnter | src/pages/Home.tsx:124 | pointer over the banner stops autoplay |
| HeroSlideshow.Slideshow.PointerLeave | src/pages/Home.tsx:125 | pointer leaving the banner restarts autoplay with a fresh interval |
| HeroSlideshow.AtMostOneInterval | src/pages/Home.tsx:66-78 | the no-leak guarantee, read off the Valid invariant that Start, Stop and every handler keep: at most one interval is live, and one is live exactly when a handle is held |
| HeroSlideshow.LoadIsMonotone | src/pages/Home.tsx:165 | recording a load keeps every entry of the table and never writes false |
| StableSort.SortPermutes | src/components/University/FeesTable.tsx:62-63 | the sort returns a permutation of its input |
| StableSort.SortSorted | src/components/University/FeesTable.tsx:62-63 | with a consistent comparator, no element of the result compares greater than a later one |
| StableSort.SortStable | src/components/University/FeesTable.tsx:62-63 | elements that compare equal keep their relative order |
| StableSort.SortKeepsDistinct | src/components/University/FeesTable.tsx:60-64 | sorting does not make two entries share a key (the sorted entries still form a map) |
| FeesTable.LeadingNonDigits | src/components/University/FeesTable.tsx:57 | the length of the digit-free prefix: nothing before it is a digit, and the character at it is |
| FeesTable.LeadingDigits | src/components/University/FeesTable.tsx:57 | the length of the maximal prefix of digits |
| FeesTable.MatchDigits | src/components/University/FeesTable.tsx:57 | `/\d+/` finds no match exactly when the label has no digit; otherwise it finds the leftmost maximal digit run |
| FeesTable.FirstDigitRunUnique | src/components/University/FeesTable.tsx:57 | the leftmost maximal digit run is unique |
| FeesTable.ParseNum | src/components/University/FeesTable.tsx:56-59 | num is infinity exactly when the label has no digit, and otherwise the decimal value of its first maximal digit run |
| FeesTable.ParseNumYear | src/components/University/FeesTable.tsx:56-59 | num("Year 1") = 1 |
| FeesTable.ParseNumSemester | src/components/University/FeesTable.tsx:56-59 | num("Sem 10") = 10 |
| FeesTable.ParseNumFirstRun | src/components/University/FeesTable.tsx:56-59 | only the first digit run counts: num("2nd Year, Sem 3") = 2 |
| FeesTable.ParseNumNoDigit | src/components/University/FeesTable.tsx:56-59 | every label without digits reads as infinity, and so compares after every numbered label |
| FeesTable.ParseNumFinal | src/components/University/FeesTable.tsx:56-59 | num("Final") = infinity |
| FeesTable.NumCompareOrder | src/components/University/FeesTable.tsx:62 | num differences, with infinity minus infinity read as 0, order values totally: antisymmetric, reflexive, transitive |
| FeesTable.StringCompare | src/components/University/FeesTable.tsx:62 | the string comparison returns -1, 0 or 1 |
| FeesTable.StringCompareOrder | src/components/University/FeesTable.tsx:62 | the string comparison is antisymmetric, zero exactly on equal strings, and transitive |
| FeesTable.YearCompareZero | src/components/University/FeesTable.tsx:62 | two year labels compare equal only when they are the same label, so the year order is total |
| FeesTable.GroupCompareConsistent | src/components/University/FeesTable.tsx:62 | the year comparator, including the NaN fall-through to the string comparison, is a consistent comparator |
| FeesTable.SemesterCompareConsistent | src/components/University/FeesTable.tsx:63 | the semester comparator is a consistent comparator |
| FeesTable.RowsOfYearMembers | src/components/University/FeesTable.tsx:52-55 | the bucket of a year holds only rows of that year, all from the input |
| FeesTable.RowsOfOwnYear | src/components/University/FeesTable.tsx:52-55 | every row lands in the bucket of its own year |
| FeesTable.RowsOfYearCount | src/components/University/FeesTable.tsx:52-55 | a year's bucket holds every copy of each of its rows |
| FeesTable.DistinctYearsSpec | src/components/University/FeesTable.tsx:53 | a year is a map key exactly when some row has it, and no key occurs twice |
| FeesTable.BucketByYear | src/components/University/FeesTable.tsx:51-55 | the map-filling loop yields, in first-occurrence order, one entry per year holding that year's rows in input order |
| FeesTable.BucketsSpec | src/components/University/FeesTable.tsx:51-55 | the buckets partition the rows: none empty, each row under its own year, no year twice, every year of the input present |
| FeesTable.SortedBucketsSpec | src/components/University/FeesTable.tsx:60-62 | after the year sort the entries are still a partition of the rows and are in year order |
| FeesTable.SortEachSpec | src/components/University/FeesTable.tsx:63 | sorting each entry by semester keeps the years, their order and the partition |
| FeesTable.GroupedSpec | src/components/University/FeesTable.tsx:50-65 | grouped lists every year of the input once, in year order, each with exactly its rows stably sorted by semester |
| FeesTable.GroupRows | src/components/University/FeesTable.tsx:50-65 | the grouped memo computes the grouped entries, well formed and in year order |
| FeesTable.Flatten | src/components/University/FeesTable.tsx:68-76 | the push loops produce the annotated rows of every entry, entry after entry |
| FeesTable.FlatRows | src/components/University/FeesTable.tsx:70-73 | the table shows the entries' lists one after another |
| FeesTable.ConcatRowsOfYear | src/components/University/FeesTable.tsx:70-73 | in the flattened rows, each year's rows are exactly its entry's list |
| FeesTable.FlatContiguous | src/components/University/FeesTable.tsx:70-73 | rows of one year are adjacent in the table |
| FeesTable.FlatFirstFlags | src/components/University/FeesTable.tsx:72 | a row has isYearFirst exactly when it is the first row or its year differs from the row above |
| FeesTable.FlatSpansCount | src/components/University/FeesTable.tsx:72 | a year-first row's rowSpan counts all rows of its year; every other rowSpan is 0 |
| FeesTable.FlatYearsOrdered | src/components/University/FeesTable.tsx:70-73 | years go down the table in comparator order |
| FeesTable.FlatSpansCover | src/components/University/FeesTable.tsx:72 | the rowSpans sum to the number of table rows |
| FeesTable.TableRowsOfYear | src/components/University/FeesTable.tsx:50-76 | for every year, the table shows exactly the input rows of that year, stably sorted by semester |
| FeesTable.TablePermutes | src/components/University/FeesTable.tsx:68-76 | the table is a permutation of the input rows: same multiset, same length |
| FeesTable.TableSemestersOrdered | src/components/University/FeesTable.tsx:63 | within a year semesters never decrease, and rows with equal semester numbers keep input order |
| FeesTable.TableLayout | src/components/University/FeesTable.tsx:68-76 | years ordered and contiguous, year cell on exactly the first row of each year spanning that year's input rows, spans summing to the input length |
| FeesTable.HeaderChips | src/components/University/FeesTable.tsx:100-123 | the USD and INR chips show the dash together, exactly when the table below is empty; otherwise both show the amounts of one and the same row of the table |
| FeesTable.YearCellMatchesRow | src/components/University/FeesTable.tsx:150-165 | a year cell lights up exactly when its own row does, and keeps its own colour while another row it spans is hovered |
| FeesTable.StripesAlternate | src/components/University/FeesTable.tsx:150-151 | neighbouring unhovered rows have different stripes, and at most one row is hover-coloured |
| FeesTable.RowHover.MouseEnter | src/components/University/FeesTable.tsx:156 | entering row i makes it the hovered row |
| FeesTable.RowHover.MouseLeave | src/components/University/FeesTable.tsx:157 | leaving a row clears the hovered row |
| CertificateSlider.TrimStart | src/components/home/CertificateSlider.tsx:76 | trim removes exactly a leading whitespace run, and the rest starts with a non-whitespace character |
| CertificateSlider.TrimEnd | src/components/home/CertificateSlider.tsx:76 | trim removes exactly a trailing whitespace run, and the rest ends with a non-whitespace character |
| CertificateSlider.TrimEmpty | src/components/home/CertificateSlider.tsx:76 | a trimmed string is empty exactly when the string is all whitespace |
| CertificateSlider.IsNonEmptySpec | src/components/home/CertificateSlider.tsx:76 | isNonEmpty holds exactly for a given string with a non-whitespace character |
| CertificateSlider.OrDefaultShown | src/components/home/CertificateSlider.tsx:161-168 | a default that starts with a visible character makes the field non-empty whatever is given |
| CertificateSlider.SubtitleLinesAlwaysRender | src/components/home/CertificateSlider.tsx:485-491 | both subtitle lines pass their isNonEmpty guard whatever the props |
| CertificateSlider.SettingsLayouts | src/components/home/CertificateSlider.tsx:206-246 | the two layouts have different keys and differ in nothing but key, centring, slide count and focus-on-select |
| CertificateSlider.NextIndex | src/components/home/CertificateSlider.tsx:183-187 | null goes to 0; k goes to k+1, the last certificate wraps to 0; the result is a certificate index |
| CertificateSlider.PrevIndex | src/components/home/CertificateSlider.tsx:188-192 | null goes to 0; k goes to k-1, the first certificate wraps to the last; the result is a certificate index |
| CertificateSlider.NextPrevInverse | src/components/home/CertificateSlider.tsx:183-192 | on a certificate index, previous undoes next and next undoes previous |
| CertificateSlider.NextTimesShift | src/components/home/CertificateSlider.tsx:183-187 | m <= 9 next steps from k land m places on, wrapping once |
| CertificateSlider.NextCycle | src/components/home/CertificateSlider.tsx:183-187 | nine next steps return to the starting certificate |
| CertificateSlider.NextTimesPeriodic | src/components/home/CertificateSlider.tsx:183-187 | m + 9 next steps land where m steps do, so with the shift lemma the certificate after any number of steps is (k + m) mod 9 |
| CertificateSlider.ModalImage | src/components/home/CertificateSlider.tsx:248-249 | the modal image is "" exactly when no certificate is selected, else that certificate's image |
| CertificateSlider.ModalImageDistinct | src/components/home/CertificateSlider.tsx:21-74 | different certificates show different images |
| CertificateSlider.Lightbox.constructor | src/components/home/CertificateSlider.tsx:157-158 | closed, no index |
| CertificateSlider.Lightbox.OpenModal | src/components/home/CertificateSlider.tsx:174-177 | opening certificate i shows it with the modal open |
| CertificateSlider.Lightbox.CloseModal | src/components/home/CertificateSlider.tsx:178-181 | closing clears the index |
| CertificateSlider.Lightbox.GoNext | src/components/home/CertificateSlider.tsx:183-187 | the index moves by the next updater; the open flag is unchanged |
| CertificateSlider.Lightbox.GoPrev | src/components/home/CertificateSlider.tsx:188-192 | the index moves by the previous updater; the open flag is unchanged |
| CertificateSlider.Lightbox.KeyDown | src/components/home/CertificateSlider.tsx:194-203 | keys act only while open: Escape closes, ArrowRight goes next, ArrowLeft goes back, other keys do nothing |
| Navbar.IsPathActiveSpec | src/components/ui/navbar.tsx:117-120 | "/" is active exactly on "/"; any other path is active exactly when the current path is that path followed by anything |
| Navbar.NotSegmentAware | src/components/ui/navbar.tsx:119 | "/aboutus" activates "/about" and "/gallery-old" activates "/gallery"; "/" is not active on "/about" |
| Navbar.AnyItemActiveSpec | src/components/ui/navbar.tsx:123 | the inner some holds exactly when some item's path is active |
| Navbar.IsDropdownActiveSpec | src/components/ui/navbar.tsx:122-123 | a dropdown is active exactly when some item of some section is active |
| Navbar.MbbsPaths | src/components/ui/navbar.tsx:9-44 | every dropdown item path starts with /mbbs-abroad/ |
| Navbar.DropdownActiveUnderMbbs | src/components/ui/navbar.tsx:122-123 | the MBBS dropdown is active only on pages under /mbbs-abroad/, and is active on a university page |
| Navbar.ToggleTwice | src/components/ui/navbar.tsx:183-185 | two toggles restore a closed or same-name state; from another open dropdown they leave all closed |
| Navbar.OneDropdown | src/components/ui/navbar.tsx:50-57 | the navigation bar has one dropdown, MBBS-ABROAD |
| Navbar.IsScrolledMonotone | src/components/ui/navbar.tsx:72 | scrolling further down never leaves the scrolled style, and the top of the page is never scrolled |
| Navbar.Menu.constructor | src/components/ui/navbar.tsx:61-66 | everything closed; the scroll flag is read once on mount |
| Navbar.Menu.RouteChange | src/components/ui/navbar.tsx:82-86 | a new path closes the menu and both dropdowns; the same path changes nothing |
| Navbar.Menu.Scroll | src/components/ui/navbar.tsx:72 | a scroll sets only the scroll flag |
| Navbar.Menu.DocumentMouseDown | src/components/ui/navbar.tsx:89-92 | a press outside a mounted dropdown container closes the desktop dropdown; nothing else changes |
| Navbar.Menu.KeyDown | src/components/ui/navbar.tsx:110-111 | Escape closes the mobile menu; other keys change nothing |
| Navbar.Menu.ToggleMenu | src/components/ui/navbar.tsx:240 | the hamburger negates the menu flag |
| Navbar.Menu.CloseMenu | src/components/ui/navbar.tsx:270 | the close button closes the mobile menu |
| Navbar.Menu.DropdownEnter | src/components/ui/navbar.tsx:175 | entering the dropdown opens it |
| Navbar.Menu.DropdownLeave | src/components/ui/navbar.tsx:176 | leaving the dropdown closes it |
| Navbar.Menu.DropdownClick | src/components/ui/navbar.tsx:183-185 | the desktop button toggles its dropdown |
| Navbar.Menu.MobileDropdownClick | src/components/ui/navbar.tsx:297-307 | the mobile header toggles its dropdown |
| Navbar.Menu.MobileItemClick | src/components/ui/navbar.tsx:343-346 | a mobile dropdown item closes the menu and the mobile dropdown |
| Navbar.Menu.DropdownClickTwice | src/components/ui/navbar.tsx:183-185 | with the bar's single dropdown, two clicks on its button restore the state |

## Left out

- JSX markup, class strings and inline styles are not modelled. This covers the link colours of `getLinkClass`, the embedded CSS of the certificate strip, and the arrow elements of the slider settings.
- HeroSlideshow.Slideshow.Tick advances from the live index, as autoplay evidently means to. The source's `start` is memoised with no dependencies, so its interval calls the first render's `goTo`, which reads `idx` as 0; in the source, autoplay keeps landing on slide 1. React closure capture is not modelled.
- HeroSlideshow.Slideshow.GoTo updates the three fields in one step. The source calls the setters from inside the `setPrevIdx` updater; React's batching of those calls is not modelled.
- Timing is not modelled: the 5000 ms period, `setInterval` scheduling, the fade duration and reduced motion. An interval firing is the `Tick` method.
- Touch coordinates are integers; `clientX` may be fractional in a browser.
- The browser's interval handles are modelled as counting up from 1. A handle of 0 would be falsy and would not be cleared by `start` or `stop`; browsers never hand out 0.
- `localeCompare` is modelled as lexicographic code-point order, not as locale-aware collation.
- JavaScript strings are UTF-16; the model's strings are sequences of Unicode scalar values. This affects `StringCompare` on characters outside the Basic Multilingual Plane and the length of such strings.
- `Array.prototype.sort` is modelled as a stable insertion sort. The in-place mutation of each year's list (FeesTable.tsx:63) is modelled as a new sorted sequence.
- `parseInt` is exact here; JavaScript numbers lose precision on digit runs longer than about 15 digits.
- `FeeRow.usd` is a JavaScript number but is modelled as an integer; fractional amounts are not modelled, and the model only passes the value through to the chip.
- `toLocaleString` formatting of the USD amount is not modelled; the chip carries the number.
- `rows` being `undefined` (the `rows?.[0]` optional chain) is not modelled; `rows` is a sequence.
- The fee table's extras (heading, subheading, services, disclaimers, note) are markup and are not modelled.
- `matchMedia` is not modelled; `isTabletDown` is an input to `SettingsFor`.
- react-slick's and react-modal's own behaviour is not modelled: slider autoplay, pause on hover, and the overlay click that calls `closeModal`.
- Scroll progress uses floating point and is not modelled. `scrollY` is a `real`.
- Event-listener registration is not modelled. The DOM `contains` test is a boolean argument of `DocumentMouseDown`.
- CertificateSlider.Lightbox.GoNext and GoPrev do not require the modal to be open. The modal's buttons only exist while it is open, so they keep "open exactly when an index is held" only when called while open.
- Navbar.Menu.DropdownEnter, DropdownClick and MobileDropdownClick take the name of a dropdown node, since the handlers are bound to those nodes.
- The body scroll lock while the mobile menu is open (navbar.tsx:98-107) only writes a style property and is not modelled.
