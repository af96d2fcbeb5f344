# BrickFi view model and access decisions in Dafny

BrickFi is a web frontend for fractional real-estate investment pools that live in
external smart contracts. The repository's own logic is small: pure functions turn raw
contract values into the text and badges the pages show, and a few guards decide who may
sign in and who may open the administrator dashboard. This project models that core and
proves what it promises.

- **Time remaining** (`formatTime`). A target instant in seconds and the current instant
  in milliseconds become "Xd Yh Zm". Day and hour parts appear only when positive.
  Minutes appear when positive or when nothing else would be shown. A reached target
  reads "Expirado". The method `GetTime.FormatTime` keeps the source's imperative shape:
  parts are pushed onto a local sequence and then joined. It is proved equal to the
  function `GetTime.TimeLabel`. `GetTime.ParseTimeLabel` reads a label back, and the
  round trip recovers the whole minutes left.
- **Project record** (`formatProjectData`, `useGetProject`). Thirteen multicall results
  become either `null` or a `Project` record. The check is all or nothing. Owner, name,
  url and user are tested for truthiness; the other nine results are tested only against
  `undefined`. Field i is filled from result i, and that result comes from the getter
  with the field's own name.
- **On-chain project card**. The phase badge has a label and a colour for phases 0 to 4.
  An unknown phase falls back to the phase-0 badge. The card also shows three amounts on
  one 18-decimal scale and the time left to buy.
- **Catalogue project card**. Status and type badges are looked up in total tables. The
  days left are rounded up and never negative. The caption is "Cerrado" or "N días".
- **Project list**. A search matches the name or the url, ignoring case. A status filter
  keeps every phase or exactly one. The list also chooses a placeholder image from the
  last eight hexadecimal digits of a pool address.
- **Sign-in and session**. The administrator allow-list is lower-cased. `authorize`
  guards around Sign-In with Ethereum (EIP-4361); parsing and signature checking are
  passed in as functions. The session callback is a class whose method updates the
  session's fields in place.
- **Administrator dashboard**. Ordered guards choose among the loader, the connect
  prompt, "Acceso Denegado" and the panel.

`JsStrings` states the JavaScript built-ins these functions rely on: `toLowerCase`,
`includes`, `join`, integer-to-text conversion, `parseInt(s, 16)`, `replace`,
`slice(-k)` and `%`. The clock is a parameter everywhere (`nowMs`).

Four behaviours of the code are worth stating plainly, because a reader might expect
otherwise. The model follows the code in each.
- A reached target reads "Expirado".
- A zero hour between days and minutes is skipped, not only a leading zero: 86,700 s
  ahead reads "1d 5m".
- The project record accepts a `null` amount, because only `undefined` is rejected, and
  it accepts zero amounts.
- The on-chain project card scales every amount (sold, soft cap and goal) by 18 decimals.

## Model

| member | source | states |
|---|---|---|
| GetTime.FormatTime | utils/get-time.tsx:6-45 | The imperative formatter (arithmetic, conditional pushes, join) returns exactly `TimeLabel` of the target and the clock reading |
| GetTime.Breakdown | utils/get-time.tsx:20-27 | Hours are below 24, minutes below 60, and days·1440 + hours·60 + minutes is the whole minutes left |
| GetTime.BreakdownUnique | utils/get-time.tsx:20-27 | No other split into days, hours below 24 and minutes below 60 adds up to the same minutes |
| GetTime.ComponentsParse | utils/get-time.tsx:30-42 | Reading the pushed parts back (each a number and its unit, in day-hour-minute order) gives the duration's total minutes |
| GetTime.ComponentsHaveNoSpace | utils/get-time.tsx:30-44 | There is at least one part and no part contains the space the parts are joined with |
| GetTime.TimeLabelRoundTrip | utils/get-time.tsx:20-44 | For a future target, reading the label back (components in d, h, m order, single spaces) gives floor(diff / 60000) |
| GetTime.ExpiredExactlyWhenReached | utils/get-time.tsx:12-17 | The label is "Expirado" if and only if the target is a valid instant and target·1000 − now ≤ 0 |
| GetTime.TimeLabelNonEmpty | utils/get-time.tsx:40-44 | The label is never empty |
| GetTime.UnderOneMinute | utils/get-time.tsx:40-42 | Less than one minute ahead reads "0m" |
| GetTime.LabelAhead | utils/get-time.tsx:8-27 | A target `ahead` seconds after a whole-second now shows the components of ahead / 60 minutes |
| GetTime.OneDayOneHourOneMinute | utils/get-time.tsx:30-44 | A target 90,061 s ahead reads "1d 1h 1m" |
| GetTime.ZeroHourSkipped | utils/get-time.tsx:32-38 | A zero hour is dropped from the middle: 86,700 s ahead reads "1d 5m" |
| GetTime.DocumentedExamples | utils/get-time.tsx:3-5 | 477,000 s, 9,900 s and 900 s ahead read "5d 12h 30m", "2h 45m" and "15m" |
| PoolQuery.FormatProjectData | services/pool/query.ts:23-61 | A record exists if and only if each of the 13 results passes its test (truthy at 0, 1, 8, 9; not undefined elsewhere); field i is result i unchanged |
| PoolQuery.UseGetProject | services/pool/query.ts:122 | No multicall data gives no project; present data gives exactly the formatted record or `null` |
| PoolQuery.ProjectExactlyWhenGettersAcceptable | services/pool/query.ts:28-122 | For the results of the thirteen getters, the hook yields a project if and only if each getter's result passes the test of the field it fills |
| PoolQuery.Multicall | services/pool/query.ts:64-119 | Entry i of the results is what the pool's getter named at position i returns |
| PoolQuery.ReadOrderMatchesFields | services/pool/query.ts:46-118 | The getter requested at position i has the name of the record field filled from position i, for all 13 |
| PoolQuery.FieldsComeFromSameNamedGetter | services/pool/query.ts:46-122 | Whatever the pool returns, each field of the assembled project holds the result of the same-named getter |
| PoolQuery.ShortDataRejected | services/pool/query.ts:28-44 | Fewer than 13 results never make a project |
| PoolQuery.ExtraResultsIgnored | services/pool/query.ts:28-60 | Results after the thirteenth change nothing |
| PoolQuery.ZeroAcceptedEmptyTextRejected | services/pool/query.ts:29-41 | Zero amounts pass, while an empty name (a falsy text field) rejects the record |
| PoolQuery.NullAmountPasses | services/pool/query.ts:31-49 | A `null` amount passes the `=== undefined` test and is copied into the record |
| PhaseCard.PhaseLabel | components/project-card.tsx:27-36 | Phases 0..4 get their table label; every other phase reads "Activo"; never empty |
| PhaseCard.BadgeColor | components/project-card.tsx:77 | Phases 0..4 get their table colour; every other phase gets the phase-0 colour |
| PhaseCard.PhaseLabelRoundTrip | components/project-card.tsx:27-34 | Each phase 0..4 is recovered from its label |
| PhaseCard.PhaseLabelsDistinct | components/project-card.tsx:28-34 | The labels of phases 0..4 are pairwise distinct |
| PhaseCard.UnknownPhaseLooksLikeBuying | components/project-card.tsx:35-80 | An unknown phase gets the label and the colour of phase 0 |
| PhaseCard.ProjectCardView | components/project-card.tsx:38-48 | Soft cap, sold and goal are all 18-decimal amounts, and the time left is `TimeLabel` of the buying-period end |
| PhaseCard.SameScaleKeepsOrder | components/project-card.tsx:42-45 | Amounts on one scale compare, and are equal, exactly as their raw values |
| PhaseCard.CardAmountsCompareLikeRaw | components/project-card.tsx:42-45 | The card's sold, soft cap and goal amounts compare exactly as the on-chain integers |
| PhaseCard.UnknownPhaseCardLikeBuying | components/project-card.tsx:38-80 | A project in an unknown phase is drawn exactly like the same project in phase 0 |
| MockCard.LookupsAreTotal | components/ProjectCard.tsx:14-34 | The status label and colour tables cover all five statuses and the type table covers all three types, with non-empty entries |
| MockCard.StatusLabel | components/ProjectCard.tsx:75 | The status badge's caption is non-empty and names the project's status |
| MockCard.TypeLabel | components/ProjectCard.tsx:67 | The type badge's caption is non-empty and names the project's type |
| MockCard.StatusColor | components/ProjectCard.tsx:71-73 | The status badge's classes are non-empty and identify the project's status |
| MockCard.LabelsRoundTrip | components/ProjectCard.tsx:14-26 | Each status and each type is recovered from its badge label |
| MockCard.StatusLabelInjective | components/ProjectCard.tsx:14-20 | Distinct statuses have distinct labels |
| MockCard.CeilDays | components/ProjectCard.tsx:37 | The ceiling of x / 86,400,000: the least integer whose multiple of a day reaches x |
| MockCard.CalculateDaysLeft | components/ProjectCard.tsx:36-38 | The result is a natural number of days covering deadline − now, and one day fewer would not |
| MockCard.DaysLeftIsLeast | components/ProjectCard.tsx:36-38 | No smaller natural number of days covers the remaining time |
| MockCard.DeadlinePassedGivesZero | components/ProjectCard.tsx:37 | A deadline at or before now gives 0 |
| MockCard.OneMillisecondIsADay | components/ProjectCard.tsx:37 | One millisecond left gives 1 |
| MockCard.WholeDays | components/ProjectCard.tsx:37 | Exactly k days left gives k |
| MockCard.DaysLabel | components/ProjectCard.tsx:103 | "Cerrado" if and only if no days are left, otherwise the number followed by " días" |
| MockCard.DaysLabelInjective | components/ProjectCard.tsx:103 | Different day counts never get the same caption |
| MockCard.MockCardView | components/ProjectCard.tsx:40-103 | The time caption comes from the days left; the badges name the project's own status and type |
| MockCard.ClosedExactlyAfterDeadline | components/ProjectCard.tsx:41-103 | The card reads "Cerrado" if and only if the deadline is not after now |
| ProjectsPage.StatusOptionsMatchCards | app/proyectos/page.tsx:22-29 | "Todos" selects all; option n+1 selects phase n with the label the cards show for phase n |
| ProjectsPage.FilterProjects | app/proyectos/page.tsx:40-49 | A project is in the result if and only if it is in the input and matches both the search and the status; every copy of a kept project stays and no copy of a dropped one does |
| ProjectsPage.MatchesSearch | app/proyectos/page.tsx:41-43 | True exactly when the lower-cased term occurs at some position of the lower-cased name or url |
| ProjectsPage.MatchesStatus | app/proyectos/page.tsx:45-46 | A text selection matches exactly when it is "all"; a numeric one exactly when it equals the project's phase |
| ProjectsPage.FilteredProjects | app/proyectos/page.tsx:37-50 | An absent project list gives an empty result; otherwise the filtered list |
| ProjectsPage.FilterIsSubsequence | app/proyectos/page.tsx:40 | The result keeps the input's order: it is a subsequence |
| ProjectsPage.FilterIdempotent | app/proyectos/page.tsx:40-49 | Filtering the result again changes nothing |
| ProjectsPage.EmptySearchAllShowsEverything | app/proyectos/page.tsx:41-46 | An empty term with "all" returns the input unchanged |
| ProjectsPage.EmptySearchMatches | app/proyectos/page.tsx:41-43 | An empty term matches every project |
| ProjectsPage.PhaseSelectionKeepsThatPhase | app/proyectos/page.tsx:45-46 | With an empty term, status n keeps exactly the projects in phase n |
| ProjectsPage.TextStatusMatchesNothing | app/proyectos/page.tsx:35-46 | A text status other than "all" is never strictly equal to a numeric phase, so nothing is kept |
| ProjectsPage.SearchIgnoresCase | app/proyectos/page.tsx:41-43 | Terms, names and urls that differ only in letter case match alike |
| ProjectsPage.MockIndex | app/proyectos/page.tsx:14-18 | A defined index requires a non-empty image list and lies strictly between −count and count |
| ProjectsPage.ImageMockFromAddress | app/proyectos/page.tsx:14-19 | An image is found exactly when the index is defined and not negative, and it is the image at that index |
| ProjectsPage.AddressNumber | app/proyectos/page.tsx:16-17 | The number read from the last eight characters of the address lies strictly between −16^8 and 16^8, or is NaN |
| ProjectsPage.MockIndexIgnoresCase | app/proyectos/page.tsx:15-18 | Addresses equal up to letter case get the same index |
| ProjectsPage.ImageIgnoresCase | app/proyectos/page.tsx:16 | Addresses equal up to letter case get the same image |
| ProjectsPage.ImageOfLowercaseAddress | app/proyectos/page.tsx:16 | A checksummed address and its lower-case form get the same image |
| ProjectsPage.AddressNumberOfWellFormed | app/proyectos/page.tsx:16-17 | For "0x" plus 40 hexadecimal digits, the parsed number is the value of the last eight digits |
| ProjectsPage.WellFormedAddressImage | app/proyectos/page.tsx:14-19 | For a well-formed address and a non-empty list, the image is the one at (value of the last 8 digits) mod the length |
| Auth.LowerAll | lib/auth.ts:9-11 | The mapped list has the same length, and entry i is the lower-cased entry i |
| Auth.AdminAddressesAreLowercase | lib/auth.ts:9-11 | Every allow-list entry is in lower case |
| Auth.IsAdmin | lib/auth.ts:87 | A subject is an administrator if and only if it equals a configured address when letter case is ignored |
| Auth.ConfiguredAddressIsAdmin | lib/auth.ts:86-88 | The configured address, in any letter case, is an administrator |
| Auth.AdminCheckIgnoresCase | lib/auth.ts:87 | Subjects equal up to letter case are both administrators or neither |
| Auth.Authorize | lib/auth.ts:38-65 | A user, whose id is the parsed address, exactly when both fields are non-empty, the message parses and verification succeeds; null on failure or any thrown error |
| Auth.IncompleteCredentialsNeverVerified | lib/auth.ts:41-43 | With a missing or empty field the result is null, whatever the parser and verifier would do |
| Auth.UnparsableMessageNeverVerified | lib/auth.ts:46-64 | A message that fails to parse gives null, whatever the verifier would do |
| Auth.AddressIsUserName | lib/auth.ts:80-83 | After the callback, the address and the user's name are both the token's subject |
| Auth.AdminFlagFollowsSubject | lib/auth.ts:86-88 | A truthy subject sets the flag to its allow-list membership; an absent or empty subject leaves the flag as it was |
| Auth.SessionCallbackIdempotent | lib/auth.ts:78-91 | Running the callback twice with the same token gives the same session as running it once |
| Auth.AdminFlagOfFreshSession | lib/auth.ts:86-88 | From a fresh session, the flag is true exactly for a non-empty subject on the allow-list, and stays unset without a subject |
| Auth.Session.constructor | lib/auth.ts:78 | The session handed to the callback starts with no address and no administrator flag |
| Auth.Session.ApplySessionCallback | lib/auth.ts:78-91 | Updates the session object in place: address, user name and flag as the callback sets them, expiry untouched, and the new state is `SessionAfter` of the old |
| AdminPage.AdminDashboard | app/admin/page.tsx:27-92 | Each of the four screens is shown exactly under its guard, checked in order: loading, then not connected or no session, then no true administrator flag |
| AdminPage.LoadingShowsLoader | app/admin/page.tsx:31-40 | While loading, the loader is shown whatever the other inputs are |
| AdminPage.UnsetFlagDenied | app/admin/page.tsx:63-90 | An unset administrator flag is denied like a false one |
| AdminPage.PanelOnlyForAdmins | app/admin/page.tsx:31-92 | For a session built by the callback, the panel is shown exactly when not loading, connected, and the subject is non-empty and on the allow-list |
| AdminPage.ServeAdminDashboard | app/admin/page.tsx:31-92 | Builds the session object, runs the callback on it and applies the gate: panel exactly for connected administrators, denial exactly for other connected, non-loading users |
| JsStrings.LowerChar | app/proyectos/page.tsx:42 | A folded capital becomes the character 32 code points above it (its small letter), the result is never a folded capital, and other characters are unchanged |
| JsStrings.Lower | app/proyectos/page.tsx:42 | `toLowerCase` keeps the length and lower-cases each character |
| JsStrings.LowerOfLowercase | lib/auth.ts:87 | A string without capitals is unchanged by lower-casing |
| JsStrings.LowerIdempotent | app/proyectos/page.tsx:42-43 | Lower-casing twice equals lower-casing once |
| JsStrings.LowerAppend | app/proyectos/page.tsx:16 | Lower-casing distributes over concatenation |
| JsStrings.Includes | app/proyectos/page.tsx:42-43 | `includes` is true if and only if the needle occurs at some position |
| JsStrings.IncludesEmpty | app/proyectos/page.tsx:42-43 | Every string includes the empty string |
| JsStrings.Join | utils/get-time.tsx:44 | No parts join to "" and one part joins to itself; `SplitJoin` shows the separator between parts can be split off again |
| JsStrings.SplitJoin | utils/get-time.tsx:44 | Splitting a join of space-free parts on the separator gives the parts back |
| JsStrings.NumberToString | utils/get-time.tsx:33-41 | The decimal text of a natural number is never empty |
| JsStrings.NumberToStringDenotes | utils/get-time.tsx:33-41 | The decimal text of n is a non-empty digit string, without a leading zero unless n is 0, whose value is n |
| JsStrings.NumberToStringInjective | components/ProjectCard.tsx:103 | Different numbers have different decimal texts |
| JsStrings.ParseIntHex | app/proyectos/page.tsx:17 | `parseInt(s, 16)` yields a number strictly between −16^|s| and 16^|s|, or NaN |
| JsStrings.ParseIntHexOfNegated | app/proyectos/page.tsx:17 | A minus sign before a run of hexadecimal digits negates its value |
| JsStrings.ParseIntHexOfDigits | app/proyectos/page.tsx:17 | `parseInt(s, 16)` of a non-empty hexadecimal digit string is the number it denotes |
| JsStrings.LeadingHexDigits | app/proyectos/page.tsx:17 | The prefix `parseInt` reads is a run of hexadecimal digits that stops only at a non-digit or the end |
| JsStrings.ReplaceFirst | app/proyectos/page.tsx:16 | Without an occurrence of the pattern the text is unchanged; otherwise only its first occurrence is replaced |
| JsStrings.SliceLast | app/proyectos/page.tsx:17 | `slice(-k)` is the last k characters, or the whole string when it is shorter |
| JsStrings.JsRemainder | app/proyectos/page.tsx:18 | `%` takes the dividend's sign: in [0, n) for a non-negative dividend, in (−n, 0] otherwise, and the dividend is the truncated quotient times n plus the remainder, which fixes the value |
| JsStrings.JsRemainderOfNegatives | app/proyectos/page.tsx:18 | −16 % 16 is 0, while −17 % 16 and −1 % 16 are −1 |

## Left out

- The transaction hooks (pool, tokenizer and stablecoin writes) are left out. They are asynchronous wallet writes with receipt polling and render-time closures, so they have no sequential behaviour to state.
- The read hooks for the stablecoin and the tokenizer, the contract configurations and the ABIs are left out. They are library wrappers and constants.
- `useReadContracts` is represented only by `PoolQuery.Multicall`: its entries are taken to be the getters' results. Network failures show up only as `undefined` results.
- `useGetAllProjects` is imported by the list page but is not defined in services/pool/query.ts. The list is modelled as `PoolQuery.ProjectListing` values: the `Project` fields at their declared types plus the pool address and the current phase.
- `dataMock` (data/images) is not part of this model. The image list is a parameter of `ProjectsPage.ImageMockFromAddress`.
- `formatUnits` is kept symbolic (`PhaseCard.Units`, and the number it stands for, `PhaseCard.Amount`). Its decimal text is not modelled.
- `formatDate` and `formatDateTime` are left out. They are locale-dependent date formatting.
- Parsing a SIWE message and verifying its signature (EIP-4361) are left out. They are function parameters of `Auth.Authorize`, each able to report a thrown error.
- The progress bar, the return percentage's float text, the dashboard's return-on-investment figure and the project creation form are left out. They are floating point or form state.
- The upload route, the navigation bar, the landing page and the provider wiring are left out. They are HTTP I/O and static layout.
- JsStrings.Lower: folds only Basic Latin and Latin-1 capitals. Other scripts' case mappings, and mappings that change the length, are not modelled. Hexadecimal addresses lie in that range; project names, urls and search terms are free text and are assumed to, so capitals outside it that the page matches case-insensitively are matched case-sensitively by the model.
- JsStrings.ParseIntHex: NaN is `None`. Negative zero is the integer 0, and numbers are unbounded integers, not doubles.
- GetTime.FormatTime: numbers are exact integers. `Number(bigint)` rounding above 2^53 is not modelled. A target outside the range of a JavaScript Date gives "NaNm", as the Invalid Date makes every test fail.
- PoolQuery.FormatProjectData: JavaScript values are modelled without NaN and −0, which are also falsy.
- MockCard.CalculateDaysLeft: the deadline and the clock are whole milliseconds. Fractional inputs are not modelled.
- MockCard.MockCardView: the images, location, amounts and return figure are shown as they are and are not part of the modelled card.
- AdminPage.AdminDashboard: the panel's tabs and their contents are not modelled, only which screen is chosen.
