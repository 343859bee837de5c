# Event form timing and route gating

This project models two pieces of decision and formatting logic of a
campus web application.

The first is the event create/edit form in `components/events/EventForm.js`:
- `toTimeString` turns a picked time into `HH:MM`.
- `formatForSubmission` joins a picked calendar date and a time string into
  the local value `YYYY-MM-DDTHH:MM`, or `""` when either half is missing.
- The submit handler reads both composed values back and runs three checks
  in order: unreadable, then end before start, then (for a new event only)
  start in the past. Only then does it send the data, with the event id
  when an existing event is edited.
- The date pickers refuse every day before local midnight of the day the
  form was mounted. Picking a date closes that side's popover.

The second is the request middleware in `middleware.js`:
- Locale handling runs for every path that does not start with the text
  `/api`.
- The session-protection call is made exactly when the path matches none
  of the public route patterns.

Modules:
- `Decimal` (`decimal.dfy`) has `String(n)`, `padStart(2, "0")` and reading
  digits back.
- `EventTime` (`event_time.dfy`) has the date record, the two helpers, the
  reading of a composed value, and the submission checks.
- `EventForm` (`event_form.dfy`) has the form state as a class whose methods
  are the handlers, and the submit method.
- `Middleware` (`middleware.dfy`) has an explicit route-pattern matcher, the
  pattern list verbatim, the handler, and a segment-by-segment description
  of the public routes proved equivalent to the pattern list.

A JavaScript `Date` is modelled as the values of its local getters:
`Moment(year, month0, day, hour, minute, second, millis)`, where `month0` is
`getMonth()` (0-based). Date comparison (`<`, `>`) is the lexicographic order
of those fields.

`new Date(s)` is modelled only on the strings the form itself produces.
`ParseLocal` reads exactly `YYYY-MM-DDTHH:MM` with a four-digit year, an
existing day of that month, an hour below 24 and a minute below 60. Every
other string counts as an invalid date (a NaN time).

The pattern matcher follows this grammar:
- `:locale` stands for one non-empty path segment without `/`;
- `(.*)` stands for any remainder, possibly empty;
- every other character stands for itself.

## Model

| member | source | states |
|---|---|---|
| Decimal.NatToString | components/events/EventForm.js:34-35 | `String(n)` is a non-empty string of decimal digits, with a leading zero only for 0 |
| Decimal.IntToString | components/events/EventForm.js:42-45 | the year is written unpadded: a '-' exactly when it is negative, then decimal digits with a leading zero only for 0, which read back as the year's absolute value |
| Decimal.PadStart2 | components/events/EventForm.js:34-35 | `padStart(2, "0")` gives length max(2, \|s\|), ends with s, and has only zeros in front of it |
| Decimal.NatToStringRoundTrip | components/events/EventForm.js:34-35 | reading `String(n)` back as digits gives n |
| Decimal.LeadingZeroValue | components/events/EventForm.js:34-35 | a zero put in front by padding does not change the value read back |
| Decimal.Pad2 | components/events/EventForm.js:34-35 | `String(n).padStart(2, "0")`; a definition without a contract, whose shape and read-back `TwoDigits` states |
| Decimal.TwoDigits | components/events/EventForm.js:34-35 | for n < 100 the padded numeral is exactly two digits and reads back as n |
| Decimal.FourDigits | components/events/EventForm.js:42-45 | the unpadded year has exactly four digits iff 1000 <= year <= 9999, fewer below, more above |
| EventTime.Before | components/events/EventForm.js:98-104 | Date `<`/`>` as the lexicographic order of the local fields; a definition without a contract, whose order properties `BeforeIsStrictTotalOrder` states |
| EventTime.BeforeIsStrictTotalOrder | components/events/EventForm.js:98-104 | the comparison is irreflexive, asymmetric, transitive and total on distinct moments, so `start > end` and `start < now` are strict tests |
| EventTime.StartOfDay | components/events/EventForm.js:49-52 | the floor keeps year, month and day, zeroes the clock fields, and is valid and not after the moment it came from |
| EventTime.ToTimeString | components/events/EventForm.js:32-37 | the result is "" exactly when there is no date |
| EventTime.ToTimeStringRoundTrip | components/events/EventForm.js:32-37 | for a valid date the time string is exactly 5 characters and reads back as the date's hour and minute |
| EventTime.FormatForSubmission | components/events/EventForm.js:39-46 | "" exactly when the date is absent or the time string is empty; otherwise the result ends with 'T' followed by the time string unchanged |
| EventTime.DatePart | components/events/EventForm.js:42-45 | the date half of a composed value; a definition without a contract, whose read-back `DatePartRoundTrip` and `DatePartUnreadable` state |
| EventTime.DatePartRoundTrip | components/events/EventForm.js:42-45 | year, zero-padded getMonth()+1 and zero-padded day, joined by '-', are 10 characters that read back as that calendar day |
| EventTime.YearTextNotFourDigits | components/events/EventForm.js:42 | the text of a year outside 1000..9999 has a sign, fewer than four characters, or a fifth digit |
| EventTime.UnreadableYearField | components/events/EventForm.js:87-88 | a value whose year field is not four digits is not a readable date |
| EventTime.DatePartUnreadable | components/events/EventForm.js:42-45 | with a year outside 1000..9999 the composed value is never readable |
| EventTime.ParseClock | components/events/EventForm.js:87-88 | a time that is read has hour < 24 and minute < 60 |
| EventTime.ParseDate | components/events/EventForm.js:87-88 | a date that is read has a month 0..11 and a day that exists in that month |
| EventTime.ParseLocal | components/events/EventForm.js:87-88 | a value that is read is a valid moment with zero seconds and milliseconds, read from exactly 16 characters |
| EventTime.ReadComposed | components/events/EventForm.js:87-88 | a ten-character date part, 'T' and a time string are read field by field |
| EventTime.ComposeFourDigitYear | components/events/EventForm.js:39-46 | with a four-digit year the composed value reads back as the date's day combined with whatever the time string reads as |
| EventTime.ComposeOtherYear | components/events/EventForm.js:39-46 | with any other year the composed value is unreadable |
| EventTime.ComposeRoundTrip | components/events/EventForm.js:39-46 | composing a valid date with a time string and reading it back gives that day at the time string's hour and minute, exactly when the year has four digits and the time string is `HH:MM`; otherwise it is unreadable |
| EventTime.ComposeWithTimeString | components/events/EventForm.js:75-82 | a picked date with the time string of a picked time reads back as that day at that hour and minute |
| EventTime.ValidateSubmission | components/events/EventForm.js:87-107 | Invalid iff either value is unreadable; EndBeforeStart iff both read and end < start; StartInPast iff both read, end is not before start, not editing, and start < now; accepted values are the read ones, ordered, and not in the past unless editing |
| EventTime.IncompleteIsInvalid | components/events/EventForm.js:87-97 | a missing date or empty time on either side is rejected as invalid, whatever the other checks would say |
| EventTime.EditingIgnoresNow | components/events/EventForm.js:103-107 | when editing, the verdict does not depend on the clock and is never StartInPast |
| EventTime.March5th2024 | components/events/EventForm.js:42-45 | the date part of 5 March 2024 is `2024-03-05` |
| EventTime.ExampleCompose | components/events/EventForm.js:39-46 | 5 March 2024 with "09:05" composes to `2024-03-05T09:05` |
| EventTime.SameDayEarlierEndRefused | components/events/EventForm.js:98-101 | two times picked on the same day, the end's earlier, are refused as end-before-start, whether editing or not |
| EventTime.BoundariesAccepted | components/events/EventForm.js:98-107 | an end equal to the start and a start equal to now are both accepted |
| EventTime.PastIntervalOnlyWhenEditing | components/events/EventForm.js:103-107 | a readable ordered interval starting before now is accepted when editing and refused as StartInPast when creating |
| EventForm.EventFormState.constructor | components/events/EventForm.js:55-73 | dates start at the initial event's values or now; times are the initial values' time strings or ""; both popovers are closed |
| EventForm.EventFormState.IsEditing | components/events/EventForm.js:53 | `!!initialEvent?.id`; a definition without a contract, whose effect `Submit` states (the id is sent iff editing) and `EditingIgnoresNow` states (no past check) |
| EventForm.EventFormState.TodayStart | components/events/EventForm.js:49-52 | local midnight of the mount day is valid and not after the mount moment |
| EventForm.EventFormState.IsDisabled | components/events/EventForm.js:247 | a day is disabled iff its calendar date is before the mount day |
| EventForm.EventFormState.StartsAtValue | components/events/EventForm.js:75-78 | the start value is non-empty iff a start date and a start time are both set |
| EventForm.EventFormState.EndsAtValue | components/events/EventForm.js:79-82 | the end value is non-empty iff an end date and an end time are both set |
| EventForm.EventFormState.SelectStartDate | components/events/EventForm.js:248-251 | sets the start date and closes the start popover; every other field is unchanged |
| EventForm.EventFormState.SelectEndDate | components/events/EventForm.js:326-329 | sets the end date and closes the end popover; every other field is unchanged |
| EventForm.EventFormState.ChangeStartTime | components/events/EventForm.js:267 | sets the start time only |
| EventForm.EventFormState.ChangeEndTime | components/events/EventForm.js:345 | sets the end time only |
| EventForm.EventFormState.SetOpenStart | components/events/EventForm.js:216 | sets the start popover flag only |
| EventForm.EventFormState.SetOpenEnd | components/events/EventForm.js:294 | sets the end popover flag only |
| EventForm.EventFormState.Submit | components/events/EventForm.js:84-112 | blocked with exactly the reason the checks give; the upsert is reached iff all three checks pass, carries the two composed values, and carries the initial id iff editing |
| Middleware.LeadingSegment | middleware.js:11-21 | the segment `:locale` takes is a prefix of the path without '/', followed by '/' or the end of the path |
| Middleware.Match | middleware.js:10-23 | the three-rule route-pattern grammar; a definition without a contract, whose rules `MatchPlain`, `MatchLocale` and `MatchAnySuffix` state |
| Middleware.AnyMatches | middleware.js:10-23 | the list test; a definition without a contract, which `AnyMatchesExists` proves equal to "some pattern in the list matches" |
| Middleware.IsPublicRoute | middleware.js:10-23 | the public-route matcher; a definition without a contract, which `PublicRouteCharacterization` proves equal to the segment rules |
| Middleware.IsApiRoute | middleware.js:27 | `startsWith('/api')`, a plain prefix test; a definition without a contract, whose consequences `Handle`, `ApiaryIsApiRoute` and `ApiPrefixedSegmentProtected` state |
| Middleware.Handle | middleware.js:25-44 | locale handling runs iff the path does not start with `/api`, and it runs first; its response is returned iff it runs; protection is called iff the path is not public; at most these two calls are made |
| Middleware.Evaluate | middleware.js:25-44 | applyLocale iff the path does not start with `/api`; requiresAuth iff the path is not public |
| Middleware.MatchPlain | middleware.js:10-23 | a literal without `:` or `(` matches exactly its own text |
| Middleware.MatchAnySuffix | middleware.js:11-20 | `(.*)` matches any remainder, including the empty one |
| Middleware.MatchSectionPattern | middleware.js:11-19 | `/:locale/<section>(.*)` matches iff the path has a non-empty first segment and the rest starts with '/' and the section name |
| Middleware.MatchLocaleOnly | middleware.js:21 | `/:locale` matches iff the path is '/' and one non-empty segment |
| Middleware.MatchApiPattern | middleware.js:20 | `/api/(.*)` matches iff the path starts with `/api/` |
| Middleware.MatchRoot | middleware.js:22 | `/` matches only the root path |
| Middleware.AnyMatchesExists | middleware.js:10-23 | the first-match test over the list holds iff some pattern in the list matches |
| Middleware.PatternOrderIrrelevant | middleware.js:10-23 | any reordering or repetition of the public patterns accepts the same paths |
| Middleware.PublicPatternsShape | middleware.js:11-19 | each of the first nine patterns is the section pattern of one public section (checked entry by entry in helper lemmas) |
| Middleware.PublicSectionsPlain | middleware.js:11-19 | no section name contains a character with meaning in a pattern |
| Middleware.TrailingPatterns | middleware.js:20-22 | the last three patterns are `/api/(.*)`, `/:locale` and `/` in the grammar's terms |
| Middleware.PublicRouteSound | middleware.js:10-23 | every path some pattern matches is the root, under `/api/`, a bare locale, or a locale followed by a public section |
| Middleware.PublicRouteComplete | middleware.js:10-23 | every path of those four kinds matches some pattern |
| Middleware.PublicRouteCharacterization | middleware.js:10-23 | a path is public iff it is of those four kinds |
| Middleware.LeadingSegmentOf | middleware.js:21 | the leading segment of a segment followed by '/' or by nothing is that segment |
| Middleware.ApiPathsPassThrough | middleware.js:40-44 | every path under `/api/` makes no call and passes through |
| Middleware.LocalePathPublic | middleware.js:10-23 | `/<locale>/<rest>` with a first segment other than `api` is public iff a public section name starts the rest |
| Middleware.LocalePathHandling | middleware.js:29-38 | for `/<locale>/<rest>` with a locale not starting with `api`, locale handling runs and its response is returned, and protection is called iff no public section name starts the rest |
| Middleware.LocalePathNotApi | middleware.js:27 | `/<locale>/<rest>` with a locale that does not start with `api` fails the `/api` prefix test |
| Middleware.ListedSectionPublic | middleware.js:11-19 | under a locale, a rest starting with a public section name is public |
| Middleware.UnlistedSectionProtected | middleware.js:33-35 | under a locale, a rest starting with a letter no section name starts with is not public |
| Middleware.LocaleRootPublic | middleware.js:21-29 | a bare `/<locale>` is public, and locale handling runs for it iff the locale does not start with `api` |
| Middleware.ApiaryIsApiRoute | middleware.js:27 | `/apiary` is caught by the `/api` prefix test: no locale handling, and public through `/:locale` |
| Middleware.ApiPrefixedSegmentProtected | middleware.js:40-44 | below a first segment that starts with `api` but is not `api`, locale handling is skipped, and protection is called iff no public section name starts the rest |
| Middleware.ExampleApiEvents | middleware.js:20 | `/api/events` makes no call |
| Middleware.LocaleEventsPage | middleware.js:12 | `/<locale>/events/<id>`, for a locale that does not start with `api`, runs locale handling and needs no session |
| Middleware.LocaleDashboardPage | middleware.js:33-35 | `/<locale>/dashboard`, for a locale that does not start with `api`, runs locale handling and is protected |
| Middleware.ExampleRoot | middleware.js:22 | `/` runs locale handling and needs no session |

## Left out

- `app/api/events/route.js` is not part of this model. It is a database query plus HTTP response and CORS headers.
- `data/guideCards.js` is not part of this model. It is a static content table.
- StartOfDay: keeps the year as it is. JavaScript's `new Date(y, m, d)` reads a year 0..99 as 1900 + y, which a real clock reading never gives; that case is not modelled.
- Time zones, daylight-saving gaps and the underlying millisecond clock are not modelled. Dates are compared by their local calendar fields.
- ParseLocal: reads only the `YYYY-MM-DDTHH:MM` form with a four-digit year. Engines differ on other years and on extended forms such as `+010000-01-01T00:00`, so those values count as unreadable here. Seconds and `24:00` are not accepted. The form never produces those forms from a time input.
- EventFormState.constructor: the initial `startsAt`/`endsAt` are taken as already-converted dates. The conversion `new Date(initialEvent.startsAt)` of a stored value is not modelled.
- EventFormState.IsEditing: the id is a string, truthy when non-empty. A numeric id of 0 is not modelled.
- The other form fields are not modelled: title, place, description and `detailsJson`. Neither are the `FormData` built from them, `upsertEventAction` and its errors, `alert`, `console.error`, the redirect through `window.location`, and the JSX markup.
- React's `useState`/`useMemo` re-rendering is not modelled. State is plain fields, and memoised values are functions of them.
- The clock is a parameter. `now` at submit time and the mount time of the form are passed in, not read.
- Clerk's `auth.protect()` and the next-intl middleware are modelled only as "called" or "not called". Their redirects, rewrites and locale negotiation are not.
- The framework `config.matcher` regex at `middleware.js:49`, which decides whether the middleware runs at all, is not modelled.
- Match: follows the stated three-rule grammar. The route-pattern library's case-insensitive matching, its optional trailing slash and the rest of its syntax are not modelled.
