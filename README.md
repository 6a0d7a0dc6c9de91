# OKX VIP Telegram bot — a Dafny model

The bot guards a Telegram VIP group for people referred to the OKX exchange.
When someone asks to join, the bot writes to them in private and asks for
their OKX UID. It then does one of two things:

- it admits them when the UID is confirmed by OKX's affiliate "invitee
  detail" endpoint;
- it admits them when they send a secret bypass code.

Every record lives in one in-memory dictionary, `user_db`. Five scheduled
jobs walk that dictionary. They are meant to look up each tracked user's
monthly trading volume and send progress reports. The 30-day job is meant to
compare the volume with 25000 USDT, and the 58-day job to ban users below
50000 USDT. As written, every message text raises before it is sent, so the
jobs message and ban nobody (see "## Findings"). The model states both the
intended jobs and the jobs as written.

The model has nine modules:

- `Optional`: the `Option` type.
- `Decimal`: fixed-width digit fields.
- `CivilTime`: the proleptic Gregorian calendar that Python's `datetime`
  uses.
- `Timestamp`: the OKX request timestamp `YYYY-MM-DDTHH:MM:SS.mmmZ`
  (RFC 3339 section 5.6, UTC). It is taken from the exchange's clock, with
  the local clock as the fallback. Its partner is the parser the exchange
  applies to it.
- `OkxSigning`: the pre-hash string, the HMAC-SHA256/Base64 signature and
  the signed invitee-detail request. Its partner is an `Authenticates`
  predicate, which is the exchange's own check of the headers.
- `UserDb`: records, lookup replies and the outward actions.
- `Admission`: the admission decision of `handle_private`.
- `Jobs`: the job loops, as intended and as written.
- `Bot`: the class `VipBot`, which holds `user_db` (a map, plus its
  insertion order) and has the three entry points.

Telegram calls and affiliate lookups become a list of `Action`s, in the
order the source performs them. The network is a parameter:

- an affiliate lookup is a function `string -> AffiliateReply`, where the
  `Raised` reply means the call raised;
- the time endpoint's reply is a `TimeReply`;
- the local clock is an argument in microseconds;
- Python's `float` on a string is a function `string -> Option<real>`;
- HMAC-SHA256, Base64 and UTF-8 encoding are function-valued fields of a
  `Crypto` value. Nothing is assumed about them.

## Model

| member | source | states |
|---|---|---|
| Decimal.Pad | bot.py:46 | a `%Y`/`%m`/`%d`/`%H`/`%M`/`%S`/`%f` field is exactly `w` decimal digits |
| Decimal.ValueOfPad | bot.py:46 | reading a zero-padded field back gives the number that was rendered |
| Decimal.PadOfValue | bot.py:46 | every digit string of width `w` is the padding of its own value (fields are unique) |
| CivilTime.YearStep | bot.py:45 | each year starts where the previous one ends (`_days_before_year` agrees with year lengths, leap rule included) |
| CivilTime.YearsIncrease | bot.py:45 | later years start later |
| CivilTime.OrdinalInYear | bot.py:45 | the day number of a date lies inside its year |
| CivilTime.YearOf | bot.py:45 | the year found for a day count contains it, with the day's offset into that year |
| CivilTime.MonthOf | bot.py:45 | the month found for a day of the year contains it |
| CivilTime.CivilFromOrdinal | bot.py:45 | the date computed from a day count is a valid date with that day count; below year 10000 it stays at most 9999 |
| CivilTime.OrdinalInjective | bot.py:45 | two valid dates with the same day count are equal |
| CivilTime.CivilOfOrdinal | bot.py:45 | date → day count → date is the identity |
| Timestamp.FromMicros | bot.py:45 | `datetime.fromtimestamp` yields a valid broken-down time that denotes the given instant |
| Timestamp.FromMicrosOfToMicros | bot.py:45 | every valid broken-down time comes from exactly one in-range instant |
| Timestamp.RenderMillis | bot.py:46 | `strftime(...)[:-3] + "Z"` is 24 characters: the padded fields with the `%f` field cut to its first three digits (milliseconds), then `Z` |
| Timestamp.MicrosPrefix | bot.py:46 | the first three digits of the six-digit `%f` field are the milliseconds |
| Timestamp.RenderFields | bot.py:46 | the separators `- - T : : . Z` sit at positions 4, 7, 10, 13, 16, 19, 23 and each field sits between them |
| Timestamp.IsoMillis | bot.py:45-46 | the timestamp of an instant is 24 characters long |
| Timestamp.IsoLayout | bot.py:45-46 | the timestamp of an instant has the RFC 3339 layout and its millisecond field is the instant's milliseconds mod 1000 |
| Timestamp.ParseOfIso | bot.py:45-46 | the exchange reads a rendered timestamp back as the instant truncated to the millisecond |
| Timestamp.IsoOfParse | bot.py:45-46 | every timestamp the exchange accepts is the rendering of the instant it reads (rendering and parsing are inverse) |
| Timestamp.TruncateMicros | bot.py:46 | dropping sub-millisecond digits leaves a valid time with the same millisecond instant |
| Timestamp.ParseInt | bot.py:45 | `int(ts_ms)` of a string of digits, with an optional `-` or `+` in front, is the (signed) decimal value of the digits; any other string raises |
| Timestamp.ParseIntOfPad | bot.py:45 | rendering a count in decimal, with or without a minus sign, and parsing it with `int` gives the count back |
| Timestamp.ServerMillis | bot.py:44-45 | `int(r.json()["data"][0]["ts"])` raises exactly when the reply has no first `ts` entry or that entry is not an integer |
| Timestamp.ServerMillisOfDigits | bot.py:44-45 | a reply whose first `ts` is the decimal text of `n` yields `n` milliseconds |
| Timestamp.Strftime | bot.py:46 | `strftime("%Y-%m-%dT%H:%M:%S.%f")` is 26 characters and ends with the dot and the six-digit microsecond field |
| Timestamp.ServerTimeIso | bot.py:40-48 | when the time request returns, `get_okx_server_time_iso` yields a 24-character timestamp, whichever branch of its `try` is taken |
| Timestamp.ServerTimeMeaning | bot.py:40-48 | the timestamp reads back as the exchange's `ts` when that parses and is in range, otherwise as the local clock truncated to milliseconds; in the first case its millisecond field is `ts mod 1000` |
| OkxSigning.PreHashSplits | bot.py:52 | the 24-character timestamp is exactly the front of the signed message, followed by method, path and body |
| OkxSigning.SignOkx | bot.py:50-59 | `sign_okx` returns a 24-character timestamp that reads back as the exchange's clock when its reply parses and is in range, otherwise as the local clock; the signature is the Base64 HMAC-SHA256, under the secret, of a message that starts with that same timestamp and continues with method, path and body |
| OkxSigning.HeaderAt | bot.py:65-71 | helper for the header lookup: a header is found by name when no earlier header has that name |
| OkxSigning.SignedHeaders | bot.py:65-71 | the key, signature, timestamp and passphrase headers carry the account's key, the signature, the signing timestamp and the passphrase |
| OkxSigning.DetailUrl | bot.py:62-73 | the request URL is the host followed by the signed path, and it names the UID asked about |
| OkxSigning.DetailRequest | bot.py:61-75 | the invitee-detail request is a GET for exactly that UID and passes the exchange's check: its signature is over the timestamp it sends, `GET`, the URL's path and an empty body; the timestamp header is `get_okx_server_time_iso`'s |
| UserDb.VolumeText | bot.py:151 | `data[0].get("volMonth") or "0"` is defined exactly when `data` is a non-empty list, and it is never empty |
| UserDb.ForMembers | bot.py:179-278 | helper for reading a trace per user: the actions addressed to a user are exactly the actions that name that user |
| UserDb.ForConcat | bot.py:179-278 | helper for reading a trace per user: the actions for a user in two runs put one after the other are that user's actions in the first run, then in the second |
| Admission.TrimStartMeaning | bot.py:103 | `lstrip` keeps the longest suffix that does not start with whitespace, and drops only whitespace |
| Admission.TrimEndMeaning | bot.py:103 | `rstrip` keeps the longest prefix that does not end with whitespace, and drops only whitespace |
| Admission.Strip | bot.py:103 | the stripped text is no longer than the message and neither starts nor ends with whitespace |
| Admission.StripSlice | bot.py:103 | the stripped text is the slice of the message between its leading and trailing whitespace |
| Admission.StripIdempotent | bot.py:103 | stripping a stripped text changes nothing |
| Admission.NumericText | bot.py:135-142 | a text `isnumeric` accepts is the zero-padded decimal of its value, and `strip` leaves it as it is, so the UID looked up is the digits as typed |
| Admission.BypassCodeIsNumeric | bot.py:33 | the bypass code is all digits, so only the order of the checks keeps it from a lookup |
| Admission.JoinRecord | bot.py:89-90 | a join request sets `requested_at` to now and keeps any existing `uid` and `ingreso`; a new record has neither |
| Admission.Decide | bot.py:101-175 | only an admission approves, and it approves the sender; every action is a lookup or concerns the sender; nobody is admitted without a join request on record; `uid = None` is stored exactly for the bypass code; an admission always writes `uid` |
| Admission.Respond | bot.py:103-175 | the sequence of checks performs exactly the actions, and admits with exactly the `uid` value, that `Decide` gives for the stripped text |
| Admission.DecideLookup | bot.py:135-175 | a UID is stored exactly when the text is numeric, is not the bypass code, and its lookup accepted it; the stored UID is the text; a lookup is made only for such a text, first and once |
| Admission.Apply | bot.py:131-175 | after a private text the dictionary has the same keys; only the sender's `uid` and `ingreso` change, and only on admission |
| Admission.UnrequestedRefused | bot.py:105-109 | without a join request on record, any text gets the "ask first" reply and nothing else |
| Admission.BypassAdmits | bot.py:111-133 | the bypass code approves, replies and welcomes in the group, with no lookup, and stores `uid = None` |
| Admission.NonNumericRefused | bot.py:135-139 | a text that is neither the code nor numeric, the empty text included, gets a format reply only |
| Admission.LookupRaised | bot.py:141-142 | a lookup that raises ends the handler with no reply and no change |
| Admission.LookupRefused | bot.py:144-149 | a `code` other than `"0"`, or a missing or empty `data`, yields the rejection reply only |
| Admission.LookupAdmits | bot.py:151-175 | an accepted lookup approves, replies with `volMonth` (`"0"` if missing or empty) and welcomes in the group, in that order, and stores the UID |
| Jobs.VolumeAmount | bot.py:219 | `float(data[0].get("volMonth") or 0)` raises exactly where the reported text does or where `float` does; otherwise it is the float of that text, the default reading as 0 |
| Jobs.UserStep | bot.py:181-259 | one user's loop body as intended: users without a UID string are skipped; the others are looked up first by their stored UID; everything after the lookup concerns that user; an exception leaves only the lookup; only the 58-day job bans |
| Jobs.Trace | bot.py:180-194 | one firing as intended: each user contributes at most a lookup, a message and a ban |
| Jobs.TraceFromStep | bot.py:180-194 | helper for the loop invariant: from any position, a firing is that user's step followed by the rest of the firing, unless the step raised |
| Jobs.TraceFromEnds | bot.py:180-194 | helper for the loop invariant: the rest of a firing read from the start is the whole firing, and read from the end it is empty |
| Jobs.VisitAll | bot.py:179-278 | the job loop over the dictionary in insertion order performs exactly the firing's actions, stopping at the first exception |
| Jobs.VisitUser | bot.py:181-259 | one user's loop body performs exactly that user's step, and reports whether it raised |
| Jobs.OnlyTrackedUsers | bot.py:180-182 | a job looks up only stored UIDs, and messages or bans only users whose record holds a UID string (never bypass users) |
| Jobs.StepAddressesOwner | bot.py:186-194 | one user's step concerns no other user |
| Jobs.EachUserOnce | bot.py:180-278 | when nothing raises, each user receives exactly what its own step addresses to it, wherever it stands in the dictionary order |
| Jobs.Day30OneMessageEach | bot.py:213-240 | the 30-day job sends each tracked user exactly one message: a warning below 25000, a congratulation otherwise; untracked users get nothing |
| Jobs.Day58Step | bot.py:248-259 | one user's 58-day step warns and then bans below 50000 and does nothing to the user otherwise |
| Jobs.Day58BansShortfall | bot.py:242-259 | the 58-day job warns and then bans exactly the tracked users below 50000, and emits nothing for anyone else |
| Jobs.ReportsOneEach | bot.py:179-211 | the 10-day, 20-day and weekly jobs send each tracked user exactly one report with its volume text |
| Jobs.UserStepAsWritten | bot.py:181-259 | one user's loop body as written: an untracked user is skipped; a tracked one is looked up and then the step raises, except on day 58 at or above 50000, where nothing is sent and the loop goes on |
| Jobs.TraceAsWritten | bot.py:180-194 | one firing as written: each user contributes at most its lookup |
| Jobs.AsWrittenOnlyLookups | bot.py:189 | as written, a firing of any job performs lookups only: it never messages or bans anyone |
| Jobs.AsWrittenOneLookup | bot.py:189 | as written, the 10-day, 20-day, 30-day and weekly jobs make at most one lookup |
| Jobs.Day58AsWrittenNeverBans | bot.py:242-259 | users at 60000 and then at 10: the intended 58-day job looks both up, then warns and bans the second; the written one looks both up and raises at the second user's warning |
| Bot.VipBot.constructor | bot.py:36 | `user_db` starts empty |
| Bot.VipBot.OnJoinRequest | bot.py:85-99 | the record of the applicant gets `requested_at = now` (created at the end of the order if new, `uid`/`ingreso` kept otherwise); nobody else's record changes; the applicant is asked for the UID and may now send it |
| Bot.VipBot.HandlePrivate | bot.py:101-175 | the actions are `Decide`'s on the stripped text, and the dictionary becomes `Apply` of its decision; the record invariant is kept and the insertion order does not change |
| Bot.VipBot.RunJob | bot.py:179-278 | one firing of a job performs exactly the intended trace over the dictionary in insertion order and leaves the dictionary unchanged (no `modifies`) |

The record invariant `VipBot.Valid` holds:

- the insertion order lists each key once;
- the order and the map have the same users;
- every record has `requested_at`;
- every record has `ingreso` exactly when it has a `uid` key.

## Left out

- Telegram I/O. `reply_text`, `send_message`, `approve_chat_join_request`
  and `ban_chat_member` are abstract actions that are assumed to succeed.
  `get_chat`, which the intended jobs call before each message, and its
  failure are not modelled; the user's name it supplies and the
  `mention_html` formatting of the group welcome are part of the wording.
  The model also leaves out:
  - their failures, for example approving a user whose request was already
    approved;
  - the message wording and the Markdown/HTML modes;
  - the chat ids.
- `start`, `iniciar_scheduler` (the APScheduler cron wiring) and `main`.
  These are library and event-loop plumbing. A firing of a job is one call
  of `RunJob`. The source schedules the four `aviso_*` jobs every day at
  10:00 and never reads `ingreso`, so a firing covers every tracked user.
- The asyncio concurrency of the handlers, and the dictionary changing
  while a job iterates over it. Each event is handled to completion, one
  at a time.
- HTTP and JSON decoding. Replies arrive already decoded. A reply that is
  not an object, or whose shape makes an expression raise, is `Raised`,
  `Unusable`, or a missing field. A `volMonth` or `data` value of an
  unexpected JSON type is not modelled.
- The internals of HMAC-SHA256, Base64 and UTF-8. They are uninterpreted
  function parameters.
- Timestamp.ServerTimeIso: the float division `int(ts_ms) / 1000` is
  modelled as exact. For realistic millisecond clocks, the double rounding
  that `fromtimestamp` does could change the rendered milliseconds only for
  values far outside today's range.
- Timestamp.Strftime: years below 1000 are zero-padded to four digits.
  Some C libraries' `%Y` does not pad them. Such years cannot come from the
  exchange's clock.
- Admission.IsNumeric: Python's `str.isnumeric` also accepts non-ASCII
  digits and numerals. The model reads it as "non-empty and all ASCII
  decimal digits".
- Timestamp.ParseInt: Python's `int` also accepts surrounding whitespace,
  underscores and non-ASCII digits. The model accepts an optional sign
  followed by ASCII digits.
- Jobs.VolumeAmount: Python's `float` is the parameter `toFloat`. A NaN or
  infinite volume, and the rounding of the decimal text, are whatever
  `toFloat` returns.
- OkxSigning.SignOkx: the `body=""` default is passed explicitly. The only
  caller passes none.
- Timestamp.ServerTimeIso: the request to the time endpoint
  (`requests.get(url, timeout=10)`) comes before the `try`, so its failure
  (a time-out, a connection error) is not caught and does not fall back to
  the local clock. `TimeReply` has no case for it; the model returns a
  timestamp for every reply it has.
- OkxSigning.SignOkx: a failed time request propagates out of `sign_okx`
  and `okx_affiliate_detail`. The model does not show it here; the callers
  see it only as a lookup that raised (`Raised`).
- CivilTime: dates are found by walking years from 0001-01-01, not by the
  C library's `gmtime` that `fromtimestamp` converts through. The date found
  is the unique valid date with that day count (`CivilTime.OrdinalInjective`),
  so the results are the same.
- test_okx_affiliate.py is not part of this model. It is a manual script
  that repeats the signing code and does network I/O.

## Findings

| source | as written | input that shows it | evidently intended | confidence | as-written member | corrected member |
|---|---|---|---|---|---|---|
| bot.py:189 (also 206, 225, 235, 254, 272) | `await context.bot.get_chat(user_id).first_name`: `await` binds looser than the attribute access, so `first_name` is read from the un-awaited coroutine and raises `AttributeError`; in the 10-day, 20-day, 30-day and weekly jobs the loop ends at the first tracked user, right after that user's lookup. The 58-day job has the broken text only in its `< 50000` branch: it goes on past users at or above 50000 and raises at the first user below. No job messages or bans anyone | `user_db = {7: {uid: "1"}, 8: {uid: "2"}}` with volumes 60000 and 10: the 58-day job looks up both users and raises, and user 8 is never warned or banned | `(await context.bot.get_chat(user_id)).first_name`: every tracked user receives its message, and the 58-day job bans below 50000 | high; not executed | Jobs.AsWrittenOnlyLookups, Jobs.Day58AsWrittenNeverBans | Jobs.Day58BansShortfall, Jobs.EachUserOnce |
