# Instagram downloader bot: verified model of its quota and text helpers

This project models the logic inside `bot.py` of a Telegram bot that relays
Instagram posts to users. Everything around it is messaging, scraping and file
I/O. The model covers:

- **The per-user download quota** (`check_rate_limit` and the process-wide
  table `user_downloads`, bot.py:20-56), in `quota.dfy`. The table is the field
  `downloads: map<UserId, Record>` of the class `Quota.DownloadTracker`. Its
  method `CheckRateLimit` updates the table step by step, as the source does.
  It is proved equal to the pure step function `Quota.Evaluate`, and the
  lemmas about `Evaluate` state what one call does and what sequences of calls
  do (`Quota.Run`).
- **The URL check and the shortcode extraction** (bot.py:88 and bot.py:95), in
  `links.dfy`. Both regular expressions are written out by hand over `string`.
  The check is also proved equal to a declarative form of its pattern (one of
  16 literal prefixes, then one shortcode character).
- **The caption and the carousel caption rule** (bot.py:99-104, 121-135), in
  `captions.dfy`. The caption has a parser that reads it back. The media group
  of a carousel is built by a loop method.
- `common.dfy` holds an `Option` type, decimal rendering of a non-negative int
  (as the f-string of bot.py:49 prints `wait_time`), Python's `text[:n]`, and a
  "literal at position" predicate.

Conventions:

- Time is an integer count of microseconds, the resolution of `datetime`. The
  clock read `datetime.now()` (bot.py:25) becomes the parameter `now`. Clocks
  may go backwards: nothing requires `now` to grow.
- `now - last_time > timedelta(days=1)` is `elapsed > 86400 * 1000000`.
- `(now - last_request).seconds` is `(elapsed / 1000000) % 86400`. Dafny's
  `/` and `%` by a positive divisor round toward minus infinity, which is how
  `timedelta` normalises negative spans.
- The two settings (config.py:17-18: 10 downloads a day, 30 seconds apart) are
  `Quota.Settings`; `Quota.Configured` holds the shipped values. A tracker gets
  its settings once, in its constructor, since they do not change while the
  process runs.

Behaviour of the code that the model keeps as written:

- Refusals return (bot.py:43, 49) before the update of bot.py:52-54. So a
  refused request moves neither `last_time` nor `last_request`. Since both are
  set together on admission, the day window is measured from the last
  admitted request, not from the last request seen.
- A rollover reset (bot.py:31) is stored even when the call then refuses.
- `.seconds` drops whole days. A user admitted at `t` who returns at
  `t + 1 day + 10 s` has the count reset and is still told to wait 20 seconds
  (`Quota.OneDayAndTenSecondsLater`). Exactly one day later nothing is reset,
  and `.seconds` is 0.
- The reported wait is `rate_limit - seconds`, which is always between 1 and
  `rate_limit`.

## Model

| member | source | states |
|---|---|---|
| `Quota.TimedeltaSeconds` | bot.py:47 | `.seconds` is below 86400, and for a span between zero and one day it is the whole number of seconds in it |
| `Quota.SecondsIgnoreWholeDays` | bot.py:47-48 | adding any number of whole days to the elapsed time leaves `.seconds` unchanged |
| `Quota.WaitMessage` | bot.py:49 | the refusal text starts with the fixed prefix and ends with the fixed suffix, and what lies between is digits with no leading zero that read back as the wait |
| `Quota.Message` | bot.py:41-56 | the returned message is empty exactly when the request is admitted (the daily-limit text of bot.py:43 and the wait text are never empty) |
| `Quota.MessageDeterminesOutcome` | bot.py:41-56 | the returned message is empty exactly when the request is admitted, and two different outcomes (daily limit, each wait time, admission) never share a message |
| `Quota.Prepared` | bot.py:27-39 | for a known user the timestamps are kept and the count never grows, and it becomes 0 exactly when it was 0 or `last_time` is more than one day old; an unknown user gets `{now, 0, None}` |
| `Quota.Decide` | bot.py:41-49 | an admission needs the count below max; a wait is only reported when there was a previous request and lies in 1..`rate_limit`; a record with no previous request and a count below max is admitted |
| `Quota.Evaluate` | bot.py:23-56 | after one call the table holds the caller's user plus the old users, and every other user's record is untouched |
| `Quota.DownloadTracker.constructor` | bot.py:20-21 | the table starts empty, which satisfies the record invariant |
| `Quota.DownloadTracker.CheckRateLimit` | bot.py:23-56 | the in-place updates leave the table, the flag and the message equal to `Evaluate` of the old table; the record invariant is kept |
| `Quota.EvaluatePreservesInvariant` | bot.py:35-54 | every record keeps `count == 0 or count <= max`, `last_request` absent implies count 0, and a present `last_request` equals `last_time` |
| `Quota.RolloverResetsCount` | bot.py:28-31 | more than one day after `last_time` the count restarts from 0 before the checks; the daily limit then refuses only when max <= 0; on refusal the reset record is stored with the old timestamps |
| `Quota.NoRolloverWithinOneDay` | bot.py:28-31 | at exactly one day or less, the stored count is what the daily check sees; a refusal leaves the whole table unchanged and an admission adds exactly 1 |
| `Quota.NewUserRecord` | bot.py:33-39 | an unknown user is admitted exactly when max > 0; the stored record is `{now, 0, None}` on refusal and `{now, 1, now}` on admission |
| `Quota.LimitChecks` | bot.py:41-49 | the daily limit refuses exactly when the count after rollover is >= max, before any interval check; the interval refuses exactly when a previous request exists and `.seconds` is below `rate_limit`; the wait is `rate_limit - .seconds`, in 1..`rate_limit` |
| `Quota.RefusalChangesNothing` | bot.py:41-49 | on either refusal the record is exactly the one after rollover or creation: `last_time` and `last_request` unchanged, count never larger |
| `Quota.AdmissionUpdatesRecord` | bot.py:51-56 | on admission the message is empty, the count was below max and grows by exactly 1, and `last_time` and `last_request` both become `now` |
| `Quota.IntervalAfterAdmission` | bot.py:45-54 | after an admission at t1 (below the limit), a request at t2 less than a day later is refused with wait `rate_limit - (t2 - t1) div 1 s` exactly when `t2 - t1 < rate_limit` seconds, and admitted otherwise |
| `Quota.Run` | bot.py:23-56 | a sequence of calls yields one outcome per request and a table whose users are the old ones plus every requester |
| `Quota.RunPreservesInvariant` | bot.py:35-54 | the record invariant holds after any sequence of calls from any table that has it, the empty table included |
| `Quota.RunIndependence` | bot.py:28-54 | requests from other users never create, change or remove a user's record |
| `Quota.RunCountsAdmissions` | bot.py:28-54 | within one day window the count grows by exactly the number of that user's admitted requests; refusals never add to it |
| `Quota.TenSecondsAfterAdmission` | bot.py:45-49 | with the shipped settings, a first request is admitted and one 10 s later gets "wait 20 seconds" |
| `Quota.OneDayAndTenSecondsLater` | bot.py:28-49 | with the shipped settings, one day and 10 s after an admission the count is reset to 0 and the request is still refused with a wait of 20 |
| `Common.NatToDecimal` | bot.py:49 | the printed wait is a non-empty string of digits with no leading zero |
| `Common.DecimalRoundTrip` | bot.py:49 | reading the printed digits back gives the wait time |
| `Common.Truncate` | bot.py:104 | `text[:n]` is the prefix of the text of length `min(len, n)` |
| `Links.ShortcodeStart` | bot.py:88 | when the check accepts, it points at a shortcode character inside the text |
| `Links.IsInstagramUrl` | bot.py:88 | the check accepts exactly the texts the pattern matches at their start |
| `Links.UrlCheckMatchesPattern` | bot.py:88 | the hand-written check accepts exactly the texts that start with one of the 16 prefixes of the pattern followed by a shortcode character |
| `Links.UrlCheckIgnoresSuffix` | bot.py:88 | `re.match` is a prefix match: any text appended to an accepted URL keeps it accepted, with the same shortcode position |
| `Links.RunEnd` | bot.py:95 | the greedy `[a-zA-Z0-9_-]+` run ends at the first non-shortcode character or at the end of the text |
| `Links.SearchFrom` | bot.py:95 | a successful search returns a non-empty, maximal span of shortcode characters |
| `Links.SearchIsLeftmost` | bot.py:95 | the search fails exactly when `instagram.com/`, one of the four path kinds and a shortcode character occur together nowhere; otherwise group 2 is the one at the first position where it occurs |
| `Links.ExtractShortcode` | bot.py:95 | an extracted shortcode is non-empty and made of shortcode characters only, and extraction succeeds on every text the URL check accepts |
| `Links.SearchFindsCheckedShortcode` | bot.py:88-95 | when the check passes, the leftmost match of the search is at the host the check saw, and group 2 starts where the check's shortcode starts |
| `Links.ValidUrlHasShortcode` | bot.py:88-95 | when the check passes, extraction succeeds with a non-empty, maximal run of shortcode characters that starts right after the matched prefix |
| `Captions.BuildCaption` | bot.py:99-104 | the caption starts with the fixed header, is only the header when owner and post text are empty, and keeps at most 1000 characters of the post text; right after the header comes `👤 @` exactly when the username is non-empty, and after the owner line comes `📝 ` exactly when the post has text |
| `Captions.OwnerMarkLeads` | bot.py:101-104 | the lines after the header open with `👤 @` exactly when there is an owner: otherwise they are empty or open with `📝 ` |
| `Captions.CaptionRoundTrip` | bot.py:99-104 | parsing a built caption gives back the owner and the first 1000 characters of the post text; the parser accepts no empty owner line and no empty text line, so each line is there exactly when its input is non-empty |
| `Captions.BuildMediaGroup` | bot.py:121-135 | one item per carousel node, in order and of the node's kind; only the item at index 0, and only if it is a photo, carries the caption |

## Left out

- The clock read `datetime.now()` (bot.py:25): it is the parameter `now`.
- Instaloader login, `Post.from_shortcode` and `download_pic` (bot.py:12-18, 96, 109, 116, 125, 130): network calls into a foreign library. The model's inputs are the owner name, the post text and the list of carousel nodes.
- Telegram: `start`, `help_command`, `main`, the handlers, polling and every `reply_*` call (bot.py:58-75, 84, 89, 93, 110, 117, 137, 143-160). These are messaging I/O.
- File names, `open`, `os.remove` and the exception handler (bot.py:108-111, 115-118, 124-135, 139-141). These are filesystem I/O and error plumbing. A failed search, where `.group(2)` would raise, is `None` in `Links.ExtractShortcode`.
- The choice between the single-photo, video and carousel replies (bot.py:107-121), and the order in `extract_media` (the quota is charged at bot.py:82 before the URL check at bot.py:88). These are dispatch around the modelled pieces.
- config.py's `.env` loading and its `admin_ids` and `allowed_users` (config.py:4-13, 19-20). The bot never reads the last two.
- Concurrency: the source has none. It uses one global dict without locks, so the model is sequential.
- `post.caption` being `None` is passed as `""`: both are falsy at bot.py:103 and give the same caption.
- The trailing `/?` of the pattern at bot.py:88 is optional, so it never changes whether `re.match` succeeds. The model does not write it out.
