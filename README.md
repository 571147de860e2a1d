# Dynamic profile avatar — a Dafny model

The bot keeps a Telegram account's profile photo current. Every few seconds
its avatar loop checks whether a new 5-minute slot has begun. If one has, it:

- fetches the weather for the chosen place;
- draws an avatar with the caption, a clock label rounded to five minutes, the
  temperature and a weather picture;
- uploads the avatar as the new profile photo;
- once ten of its own photos have piled up, deletes them from the gallery in
  one request.

The bot's commands set the target, stop the loop and report the status,
including the time left on a Telegram flood wait.

The model covers the logic of `main.py` as datatypes, functions and lemmas. It
keeps imperative form where the source changes state:

- `SharedData` and `MessageStore` are classes;
- the avatar loop, the text wrapping, the font-size search and the widest-line
  scan are methods with loops.

The remote replies are inputs to the model:

- the weather report;
- Telegram's answers to the delete and upload requests (success, a flood wait
  of `s` seconds, or any other error);
- the clock readings.

Each pass of the loop is handed one `Tick` that carries them.

Modules:

| file | module | what |
|---|---|---|
| `wrappers.dfy` | `Wrappers` | `Option` |
| `sequences.dfy` | `Sequences` | two facts about sequence concatenation used by the proofs |
| `decimal.dfy` | `Decimal` | decimal digits, zero padding, `int()` on digit strings, `str.split` on one character |
| `time_rounding.dfy` | `TimeRounding` | `round_to_nearest_5_minutes` and the refresh test |
| `weather.dfy` | `Weather` | `translate_weather`, the temperature label |
| `caption.dfy` | `Caption` | the `re.sub(r"[ -]{2,}", " ", …)` caption clean-up |
| `text_layout.dfy` | `TextLayout` | `split_text`, the greedy wrapping of `draw_scaled_text` |
| `font_search.dfy` | `FontSearch` | the binary search for the largest font size that fits |
| `clock.dfy` | `Clock` | the `HH:MM` label, hand angles, `rotate_hand` and `place_overlay_on_base` placement |
| `shared_state.dfy` | `SharedState` | class `SharedData` |
| `message_store.dfy` | `MessageStore` | class `MessageStore` |
| `status.dfy` | `Status` | the `/info` flood countdown and the city pagination wrap |
| `scheduler.dfy` | `Scheduler` | `run_telethon`: one cycle and the loop |

Conventions:

- **Time.** A naive `datetime` is an `int` number of microseconds since a
  midnight-aligned epoch. A time of day is microseconds since midnight.
- **Widths.** Text widths come from a `width: char -> nat` parameter, and a
  string's width is the sum of its characters' widths.
- **Font search.** It asks a `measure` function for the line count, the line
  height and the widest line at a given size. The height test
  `n * lh * 1.1 <= H` is stated exactly as `11 * n * lh <= 10 * H`.
- **Clock angles.** They are in half-degrees, so that `minutes * 0.5` stays
  an integer.

Behaviour of the code worth knowing:

- **Refresh rule.** A refresh is due when the current time, rounded to five
  minutes, is later than the rounded time of the last update
  (`main.py:641-647`). It is not an elapsed-interval rule: a refresh is due
  exactly from three minutes past the mark the last update rounds to
  (`DueIff`). A refresh can therefore be due one second after the previous
  one (`DueOneSecondLater`). Five minutes after it, a refresh is always due
  (`DueAfterFiveMinutes`).
  `FIXED_INTERVAL` (`main.py:33`) is never read.
- **Weather code 810.** `translate_weather` maps 810 to `SUN` by day and
  `MOON` by night, because `810 % 10 == 0` (`main.py:221`). It does not map it
  to `CLOUD`.
- **Unknown weather codes.** `translate_weather` returns `None` for them.
  `generate_icon` then fails on `I[None]`, and the cycle takes the generic
  error path: sleep 10 s, upload nothing, keep the last-update time.

## Model

| member | source | states |
|---|---|---|
| `Decimal.Show` | main.py:432 | the decimal text of `n`: digits only, one digit below 10 and at least two from 10 up, a leading `0` only for zero |
| `Decimal.Pad2` | main.py:437 | `:02d`: at least two digits, exactly two below 100 |
| `Decimal.ParseNat` | main.py:570 | `int()` on a digit string: defined exactly when the text is non-empty and all digits |
| `Decimal.ParseShow` | main.py:570 | `int(str(n)) == n` |
| `Decimal.ParsePad2` | main.py:570 | `int(f"{n:02d}") == n`, the leading zero is ignored |
| `Decimal.Split` | main.py:570 | `str.split(sep)` always yields at least one piece, and exactly one when the separator does not occur |
| `Decimal.SplitFirst` | main.py:570 | splitting `a + sep + b` gives `a` followed by the pieces of `b` |
| `TimeRounding.MinuteOf` | main.py:619 | `dt.minute` is in 0..59 |
| `TimeRounding.RoundToNearest5Minutes` | main.py:618-626 | the result stays in the hour of `t` or is the start of the next hour, and it is the next hour only from minute 58 on |
| `TimeRounding.RoundIsNearestMark` | main.py:618-626 | the code's minute rounding with hour rollover equals "round to the nearest 5-minute mark, minutes 3 and 4 of a slot going up, seconds dropped" |
| `TimeRounding.RoundLandsOnMark` | main.py:618-626 | the result is a whole-minute multiple of five and lies in `(t - 3 min, t + 2 min]` |
| `TimeRounding.RoundUpIff` | main.py:621-622 | the result is later than `t` exactly when the minute within its slot is 3 or 4 |
| `TimeRounding.RoundIdempotent` | main.py:618-626 | rounding a rounded time changes nothing |
| `TimeRounding.RoundMonotone` | main.py:618-626 | rounding preserves the order of instants |
| `TimeRounding.UpdateNeeded` | main.py:641-647 | a refresh is always due when nothing was published yet |
| `TimeRounding.DueIff` | main.py:641-647 | after an update, a refresh is due exactly when the clock has reached three minutes past the mark the last update rounds to |
| `TimeRounding.DueAfterFiveMinutes` | main.py:641-647 | a refresh is always due five minutes after the last update |
| `TimeRounding.DueMeansLater` | main.py:645-647 | a due refresh implies the clock moved forward |
| `TimeRounding.DueOneSecondLater` | main.py:645-647 | 00:02:59 to 00:03:00 is already due |
| `Weather.TranslateWeather` | main.py:211-223 | per picture, exactly which codes map to it (groups 2/3/5, 6, 7, 8; SUN or MOON for codes ending in 0/1 by the 06:00–21:00 window) and `None` for every other group |
| `Weather.TranslateWeatherExamples` | main.py:211-223 | 200 rain, 600 snow, 701 cloud, 800 sun at noon and moon at 23:00, 804 cloud, 810 sun at noon, 900 none |
| `Weather.FormatTemperature` | main.py:675-680 | `+n` exactly above zero, `-n` exactly below, `0` exactly at zero; after the sign only digits, with no leading zero |
| `Weather.FormatTemperatureRoundTrip` | main.py:675-680 | the label reads back as the temperature |
| `Caption.RunLength` | main.py:683 | the longest separator run at the front |
| `Caption.CollapseRuns` | main.py:683 | never longer, empty only when the input is, leaves no two adjacent spaces/hyphens |
| `Caption.CollapseRun` | main.py:683 | a whole run of spaces and hyphens becomes one space when it has two or more characters and is kept when it has one |
| `Caption.CollapseConcat` | main.py:683 | cleaning works piecewise: cut where the two sides do not meet separator to separator, the result is the two cleaned sides joined |
| `Caption.CollapseKeepsLetters` | main.py:683 | every character other than space and hyphen survives, in order |
| `Caption.CollapseKeepsClean` | main.py:683 | a caption with no double separator is left unchanged |
| `Caption.CollapseIdempotent` | main.py:683 | collapsing twice equals collapsing once |
| `Caption.CollapseExampleRun` | main.py:683 | `"a  -- b"` becomes `"a b"` |
| `TextLayout.Words` | main.py:463 | `text.split()`: non-empty runs of non-whitespace |
| `TextLayout.WordsOfWord` | main.py:463 | a text with no whitespace is one token, itself |
| `TextLayout.WordsConcat` | main.py:463 | tokens are maximal: text cut at whitespace or at an end splits into the tokens of each side, none spanning the cut |
| `TextLayout.WordsCoverText` | main.py:463 | the words concatenated are the text without its whitespace; no words exactly when the text is all whitespace |
| `TextLayout.TextWidthConcat` | main.py:472 | a text is as wide as its two parts together |
| `TextLayout.JoinUnspaced` | main.py:499 | joining spaceless words with single spaces and removing the spaces again gives the words run together |
| `TextLayout.CutWord` | main.py:474-488 | the character loop cuts a word into non-empty pieces that concatenate back to it, each within the width unless a single character; the pieces are the greedy ones of `CutIsGreedy`, and the running width handed back is the last piece's offset plus its width |
| `TextLayout.CutIsGreedy` | main.py:477-488 | the pieces spell the word; the first starts at the running width handed in when its first character fits there and at 0 otherwise, every later one at 0; each piece fits from its offset unless it is one character at 0; each piece but the last would overflow with the next piece's first character; the running width left is the last piece's offset plus its width |
| `TextLayout.PlaceOnEmptyLine` | main.py:474-497 | with nothing pending, a word wider than the box is cut into greedy pieces from the running width the previous cut left (`current_width` is not reset), the pieces become lines and the width after the last piece carries over; any other word opens the line, its width counted together with a space |
| `TextLayout.PendingLineEnds` | main.py:494-501 | with words pending, the line is ended exactly when running width plus space plus word exceeds the box, even when the word is wider than the box (it then stands uncut on a line of its own); otherwise the word joins and the width grows by the word and a space |
| `TextLayout.PlaceWord` | main.py:471-501 | one step of the wrapping loop keeps the packing invariant and the text, and is exactly the step `Place` that `PlaceOnEmptyLine` and `PendingLineEnds` describe |
| `TextLayout.PlaceWords` | main.py:471-501 | the word loop leaves exactly the fold `PlaceAll` of `Place` over the words; it keeps the packing invariant (spaced lines fit, cut pieces have no space and fit unless one character); the finished lines and the line in progress spell the words run together; no words leave nothing, and some words leave a line or a line in progress |
| `TextLayout.SplitText` | main.py:465-506 | the lines are non-empty, contain every printable character of the text in order, are none exactly when the text is blank, lines with a space fit the width, and cut-word pieces have no space and fit unless a single character; the lines are exactly the greedy fold `Wrap` over the words; a text whose joined words plus one space fit the width is one line |
| `TextLayout.WrapOneLine` | main.py:465-506 | a text whose words joined by spaces, plus the extra space width counted after the first word, fit the width comes out as exactly that one line |
| `FontSearch.FitsIsHeightTest` | main.py:508-513 | the integer test equals `n * lh * 11 / 10 <= H` computed exactly over the rationals |
| `FontSearch.MaxLineWidth` | main.py:535-539 | the widest line: no line is wider, 0 for no lines, attained by some line |
| `FontSearch.RejectedAbove` | main.py:541-546 | when fitting is downward closed, a rejected size rejects every larger size |
| `FontSearch.BisectInRange` | main.py:525-526 | every size the bisection of `lo..hi` probes lies in `lo..hi` |
| `FontSearch.PendingAdvance` | main.py:525-546 | after one more probe, what is left of the bisection is the upper half when the midpoint fits and the lower half when it does not |
| `FontSearch.BisectExample` | main.py:525-546 | when fitting is not downward closed the search can miss a fitting size: with only 10 and 277 fitting, 277 is never probed |
| `FontSearch.Search` | main.py:519-546 | the loop probes exactly the sizes of `Bisect` over 10..277; a size was found exactly when the lower bound moved, the last accepted probe lies just below it and no later probe was accepted; with none found no probe was accepted; under downward closure nothing above the final upper bound fits |
| `FontSearch.ChooseFontSize` | main.py:515-550 | fixed size when given; otherwise the probes are exactly those of `Bisect` (the midpoint first, then the half its verdict leaves) and lie in 10..277, the size is the last accepted probe or 10 when none was accepted, and it is the largest size that fits when fitting is downward closed |
| `Clock.HourOfDay` | main.py:666 | `dt.hour` is in 0..23 |
| `Clock.FormatClock` | main.py:666 | `%H:%M` has five characters with the colon third |
| `Clock.LocalTimeShiftsWholeSeconds` | main.py:663-664 | the place's local time differs from UTC by whole seconds of offset: the fraction of a second is kept, one more second of offset is one second later |
| `Clock.ParseClock` | main.py:570 | a label without a colon is rejected; a label is read exactly when it splits at `:` into two digit strings |
| `Clock.ParseFormatClock` | main.py:570 | the label parses back to the hour and minute it was printed from |
| `Clock.HourAngle` | main.py:572 | for a minute in 0..59 the hour hand turns clockwise by less than a full turn |
| `Clock.MinuteAngle` | main.py:573 | for a minute in 0..59 the minute hand turns clockwise by less than a full turn, in whole 6-degree steps |
| `Clock.HandAnglesConsistent` | main.py:572-573 | hour angle in (-360°, 0], minute angle in (-360°, 0], twelve-hour period, hour angle tracks one twelfth of the minute angle |
| `Clock.HandAngleExamples` | main.py:572-573 | 3:00 gives -90° and 0°, 6:30 gives -195° and -180° |
| `Clock.PlaceHand` | main.py:575-599 | the pivot ends up at the canvas centre, the canvas centre on the face centre, and the sprite inside the canvas |
| `Clock.PlaceOverlay` | main.py:451-453 | the overlay's centre lands on the given point |
| `SharedState.SharedData.constructor` | main.py:61-70 | nothing set, no flood wait, running, never updated |
| `SharedState.SharedData.Update` | main.py:75-80 | `get()` returns exactly the new target, which is complete |
| `SharedState.SharedData.SetFloodWait` | main.py:86-89 | records the seconds and `now + seconds` |
| `SharedState.SharedData.Stop` | main.py:95-97 | the run flag is cleared and nothing else changes |
| `SharedState.SharedData.UpdateLastTime` | main.py:99-101 | the last-update time becomes now |
| `MessageStore.MessageStore.constructor` | main.py:115-116 | no chat has messages |
| `MessageStore.MessageStore.GetMessages` | main.py:121-122 | a chat's ids as stored, and none for a chat never written to |
| `MessageStore.MessageStore.AddMessage` | main.py:118-119 | the id is appended to that chat's list; other chats unchanged |
| `MessageStore.MessageStore.ClearChat` | main.py:124-126 | that chat's list is gone; other chats unchanged |
| `Status.FloodWindow` | main.py:428 | `k` seconds after a flood wait of `s` seconds began, it is active exactly when `k < s` |
| `Status.FloodWindowExample` | main.py:428 | a 30-second wait is active after 29 s and over after 31 s |
| `Status.SplitRemaining` | main.py:431-435 | hours, minutes and seconds recompose the remaining seconds, minutes and seconds below 60 |
| `Status.FormatRemaining` | main.py:431-437 | `H:MM:SS`: colons three and six characters from the end, eight characters below ten hours |
| `Status.FormatRemainingCanonical` | main.py:431-437 | the countdown is digits apart from its two colons; the minute and second fields are below 60; no leading zero once the hours take more than two digits |
| `Status.HoursText` | main.py:432 | digits that read back as the hours, for every value; two digits with a leading zero below 10, no leading zero from 10 up |
| `Status.FormatRemainingRoundTrip` | main.py:431-437 | the `H:MM:SS` countdown reads back as the seconds it shows |
| `Status.FloodCountdown` | main.py:428-437 | a countdown is shown exactly while the wait is active, and it reads back as the whole seconds left |
| `Status.PrevIndex` | main.py:322 | the previous index wraps into `0..count-1` |
| `Status.NextIndex` | main.py:326 | the next index wraps into `0..count-1` |
| `Status.PaginationInverse` | main.py:321-327 | previous and next undo each other; 0 goes back to the last city and the last goes on to 0 |
| `Scheduler.Truncate` | main.py:668 | `int(temp)` truncates toward zero |
| `Scheduler.MakeIcon` | main.py:662-687 | an avatar is built exactly when the weather code has a picture |
| `Scheduler.CycleSpec` | main.py:636-711 | at most three requests and one upload; the first request is the clean-up exactly when ten photos are held; an upload is the last request and comes right after the weather request |
| `Scheduler.IdleUnlessDueAndSet` | main.py:641-654 | a cycle makes requests exactly when a refresh is due and the target is complete; otherwise it only sleeps 10 s |
| `Scheduler.CycleConservesPhotos` | main.py:655-697 | history before plus the photo uploaded equals the photos deleted plus the history after |
| `Scheduler.CycleBoundsHistory` | main.py:655-697 | history stays at most ten, at most one upload per cycle, and a deletion removes exactly the ten photos held |
| `Scheduler.FullHistoryRotates` | main.py:655-697 | with ten photos held, a due cycle first asks to delete those ten; it goes on to the weather only if that succeeds, having deleted all ten, and otherwise stops keeping them; a photo uploaded then is the whole history |
| `Scheduler.CycleStampsUploads` | main.py:693-711 | the last-update time moves exactly when a photo was uploaded, to the reading after it; the sleep is `s + 1` after a flood wait and 10 otherwise |
| `Scheduler.UploadedIconWellFormed` | main.py:662-687 | the uploaded avatar is drawn from the caption, the place's local time and the truncated temperature; its caption is collapsed, its clock label reads back as a time on a 5-minute mark, its temperature label reads back as the truncated temperature, and its picture is the translated one |
| `Scheduler.NoSecondUploadInSlot` | main.py:636-647 | after an upload, a cycle in the same 5-minute slot does nothing |
| `Scheduler.Cycle` | main.py:636-711 | one pass of the loop has the effect `CycleSpec` describes, on the history, the requests, the sleep and the shared state: the last-update time moves to the outcome's stamp and the flood-wait record becomes `NextFlood` of the old one |
| `Scheduler.Apply` | main.py:347-357 | a new target replaces the old one; a stop clears the run flag; nothing else changes |
| `Scheduler.AccountStep` | main.py:655-697 | adding one cycle keeps "all uploaded = all deleted + history" |
| `Scheduler.Run` | main.py:629-711 | cycle `k` is `CycleSpec` of the target in force after tick `k`'s command, of the last-update time and history the earlier cycles left (starting from `to_delete = []`), and its logged requests and sleep are that outcome's; the loop stops exactly at the first stop command, or at once when already stopped; the history stays at most ten; every photo uploaded was deleted or is still held; every deletion names ten photos; afterwards the shared flood-wait record is the one each cycle leaves by `NextFlood` from the one before (the record of the last flood wait, or the original), the shared target is the one in force after the last command applied, a stop tick's included, and the run flag is unchanged when every tick ran a cycle |

## Left out

- Telegram, the weather service and the Telegram bot handlers are left out; their replies are inputs to a cycle. This covers the menus, message deletion, the middleware, `get_city_coordinates` and `get_weather_data`.
- Pillow drawing is left out: fonts, `textbbox`, rotation, pasting and `generate_icon`'s pixels. `generate_icon` is represented by the values it is called with and the texts it draws from them (`Scheduler.Icon`).
- Text is laid out in `draw_scaled_text` by the line-centring arithmetic on floats, which the model omits.
- asyncio is left out: the lock, the sleeps and the concurrent handlers. Commands take effect between cycles only (`Scheduler.Apply`), never inside one.
- The naive clock reads of one cycle after its first (`now`) are collapsed into one reading, `later`. It dates the weather picture's time of day, the last-update stamp, and the flood wait recorded by `set_flood_wait`, also after a failed clean-up, before any weather request (`main.py:655-658`, `main.py:707`). The local label uses a separate UTC reading.
- `datetime` overflow (years past 9999) is left out, because times are unbounded integers.
- Decimal.ParseNat: accepts digits only, which is narrower than Python's `int()`. Python also strips whitespace and accepts a sign and underscores. These extra forms never arise from the labels the program prints.
- FontSearch.ChooseFontSize: when `ImageFont.truetype` fails for a size, the code falls back to size 10. This is not modelled: the `measure` parameter stands for whatever font was loaded.
- FontSearch.FitsIsHeightTest: the `1.1` height factor is exact (`11 * n * lh <= 10 * H`), while Python multiplies in floating point. At the boundary they differ: with `n * lh == 10` and a box height of 11, Python computes `10 * 1.1` as `11.000000000000002` and rejects the size, which the model accepts.
- TextLayout.SplitText: text widths are whole numbers of pixels (`width: char -> nat`), so a fractional `textlength` is not represented.
- Scheduler.Cycle: a `KeyError` on a malformed weather report is not modelled. Nor are Pillow or upload-buffer failures other than the missing picture. All of these take the same error path (sleep 10 s) as `UploadFailed`.
- Status.FloodCountdown: the two `datetime.now()` reads of `main.py:428-429` are one reading `now`, so the countdown cannot see the clock move between the test and the subtraction.
- The `/info` last-update line (`strftime("%H:%M:%S")`) and the other display texts are left out.
- Config loading and logging are left out.
