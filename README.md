# Steam discount notifier: the dedup-and-notify core

`steam_bot.py` searches the Steam store for discounted games carrying one
tag. It announces each new game on a Discord webhook and keeps the ids it
has already announced in a JSON file. This project models the part of a run
that does not depend on the network or the HTML library:

- **Text** (`text.dfy`): Python's `str.strip()` with the exact set of
  characters `str.isspace()` accepts, `str.replace(c, '')`, and the discount
  normalisation `text.strip().replace('%', '').replace('-', '')`.
- **Store** (`store.dfy`): the seen-set file as three states: missing,
  corrupt, or holding a list. `Load` falls back to the empty set. `Save`
  writes the set as a duplicate-free list.
- **Notify** (`notify.dfy`): the webhook body built by
  `discord_bildirimi_gonder`, as a value. A reader turns a body back into the
  deal it announces, and the lemmas prove the round trip.
- **Scan** (`scan.dfy`): the loop over the result rows. `CheckRows` is the
  loop itself. It updates the seen set, raises the dirty flag and records
  each notification call in order. It is proved to compute the fold `Pass`.
  The lemmas about `Pass` prove these properties:
  - no id is announced twice in a run, even when several rows carry it;
  - announced ids were not in the loaded set;
  - the set only grows, by exactly the announced ids;
  - skipped rows leave no trace;
  - a second pass is silent.
  
  `Announced` is a second, stateless description of what a run announces:
  the first candidate row of each id not yet seen, in row order. The pass is
  proved equal to it.
- **Bot** (`bot.dfy`): one run. The early exits are a request error, a
  status other than 200 and an empty row list. Then comes the pass, and the
  save happens exactly when something was announced. The entry point
  refuses to run without a webhook URL.

A result row is a record of five optional strings:
- the `data-ds-appid` attribute;
- the texts of the title, discount, original-price and final-price elements.

A BeautifulSoup element is always truthy, so a present element with empty
text still counts as present.

Discount normalisation is not idempotent in general. `"- 5"` gives `" 5"`,
and a second pass gives `"5"`. `Text.NormalizeIdempotentIff` gives the exact
condition under which it is idempotent, and `Text.NormalizeNotIdempotent`
exhibits the counterexample. The bot applies the normalisation once, so this
is not a defect of the program.

Three facts about the code:
- The discount stays a string and is not converted to an integer.
- Every `-` and every `%` is deleted, not only a leading sign.
- Rows are filtered inside the notification loop, after the id check.

The comment at `steam_bot.py:47` says the price step cleans currency units
such as `TL` from the prices. Lines 48-49 only call `.strip()`, which removes
the surrounding whitespace and nothing else. The model follows the code, so
a unit stays in the message. `Notify.PricesShownVerbatim` proves that a price
with no whitespace at its ends is shown unchanged, and
`Notify.CurrencyUnitKept` proves it for `"100 TL"`.

As in the code, an id is marked seen after its notification call even when
the delivery fails. The call's errors are swallowed inside
`discord_bildirimi_gonder`.

## Model

| member | source | states |
|---|---|---|
| `Text.StripSpec` | steam_bot.py:129-133 | the result is a contiguous piece of the input with only whitespace removed on either side, and no whitespace left at either end |
| `Text.TrimLeftSpec` | steam_bot.py:129 | stripping the left end keeps the suffix that starts at the first non-whitespace character. Everything cut off is whitespace |
| `Text.TrimRightSpec` | steam_bot.py:129 | stripping the right end keeps the prefix that ends at the last non-whitespace character. Everything cut off is whitespace |
| `Text.StripPadded` | steam_bot.py:129 | stripping removes exactly the whitespace around a text that has no whitespace at its ends |
| `Text.StripIdempotent` | steam_bot.py:48-49 | stripping twice is stripping once, so the builder's second strip of the prices changes nothing |
| `Text.RemoveAllSpec` | steam_bot.py:131 | `replace(c, '')` deletes every occurrence of `c`. All other characters are kept with their counts and in their order (a subsequence of the input) |
| `Text.NormalizeDiscountSpec` | steam_bot.py:130-131 | the normalised discount holds no `%` and no `-`. It is a subsequence of the stripped badge text with the same count of every other character |
| `Text.NormalizeTwice` | steam_bot.py:131 | normalising a normalised discount only strips it again |
| `Text.NormalizeIdempotentIff` | steam_bot.py:131 | normalising twice equals normalising once exactly when the first result has no whitespace at either end |
| `Text.NormalizeNotIdempotent` | steam_bot.py:131 | `"- 5"` normalises to `" 5"`, and normalising that again changes it |
| `Text.NormalizeExamples` | steam_bot.py:130-131 | `"-90%"` becomes `"90"` and `"-5%"` becomes `"5"` |
| `Text.NormalizeIgnoresPadding` | steam_bot.py:131 | whitespace around the badge text never reaches the figure |
| `Store.Load` | steam_bot.py:26-35 | a missing or corrupt file yields the empty set, and a stored list yields exactly its ids |
| `Store.Save` | steam_bot.py:37-40 | the written list holds each id once, and loading it back gives the saved set |
| `Notify.StoreUrl` | steam_bot.py:45 | the store link is the store's app prefix followed by the app id, and the id can be read back from it |
| `Notify.ImageUrl` | steam_bot.py:64 | the thumbnail is the CDN prefix, the app id and `/header.jpg`, and the id can be read back from it |
| `Notify.UrlsInjective` | steam_bot.py:45-64 | different app ids give different links and different thumbnails |
| `Notify.BuildPayload` | steam_bot.py:42-71 | the body has the fixed announcement, one embed in green 65280 with the fixed footer, and two inline fields labelled old and new price. Reading it back gives the name, id and discount unchanged and the two prices stripped |
| `Notify.PricesShownVerbatim` | steam_bot.py:47-49 | the price step removes only surrounding whitespace: a price with no whitespace at its ends, a currency unit included, is shown exactly as given |
| `Notify.CurrencyUnitKept` | steam_bot.py:47-49 | the old price `"100 TL"` is shown as `"100 TL"`, with its unit |
| `Notify.PayloadShowsScrapedPrices` | steam_bot.py:132-136 | for the prices the loop has already stripped, the message shows exactly those prices |
| `Scan.PassOne` | steam_bot.py:136-139 | a fresh complete row with an id is announced, and its id is added |
| `Scan.PassSkips` | steam_bot.py:112-127 | a row without an id, with an empty id, or lacking any of the four fields produces no notification and adds nothing to the set |
| `Scan.PassSeen` | steam_bot.py:110-138 | after the pass, the set is the loaded set plus the ids of the complete rows that have an id. Nothing is removed |
| `Scan.StepConsistent` | steam_bot.py:115-138 | one iteration keeps the invariant: the set is the loaded set plus the announced ids, announced ids were not loaded, and no id is announced twice |
| `Scan.PassConsistent` | steam_bot.py:110-139 | the whole loop keeps that invariant, even for repeated ids |
| `Scan.SeenAfterPass` | steam_bot.py:84-138 | the final set is the loaded set plus exactly the announced ids, and the two are disjoint |
| `Scan.PassAnnounces` | steam_bot.py:110-139 | the notifications are exactly the deals of the first complete row of each id not already seen, in row order |
| `Scan.PassQuiet` | steam_bot.py:115-116 | a pass from a set that already holds every candidate id announces nothing and changes nothing |
| `Scan.PassIdempotent` | steam_bot.py:115-142 | a second pass over the same rows from the set the first produced announces nothing and leaves the set unchanged |
| `Scan.SilentPassKeepsSeen` | steam_bot.py:138-139 | a pass that announces nothing leaves the set exactly as loaded |
| `Scan.CheckRows` | steam_bot.py:108-139 | the loop computes the pass. It announces the first-fresh rows in order, with no id twice. The set grows by exactly the announced ids, and the dirty flag is set exactly when something was announced |
| `Bot.CheckDiscounts` | steam_bot.py:80-144 | a request error, a status other than 200 or an empty row list ends the run with no notification and no save. Otherwise the run announces what the pass announces and, exactly when it announced something, saves the updated set as a list holding each id once |
| `Bot.RunBot` | steam_bot.py:152-157 | without a webhook URL (unset or empty) the check is never run, and otherwise the run behaves as the check |
| `Bot.NoSaveWithoutNews` | steam_bot.py:141-144 | a run that ends early or announces nothing writes no file |
| `Bot.SecondRunQuiet` | steam_bot.py:84-142 | a second run over the same results, from the file the first run left, announces nothing and writes nothing |
| `Bot.TwoRowScenario` | steam_bot.py:110-142 | from a missing file, a page with one complete row and one row lacking its final price gives one notification, for the complete row, and a saved set holding only its id |

## Left out

- The HTTP GET to the store search page. The run receives a `Fetch` value instead: a request error, or a status with the parsed rows.
- The webhook POST and its error handling. A notification is recorded as the `Deal` the call was made with, and the call always returns.
- HTML parsing with BeautifulSoup, which is a library outside this model. Rows arrive with their attribute and element texts already extracted.
- JSON encoding and decoding, and the file system calls. A stored file is modelled as the decoded list of strings. JSON content that is valid but not a list of strings is not modelled.
- The environment lookup of the webhook URL, which becomes a parameter of `RunBot`.
- The `print` logging and the unused interval constant `KONTROL_ARALIGI`.
- I/O errors on open. The loader's error (`steam_bot.py:31`, reached from line 84, outside the `try`) is not caught and ends the script.
- `Store.Save`: always succeeds. In the code, an error on the write at `steam_bot.py:39`, reached from line 142 after the notifications were sent, is caught by the handler at line 148. The set is then not written, and the `"w"` open may already have emptied the file. The next run would then load the empty set and announce the same deals again. `Bot.SecondRunQuiet` holds only under a successful write.
- The catch-all exception handler of the check at `steam_bot.py:147-148`, which in the code catches errors the model does not have, such as the failed write above.
- The message literals, which are modelled as constants, with non-ASCII characters written as escapes.
