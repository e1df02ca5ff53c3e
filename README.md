# Bank-alert poller: the extractor, the body selection and one polling pass

This project models the Gmail bank-alert poller in `mail.py`. The poller lists
HDFC "successfully credited" alert mails and skips the ids it has seen already.
For each new id it fetches the message, picks the text of its body, and runs a
regular expression over that text. The expression yields the credited amount
and the UPI reference number (UTR).

Modules:

- `Wrappers`: the `Option` type, standing for Python's `None`-or-value results.
- `Trim`: Python's `str.strip()` with no argument, using the exact set of
  characters for which Python's `str.isspace` is true.
- `TransactionExtractor`: `extract_transaction_info`, which is one `re.search`
  with `re.DOTALL` of `Rs\.(\d+\.\d{2}) is successfully credited.*?reference number is (\d+)`.
  - `MatchAt` says declaratively that the pattern matches at a start with
    given groups.
  - `SearchFrom` / `Search` is the matcher's own choice among the possible
    matches: the leftmost start, then the shortest lazy gap, then the longest
    reference.
  - The lemmas show that the two agree.
- `EmailBody`: `get_email_body`. A payload either holds `parts` or holds one
  body of its own. The body text comes from the first part that has data and
  is of type `text/plain` or `text/html`, and it is stripped.
- `Poller`: one pass of the `while True` loop in `main`.
  - `Tick` is a method that runs the source's `for msg in messages` loop.
  - It returns the new seen-set, the `new_found` flag, the ids it fetched, and
    the transactions it found, in order.
  - The specification functions `NewIds` and `Reported` describe those
    results, and the lemmas about them state deduplication, ordering and the
    no-op re-run.

`mail.py` is smaller than the wider application it belongs to, and the model
follows `mail.py`. The differences are these:

- The wider application keeps a transaction store with `insertIfAbsent`,
  claims and an HTTP surface. `mail.py` keeps only the in-memory seen-set, and
  a found transaction is only printed. In the model a pass reports its
  transactions as the output `found`.
- The wider application catches a failed fetch or parse of one message and
  goes on with the rest of the batch, and a failed listing only ends that
  pass. In `mail.py`'s polling loop only `extract_transaction_info` catches
  anything: it prints the exception and returns `None` (mail.py:18, 29-31), and
  the pass goes on. An exception from the listing (mail.py:91), the fetch
  (mail.py:101) or `get_email_body` (mail.py:103) meets only
  `except KeyboardInterrupt` (mail.py:117), which does not catch it, so it
  ends `main` in the middle of a pass.
- The wider application prefers a plain-text part and falls back to HTML.
  `mail.py` takes the first qualifying part in list order, so an HTML part
  listed before a plain-text part wins. `SelectFirstQualifying` states this
  order.
- The wider application has start and stop states. `mail.py` runs a bare
  `while True` loop.

## Model

| member | source | states |
|---|---|---|
| Trim.Strip | mail.py:45 | the result is the input with a whitespace-only prefix and suffix cut off; it has no whitespace at either end; it is empty exactly when the input is all whitespace |
| Trim.StripUnique | mail.py:45 | any split into whitespace, a trimmed middle and whitespace strips to that middle, so the strip is determined uniquely |
| Trim.StripIdempotent | mail.py:45 | stripping a stripped text changes nothing |
| Trim.StripOfCut | mail.py:45 | cutting a text into whitespace, a piece with no whitespace at either end, and whitespace, the strip is that piece |
| TransactionExtractor.DigitRun | mail.py:20 | the greedy `\d+`: every position in the run holds a digit, and the run stops at the end of the text or at a non-digit |
| TransactionExtractor.HeadAt | mail.py:20 | when it finds the fixed head `Rs.<digits>.<2 digits> is successfully credited` at a start, the groups it returns match there, and the gap begins right after the head |
| TransactionExtractor.HeadAtComplete | mail.py:20 | whatever groups make the head match at a start, HeadAt returns exactly those groups, since greedy `\d+` before `.` has only one choice |
| TransactionExtractor.FindRef | mail.py:20 | the lazy `.*?`: it returns the first position from the gap start where `reference number is ` is followed by a digit, and None when there is no such position |
| TransactionExtractor.MatchHere | mail.py:20 | trying the pattern at one start alone: a result starts there, is a real match, has no reference phrase with a digit earlier in its gap, and takes the whole digit run as its reference |
| TransactionExtractor.SearchFrom | mail.py:19-23 | a result starts at or after the given position, is a real match of the pattern, has a reference that is the whole digit run, and has no earlier reference phrase with a digit inside its gap |
| TransactionExtractor.Search | mail.py:19-23 | `re.search` over the whole text: the result is a match with the shortest gap and a maximal reference |
| TransactionExtractor.SearchFromFirst | mail.py:19-23 | if the pattern matches at start i with gap end k and groups w, f, u, the search succeeds, and its match starts earlier, or at i with the same amount groups and a shorter gap, or at the same gap with u a prefix of its reference |
| TransactionExtractor.SearchFirstAtStart | mail.py:19-23 | at the start of any match, the search from there succeeds with the same amount groups and a gap no longer than that match's, and on an equal gap that match's reference is a prefix of the reported one |
| TransactionExtractor.SearchIsLeftmost | mail.py:19-23 | `re.search` returns exactly the match that has no match starting before it, closes its gap at the first reference phrase followed by a digit, and takes the whole digit run as its reference |
| TransactionExtractor.ExtractTransactionInfo | mail.py:17-31 | on success the rupee group is one or more digits, the paise group exactly two digits and the reference one or more digits |
| TransactionExtractor.ExtractSomeIffMatch | mail.py:17-31 | the extractor returns a transaction if and only if the pattern matches somewhere in the text |
| TransactionExtractor.ExtractUniqueMatch | mail.py:17-31 | a match with no `Rs.` anywhere before its start, no reference phrase inside its gap, and no digit right after its reference is exactly what the extractor returns |
| TransactionExtractor.ExtractFromTemplate | mail.py:17-31 | an alert built from a prefix with no `Rs.` in it, an amount, a filler without a reference phrase, and a reference not followed by a digit gives back exactly that amount and reference |
| TransactionExtractor.CreditOfFiveHundred | mail.py:24-28 | an alert for Rs.500.00 with reference 123456 gives rupees "500", paise "00" (50000 paise) and UTR "123456" |
| EmailBody.SelectFromParts | mail.py:36-48 | the body chosen from a parts list has no surrounding whitespace, and it is empty when no part qualifies |
| EmailBody.SelectFirstQualifying | mail.py:37-48 | the parts loop returns `Render` of the first part that has data and is plain text or HTML, passing over every part before it; `Render` (mail.py:42-48) is the stripped decoded text of a plain part, or the stripped `get_text` of a decoded HTML part |
| EmailBody.GetEmailBody | mail.py:34-59 | every body returned has no surrounding whitespace |
| EmailBody.MultipartBody | mail.py:36-48 | a multipart payload's body is the rendering of its first qualifying part; the payload's own data and type play no part |
| EmailBody.NoQualifyingPartGivesEmpty | mail.py:35-59 | with no qualifying part, or a single-part payload that does not qualify, the body is the empty string |
| EmailBody.SinglePartAsOnePart | mail.py:49-58 | a single-part payload is treated exactly like a parts list holding only that payload |
| Poller.Tick | mail.py:90-113 | after a pass, seen is the old seen-set plus every listed id; fetched is NewIds of the listing; found is Reported of the fetched ids, where `Inspect` (mail.py:101-105) is one message's fetch, payload lookup, `get_email_body` and extraction; new_found holds exactly when some fetched message yields a transaction, that is when found is non-empty |
| Poller.NewIdsMembers | mail.py:96-101 | an id is fetched exactly when it is listed and was not seen before the pass |
| Poller.NewIdsNoDuplicates | mail.py:96-110 | no id is fetched twice in one pass, even when it is listed twice |
| Poller.NewIdsCount | mail.py:96-110 | a pass makes one fetch per distinct listed id that was not seen |
| Poller.NewIdsInListedOrder | mail.py:96-101 | ids are fetched in the order of their first listing |
| Poller.NothingNewOnceSeen | mail.py:98-99 | when every listed id is already seen, a pass fetches nothing |
| Poller.PassesFetchDisjoint | mail.py:84-110 | no id is fetched in two successive passes |
| Poller.ReportedMembers | mail.py:105-107 | a transaction is reported exactly when some fetched message yields it |
| Poller.ReportedNonEmpty | mail.py:105-108 | something is reported exactly when some fetched message yields a transaction |
| Poller.RerunIsNoOp | mail.py:90-113 | repeating a pass with the same listing fetches nothing, reports nothing, and leaves the seen-set unchanged |
| Poller.TwoAlerts | mail.py:90-113 | for listing [m1, m2] where only m1 yields a transaction: both ids are fetched, that one transaction is reported, both ids are remembered, and the next pass fetches nothing |

## Left out

- Authentication (`authenticate_gmail`, the OAuth flow and the token file) is not modelled. It is library code with file and network I/O.
- The Gmail API calls are not modelled. The listing becomes a parameter of `Tick`. The `msg_data.get('payload', {})` lookup after `messages().get(...)` becomes the function `payloadOf` inside `Services`. A message without a payload gives `{}`, which `payloadOf` returns as a payload with no parts and no data. The query and `maxResults=10` live on the service side.
- Base64url decoding with `errors='ignore'` and BeautifulSoup's `get_text` are not modelled. They are the uninterpreted parameters `decode` and `htmlText`.
- Exceptions from `messages().list(...).execute()` (mail.py:91) and `messages().get(...).execute()` (mail.py:101) are not modelled. In the source they end `main` in the middle of a pass. In the model the listing is a plain parameter and `payloadOf` is total, so every pass runs to its end.
- `data` that `urlsafe_b64decode` rejects is not modelled. With the default `validate=False`, characters outside the base64 alphabet are dropped, and only bad padding or a bad length raises `binascii.Error`. Nothing catches that exception, so it ends `main`; the model's `decode` is total.
- `float(match.group(1))` is not modelled, and neither is printing the transaction as JSON. The amount stays as its two digit groups, and `AmountInPaise` gives its exact value.
- The `except Exception` branch of the extractor is not modelled. Nothing in the `try` can raise on a string argument.
- `time.sleep`, the endless loop, `KeyboardInterrupt` and all `print` output are not modelled. The outputs `found` and `newFound` stand in for what a pass prints.
- The seen-set is passed in and out of `Tick` rather than held across passes by `main`.
- `\d` is modelled as the ASCII digits only. Python's `str` pattern also accepts other Unicode decimal digits.
- Part parsing is simplified. Parts nested inside parts are not searched, just as the source does not recurse. A part is reduced to its `mimeType` and `body.data` keys.
- A listed message without an `id` key is not modelled; there the source raises `KeyError`.
- The transaction store, claims, aggregate counts and the HTTP surface are not modelled. They are not part of `mail.py`, so they are not part of this model.
