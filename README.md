# Drive-in voice ordering assistant — order-taking core

This project models the one piece of logic in the drive-in ordering
assistant (`app.py`) that is not user interface, speech capture, a CSV read
or a network call: the menu lookup `get_item_details` and the body of the
`while True` loop that takes an order one utterance at a time.

- `Menu` holds the menu row (`Deal`, `Price (in Rs.)`, `Description`) as
  the datatype `Item` and the lookup of a deal by name. `Lookup` is the
  specification: the first row whose lower-cased `Deal` equals the
  lower-cased query. `GetItemDetails` is the loop with an early return, and
  it is proved equal to `Lookup`.
- `Text` models the Python string operations the loop uses:
  - `str.lower()`, restricted to ASCII letters;
  - `str.strip()` with Python's `isspace` set;
  - the substring test `kw in s`;
  - `s.split(sep)[-1]`, which is the leftmost non-overlapping scan Python does;
  - `", ".join(...)`;
  - the decimal rendering of the totals in the f-strings.
- `Dispatch` models the `if`/`elif` chain. `Classify` maps one utterance
  to an `Intent`. Every keyword test runs on the lower-cased utterance, but
  the deal name is cut from the utterance in its original case.
  `FirstKeyword` is an independent rule table read top to bottom, and the
  chain is proved to agree with it. `Dispatch` also holds the exact texts
  the assistant writes back.
- `Assistant` models the session.
  - `Session` is a class with the loop's two mutable variables, `order` and
    `total_price` (here `order` and `total`). It also has an `ended` flag
    for the `break`, and `written`, the texts the loop has written to the
    page. The menu and the chat model are fixed when the session starts. A
    ghost field `history` records the utterances handled so far.
  - `Session.Valid` is the class invariant. The total is the sum of the
    ordered prices, and every ordered item is a menu row. The order is
    exactly what the utterances in `history` added, and `written` is
    exactly their replies (`Replies`). The session has ended exactly when
    the last of them, and no earlier one, said "thank you".
  - `Session.Perform` is one branch of the `if`/`elif` chain for an
    utterance that is already classified. `Session.Handle` is one pass of
    the loop body: it classifies, performs and writes the reply.
    `Session.Run` is the loop.
  - `Serve` is the whole conversation: the greeting, the menu check and the
    loop, run over a given sequence of utterances.

The utterances are a parameter of `Serve`: `None` stands for the Python
`None` that `recognize_speech` may return. The chat model is a function
parameter `chat`, used only in the fallback branch. The menu is passed in as
a value, and `None` or an empty menu stands for a failed or empty CSV read.

Points of `app.py` that the model keeps as they are:
- `recognize_speech` (app.py:21-24) returns an apology string when
  recognition fails. The loop dispatches that string like any other
  utterance, which usually sends it to the chat fallback. Only `None` and
  `""` are skipped.
- The loop tests the intents in this order: empty input, "thank you",
  "menu", "price of", "add", "total amount", chat. The empty check comes
  before "thank you".
- The deal name is `user_input.split(kw)[-1].strip()` on the original-case
  input, while the keyword test uses the lower-cased input. So "Add Zinger"
  takes the add branch, but the split finds no lower-case "add" and asks
  for a deal named "Add Zinger". `Dispatch.AddZingerAsksForAddZinger`
  states this case.

## Model

| member | source | states |
|---|---|---|
| `Text.Lower` | app.py:64 | `lower()` keeps the length, maps each character through ASCII lower-casing, and leaves no upper-case letter |
| `Text.Strip` | app.py:184 | `strip()`: characterised by `StripIsStrippedSlice`, `StripIdempotent` and `StripKeepsTrimmed` |
| `Text.StripKeepsTrimmed` | app.py:197 | a text that neither starts nor ends with whitespace strips to itself |
| `Text.StripIsStrippedSlice` | app.py:184 | `strip()` returns a slice of its argument; everything outside the slice is whitespace, and the slice neither starts nor ends with whitespace |
| `Text.StripIdempotent` | app.py:197 | stripping an already stripped deal name changes nothing |
| `Text.Contains` | app.py:172-210 | `kw in s`: holds exactly when `IndexOf` finds an occurrence from position 0, which by the contract of `IndexOf` is exactly when the keyword occurs somewhere in the text |
| `Text.IndexOf` | app.py:172 | the substring search returns the first position at or after `start` where the keyword occurs, or none when it occurs nowhere there; this is what `kw in s` tests |
| `Text.SplitLast` | app.py:184 | `s.split(sep)[-1]` is a suffix of `s` that does not contain `sep`; it is all of `s` when `sep` does not occur, and otherwise `sep` stands right before it |
| `Text.SplitLastAfterLastOccurrence` | app.py:197 | for a separator that cannot overlap itself, the last piece of the split starts after every occurrence of the separator |
| `Text.Join` | app.py:179 | `", ".join(...)`: characterised by `JoinSnoc` and `JoinHasEveryPart` |
| `Text.JoinSnoc` | app.py:179 | joining one more part adds the separator and that part at the end |
| `Text.JoinHasEveryPart` | app.py:179 | every part occurs in the joined text |
| `Text.NatToString` | app.py:203 | the rendered total is a non-empty run of decimal digits with no leading zero |
| `Text.ParseNatToString` | app.py:211 | reading the rendered digits back gives the number again |
| `Menu.Lookup` | app.py:62-66 | returns `None` exactly when no row's lower-cased `Deal` equals the lower-cased query; otherwise it returns a row of the menu with that name, and it is the first such row |
| `Menu.GetItemDetails` | app.py:62-66 | the loop with an early return yields exactly `Lookup` |
| `Menu.LookupFindsEveryRow` | app.py:62-66 | looking up any row's own `Deal`, in any casing, finds the first row with the same lower-cased name, at or before that row |
| `Menu.LookupOwnRow` | app.py:62-66 | when lower-cased names are distinct, looking up a row's own name in any casing returns exactly that row |
| `Menu.LookupIgnoresCase` | app.py:64 | two queries with the same lower-cased form find the same row |
| `Dispatch.FirstKeyword` | app.py:172-215 | the keyword rule table: the first keyword the text contains, with every earlier keyword absent, or "none" when it contains none |
| `Dispatch.Classify` | app.py:169-216 | the input is skipped exactly when it is `None` or `""`; it ends the session exactly when its lower-cased form contains "thank you"; the chat fallback receives the utterance unchanged |
| `Dispatch.ClassifyFollowsRuleTable` | app.py:172-215 | the branch the chain takes is the first of "thank you", "menu", "price of", "add", "total amount" that the lower-cased utterance contains, and chat when it contains none, so "menu" wins over "add" |
| `Dispatch.AddressIsAdd` | app.py:196 | the keyword tests are plain substring tests, so "address" is an add request |
| `Dispatch.IntentIgnoresCase` | app.py:172-210 | utterances with the same lower-cased form take the same branch |
| `Dispatch.DealName` | app.py:184 | `user_input.split(kw)[-1].strip()`: characterised by `DealNameAfterLast` |
| `Dispatch.DealNameAfterLast` | app.py:184 | the extracted name is the stripped text after the last case-sensitive occurrence of the keyword, or the whole stripped utterance when the keyword does not occur in that casing |
| `Dispatch.PriceDealName` | app.py:183-184 | a price request looks up the stripped text after the last case-sensitive "price of", or the whole stripped utterance when "price of" appears only in another casing |
| `Dispatch.AddDealName` | app.py:196-197 | an add request looks up the stripped text after the last case-sensitive "add", or the whole stripped utterance when "add" occurs only in another casing |
| `Dispatch.AddZingerAsksForAddZinger` | app.py:196-197 | "Add Zinger" takes the add branch and asks for a deal named "Add Zinger", since it holds no lower-case "add" |
| `Dispatch.WhitespaceGoesToChat` | app.py:169-216 | an utterance of whitespace only is not treated as empty; it contains no keyword and goes unchanged to the chat fallback |
| `Dispatch.Deals` | app.py:179 | the `Deal` column in menu order, one name per row |
| `Dispatch.MenuReply` | app.py:179 | `menu_text`: characterised by `MenuReplyNamesEveryDeal` and `MenuReplyInOrder` |
| `Dispatch.MenuReplyNamesEveryDeal` | app.py:179 | the menu text names every deal after "Here is our menu: " |
| `Dispatch.MenuReplyInOrder` | app.py:179 | the menu text lists the deals in menu order, separated by ", " |
| `Dispatch.PriceReply` | app.py:189 | the price f-string: deal name, price in decimal (`NatToString`), description |
| `Dispatch.NoDetailsReply` | app.py:193 | the text for a price request whose deal is not found |
| `Dispatch.AddedReply` | app.py:203 | the add f-string with the updated total in decimal (`NatToString`) |
| `Dispatch.NotOnMenuReply` | app.py:207 | the text for an add request whose deal is not found |
| `Dispatch.TotalReply` | app.py:211 | the total f-string, in decimal (`NatToString`) |
| `Dispatch.ChatReply` | app.py:217 | the chat model's answer after "GPT-4 Turbo response: " |
| `Dispatch.Reply` | app.py:172-216 | every branch writes a text, and only an empty utterance gets no reply |
| `Assistant.Total` | app.py:200-202 | the value of `total_price`: the sum of the ordered prices; characterised by `TotalAppend` |
| `Assistant.TotalAppend` | app.py:200-202 | appending an item to the order adds its price to the sum of prices |
| `Assistant.AddedBy` | app.py:196-200 | an utterance adds an item exactly when it is an add request whose deal is found, and what it adds is a menu row |
| `Assistant.AddedItemsFromMenu` | app.py:198-200 | every item a run of utterances adds is a row of the menu |
| `Assistant.SuccessfulAddsAppendInOrder` | app.py:196-202 | k successful add requests leave exactly k items, the ones found for each request, in request order |
| `Assistant.AddedItemsSnoc` | app.py:196-202 | one more utterance extends the added items by the row it adds, or leaves them as they were |
| `Assistant.FirstThanksIsFirst` | app.py:172-174 | the position found is an utterance containing "thank you" in some casing, with no such utterance before it; nothing is found exactly when no utterance contains it |
| `Assistant.FirstThanksSnoc` | app.py:172-174 | one more utterance keeps the first "thank you" where it was, or puts it at the new utterance when that one says it |
| `Assistant.FirstThanksPrefix` | app.py:172-174 | a "thank you" found in a prefix of the utterances is the first one of the whole run |
| `Assistant.Replies` | app.py:178-216 | the texts the loop writes for a run of utterances: one reply per utterance but an empty one, in order; characterised by `RepliesSnoc` and `GoodbyeIsLast` |
| `Assistant.RepliesSnoc` | app.py:178-216 | one more utterance writes its reply after the earlier ones, with the total that includes what it added |
| `Assistant.GoodbyeIsLast` | app.py:172-174 | a run that stops at its first "thank you" has "Goodbye" as its last text |
| `Assistant.Session.constructor` | app.py:160-161 | a new session has an empty order, total 0, and has not ended |
| `Assistant.Session.Perform` | app.py:172-216 | see below |
| `Assistant.Session.Handle` | app.py:168-218 | see below |
| `Assistant.Session.Run` | app.py:167-218 | the loop keeps the invariant and stops right after the first utterance that says "thank you", or after the last utterance; what it has written is the replies to the utterances it heard |
| `Assistant.Serve` | app.py:157-218 | see below |

`Assistant.Session.Perform` states the following:
- Only the "thank you" branch ends the session.
- An add request whose deal is found appends exactly the found row and adds
  its price.
- Every other branch, and a failed add, leaves the order and the total
  unchanged.
- The reply is the text of that branch, as `Dispatch.Reply` gives it, with
  the updated total in the add reply.
- The total stays the sum of the ordered prices, and every ordered item
  stays a menu row.

`Assistant.Session.Handle` states the following:
- It keeps `Valid` and records the utterance in `history`.
- The session ends exactly when the utterance says "thank you".
- The order and the total change exactly by what `AddedBy` says the
  utterance adds.
- The reply is `Dispatch.Reply` for the utterance's intent, and it is
  appended to `written` unless it is `None`.
- `written` stays the replies to the utterances heard so far.

`Assistant.Serve` states the following:
- It greets first.
- With no menu, or an empty menu, it writes the apology and takes no order.
- Otherwise it ends exactly when some utterance contains "thank you". It
  stops right after the first such utterance, with "Goodbye" as the last
  text, or it hears every utterance when none says it.
- The transcript is the greeting followed by the reply to each heard
  utterance, in order (`Replies`).
- The final order is the list of items the heard utterances added.
- The final total is the sum of that order's prices, and every ordered item
  is a menu row.

## Left out

- The Streamlit page layout, buttons, sidebar, and the embedded HTML and
  JavaScript (app.py:68-155). These are user interface only.
- The `<script>speakText(...)</script>` markdown lines (app.py:181, 191,
  194, 205, 208, 213, 218). They only repeat a text for speech synthesis.
- The `User input: ...` echo (app.py:176). It is display only and changes
  no state.
- `recognize_speech` (app.py:11-26). It is microphone and speech-service
  I/O. Its result is the utterance passed in, and its apology strings are
  ordinary utterances.
- `chat_with_gpt` (app.py:28-40). It is a network call with its own error
  handling. It is the function parameter `chat`, and a failed call is
  whatever string `chat` returns.
- `get_menu` (app.py:42-60). It is a pandas CSV read. Its outcome is the
  `Option<seq<Item>>` that `Serve` receives. The messages it writes on
  failure are not modelled.
- `int(...)` on the price (app.py:201). Prices are `nat` values, and the
  price reply renders the same number.
- Unicode case folding. `Lower` changes ASCII letters only, while Python's
  `str.lower()` also lower-cases non-ASCII letters.
- The endless loop of the source. `Serve` runs over a finite sequence of
  utterances, and when the sequence runs out before a "thank you", it stops
  with the session still open.
