# Dialog spy bot: shadow store and update dispatcher in Dafny

This project models the core of a Telegram bot that watches a business
account's chats. Each business message's text is kept in a shadow store, so
that when the message is later edited or deleted the bot can tell the
operator what it used to say.

The model has three parts.

- **Store** (`store.dfy`, from `store.go`): the TTL-bounded map of maps. The
  outer key is the scope `"<business connection>:<chat id>"`. The inner map
  goes from message ID to `{text, timestamp}`. The operations are `Save`,
  `Get`, `Delete`, `Count` and one pass of the hourly cleanup (`Sweep`).
- **Handler** (`handler.dfy`, from `handler.go`): `handleUpdate` as the pure
  function `HandleUpdate(store, update, operatorID, now, diff)`. It returns
  the new store and the notifications sent to the operator, in order, or
  `Crashed`. It covers the operator's `/stats` command, new business
  messages, edited business messages and deleted business messages.
- **Format** (`format.dfy`, from `main.go`): `escapeHTML`, `getChatTitle` and
  `getUserName`.

Supporting modules:

- `decimal.dfy` renders integers the way Go's `%d` does and parses them back.
  This is used both for the scope key and for the `"Chat <id>"` and
  `"User <id>"` fallbacks.
- `models.dfy` holds the few Telegram types the bot reads.
- `wrappers.dfy` holds `Option`.

The lock, the goroutine and the ticker are modelled away. The clock is an
integer `now` in the same unit as the TTL. Every operation is a pure
function, so a call that only reads, like `Get`, cannot change the store.

Behaviour of the code that the model keeps as written:

- `Delete` keeps a bucket even when it becomes empty (store.go:61-63).
  Empty buckets are removed only by the sweep (store.go:80-82).
- `Get` does not check age (store.go:43-54). An entry older than the TTL can
  be read until the next sweep removes it.
- An edit whose stored original exists but is empty is reported like an edit
  with no original (handler.go:57). Its body is the escaped new text.
- A deleted message with no record is skipped (handler.go:106-108). A stored
  message whose text is empty is neither reported nor deleted
  (handler.go:110-120).

## Model

| member | source | states |
|---|---|---|
| `Decimal.IntToDecimal` | store.go:33 | The `%d` rendering of a chat ID is non-empty and contains no `':'`. It is all digits exactly when the ID is non-negative, and starts with `'-'` exactly when it is negative. Zero is `"0"`, and no other value has a leading zero after the sign. |
| `Decimal.DecimalRoundTrip` | store.go:33 | Parsing the `%d` rendering gives the integer back. |
| `Decimal.DecimalInjective` | store.go:33 | Two different chat IDs never render alike. |
| `Store.ScopeKeyInjective` | store.go:33 | `ScopeKey` builds the bucket key `"%s:%d"` from a connection ID and a chat ID. Equal bucket keys mean an equal connection ID and chat ID, even when the connection ID contains `':'`. So equal message IDs in different scopes never share a bucket. |
| `Store.Get` | store.go:43-54 | Returns `(text, true)` exactly when a record exists for the message. Otherwise it returns `("", false)`, whether the bucket or the message is the missing part. |
| `Store.NewMessageStore` | store.go:20-27 | A new store holds no message and counts zero. |
| `Store.Save` | store.go:29-41 | Afterwards the message holds the text, timestamped `now`. Every other message, in any scope, keeps its record, and every other bucket is unchanged. The bucket is created when it is absent. |
| `Store.SaveCount` | store.go:34-40 | Saving a message not yet stored raises `Count` by one. Overwriting one leaves `Count` unchanged. |
| `Store.Delete` | store.go:56-64 | Afterwards the message has no record, every other message keeps its record, and every other bucket is unchanged. The set of buckets is unchanged, so an emptied bucket stays. Deleting an absent message leaves the store exactly as it was. |
| `Store.DeleteCount` | store.go:56-64 | Deleting a stored message lowers `Count` by one. Deleting an absent message leaves it unchanged. |
| `Store.Count` | store.go:89-98 | The total equals the sum of the bucket sizes (`BucketSizes`). `BucketSizesRemove` shows that this sum does not depend on the order the buckets are taken in. |
| `Store.BucketSizesRemove` | store.go:94-96 | The sum of bucket sizes equals any one bucket's size plus the sum over the others. So the total is the same whatever order Go's map iteration visits the buckets in. |
| `Store.EntriesSize` | store.go:93-96 | The number of (key, ID) pairs stored equals the sum of the bucket sizes. |
| `Store.Sweep` | store.go:71-85 | After a sweep at `now`, a record survives exactly when it existed and `now - timestamp <= ttl`, and it survives with the same text and timestamp. No remaining record has expired. No bucket is empty, including buckets emptied earlier by `Delete`. No bucket and no record is added, and none is changed. |
| `Store.SweepCount` | store.go:74-82 | A sweep lowers `Count` by exactly the number of expired records. |
| `Store.SweepIdempotent` | store.go:71-85 | A second sweep at the same `now` changes nothing. |
| `Store.SaveSurvivesSweepWithinTtl` | store.go:76-78 | A message saved at most `ttl` before a sweep can still be read with its text. |
| `Store.SaveEvictedAfterTtl` | store.go:76-78 | A message saved more than `ttl` before a sweep reads as `("", false)` afterwards. |
| `Format.ReplaceAll` | main.go:136-138 | Replacing a one-character pattern that does not occur changes nothing. When the replacement does not contain the pattern, the result does not contain it either. |
| `Format.EscapeHTML` | main.go:135-140 | The three passes (`&` first, then `<` and `>`) equal a single per-character map. The output has no `<` or `>`. A string with no `&`, `<` or `>` is returned unchanged. Unescaping the output gives back the input, so nothing is escaped twice. |
| `Format.ThreePassIsOnePass` | main.go:136-138 | The three successive replacements equal mapping each character to its entity on its own. |
| `Format.UnescapeEscapeEach` | main.go:136-138 | Decoding `&amp;`, `&lt;` and `&gt;` inverts the per-character escaping. |
| `Format.EscapeExample` | main.go:135-140 | `<b>&hi</b>` escapes to `&lt;b&gt;&amp;hi&lt;/b&gt;`. |
| `Format.ChatTitle` | main.go:104-119 | Never empty. It is the first non-empty choice among: the title; `"@"` plus the username; the first name followed by `" "` and the last name when there is a last name. Otherwise it is `"Chat <id>"`. |
| `Format.UserName` | main.go:121-133 | Never empty. It is the first non-empty choice among: `"@"` plus the username; the first name followed by `" "` and the last name when there is a last name. Otherwise it is `"User <id>"`. |
| `Format.UntitledChatNamedLikeUser` | main.go:104-133 | A chat without a title is named exactly like a user with the same handle and names. The two differ only in the numeric fallback. |
| `Handler.RenderStats` | handler.go:19-24 | The `/stats` reply starts with the fixed prefix and ends with `</b>`. The count can be parsed back from between them. |
| `Handler.RenderEdit` | handler.go:60-89 | An edit report's first line names the sender and the chat. The text ends with the separator line followed by the body. Nothing else lies between the two. |
| `Handler.RenderDelete` | handler.go:111-117 | A deletion report's first line names the chat. The text ends with the separator line followed by the body. Nothing else lies between the two. |
| `Handler.DeleteReportRecoversText` | handler.go:111-117 | Unescaping the body of a delivered deletion report gives back the deleted message's original text. |
| `Handler.HandleDeletions` | handler.go:97-122 | The reports sent equal the reference `DeletionReports`. That reference reads the store as it was before the update and gives one escaped report per listed ID with non-empty stored text, in list order, skipping repeats. Exactly those messages of that chat are removed. Everything else, including the bucket set, is untouched. |
| `Handler.DeletedIsSeen` | handler.go:103-121 | Deleting a message before the rest of the loop affects later reports exactly as marking it already reported does. |
| `Handler.DeletionReportCount` | handler.go:103-121 | The number of deletion reports equals the number of distinct listed IDs whose stored text is non-empty. |
| `Handler.HandleUpdate` | handler.go:11-123 | Only the first matching branch runs. (1) The operator's `/stats` leaves the store unchanged and sends exactly one report carrying `Count`. (2) A new business message sends nothing; it is saved exactly when it is not the operator's and has text. (3) An edited message from the operator changes nothing. One with no sender crashes. Any other edited message sends exactly one report, classified as: unchanged when the non-empty original equals the new text; `diff(original, new)` when it differs; the escaped new text when there is no non-empty original. The new text is then stored, even when empty. (4) Deleted messages are handled as in `HandleDeletions`: the same reports, the same removals, and the same bucket set. (5) An update with none of these changes nothing and sends nothing. No branch changes the TTL. A save adds only its own bucket to the bucket set. |
| `Handler.PlainMessageFallsThrough` | handler.go:12-27 | A plain message that is not the operator's `/stats` is ignored. The update is handled as if that field were absent. |
| `Handler.SecondEditComparedWithFirst` | handler.go:50-93 | Because every edit is saved, a second edit is compared with the first edit's text. When the first edit has text, the second is reported unchanged when the texts are equal and as a diff otherwise. When the first edit is empty, there is no original, and the second is reported as its escaped text. Afterwards the message reads as the second text. |
| `Handler.NewThenDeletedReportedOnce` | handler.go:29-121 | A message first seen as new and then deleted is reported once, with its text escaped. This holds for any deletion that lists only that message, however many times. Afterwards it reads as `("", false)`. |
| `Handler.DeletionNotificationCount` | handler.go:103-121 | A deletion update sends as many reports as there are distinct listed messages with non-empty stored text. |

## Left out

- `main()` in main.go:16-47 is left out. It reads environment variables, parses the operator ID, installs the interrupt handler and starts the bot. That is startup input and output.
- The `handleUpdate` in main.go:49-102 is left out. It is another revision of the handler: it has no store, a `/test` acknowledgement and a count-only deletion notice. `main()` still calls it (main.go:37), and nothing calls handler.go:11 or `NewMessageStore`. The two revisions declare the same `handleUpdate` in one package, and notify.go:10 and main.go:142 both declare `sendNotification`, so the files do not build together. The model follows handler.go.
- `sendNotification` (notify.go:10-16, main.go:142-148) is left out. It wraps the Telegram client. Delivery is modelled as appending to the sequence of sent notifications. Delivery failures are ignored, as in the source.
- The `sync.RWMutex`, the cleanup goroutine and the `time.NewTicker` loop are left out. They exist for concurrency and scheduling. One sweep is the pure function `Sweep(store, now)`, and when sweeps happen is not modelled.
- `time.Now()` and `time.Duration` are replaced by integer `now` and `ttl`. Go's saturating `Time.Sub` at extreme times is not modelled.
- `generatePrettyDiff` is not part of this model. It is the parameter `diff`, and nothing is assumed about it.
- Go's 64-bit integer widths for chat, user and message IDs are not modelled. The model never does arithmetic on IDs, so wrap-around cannot arise.
- `HandleUpdate`: an edited message without a sender makes `getUserName` dereference nil. This is modelled as the outcome `Crashed` with no store change and nothing sent. What the Telegram library does after the panic is not modelled.
- The Telegram types are reduced to the fields the bot reads.
- Telegram's parsing of the HTML is not modelled. The sender and chat names go into the header unescaped, exactly as in the source.
