# Apple-Updates-bot: a verified model of `AppleBot`

`bot_ios.php` is a Telegram bot run in two ways: as a webhook, where it
subscribes users who send `/start`, and as a cron job with `check`, where it
looks for changes on Apple's security acknowledgements page and for new
iOS, iPadOS, macOS and bridgeOS releases, and then messages every
subscriber. This project models the decisions the `AppleBot` class makes and
proves properties of them.

The model keeps the class's state in a Dafny class `Bot.AppleBot`:

- `users` is the content of `users.json`.
- `ackSnapshot` is `latest_ack.json`.
- `fwSnapshot` is `latest_firmware.json`.
- `outbox` holds every `sendMessage` POST, as a chat id and a text chunk.
- `log` holds the entries appended to `telegram_log.txt`.

Everything the script fetches or parses arrives as a parameter:

- the acknowledgement block found;
- the firmware API answer for each device identifier;
- what the security pages gave;
- `strip_tags` and `html_entity_decode`;
- the Telegram transport's answer to each POST.

PHP strings are byte strings, so texts are `seq<byte>`. The source's UTF-8
literals are built from ASCII pieces and the encoding of each non-ASCII
character.

Modules:

- `Text`: bytes, UTF-8 encoding of literals, `implode`, `str_split`.
- `Notifier`: registration, chunking, fan-out, the delivery log.
- `SecurityFixes`: `getSecurityDetails`.
- `Firmware`: the decisions of `checkFirmwares` and its loops.
- `Acknowledgements`: the decisions of `checkAcknowledgements`.
- `Bot`: the class and the dispatch.

Three facts about `bot_ios.php` shape the model:

- `strlen` and `substr` count bytes, so a fix line is cut to 120 bytes, not 120 characters (lines 242-244).
- `str_split` counts bytes, so a message is sent in chunks of 4000 bytes (line 75).
- The release-page pattern at lines 224-231 has three capture groups, and the repeated paragraph group keeps only its last repetition. So the third field of a fix line is the CVE paragraph, and `$m[4]` never exists: the CVE field is always `Sin CVE` (line 238).

The behaviour is defined by these functions, whose properties are the lemmas in the table below:

- `Firmware.Label` (line 169) and `Firmware.Latest` (lines 161-169);
- `Firmware.Changes` (lines 184-188);
- `Firmware.FirmwareMessage` and `Firmware.DetailBlock` (lines 191-196);
- `Acknowledgements.AckChanged` (line 136) and `Acknowledgements.AckMessage` (lines 137-139);
- `SecurityFixes.RawLine` (lines 234-240) and `SecurityFixes.Failure` (lines 210-221).

## Model

| member | source | states |
|---|---|---|
| Notifier.Registered | bot_ios.php:61-67 | the id is in the new list; membership is the old list plus the id; the old list is a prefix and grows by at most one; the list is unchanged exactly when the id was present; no duplicate is introduced |
| Notifier.ChunksRebuildMessage | bot_ios.php:74-75 | the chunks concatenate back to the message; each is 1 to 4000 bytes; all but the last are exactly 4000; there are none only for the empty message |
| Text.StrSplitFlatten | bot_ios.php:75 | `str_split` pieces concatenate back to the string |
| Text.StrSplitSizes | bot_ios.php:75 | every piece is non-empty and at most n bytes; all but the last are exactly n |
| Text.StrSplitCount | bot_ios.php:75 | the number of pieces p satisfies len <= p*n < len + n (p = ceil(len / n)) |
| Notifier.PostsAt | bot_ios.php:77-82 | post i of a chat carries chunk i to that chat |
| Notifier.AttemptsAt | bot_ios.php:84-98 | log entry i records the recipient of post i and the transport's answer to that post, error or HTTP |
| Notifier.FanoutLength | bot_ios.php:261-267 | `notifyAll` makes users x chunks attempts |
| Notifier.FanoutAt | bot_ios.php:261-267 | attempt j*k + c is chunk c to the j-th stored user: users in stored order, chunks in order |
| Notifier.FanoutToOneUser | bot_ios.php:261-267 | with no duplicate users, a stored user receives exactly the message's chunks and a non-stored one receives nothing |
| Notifier.LoggedAppend | bot_ios.php:77-98 | logging a batch of attempts keeps one log entry per post, for the same chat |
| Notifier.AttemptsAppend | bot_ios.php:264-266 | the log of two batches sent in turn is the log of the concatenated batch |
| Bot.AppleBot.RegisterUser | bot_ios.php:61-67 | the user list becomes `Registered(old users, id)` |
| Bot.AppleBot.SendMessage | bot_ios.php:69-104 | the outbox grows by one post per chunk, in order; the log grows by one entry per post with the transport's answer; outbox and log stay in step |
| Bot.AppleBot.NotifyAll | bot_ios.php:261-267 | the outbox grows by the fan-out of the message over the stored users, whatever each attempt returned; the log grows by one entry per post |
| Bot.WelcomeIsOneChunk | bot_ios.php:49 | the confirmation text is a single chunk |
| Bot.WelcomePosts | bot_ios.php:49 | confirming a subscription is exactly one post of the whole text to the sender |
| Bot.WebhookUsers | bot_ios.php:47-48 | on a `/start` with a truthy chat id, the new list holds exactly the old users and the sender, and no duplicate is added; otherwise the list is unchanged |
| Bot.WebhookPosts | bot_ios.php:47-49 | exactly one post, to the sender, for a `/start` with a truthy chat id; none otherwise |
| Bot.AppleBot.HandleWebhook | bot_ios.php:42-51 | users, outbox and log change as `WebhookUsers`/`WebhookPosts` say, and not at all for any other payload |
| Acknowledgements.AckNotice | bot_ios.php:123-140 | a message is sent iff a block was found and it differs from the saved snapshot (a missing snapshot always differs) |
| Acknowledgements.AckAfter | bot_ios.php:123-141 | no block found keeps the snapshot; a found block is the snapshot afterwards |
| Acknowledgements.AckChangedIffDiffers | bot_ios.php:136 | the month-or-names test is exactly inequality with the saved snapshot |
| Acknowledgements.AckCheckIdempotent | bot_ios.php:134-142 | checking the same page again sends nothing and keeps the snapshot |
| Acknowledgements.AckMessageMentions | bot_ios.php:137-139 | the notification contains the month and every name |
| Bot.AppleBot.CheckAcknowledgements | bot_ios.php:117-143 | the snapshot becomes `AckAfter`; the outbox and log grow by the fan-out of `AckNotice` |
| Firmware.LatestMembership | bot_ios.php:161-169 | a release is in `$latest` iff some device has a non-empty firmware list whose first entry gives its `"version (build)"` label |
| Firmware.LatestDistinct | bot_ios.php:151-169 | devices with distinct OS names give releases with distinct OS names |
| Firmware.DetailsAlignWithLatest | bot_ios.php:161-180 | `$details` has one entry per release, in the same order and for the same OS |
| Firmware.DetailsFromSameDevice | bot_ios.php:161-180 | entry i of `$latest` and entry i of `$details` come from one device with a non-empty firmware list: the release is labelled by its first entry and the detail is built from that entry's version |
| Firmware.DetailOf | bot_ios.php:172-176 | the entry is for the OS; the link is the HT201222 fallback exactly when no release page was found (or the found page is that URL) |
| Firmware.ScanDevices | bot_ios.php:158-180 | the device loop computes `$latest` and `$details` |
| Firmware.ChangesMembership | bot_ios.php:184-188 | a release is a change iff it is in `$latest` and its saved label (default empty) differs |
| Firmware.OnlyLatestOsesChange | bot_ios.php:184-188 | an OS known only to the saved snapshot never appears as a change |
| Firmware.ChangesAppend | bot_ios.php:184-188 | the change list keeps `$latest` order: it distributes over concatenation |
| Firmware.ChangeLines | bot_ios.php:186 | one line `"• os → label"` per change, in order |
| Firmware.CollectChanges | bot_ios.php:183-188 | the loop computes the change lines of the change list |
| Firmware.ComposeMessage | bot_ios.php:191-196 | the loop computes header, change lines joined by newlines, and one block per `$details` entry |
| Firmware.NoticeListsChanges | bot_ios.php:190-191 | when a change exists a message is sent, and it contains every change line |
| Firmware.MessageHasEveryDetail | bot_ios.php:194-196 | the message contains the block of every `$details` entry, changed or not |
| Firmware.FirmwareNotice | bot_ios.php:190-198 | a message is sent iff the change list is non-empty |
| Firmware.FirmwareAfter | bot_ios.php:190-200 | without changes the snapshot is kept |
| Firmware.Snapshot | bot_ios.php:199 | the saved map has exactly the OSes of `$latest` as keys |
| Firmware.SnapshotLookup | bot_ios.php:199 | the saved map gives each OS of `$latest` its label |
| Firmware.SnapshotHasNoChanges | bot_ios.php:184-188 | against its own snapshot, `$latest` has no changes |
| Firmware.FirmwareCheckIdempotent | bot_ios.php:182-200 | re-running with the same releases sends nothing and keeps the snapshot |
| Bot.AppleBot.CheckFirmwares | bot_ios.php:150-201 | the snapshot and the outbox/log change as `FirmwareSnapshot`/`FirmwarePosts` say |
| Bot.AppleBot.RunChecker | bot_ios.php:56-59 | the acknowledgement check then the firmware check: both snapshots updated, their posts appended in that order |
| Bot.RecheckSendsNothing | bot_ios.php:56-59 | a second run over the same pages and API answers sends nothing and saves the same snapshots |
| Bot.Serve | bot_ios.php:279-283 | `check` in the query or the first argument runs the checker: both snapshots updated, outbox and log grow by the checker's posts and their answers, users unchanged; anything else is a webhook: users, outbox and log change as for `/start`, both snapshots unchanged |
| SecurityFixes.ThreeGroupsGiveNoCve | bot_ios.php:224-240 | with the three-group pattern the CVE field is `Sin CVE`, and the formatted line, before `html_entity_decode` and truncation, ends with it |
| SecurityFixes.Truncate | bot_ios.php:242-244 | at most 120 bytes; a line of 120 bytes or fewer is unchanged; a longer one is exactly 120 bytes: its first 117 bytes and `...` |
| SecurityFixes.TruncateIdempotent | bot_ios.php:242-244 | truncating twice is truncating once |
| SecurityFixes.FixLine | bot_ios.php:235-244 | a fix line is at most 120 bytes |
| SecurityFixes.FixLines | bot_ios.php:233-247 | one line per match, in match order, each at most 120 bytes |
| SecurityFixes.SecurityDetails | bot_ios.php:206-258 | the link is absent exactly on failure; failure gives the single line `Error: ` plus the message; success gives the support-site link and at least one line, each at most 120 bytes, or only `Detalles aún no publicados.` when nothing matched |
| SecurityFixes.GetSecurityDetails | bot_ios.php:224-253 | the loop computes `SecurityDetails`, one fix line per match |
| Text.JoinHasPart | bot_ios.php:139 | every part survives `implode` |

## Left out

- File and network I/O are not modelled: `file_get_contents`, the `curl_*` calls, `json_decode`/`json_encode` and the files. The files are the class fields. A missing or unreadable acknowledgement file is `None`, and a missing firmware file is the empty map. The fetched data are parameters.
- HTML extraction is not modelled: the regular expressions at lines 121, 127, 213 and 224-231, `trim`, and `strip_tags`/`html_entity_decode`. Their results are inputs (`AckSnapshot`, `DetailSource`, `Match`). The two library functions are the function fields of `Html`.
- `mb_convert_encoding(..., 'UTF-8', 'auto')` (line 73) is taken as the identity, which it is only for valid UTF-8. A fix line cut at byte 117 (lines 242-244) can end inside a multi-byte character (`•`, `→`, or text `html_entity_decode` produced); the source then replaces the stray bytes before `str_split`, so its posted text and chunk boundaries can differ from `Chunks(message)`. That case is not modelled.
- `sleep(1)` between chunks, the `date()` timestamp of a log entry, `echo` in `notifyAll` and `error_log` are left out. They are timing and side output.
- The Telegram request URL, the bot token, `parse_mode` and the content of the HTTP response are left out. A log entry keeps the chat id and the transport's answer, whichever branch it took.
- The transport is a function of the recipient and the text, so identical POSTs get identical answers. Retries, rate limits and answers that change over time are not modelled.
- `$_GET`/`$argv` are reduced to the optional strings compared with `check`. The webhook update is reduced to its optional chat id and text.
- Chat ids are integers, and the webhook guard is the test for a non-zero id. PHP truthiness of string ids (`"0"`) and `in_array`'s loose comparison are not modelled.
- The initial device map of lines 28-33 is never read, because `checkFirmwares` overwrites it at lines 151-156. Only the second map is modelled.
- `str_split` of the empty string gives no pieces, as in PHP 8.2 and later. Older PHP gives one empty piece.
- Several script runs at once (two cron runs, or a webhook during a check) are not modelled.
- The snapshot files are assumed to read back exactly as written. `json_encode` returns false on invalid UTF-8, and the file would then hold an empty string; the idempotence lemmas (`AckCheckIdempotent`, `FirmwareCheckIdempotent`, `RecheckSendsNothing`) do not cover that case.
- A firmware API entry without `version` or `buildid`, and JSON files holding other shapes, are not modelled.
