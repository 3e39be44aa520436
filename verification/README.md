# Wedding site: RSVP flow, photo sharing and notifications in Dafny

This project models the logic of a single-event wedding website: the
browser script that looks up an invitation by its code, builds one
attendance card per invited guest, checks and stores the RSVP, shows
the confirmation, runs the photo lightbox, pages and filters the shared
photos and vets the photos a guest picks for upload; the command-line
script that syncs a file of invitations into the hosted `invitations`
table; and the serverless function that turns a changed `rsvps` row into
a notification e-mail.

The hosted database is modelled by values. The RSVP table is a sequence
of rows behind three procedures (read, update, insert). The invitations
table is a sequence of records. The shared photos are a sequence read a
page at a time. Whether a remote call fails is not decided by the page,
so each call takes its outcome as a parameter (`LookupResponse`,
`RpcOutcome`, `readFails`, `EntryIo`, `fetchFails`). State that the page
or script changes in place (the selected invitation, the form, the
selected files, the lightbox index, the loaded photos, the tables) lives
in classes. Their methods state the new value of every field they set and
that the fields they do not set keep their values. For the RSVP section
the form inputs and the visible text are grouped as `Inputs()` and
`Shown()`, so that a contract says which parts change. The pure parts
(lookup, the confirmation text, the e-mail, the sync semantics, the
JavaScript string functions) are functions with lemmas about them.

Modules:

- `Wrappers`: `Option`.
- `JsStrings`: the JavaScript string functions the code relies on:
  truthiness of an optional string, `||` defaulting, ASCII
  `toUpperCase`/`toLowerCase`, `trim`, `includes`, `endsWith`, `split`,
  `join`, and the decimal printing of a number.
- `Sequences`: order-preserving sub-sequences.
- `Invitations`: the invitation record, the five demo invitations, and
  lookup by code.
- `GuestForm`: guest cards, the collection of responses, and the
  confirmation message.
- `RsvpStore`: the RSVP table and its check-then-update-or-insert write.
- `RsvpFlow`: the RSVP section of the page (`RsvpSession`).
- `SharedPhotos`: paging, the text filter, and the feed.
- `Lightbox`: cyclic previous/next and the lightbox state.
- `PhotoUpload`: the file checks and the selection list.
- `InvitationSync`: the sync script, as a loop and as a fold.
- `NotifyRsvp`: the e-mail built from an RSVP row.
- `NotifyRecipients`: the recipient list read from the environment.

Lookup is by code only. Demo mode compares the upper-cased input with the
demo codes; live mode takes the first row the lookup procedure returns.

## Model

| member | source | states |
|---|---|---|
| JsStrings.OrDefault | supabase/functions/notify-rsvp/index.ts:42-44 | `x \|\| d` on an optional string: the value when it is present and non-empty, the fallback otherwise; a non-empty fallback always gives a non-empty result |
| JsStrings.UpperIdempotent | scripts/sync-invitations.js:58 | upper-casing leaves no lower-case letter and upper-casing again changes nothing |
| JsStrings.TrimSpec | script.js:116 | `trim` removes exactly the leading and trailing whitespace: the result is a slice of the input, has no whitespace at either end, and everything cut off is whitespace |
| JsStrings.TrimOfTrimmed | script.js:116 | trimming a string with no whitespace at either end returns it unchanged |
| JsStrings.ContainsAt | script.js:1004-1007 | `includes` holds exactly when the query occurs at some position |
| JsStrings.JoinContains | supabase/functions/notify-rsvp/index.ts:40-41 | every item of a joined list occurs in the joined text |
| JsStrings.Split | supabase/functions/notify-rsvp/index.ts:64 | `split` on a character always yields at least one piece |
| JsStrings.SplitPieces | supabase/functions/notify-rsvp/index.ts:64 | no piece of a split contains the separator |
| JsStrings.JoinSplit | supabase/functions/notify-rsvp/index.ts:64 | joining the pieces of a split with the separator gives the original text back |
| JsStrings.SplitJoin | supabase/functions/notify-rsvp/index.ts:64 | splitting a join of separator-free items gives the items back |
| JsStrings.ListRoundTrip | supabase/functions/notify-rsvp/index.ts:40-64 | a list joined with ", " and read back with split-and-trim is the original list, for trimmed comma-free items |
| JsStrings.CompactListRoundTrip | supabase/functions/notify-rsvp/index.ts:64 | the same round trip holds for a list joined with "," and no space |
| JsStrings.NatToString | script.js:438 | a count is printed as a non-empty string of decimal digits with no leading zero (only 0 prints as "0") |
| JsStrings.NatToStringRoundTrip | script.js:438 | the printed count reads back as the same number |
| Invitations.DemoInvitations | script.js:457-500 | five demo invitations, each with a party size equal to its number of guest names |
| Invitations.FindIndex | script.js:165-167 | the position of the first invitation with the code, or none exactly when no invitation has it |
| Invitations.FindByCode | script.js:165-167 | `find`: the first invitation of the table carrying the code, or none exactly when no invitation carries it |
| Invitations.FindDemo | script.js:163-167 | demo lookup compares with the upper-cased input: found exactly when some demo code equals it |
| Invitations.DemoCodesDistinct | script.js:457-500 | the demo codes are pairwise distinct, so the first match is the only one |
| Invitations.DemoSmithScenario | script.js:459-466 | the code `smith01` selects the Smith family with its four guests |
| GuestForm.BuildGuestList | script.js:235-268 | one unanswered card per name, in order, keeping its original name and index; a name equal to "guest" in any case is shown as "Your Guest", any other as itself |
| GuestForm.CollectResponses | script.js:299-321 | the loop yields the responses of the answered cards in order, and `allAnswered`/`anyAttending` hold exactly when every card is answered / some card says yes |
| GuestForm.AnsweredResponsesAligned | script.js:304-321 | with every card answered there is one response per card, in card order, with the card's original name, attending exactly on "yes" |
| GuestForm.CountAttendingAppend | script.js:425 | the attending count of two lists together is the sum of their counts |
| GuestForm.AnyAttendingIffCount | script.js:315-429 | the loop's `anyAttending` flag holds exactly when the attending count of the responses is positive |
| GuestForm.SuccessMessageByCounts | script.js:424-445 | the message built from the responses and the flag equals the four-case confirmation for the attending and total counts |
| GuestForm.SuccessTextByCounts | script.js:429-443 | the nested branches of `showSuccess` agree with the flat four-case confirmation text |
| GuestForm.ConfirmationEndsWithClosing | script.js:445 | every confirmation ends with the closing sentence |
| GuestForm.ConfirmationTellsTurnout | script.js:429-443 | equal messages mean the same case: one guest attending, the whole party, part of the party, or nobody |
| RsvpStore.Replace | script.js:369-379 | `update_rsvp` keeps the length; the invitation's rows become the record and every other row is unchanged |
| RsvpStore.UpsertKeepsOneRowPerInvitation | script.js:362-391 | after the read-then-write the table still has one row per invitation; the invitation's row is the submitted record; the other invitations' rows are untouched and in order; a row is added only when none existed |
| RsvpStore.UpsertIdempotent | script.js:362-391 | submitting the same record twice leaves the table as one submission does |
| RsvpStore.UpsertHasRow | script.js:362-391 | after the write the invitation has a row |
| RsvpStore.Store.GetByInvitation | script.js:362-364 | a failed read returns no row; a successful one returns a row of the invitation exactly when the table holds one |
| RsvpStore.FailedReadDuplicates | script.js:362-391 | when the read fails for an invitation that already has a row, the insert that follows leaves it with two rows |
| RsvpStore.Store.Save | script.js:362-407 | when the chosen procedure succeeds the table becomes the upsert of the record after a successful read, or the table plus the record after a failed one; otherwise it is unchanged; after a successful read it keeps one row per invitation |
| RsvpStore.Store.UpdateRsvp | script.js:372-379 | a successful update replaces the invitation's rows; a failed one changes nothing |
| RsvpStore.Store.InsertRsvp | script.js:383-390 | a successful insert appends the record; a failed one changes nothing |
| RsvpFlow.RsvpSession.SelectInvitation | script.js:201-230 | the invitation becomes current; heading "Welcome, <party>!" and the party line; email pre-filled only from a non-empty address; fresh unanswered cards for its guests with their display names; the form replaces the lookup step; the code, the other inputs, the error, the success text and its visibility are unchanged |
| RsvpFlow.RsvpSession.ResetToLookup | script.js:273-285 | no invitation is current; the lookup step is shown alone and the error hidden; code, email, dietary, message and accommodation are cleared; the cards stay with their answers cleared; the heading, party line and success text are unchanged |
| RsvpFlow.RsvpSession.LookupByCode | script.js:142-175 | live: the first returned row is selected as by SelectInvitation with the error hidden; demo: the demo invitation with the upper-cased code is; when nothing is found only the error is shown and the selection, cards, inputs and every other part of the page are unchanged |
| RsvpFlow.RsvpSession.EnterCode | script.js:114-116 | typing sets the code field and changes nothing else |
| RsvpFlow.RsvpSession.SubmitCodeForm | script.js:114-120 | a code field that is blank once trimmed changes nothing; otherwise the trimmed, upper-cased code is looked up with the outcome LookupByCode states, live or demo, found or not; the code field keeps its text |
| RsvpFlow.RsvpSession.CheckUrlForCode | script.js:87-102 | without a non-empty `code` parameter nothing changes; with one the code field shows it upper-cased and the parameter is looked up with the outcome LookupByCode states |
| RsvpFlow.RsvpSession.ChooseAttendance | script.js:249-258 | ticking a radio sets that card's answer to "yes" or "no"; the selection, the code, the other inputs and the page text are unchanged |
| RsvpFlow.RsvpSession.FillDetails | script.js:339-353 | the remaining inputs take the typed values; cards, selection, code and page text are unchanged |
| RsvpFlow.RsvpSession.SubmitRsvp | script.js:290-419 | the four checks run in order and a failing one raises its own alert text and changes nothing; otherwise the record holds one response per card; a failed live write alerts and changes nothing; a successful live write leaves the table as Save states (one row per invitation after a successful read), demo mode leaves it alone, and either shows the confirmation for the record's counts with the selection, cards and inputs unchanged |
| RsvpFlow.RsvpSession.ShowSuccess | script.js:424-452 | the success text is the confirmation for the attending and total counts and the success step replaces the form; heading, error, lookup step, selection, cards and inputs are unchanged |
| SharedPhotos.Page | script.js:948-953 | `.range(offset, offset + 49)`: at most 50 photos, the slice of the table from the offset |
| SharedPhotos.PagesFromCoversTable | script.js:965-973 | loading pages while the last one was full yields exactly the rest of the table, in order |
| SharedPhotos.FilterPhotos | script.js:1003-1008 | every kept photo matches, every matching photo is kept, and order is preserved |
| SharedPhotos.FilterPhotosCounts | script.js:1003-1008 | each matching photo is kept as many times as it occurs, and no other photo is kept |
| SharedPhotos.FilterViewSpec | script.js:995-1013 | a blank query shows every photo; otherwise exactly the photos whose uploader or caption contains the query, ignoring case, in order and with their multiplicities |
| SharedPhotos.SharedPhotoFeed.Render | script.js:1015-1028 | the empty-grid message is shown exactly when no photo is shown, and says whether nothing was loaded or nothing matched |
| SharedPhotos.SharedPhotoFeed.LoadSharedPhotos | script.js:935-993 | a fresh load restarts at offset 0; a non-empty page is appended and shown unfiltered, with "load more" on exactly when the page was full; a failure or an empty page keeps the loaded list; the loaded list stays a prefix of the table; the empty-grid text never changes, and its visibility changes only on a successful fresh load or a non-empty page |
| SharedPhotos.SharedPhotoFeed.ApplyFilter | script.js:995-1013 | the shown photos become the filter view of the loaded ones, which are not changed; the empty-grid message is shown exactly when nothing is shown, saying "No photos match your filter." when photos are loaded |
| Lightbox.NextIndex | script.js:618-621 | `(i + 1) % n` is below `n` and steps forward, wrapping from the last to the first |
| Lightbox.PrevIndex | script.js:613-616 | `(i - 1 + n) % n` is below `n` and steps back, wrapping from the first to the last |
| Lightbox.PrevUndoesNext | script.js:613-621 | previous undoes next and next undoes previous |
| Lightbox.NextTimesBelowEnd | script.js:618-621 | away from the end, `k` presses of next move `k` places |
| Lightbox.NextTimesAdd | script.js:618-621 | `a` presses then `b` presses are `a + b` presses |
| Lightbox.FullCycle | script.js:618-621 | one press of next per photo returns to the starting photo |
| Lightbox.ImagesOfSpec | script.js:519-527 | the gallery images are the images of the items, each as often as it occurs, in item order |
| Lightbox.ImagesOfCounts | script.js:519-527 | each image is collected as many times as an item carries it |
| Lightbox.ImagesOfOrder | script.js:519-527 | the collected images keep the order of their items |
| Lightbox.ImagesOfAllPresent | script.js:519-527 | when every item has an image, the images are the items, one for one |
| Lightbox.LightboxView.constructor | script.js:519-527 | the gallery images are ImagesOf the items; the lightbox starts closed and not in shared-photo mode |
| Lightbox.LightboxView.OpenGalleryAt | script.js:566-588 | a click opens the gallery lightbox on an existing image with its caption, with navigation only for more than one image; a click past the images only moves the index; the shared-photo index is kept |
| Lightbox.LightboxView.OpenSharedAt | script.js:1074-1099 | a click opens the shared-photo lightbox at the index, with the photo's caption (kept as it was for an index past the photos), unless no photo is shown, when nothing changes |
| Lightbox.LightboxView.Close | script.js:590-595 | the lightbox closes and leaves shared-photo mode; indices, caption and navigation buttons are kept |
| Lightbox.LightboxView.HandleNext | script.js:605-633 | next moves the index of whichever collection is shown one step round and shows that image's caption; the other index, the mode and the buttons are kept |
| Lightbox.LightboxView.HandlePrev | script.js:597-633 | previous moves the index of whichever collection is shown one step round and shows that image's caption; the other index, the mode and the buttons are kept |
| Lightbox.LightboxView.KeyDown | script.js:553-563 | keys do nothing while the lightbox is closed; when open, Escape closes it as Close does, the left and right arrows step as HandlePrev and HandleNext do, and any other key does nothing |
| PhotoUpload.AcceptedFiles | script.js:777-801 | only files passing the type and size checks are kept |
| PhotoUpload.AcceptedFilesSpec | script.js:777-801 | every file passing both checks is kept as often as it was picked, no other file is kept, and kept files keep their order |
| PhotoUpload.AlertFor | script.js:782-792 | a file raises at most one alert, and none exactly when it is accepted |
| PhotoUpload.AlertsCount | script.js:777-801 | one alert per rejected file: accepted plus alerts equals the number of files |
| PhotoUpload.AcceptedFilesIdempotent | script.js:777-801 | vetting an already vetted list keeps it whole |
| PhotoUpload.AcceptedFilesAppend | script.js:777-801 | picking two batches keeps what picking them together keeps |
| PhotoUpload.RejectionAlertsAppend | script.js:777-801 | the alerts of two batches are those of the batches one after the other |
| PhotoUpload.UploadSelection.HandleFiles | script.js:777-801 | the accepted files are appended in order, one alert per rejected file, and preview and upload button are shown exactly when a file is selected |
| PhotoUpload.UploadSelection.RemoveAt | script.js:825-830 | `splice(index, 1)` removes exactly that file, and does nothing past the end |
| PhotoUpload.UploadSelection.ClearAllFiles | script.js:838-842 | the selection becomes empty and the preview is hidden |
| PhotoUpload.UploadSelection.UpdatePreview | script.js:803-813 | preview and upload button are shown exactly when a file is selected |
| InvitationSync.OrNull | scripts/sync-invitations.js:62-63 | `x \|\| null` keeps a non-empty value and turns a missing or empty one into null, so it never yields an empty string |
| InvitationSync.Normalize | scripts/sync-invitations.js:51-64 | an entry yields a record exactly when it has a code, a party name and a non-empty guest list; the code is upper-cased, the party size is the guest count |
| InvitationSync.NormalizeIdempotent | scripts/sync-invitations.js:57-64 | a normalised record, written back as an entry, normalises to itself |
| InvitationSync.CountCodeUnique | scripts/sync-invitations.js:66-72 | with unique codes the `.single()` probe finds a row exactly when the code is present |
| InvitationSync.UpdateByCode | scripts/sync-invitations.js:73-76 | every row with the code becomes the record; other rows are unchanged |
| InvitationSync.TallyAccounts | scripts/sync-invitations.js:46-98 | every entry is counted once; every invalid entry is an error, and with a healthy backend only those; every addition adds one row |
| InvitationSync.OkRunShape | scripts/sync-invitations.js:46-98 | with a healthy backend codes stay unique, old rows keep their place with the file's last record for their code, new codes follow, and every valid code is present |
| InvitationSync.RerunOnlyUpdates | scripts/sync-invitations.js:66-97 | re-syncing into a table that has every code only updates, with the counts of valid and invalid entries |
| InvitationSync.SyncIdempotent | scripts/sync-invitations.js:46-98 | syncing the same file twice leaves the table as the first run left it, and the second run adds nothing |
| InvitationSync.OneRowPerCode | scripts/sync-invitations.js:46-98 | each valid code of the file ends in exactly one row, holding the file's last record for it |
| InvitationSync.LastRecordCovers | scripts/sync-invitations.js:50-64 | every valid entry's code has a last record in the file |
| InvitationSync.InvitationTable.Sync | scripts/sync-invitations.js:35-98 | an empty file changes nothing; otherwise the table and the three counters are those of the per-entry fold |
| NotifyRsvp.AttendingNames | supabase/functions/notify-rsvp/index.ts:33 | no more names than responses |
| NotifyRsvp.PartitionWeave | supabase/functions/notify-rsvp/index.ts:33-34 | the two lists partition the guests: their sizes add up, and interleaving them by the answers gives the guest names back in order |
| NotifyRsvp.ListedByAnswer | supabase/functions/notify-rsvp/index.ts:33-34 | each guest is on the list matching their answer |
| NotifyRsvp.Subject | supabase/functions/notify-rsvp/index.ts:36-38 | the subject starts with "RSVP Updated: " or "New RSVP: " and continues with the attending list, or "Response changed"/"Declined" when nobody attends |
| NotifyRsvp.SubjectTellsKind | supabase/functions/notify-rsvp/index.ts:36-38 | equal subjects come from the same kind of event |
| NotifyRsvp.Summarize | supabase/functions/notify-rsvp/index.ts:36-66 | the action word is "Updated" exactly for an update; accommodation, dietary notes and message default to "Not specified", "None" and "No message" when empty |
| NotifyRsvp.EveryGuestInPlainText | supabase/functions/notify-rsvp/index.ts:40-66 | every guest's name occurs in the plain-text body |
| NotifyRsvp.SubjectListsAttending | supabase/functions/notify-rsvp/index.ts:37-40 | the subject carries the attending list, which reads back as the attending names |
| NotifyRecipients.Recipients | supabase/functions/notify-rsvp/index.ts:6-64 | the list always has at least one entry; an entry may be empty when the setting has an empty item, as in "a@x,,b@y" |
| NotifyRecipients.RecipientsClean | supabase/functions/notify-rsvp/index.ts:64 | every recipient is trimmed and has no comma |
| NotifyRecipients.RecipientsDefault | supabase/functions/notify-rsvp/index.ts:6 | without a non-empty setting the recipients are the default address alone |
| NotifyRecipients.SingleRecipient | supabase/functions/notify-rsvp/index.ts:6-64 | a single clean address is the only recipient |
| NotifyRecipients.RecipientsRoundTrip | supabase/functions/notify-rsvp/index.ts:6-64 | a list of clean addresses written with ", " is read back exactly |
| NotifyRecipients.RecipientsRoundTripCompact | supabase/functions/notify-rsvp/index.ts:6-64 | the same holds when written with "," alone |

## Left out

- DOM rendering, HTML markup, scrolling, animations, navigation and menu code, preview thumbnails, fades, `setTimeout` delays and touch swipes are not modelled. Only the state they read or set is.
- The SQL of the remote procedures is not part of this model. Each call takes its outcome as a parameter.
- Concurrency is not modelled. Every handler runs atomically, so the race between two submissions is not modelled.
- Case mapping covers ASCII letters only. JavaScript also maps other Unicode letters.
- `uploadPhotos` is left out. It has a network upload loop and random file names.
- `notify-photo`, `run-migration.js` and `supabase-config.js` are left out. They are a template plus an SMTP call, a file-system wrapper, and a placeholder check.
- The HTML e-mail body, its timestamp, the SMTP client and the JSON re-parse of `guest_responses` when it arrives as a string are left out.
- The sync script's environment loading, file reading, console output, `process.exit` and final count query are left out.
- Lightbox.LightboxView.HandleNext: on an empty collection JavaScript computes `NaN`; the model leaves the index unchanged.
- Lightbox.LightboxView.HandlePrev: on an empty collection JavaScript computes `NaN`; the model leaves the index unchanged.
- Lightbox.LightboxView.OpenGalleryAt: a click index counts every gallery item, including items without an image. The model takes the index as given.
- The `if (codeInput)` presence checks on DOM elements are left out.
- SharedPhotos.SharedPhotoFeed.LoadSharedPhotos: when the photo count is a multiple of 50, "load more" stays on and the next press fetches an empty page. The model reproduces this but proves nothing more about it.
