# Kontalk desktop client: message view, view utilities and user presence

This project models the core of the Kontalk desktop client's chat view in Dafny:

- **Message items** (`MessageList.MessageItem`). Each message of a chat is shown as one item. The item builds its widgets lazily, the first time it is rendered. After that it refreshes only the parts a change notification names:
  - the sender label;
  - the text;
  - the status icon and tooltip;
  - the attachment panel.

  It observes the contact of every transmission from creation until its removal. It answers the table's text search and defines the item order.
- **The message list** (`MessageList`). It reacts to changes of its chat. It decides which messages need new items and when the chat is marked read.
- **Utilities of the view** (`ComponentUtils`):
  - the status dialog's list of recently used statuses;
  - a text document with a length limit;
  - the toggling selection model of the participants list;
  - the decisions of the key-password form;
  - the attachment panel.
- **Users** (`User`): availability, last-seen date and status text, updated by presence stanzas.

Files:

- `wrappers.dfy`: `Option`.
- `text.dfy` (`Text`): Java's `String.trim`, lower-casing, `contains`, bare JIDs (section 3 of RFC 7622) and file names.
- `messages.dfy` (`Messages`): the facts about a message that the view reads.
- `message_display.dfy` (`MessageDisplay`): everything an item shows, as pure functions of those facts.
- `component_utils.dfy` (`ComponentUtils`).
- `message_list.dfy` (`MessageList`): the item and list classes.
- `user.dfy` (`UserModel`).

The state-changing classes are Dafny classes whose methods are specified against pure functions. Each pure function carries its own properties, and lemmas relate the functions to each other.

Conventions:

- **Date formatting** is a function parameter `fmt: Date -> string`. Equal dates format alike; distinct dates may collide.
- **Translation** (`Tr.tr`) is the identity on the English texts.
- **Option values**: Java's `null` arguments and `Optional`s are `Option` values.
- **Notification kinds**: a change notification is named by the kind of its argument, the `Delta` and `ChatChange` datatypes.

## Model

| member | source | states |
|---|---|---|
| Text.Trim | src/main/java/org/kontalk/view/MessageList.java:363 | the result is the slice of the input starting at some index, and every character before that index and after the slice is white space or a control character; the result neither starts nor ends with one; it is empty exactly when every character is one |
| Text.TrimIdempotent | src/main/java/org/kontalk/view/MessageList.java:363 | trimming twice is trimming once |
| Text.Lower | src/main/java/org/kontalk/view/MessageList.java:596-600 | same length; each ASCII capital becomes the small letter 32 code points above it; every other character is kept |
| Text.Utf16Length | src/main/java/org/kontalk/view/ComponentUtils.java:840 | the length Java reports: at least the number of characters and at most twice it, and equal to it when every character lies in the Basic Multilingual Plane |
| Text.Utf16LengthAppend | src/main/java/org/kontalk/view/ComponentUtils.java:840 | the UTF-16 length of a concatenation is the sum of the lengths |
| Text.BareJid | src/main/java/org/kontalk/view/MessageList.java:646 | a prefix of the address without '/'; if shorter than the address, the address continues with '/' |
| Text.BareJidIdempotent | src/org/kontalk/model/User.java:100-103 | the bare JID of a bare JID is itself, so setting a user's JID to its own JID changes nothing |
| Text.FileName | src/main/java/org/kontalk/view/MessageList.java:532 | a suffix of the path without '/', preceded by '/' when shorter than the path |
| Messages.Message.SingleTransmission | src/main/java/org/kontalk/view/MessageList.java:378-380 | present exactly when the message has one transmission, and then it is that one |
| Messages.Message.DeliveredDate | src/main/java/org/kontalk/view/MessageList.java:377-380 | present exactly when the message has a single transmission, and then it is that transmission's received date |
| Messages.ContactIds | src/main/java/org/kontalk/view/MessageList.java:314-316 | exactly the ids of the transmissions' contacts |
| MessageDisplay.StatusIcon | src/main/java/org/kontalk/view/MessageList.java:377-409 | outbound: "delivered" iff acknowledged, or status RECEIVED, or an unnamed status kept an earlier "delivered"; an unacknowledged message shows the pending, sent or error icon for PENDING, SENT or ERROR and keeps the current icon for any other status; inbound: warning iff coder errors or already warning, and no errors keep the icon; the icon is never cleared |
| MessageDisplay.DeliveredDateOverridesStatus | src/main/java/org/kontalk/view/MessageList.java:383-386 | an acknowledged outbound message shows "delivered" whatever status is stored |
| MessageDisplay.InboundIconIgnoresStatus | src/main/java/org/kontalk/view/MessageList.java:405-409 | an inbound message's icon does not depend on its delivery status |
| MessageDisplay.StatusIconIdempotent | src/main/java/org/kontalk/view/MessageList.java:382-409 | a second icon refresh from the same facts changes nothing |
| MessageDisplay.StatusDate | src/main/java/org/kontalk/view/MessageList.java:415-421 | the delivered date when there is one, else the server date |
| MessageDisplay.StatusLabel | src/main/java/org/kontalk/view/MessageList.java:415-438 | "Delivered:" iff acknowledged or RECEIVED; "Sent:" iff unacknowledged SENT; "Error report:" iff unacknowledged ERROR; none otherwise |
| MessageDisplay.IconMatchesStatusLabel | src/main/java/org/kontalk/view/MessageList.java:383-438 | for an outbound message with a named status, the tooltip label and the icon agree: delivered, sent, error and pending label-less |
| MessageDisplay.OutboundLines | src/main/java/org/kontalk/view/MessageList.java:414-449 | "Created:" with the formatted creation date iff that differs from the formatted status date, including when there is no status date; a status line iff both a label and a date exist, carrying them; created line first |
| MessageDisplay.DeliveredTooltip | src/main/java/org/kontalk/view/MessageList.java:417-449 | an acknowledged outbound message always has the line "Delivered:" with the acknowledgement date |
| MessageDisplay.InboundLines | src/main/java/org/kontalk/view/MessageList.java:450-460 | the "Sent:" line iff a server date exists and formats differently from the receipt date; "Received:" always, and last |
| MessageDisplay.DateLines | src/main/java/org/kontalk/view/MessageList.java:414-460 | the outbound lines for an outbound message and the inbound lines for an inbound one; only date lines; an inbound tooltip always reports its receipt |
| MessageDisplay.ErrorLines | src/main/java/org/kontalk/view/MessageList.java:491-501 | a security-errors line, first, iff there are coder errors, listing them; a server-error line, last, carrying the text iff the server error text is non-empty; no other lines |
| MessageDisplay.TooltipLines | src/main/java/org/kontalk/view/MessageList.java:411-501 | the date lines, then the encryption line with the encryption label, then the error lines, in that order |
| MessageDisplay.TooltipLinesMention | src/main/java/org/kontalk/view/MessageList.java:411-501 | the tooltip always holds the encryption line; a security-errors line iff coder errors; a server-error line iff a server error; an inbound tooltip holds the receipt line |
| MessageDisplay.ErrorsHtml | src/main/java/org/kontalk/view/MessageList.java:491-494 | empty exactly when there are no errors; otherwise it ends with " <br> " |
| MessageDisplay.CollectErrors | src/main/java/org/kontalk/view/MessageList.java:491-494 | the error loop builds exactly the error-list rendering of the tooltip |
| MessageDisplay.LineHtml | src/main/java/org/kontalk/view/MessageList.java:446-500 | never empty; every line except a security-errors line without errors ends with a line break |
| MessageDisplay.LinesHtml | src/main/java/org/kontalk/view/MessageList.java:412-500 | empty exactly when there are no lines |
| MessageDisplay.LinesHtmlAppend | src/main/java/org/kontalk/view/MessageList.java:412-500 | the HTML of two runs of lines is the first's HTML followed by the second's |
| MessageDisplay.TooltipHtml | src/main/java/org/kontalk/view/MessageList.java:412 | starts with "<html><body><br>" and continues after it |
| MessageDisplay.TooltipHtmlAccumulates | src/main/java/org/kontalk/view/MessageList.java:411-501 | the tooltip is the header, the date lines, "Encryption: " with the label and "<br>", then "Security errors: " and the error list when that is non-empty, then "Server error: ", the text and " <br> " when there is a server error |
| MessageDisplay.EncryptionWord | src/main/java/org/kontalk/view/MessageList.java:475-480 | no encryption word contains '/'; "Unknown" exactly for an unknown encryption mode |
| MessageDisplay.SigningWord | src/main/java/org/kontalk/view/MessageList.java:481-486 | no signing word contains '/'; "Unknown" exactly for an unknown signing mode |
| MessageDisplay.EncryptionLabel | src/main/java/org/kontalk/view/MessageList.java:462-488 | "Not encrypted" iff neither encrypted nor signed; "Secure" iff decrypted and (outbound and signed, or inbound and verified); otherwise "<encryption> / <signing>" |
| MessageDisplay.VerboseLabelDeterminesModes | src/main/java/org/kontalk/view/MessageList.java:473-488 | two equal spelled-out labels come from the same encryption and signing modes |
| MessageDisplay.DisplayText | src/main/java/org/kontalk/view/MessageList.java:358-366 | starts with "[encrypted]" while encrypted, else with the trimmed text; ends with " " and the group command when there is one; its length is exactly that start's, plus one and the command's for a group command |
| MessageDisplay.WithCommand | src/main/java/org/kontalk/view/MessageList.java:365-366 | the text is kept as a prefix; a group command follows after one space; without one the text is unchanged |
| MessageDisplay.TextHiddenIff | src/main/java/org/kontalk/view/MessageList.java:358-371 | the text pane is hidden iff the message is not encrypted, has no group command and its text trims to nothing |
| MessageDisplay.ProgressText | src/main/java/org/kontalk/view/MessageList.java:536-544 | "stalled" iff -1; "downloading..." iff 0 or -2; "download failed" iff -3; "loading..." for every other code |
| MessageDisplay.FromString | src/main/java/org/kontalk/view/MessageList.java:641-651 | the contact name when non-empty; else the bare JID when it is at most 40 UTF-16 code units; else its first 8 characters and "..."; without a name the result has no '/' and at most 40 code units |
| MessageDisplay.RefreshedParts | src/main/java/org/kontalk/view/MessageList.java:338-350 | `null` refreshes sender, text, status and attachment; a contact only the sender, a string only the text, a status only the status, an attachment or preview only the attachment, anything else nothing |
| MessageDisplay.BlankView | src/main/java/org/kontalk/view/MessageList.java:245-278 | only inbound items have a sender label; no icon yet |
| MessageDisplay.Refresh | src/main/java/org/kontalk/view/MessageList.java:334-350 | each refreshed part is recomputed from the message's facts; every other part keeps what it showed |
| MessageDisplay.NullRefreshIsEveryKind | src/main/java/org/kontalk/view/MessageList.java:338-350 | a `null` refresh is the contact, text and status refreshes in turn |
| MessageDisplay.RefreshIdempotent | src/main/java/org/kontalk/view/MessageList.java:334-355 | repeating a notification without a change of facts changes nothing |
| ComponentUtils.RemoveFirst | src/main/java/org/kontalk/view/ComponentUtils.java:197 | one element shorter when the element is present, the list itself when absent |
| ComponentUtils.RemoveFirstMultiset | src/main/java/org/kontalk/view/ComponentUtils.java:197 | removal takes exactly one copy of the element, if any, and keeps every other element |
| ComponentUtils.RemoveFirstAt | src/main/java/org/kontalk/view/ComponentUtils.java:197 | removal at the first occurrence keeps all other elements in order, closing the gap |
| ComponentUtils.RemoveFirstOccurrence | src/main/java/org/kontalk/view/ComponentUtils.java:144 | the searching list removal computes exactly the first-occurrence removal |
| ComponentUtils.RemoveFirstDistinct | src/main/java/org/kontalk/view/ComponentUtils.java:197 | on distinct elements removal removes the element entirely and keeps distinctness |
| ComponentUtils.SavedStatuses | src/main/java/org/kontalk/view/ComponentUtils.java:191-204 | the new status first, then the old list with the new status's first occurrence removed, cut so that there are at most 20 entries |
| ComponentUtils.SavedStatusesDistinct | src/main/java/org/kontalk/view/ComponentUtils.java:195-200 | saving keeps a list without duplicates free of duplicates |
| ComponentUtils.SaveCurrentStatusAgain | src/main/java/org/kontalk/view/ComponentUtils.java:195-203 | saving the same status twice is saving it once |
| ComponentUtils.CurrentStatus | src/main/java/org/kontalk/view/ComponentUtils.java:139-142 | the first stored status, or "" for none |
| ComponentUtils.StatusConfig.constructor | src/main/java/org/kontalk/view/ComponentUtils.java:138 | holds the configured status list |
| ComponentUtils.PreviousStatuses | src/main/java/org/kontalk/view/ComponentUtils.java:138-144 | empty for an empty list; otherwise the list without its first entry and without the first empty entry after that, so one or two entries shorter |
| ComponentUtils.PreviousStatusesExcludeCurrent | src/main/java/org/kontalk/view/ComponentUtils.java:138-144 | on a duplicate-free list the previous statuses contain neither the current one nor "" |
| ComponentUtils.ReopenShowsSavedStatus | src/main/java/org/kontalk/view/ComponentUtils.java:191-204 | on a duplicate-free list, after saving, the dialog opens with the saved status as current and not among the previous ones |
| ComponentUtils.StatusDialog.constructor | src/main/java/org/kontalk/view/ComponentUtils.java:138-144 | the field shows the current status and the list the previous statuses |
| ComponentUtils.StatusDialog.SaveStatus | src/main/java/org/kontalk/view/ComponentUtils.java:191-204 | the stored list becomes the saved-status list of the old one |
| ComponentUtils.AfterInsert | src/main/java/org/kontalk/view/ComponentUtils.java:836-843 | null is ignored; refused iff the old text and the string together exceed the limit in UTF-16 code units; an empty string leaves the text as it is; otherwise an inserted text is within the limit and holds the string at the offset, the old text around it; any other outcome leaves the text unchanged |
| ComponentUtils.SupplementaryCharacterExceedsLimitOne | src/main/java/org/kontalk/view/ComponentUtils.java:840 | one character outside the Basic Multilingual Plane counts two code units, so it does not fit a limit of one; a letter does |
| ComponentUtils.TextLimitDocument.constructor | src/main/java/org/kontalk/view/ComponentUtils.java:830-833 | an empty document with the given limit |
| ComponentUtils.TextLimitDocument.InsertString | src/main/java/org/kontalk/view/ComponentUtils.java:836-843 | the text and outcome are those of inserting into the old text; the UTF-16 length stays within the limit |
| ComponentUtils.Interval | src/main/java/org/kontalk/view/ComponentUtils.java:505-510 | the indices between the two ends, in either order |
| ComponentUtils.Toggled | src/main/java/org/kontalk/view/ComponentUtils.java:505-510 | a selected first index deselects the whole interval, an unselected one selects it; outside the interval nothing changes; -1 changes nothing |
| ComponentUtils.ToggleSelectionModel.constructor | src/main/java/org/kontalk/view/ComponentUtils.java:503 | nothing selected |
| ComponentUtils.ToggleTwiceRestoresAnchor | src/main/java/org/kontalk/view/ComponentUtils.java:505-510 | clicking the same interval twice restores the first index's selection |
| ComponentUtils.ToggleSelectionModel.SetSelectionInterval | src/main/java/org/kontalk/view/ComponentUtils.java:505-510 | the selection becomes the toggled selection and stays non-negative |
| ComponentUtils.DoneButtonValid | src/main/java/org/kontalk/view/ComponentUtils.java:620-636 | valid iff (no password set or old password typed) and (no new password asked for, or it is non-empty and equals its confirmation) |
| ComponentUtils.NewPasswordAsWritten | src/main/java/org/kontalk/view/ComponentUtils.java:642-652 | always a value: empty when unchecked, else the new password, confirmed or not |
| ComponentUtils.NewPassword | src/main/java/org/kontalk/view/ComponentUtils.java:642-652 | nothing iff checked and unconfirmed; otherwise empty when unchecked, else the confirmed password |
| ComponentUtils.NewPasswordMismatchReturned | src/main/java/org/kontalk/view/ComponentUtils.java:647-651 | a mismatched password is handed out as written and refused as intended |
| ComponentUtils.ValidFormPasswordConfirmed | src/main/java/org/kontalk/view/ComponentUtils.java:620-652 | on a form the done button accepts, both versions agree and the password is non-empty and confirmed |
| ComponentUtils.WithImage | src/main/java/org/kontalk/view/ComponentUtils.java:807-814 | the current path is a no-op; a new path is stored and loaded once; labels unchanged |
| ComponentUtils.WithStatus | src/main/java/org/kontalk/view/ComponentUtils.java:816-818 | the status reads "Attachment: " followed by the text; nothing else changes |
| ComponentUtils.WithLink | src/main/java/org/kontalk/view/ComponentUtils.java:820-823 | link text and target set, status cleared, image untouched |
| ComponentUtils.AttachmentPanel.constructor | src/main/java/org/kontalk/view/ComponentUtils.java:793-804 | empty image path, labels and loads |
| ComponentUtils.AttachmentPanel.SetImage | src/main/java/org/kontalk/view/ComponentUtils.java:807-814 | the panel state becomes its image update |
| ComponentUtils.AttachmentPanel.SetStatus | src/main/java/org/kontalk/view/ComponentUtils.java:816-818 | the panel state becomes its status update |
| ComponentUtils.AttachmentPanel.SetLink | src/main/java/org/kontalk/view/ComponentUtils.java:820-823 | the panel state becomes its link update |
| MessageList.ShowAttachment | src/main/java/org/kontalk/view/MessageList.java:513-547 | the preview path is shown and loaded only when new; a file path gives a link to it with the link text, and clears the status; without a file the status shows the progress text and the link stays |
| MessageList.ShowAttachmentIdempotent | src/main/java/org/kontalk/view/MessageList.java:513-547 | showing the same attachment again changes nothing and loads no image twice |
| MessageList.DownloadedFileReplacesStatus | src/main/java/org/kontalk/view/MessageList.java:529-545 | once the file path resolves, the link replaces the progress status |
| MessageList.LinkText | src/main/java/org/kontalk/view/MessageList.java:531-534 | the file name when there is no preview image, else empty |
| MessageList.LongerSearchNarrows | src/main/java/org/kontalk/view/MessageList.java:595-605 | an item matching a search matches every prefix of it |
| MessageList.EmptySearchMatchesAll | src/main/java/org/kontalk/view/MessageList.java:595-597 | the empty search matches every item |
| MessageList.Compare | src/main/java/org/kontalk/view/MessageList.java:616-617 | -1, 0 or 1, by the order of the two numbers |
| MessageList.CompareAsWritten | src/main/java/org/kontalk/view/MessageList.java:615-619 | the item order is the id order, whatever the dates |
| MessageList.CompareItems | src/main/java/org/kontalk/view/MessageList.java:615-619 | the same message compares equal; others go by date, then by id |
| MessageList.CompareItemsAntisymmetric | src/main/java/org/kontalk/view/MessageList.java:615-619 | swapping the items negates the result |
| MessageList.CompareItemsTransitive | src/main/java/org/kontalk/view/MessageList.java:615-619 | the intended order is transitive |
| MessageList.NewerMessageWithSmallerIdFirst | src/main/java/org/kontalk/view/MessageList.java:615-619 | as written a newer message with a smaller id sorts first, as intended it sorts last |
| MessageList.MessageItem.constructor | src/main/java/org/kontalk/view/MessageList.java:218-233 | not created, no subscriptions, no attachment panel |
| MessageList.NewMessagesStep | src/main/java/org/kontalk/view/MessageList.java:178-183 | each message looked at is added to the new ones exactly when no item displays it |
| MessageList.MessageItem.CreateContent | src/main/java/org/kontalk/view/MessageList.java:235-317 | runs once: afterwards created, fully refreshed from the blank view, attachment shown if any, subscribed to exactly the transmissions' contacts; a second call changes nothing |
| MessageList.MessageItem.Subscribe | src/main/java/org/kontalk/view/MessageList.java:314-316 | subscriptions become exactly the contact ids of the transmissions |
| MessageList.MessageItem.UpdateOnEDT | src/main/java/org/kontalk/view/MessageList.java:334-355 | before creation nothing visible changes; afterwards the view is the refresh for the notification's kind; the attachment panel changes only for an attachment refresh of a message with an attachment, and an existing panel is kept |
| MessageList.MessageItem.RefreshParts | src/main/java/org/kontalk/view/MessageList.java:338-350 | the parts named by the kind are refreshed and the attachment is shown when named |
| MessageList.MessageItem.UpdateAttachment | src/main/java/org/kontalk/view/MessageList.java:513-547 | no attachment changes nothing; otherwise the panel, created at most once, shows the attachment |
| MessageList.MessageItem.Contains | src/main/java/org/kontalk/view/MessageList.java:595-605 | true iff the lower-cased text, or a transmission contact's lower-cased name or JID, contains the search |
| MessageList.MessageItem.OnRemove | src/main/java/org/kontalk/view/MessageList.java:607-612 | every subscription is released; nothing else changes |
| MessageList.NewMessages | src/main/java/org/kontalk/view/MessageList.java:176-186 | no more messages than the chat has |
| MessageList.NewMessagesExactly | src/main/java/org/kontalk/view/MessageList.java:176-186 | a message is new iff it is one of the chat's messages and no item displays its id |
| MessageList.NewMessagesThenNone | src/main/java/org/kontalk/view/MessageList.java:176-186 | once the new messages are displayed, a second pass finds none |
| MessageList.NoneNewWhenAllShown | src/main/java/org/kontalk/view/MessageList.java:176-186 | when every message is displayed, none is new |
| MessageList.MessageList.constructor | src/main/java/org/kontalk/view/MessageList.java:128 | no items; background from the chat's settings |
| MessageList.MessageList.ShownIds | src/main/java/org/kontalk/view/MessageList.java:179 | holds the message id of every displayed item |
| MessageList.MessageList.ShownIdsExactly | src/main/java/org/kontalk/view/MessageList.java:179 | holds nothing but the message ids of displayed items |
| MessageList.MessageList.ContainsValue | src/main/java/org/kontalk/view/MessageList.java:179 | true iff an item displays a message with that id |
| MessageList.MessageList.InsertMessages | src/main/java/org/kontalk/view/MessageList.java:176-186 | one fresh, unbuilt item per new message; scrolling iff there is one |
| MessageList.MessageList.UpdateOnEDT | src/main/java/org/kontalk/view/MessageList.java:144-174 | membership, subject, read and chat-state changes do nothing; settings replace the background and repaint the current chat; a new message gets one item and scrolling; otherwise new items only while fewer rows than messages; the current chat is marked read in the last two cases |
| UserModel.WithPresence | src/org/kontalk/model/User.java:131-143 | available: YES and last seen now; unavailable: NO and last seen kept; other types keep both; a status replaces the stored one, none keeps it |
| UserModel.LastDecisivePresenceWins | src/org/kontalk/model/User.java:131-138 | availability is decided by the last available or unavailable presence |
| UserModel.OtherPresencesKeepAvailability | src/org/kontalk/model/User.java:131-138 | other presence types change neither availability nor last-seen date |
| UserModel.LastSeenMonotone | src/org/kontalk/model/User.java:132-135 | with a clock that does not go back, the last-seen date never goes back |
| UserModel.User.Create | src/org/kontalk/model/User.java:70-83 | the database id, the bare JID and the name; availability UNKNOWN, no status, never seen |
| UserModel.User.Load | src/org/kontalk/model/User.java:88-94 | id, JID, name, status and last-seen date exactly as stored; availability UNKNOWN |
| UserModel.User.SetJid | src/org/kontalk/model/User.java:100-103 | the JID becomes the bare form of the argument; nothing else changes |
| UserModel.User.SetName | src/org/kontalk/model/User.java:113-117 | only the name changes; the id is a constant |
| UserModel.User.SetPresence | src/org/kontalk/model/User.java:131-143 | the presence facts become the presence update of the old ones; JID and name unchanged |

The getters of `User` (`src/org/kontalk/model/User.java:96-129`) are the functions `GetJid`, `GetId`, `GetName`, `GetStatus`, `GetLastSeen` and `GetAvailable`.

Further facts about the code that the model follows:

- **Link text.** A resolved local file is linked under its file name only when there is no preview image; with a preview the link text is empty (`MessageList.java:529-534`).
- **Contact changes.** A change of a contact refreshes the sender label of an inbound item (`MessageList.java:338-340`).
- **Removing items.** Items for vanished messages are removed by `Table.sync`, which is not part of this model.
- **Search.** The predicates `Matches` and `ContactMatches` define a search hit (`MessageList.java:595-605`). `Contains`, `LongerSearchNarrows` and `EmptySearchMatchesAll` state their properties.

## Left out

- Swing and WebLaF widgets: layout, colours, fonts, borders, popup menus, mouse listeners and the word-wrap editor kit. Only the facts the widgets show are modelled.
- The render width computation (`MessageList.java:320-331`): floating-point arithmetic and Swing sizing.
- The crypt icon and the short date label that `createContent` adds (`MessageList.java:289-302`). They are fixed at creation and carry no logic beyond a lookup.
- The copy-to-clipboard text and the popup menu (`MessageList.java:549-592`).
- Links in the text (`LinkUtils.linkify`), asynchronous image loading (recorded only as the sequence of requested paths) and the tooltip manager.
- Date formats and `Tr.tr` are parameters and literals, as described above.
- `Table.sync` and the `Table` base class are not part of this model. The list's `items` are not updated by the list's own methods, and `InsertMessages` returns the new items that would be handed to `Table.sync`. The source collects them in a `HashSet` and `Table.sync` orders them; the sequence order of the returned items is the model's own.
- `MessageList.MessageList.constructor`: does not run the initial `updateOnEDT(null)` (`MessageList.java:130-132`). That run is `UpdateOnEDT(None, …)` on the new list.
- `MessageList.MessageItem.UpdateOnEDT`: requires the message to keep its identity and its transmissions' contacts. A message's recipients are fixed when it is created; only their data changes.
- Observer registration is a set of contact ids, because `java.util.Observable.addObserver` adds an observer at most once. Threading and the item's observation of its own message (done by the `Table` base class) are left out.
- FromString: the shortened JID keeps its first 8 characters, counted as Unicode scalar values. Java keeps 8 UTF-16 code units and may split a surrogate pair, which a Dafny string cannot hold.
- AfterInsert: the offset counts characters, not UTF-16 code units. The length check counts code units as Java does.
- `Lower`: only ASCII letters are lower-cased; Java's full Unicode case mapping is not modelled.
- `Trim` follows Java's `String.trim` (code points up to U+0020); `Character.isWhitespace` is not involved.
- `FileName` takes the text after the last '/'; `Path` normalisation (repeated or trailing separators) is not modelled.
- The selection model's lead and anchor indices and its change events are not modelled. Indices below -1, which the list never passes, are excluded.
- TextLimitDocument.InsertString: the offset counts characters, as in `AfterInsert`. The plain document's filtering of newlines in text fields and its undo and change events are not modelled.
- `sendStatusText` (network), the `Config` singleton (a `StatusConfig` object instead) and the status list's selection listener, which copies a chosen entry into the field.
- `getOldPassword` and `showWrongPassword`: plain field accessors with no logic.
- `User` persistence (`save`, the database insert giving the id, a parameter here) and the `UserList.changed()` notification. A null JID is not modelled. Presence types other than available and unavailable are one constructor.
- The log warnings for an unexpected message status (`MessageList.java:402`, `436`) and for a failed tooltip update (`MessageList.java:504-510`): logging only, and the tooltip manager is not modelled.
- src/org/kontalk/Kontalk.java (startup, configuration directories, network) is not part of this model.
- Java `int` overflow: ids and progress codes are unbounded integers; the code never does arithmetic on them.
- Facts from classes that are not part of this model: `getSingleTransmission` is present exactly when there is one transmission, and `isEncrypted` means the encryption mode is ENCRYPTED.

## Findings

| source | as written | input that shows it | evidently intended | confidence | as-written member | corrected member |
|---|---|---|---|---|---|---|
| src/main/java/org/kontalk/view/ComponentUtils.java:647-651 | the `Optional.empty()` of the mismatch check is a discarded expression, so a new password that differs from its confirmation is still returned | "Set key password" checked, new password "a", confirmation "b" | return nothing when the new password and its confirmation differ | high, not executed | ComponentUtils.NewPasswordMismatchReturned | ComponentUtils.ValidFormPasswordConfirmed |
| src/main/java/org/kontalk/view/MessageList.java:617 | `dateComp` compares the item's own date with itself, so it is always 0 and items are ordered by id alone | message id 1 dated 5 against message id 2 dated 3: the newer message sorts first | compare with the other item's date: order by date, same date by id | medium, not executed | MessageList.NewerMessageWithSmallerIdFirst | MessageList.CompareItemsTransitive |
