# Mail client front-end rules, in Dafny

This project models the pure rules inside the browser side of a small
Django webmail client, and proves properties of them:

- **the inbox script** (`mail/static/mail/inbox.js`):
  - the compose-form validator `validateEmailForm`;
  - the CSRF cookie lookup `getCookie`;
  - the draft store in local storage (`saveDraft`, `getDrafts`, `deleteDraft`) and the guard of the "save draft" button;
  - the reply pre-fill of `reply_to_email`;
  - the archive and read toggles (`toggle_archive`, `handleArchiveStateChange`, `toggle_read`).
- **the text helpers** (`mail/static/mail/js/utils.js`): `escapeHtml` and `formatEmailBody`.
- **the toast queue** (`mail/static/mail/notifications.js`): `NotificationManager`, a FIFO queue feeding at most three visible toasts, with its titles, classes, option merging and clock stamp.
- **the theme toggle** (`mail/static/mail/dark-mode.js`): the initial theme, the click transition and the button icon, as a two-state machine.

Each module is one file:

| file | module | models |
|---|---|---|
| `wrappers.dfy` | `Wrappers` | `Option` and `Result` |
| `text.dfy` | `Text` | JavaScript's `trim`, `\s`, `split`, `join`, `startsWith` and UTF-16 `length` |
| `validation.dfy` | `Validation` | `validateEmailForm` and the address pattern |
| `cookies.dfy` | `Cookies` | `getCookie`, against the cookie-string shape of section 5.4 of RFC 6265 |
| `drafts.dfy` | `Drafts` | the draft store and the save-draft guard |
| `mail_actions.dfy` | `MailActions` | reply pre-fill, archive and read toggles |
| `html_text.dfy` | `HtmlText` | `escapeHtml` and `formatEmailBody` |
| `notifications.dfy` | `Notifications` | `NotificationManager` |
| `dark_mode.dfy` | `DarkMode` | the theme toggle |

The model is functional throughout. Everything the code reads from outside becomes a parameter:

- the DOM, local storage and the outcome of each `fetch`;
- the clock and `Date.now()`;
- the operating system's colour preference;
- `decodeURIComponent`.

Some sources of the code are modelled by hand:

- **White space.** `trim` and the pattern class `\s` both use JavaScript's WhiteSpace and LineTerminator set, written out as `Text.IsSpace`.
- **Subject length.** `subject.length` counts UTF-16 code units, so `Text.Utf16Length` counts a character above U+FFFF twice.
- **Address pattern.** `/^[^\s@]+@[^\s@]+\.[^\s@]+$/` becomes a structural predicate: a run, `@`, a run, `.`, a run. A one-pass matcher is proved to decide it.
- **Escaping.** `escapeHtml` leans on the DOM text serializer. It is modelled by the "escaping a string" algorithm of the WHATWG HTML Living Standard (section "Serializing HTML fragments", text-node mode): `&`, U+00A0, `<` and `>` become `&amp;`, `&nbsp;`, `&lt;` and `&gt;`.

## Model

| member | source | states |
|---|---|---|
| Text.Trim | mail/static/mail/inbox.js:728 | `s.trim()` is empty exactly when `s` is nothing but white space |
| Text.TrimEnds | mail/static/mail/inbox.js:732 | a non-empty trim neither starts nor ends with white space |
| Text.TrimInfix | mail/static/mail/inbox.js:732 | a trim is an infix of its input, and what it cuts off at either end is white space only |
| Text.Utf16Length | mail/static/mail/inbox.js:745 | `length` in UTF-16 units lies between the number of characters and twice that |
| Text.Substring | mail/static/mail/inbox.js:99-100 | `substring` with bounds inside the string is the slice between them, and an end past the string gives the rest from `start`; never longer than the string |
| Text.Split | mail/static/mail/inbox.js:732 | `split(',')` always yields at least one part, and no part holds the separator |
| Text.JoinSplit | mail/static/mail/inbox.js:732 | splitting loses nothing: joining the parts with the separator gives the input back |
| Text.SplitJoin | mail/static/mail/inbox.js:96 | separator-free parts are recovered exactly by splitting their join |
| Validation.MessageInjective | mail/static/mail/inbox.js:729-751 | no two different errors share a message, so the message list identifies the errors |
| Validation.MatchEmailPattern | mail/static/mail/inbox.js:733-736 | the one-pass matcher accepts exactly the strings of shape run `@` run `.` run, where a run is non-empty and free of white space and `@` |
| Validation.InvalidAddressErrors | mail/static/mail/inbox.js:735-739 | at most one error per address; none exactly when every address is well formed; each error names a malformed address of the list |
| Validation.InvalidAddressErrorsSingle | mail/static/mail/inbox.js:736-738 | a single address yields one `Invalid email format` error if it is malformed and none otherwise |
| Validation.InvalidAddressErrorsAppend | mail/static/mail/inbox.js:735 | errors for malformed addresses come out in the order of the addresses |
| Validation.InvalidAddressErrorsComplete | mail/static/mail/inbox.js:735-739 | every malformed address gets its `Invalid email format` error |
| Validation.RecipientErrors | mail/static/mail/inbox.js:728-740 | a blank field gives exactly "Recipients field is required"; otherwise the per-address errors of the trimmed parts, so every error names a malformed part and every malformed part has its error; none exactly when the field is non-blank and every part is well formed |
| Validation.SubjectErrors | mail/static/mail/inbox.js:743-747 | blank gives "required"; non-blank and over 255 UTF-16 units gives "less than 256"; else nothing; never both |
| Validation.BodyErrors | mail/static/mail/inbox.js:750-752 | an error exactly when the body is blank |
| Validation.ValidateForm | mail/static/mail/inbox.js:724-755 | no errors exactly when the recipients are non-blank with every part well formed, the subject is non-blank and at most 255 units, and the body is non-blank |
| Validation.ValidateFormOrder | mail/static/mail/inbox.js:724-755 | errors are grouped: recipients first, then subject, then body |
| Validation.ValidateFormRequired | mail/static/mail/inbox.js:728-752 | each "required" error appears exactly when its field is blank; a blank recipients field yields no address errors |
| Validation.Messages | mail/static/mail/inbox.js:729-751 | one message per error, the message at each position is that error's, and a message occurs exactly when its error does |
| Validation.MessagesAppend | mail/static/mail/inbox.js:724-755 | messages are taken error by error, so the messages of two error lists in a row are the two message lists in a row |
| Validation.ValidateEmailForm | mail/static/mail/inbox.js:724-755 | the message list is empty exactly when the form is valid; each "required" message appears exactly when its field is blank; the recipient messages come first, then the subject's, then the body's |
| Cookies.Names | mail/static/mail/inbox.js:99 | the `substring` comparison holds exactly when the entry starts with `name=` |
| Cookies.FirstMatch | mail/static/mail/inbox.js:97-103 | null exactly when no trimmed entry starts with `name=`; otherwise the decoded rest of the first entry that does |
| Cookies.GetCookie | mail/static/mail/inbox.js:93-106 | null for an empty cookie string or when no entry names `name`; otherwise the decoded value of the first naming entry |
| Cookies.EntriesOfCookieString | mail/static/mail/inbox.js:96-98 | splitting a well-formed `; `-separated cookie string on `;` and trimming gives back its `name=value` pairs |
| Cookies.NamesPair | mail/static/mail/inbox.js:99 | for a name without `=`, a pair's text starts with `name=` exactly when the pair is called `name` |
| Cookies.FirstMatchPairs | mail/static/mail/inbox.js:97-103 | scanning the pairs agrees with the reference first-cookie-of-that-name lookup |
| Cookies.GetCookieOfCookieString | mail/static/mail/inbox.js:93-106 | on a well-formed cookie string, `getCookie` returns the decoded value of the first cookie of that name, or null when none has it |
| Drafts.GetDrafts | mail/static/mail/inbox.js:780-783 | nothing stored (null or empty text) reads as no drafts; throws exactly when the slot holds text `JSON.parse` rejects; a stored list is returned as it was stored |
| Drafts.SaveDraft | mail/static/mail/inbox.js:758-778 | the stored list grows by exactly one; earlier drafts keep their place; the new last draft carries the given id, time and fields |
| Drafts.RemoveId | mail/static/mail/inbox.js:787 | a draft survives the filter exactly when it was there and its id differs |
| Drafts.DeleteDraft | mail/static/mail/inbox.js:785-789 | stores the filtered list; throws exactly when the slot is garbled |
| Drafts.RemoveIdAppend | mail/static/mail/inbox.js:787 | the filter keeps the relative order of the drafts |
| Drafts.RemoveAbsentId | mail/static/mail/inbox.js:787 | deleting an id no draft carries leaves the list unchanged |
| Drafts.RemoveIdIdempotent | mail/static/mail/inbox.js:785-789 | deleting twice is deleting once |
| Drafts.DeleteUndoesSave | mail/static/mail/inbox.js:758-789 | saving under a fresh id and deleting that id gives back the drafts there were |
| Drafts.SaveDraftClicked | mail/static/mail/inbox.js:61-77 | refuses exactly when all three fields are blank; otherwise throws exactly when storage is garbled, and else the stored list is the old one plus the new draft |
| MailActions.ReplySubject | mail/static/mail/inbox.js:634-636 | the reply subject starts with `Re: `; it equals the subject exactly when the subject already starts with `Re: `, and is `Re: ` plus the subject otherwise |
| MailActions.ReplySubjectIdempotent | mail/static/mail/inbox.js:634-636 | replying to a reply adds no second `Re: ` |
| MailActions.ReplySubjectRecoverable | mail/static/mail/inbox.js:634-636 | when `Re: ` was added, dropping it gives the original subject |
| MailActions.ReplyForm | mail/static/mail/inbox.js:631-645 | the reply goes to the sender, carries the reply subject, quotes the original body at its end after the original-message header, and records the message it answers |
| MailActions.RenderedArchiveButton | mail/static/mail/inbox.js:413-424 | an archived message gets the success outline, the inbox icon and "Unarchive"; any other the secondary outline; the caption hides on narrow screens; the button is enabled |
| MailActions.HandleArchiveStateChange | mail/static/mail/inbox.js:589-606 | archived gives inbox icon, "Unarchive", "Move to inbox", success outline on and secondary off; not archived the reverse; the row class follows when there is a row; the button is re-enabled |
| MailActions.StateChangeMatchesRendering | mail/static/mail/inbox.js:589-606 | after a state change the button has the icon, caption, title and outline a fresh mailbox load draws for that state; only the caption's responsive classes differ |
| MailActions.ToggleArchive | mail/static/mail/inbox.js:543-586 | sends `archived: !archived`; on success the button shows the new state as a fresh load draws it (caption classes aside) and the inbox is reloaded; on failure only the button is re-enabled; on success the row's `archived` class, when there is a row, follows the new state; the notice type and text follow the outcome |
| MailActions.ArchiveThenUnarchive | mail/static/mail/inbox.js:543-606 | archiving from one drawn list and then unarchiving from the list redrawn after the reload requests the original state and shows the button as first drawn, caption classes aside |
| MailActions.RenderedReadButton | mail/static/mail/inbox.js:401-408 | a read message gets the open-envelope icon and "Mark as unread", an unread one neither; the button is enabled |
| MailActions.RenderedRow | mail/static/mail/inbox.js:380-382 | a drawn row has the `read` class exactly when the message is read, and `unread` exactly when it is not, so exactly one of the two |
| MailActions.ToggleRead | mail/static/mail/inbox.js:687-721 | sends `read: !read`; on success the icon and title show the new state and both row classes flip; on failure only the button is re-enabled |
| MailActions.ToggleReadMatchesRendering | mail/static/mail/inbox.js:705-716 | from a freshly drawn row, a successful toggle leaves button and row as a fresh load of the new state draws them |
| MailActions.DrawRow | mail/static/mail/inbox.js:377-453 | a drawn row has the read button, row classes and archive button of the message's state, no `archived` row class, and remembers the flags its listeners capture; its read button agrees with its row classes |
| MailActions.ClickReadAsWritten | mail/static/mail/inbox.js:444-447 | the read listener sends the negation of the `read` flag captured at drawing, however often it is clicked |
| MailActions.ReadClickedTwiceAsWritten | mail/static/mail/inbox.js:444-447 | two successful clicks on a drawn read button both send the same `read` value; the button then shows the state sent while the row classes are back where they started |
| MailActions.ClickRead | mail/static/mail/inbox.js:687-721 | the corrected listener sends the negation of the state the row shows; a row whose button and classes agree still agrees afterwards; after a success the row shows the state sent; a failure leaves the classes alone |
| MailActions.ReadClickedTwice | mail/static/mail/inbox.js:687-721 | with the corrected listener, two successful clicks send `!read` then `read` and leave the row exactly as drawn |
| MailActions.ClickArchive | mail/static/mail/inbox.js:450-453 | the archive listener sends the negation of the `archived` flag captured at drawing; the row keeps the control the toggle leaves |
| MailActions.ArchiveClickedTwice | mail/static/mail/inbox.js:450-453 | a second successful click before the reload sends the same `archived` value again and leaves the button as the first click left it |
| HtmlText.EscapeChar | mail/static/mail/js/utils.js:13-15 | the serialization of a character never holds `<` or `>` |
| HtmlText.Escape | mail/static/mail/js/utils.js:13-15 | serializing never shortens the text and leaves no `<` or `>` |
| HtmlText.EscapeHtml | mail/static/mail/js/utils.js:11-16 | empty text gives the empty string; the output never holds `<` or `>` |
| HtmlText.UnescapeEscape | mail/static/mail/tests/email-display.test.js:87-92 | reading the four entities back from `escapeHtml`'s output gives the text |
| HtmlText.EscapeAppend | mail/static/mail/js/utils.js:13-15 | escaping works character by character, keeping order |
| HtmlText.EscapePlain | mail/static/mail/js/utils.js:13-15 | text without `&`, U+00A0, `<` or `>` is returned unchanged |
| HtmlText.NewlinesToBr | mail/static/mail/js/utils.js:27 | the output holds no newline and is three characters longer per newline |
| HtmlText.FormatEmailBody | mail/static/mail/js/utils.js:23-28 | an empty body gives `<em>(No content)</em>`; otherwise no newline remains and the length grows by three per newline |
| HtmlText.BrToNewlinesInverts | mail/static/mail/js/utils.js:27 | for text without a literal `<br>`, turning each `<br>` back into a newline restores the text |
| HtmlText.FormatEmailBodyRoundTrip | mail/static/mail/tests/email-display.test.js:155-166 | a non-empty body without a literal `<br>` is recovered from `formatEmailBody` by turning `<br>` back into newlines |
| Notifications.DefaultTitle | mail/static/mail/notifications.js:179-192 | the generic "Notification" title exactly for types other than the four known ones |
| Notifications.TitlesDistinct | mail/static/mail/notifications.js:179-192 | different known types get different titles |
| Notifications.ColourClass | mail/static/mail/notifications.js:43-53 | `bg-light` exactly for unknown types; a known type gets `text-bg-` plus its name |
| Notifications.ToastClass | mail/static/mail/notifications.js:43-53 | the class list is `toast`, a space and the colour class |
| Notifications.Defaults | mail/static/mail/notifications.js:32-37 | the defaults are the type's title, the manager's duration, closeable and animated |
| Notifications.TitleAndClassAgree | mail/static/mail/notifications.js:179-192 | a type gets the generic "Notification" title exactly when it gets the neutral `bg-light` class; a known type gets `text-bg-` plus its name |
| Notifications.Merge | mail/static/mail/notifications.js:39 | each setting is the caller's when given and the default otherwise |
| Notifications.MergeLaws | mail/static/mail/notifications.js:32-39 | no options leave the defaults; two spreads in a row equal one spread of the combined options |
| Notifications.InitialValid | mail/static/mail/notifications.js:19-21 | the manager starts with an empty queue and no toasts, which satisfies the slot invariant |
| Notifications.ProcessQueue | mail/static/mail/notifications.js:93-123 | visible-then-queued order is unchanged (FIFO); visible toasts stay in place; at most 3 stay visible; afterwards the queue is empty or all 3 slots are taken |
| Notifications.Pad2 | mail/static/mail/notifications.js:130-134 | two decimal digits that read back as the number |
| Notifications.TimeString | mail/static/mail/notifications.js:129-135 | five characters, digits around a colon at index 2, reading back as the hours and the minutes |
| Notifications.Show | mail/static/mail/notifications.js:31-88 | exactly one new toast joins the tail of the visible-then-queued order; it is a fresh element with the merged settings and the clock stamp of the call; the slot invariant is kept |
| Notifications.ShowKeepsValid | mail/static/mail/notifications.js:79-85 | enqueuing a fresh toast and processing the queue keeps the slot invariant |
| Notifications.ShowSuccess | mail/static/mail/notifications.js:200-202 | a `success` toast, titled "Success" unless the caller gives a title |
| Notifications.ShowError | mail/static/mail/notifications.js:210-212 | a `danger` toast, titled "Error" unless the caller gives a title |
| Notifications.ShowInfo | mail/static/mail/notifications.js:220-222 | an `info` toast, titled "Info" unless the caller gives a title |
| Notifications.ShowWarning | mail/static/mail/notifications.js:230-232 | a `warning` toast, titled "Warning" unless the caller gives a title |
| Notifications.IndexOf | mail/static/mail/notifications.js:116 | finds the position of a visible element, or reports that it is no longer in the container |
| Notifications.Hide | mail/static/mail/notifications.js:115-120 | an element no longer in the container changes nothing; otherwise it leaves and the rest keep their order; in a valid state the head of the queue takes the freed slot; the slot invariant is kept |
| Notifications.HideKeepsValid | mail/static/mail/notifications.js:115-120 | removing a visible toast and processing the queue keeps the slot invariant |
| Notifications.HideFillsSlot | mail/static/mail/notifications.js:115-120 | when toasts wait, the first waiting toast fills the freed slot and the rest keep waiting |
| DarkMode.UpdateIcon | mail/static/mail/dark-mode.js:39-50 | dark gives the sun icon and "Switch to Light Mode", light the moon and "Switch to Dark Mode"; other icon classes and the theme are untouched |
| DarkMode.Load | mail/static/mail/dark-mode.js:6-18 | dark exactly when the saved theme is `dark`, or nothing (falsy) is saved and the system prefers dark; saved state is untouched; the page is consistent unless a light load finds a stale `dark-mode` body class |
| DarkMode.Click | mail/static/mail/dark-mode.js:21-36 | the theme flips; the saved theme equals the shown one; the page is consistent afterwards; other body classes are untouched |
| DarkMode.ClickTwice | mail/static/mail/dark-mode.js:21-36 | from a consistent page, two clicks restore every attribute and class; only the saved preference differs |
| DarkMode.ReloadKeepsChoice | mail/static/mail/dark-mode.js:12 | after a click, the next load shows the chosen theme whatever the system prefers, so a saved `light` beats a dark system preference |

Helpers without a row of their own are definitions the rows' contracts are stated in: `Text.StartsWith`, `Text.Join`, `Text.TrimAll`, `Validation.Addresses`, `Validation.Message`, `Cookies.Entries`, and the smaller lemmas the listed proofs are split into.

## Left out

- DOM building and HTTP flows are not modelled: `load_mailbox`, `view_email`, `load_drafts`, `edit_draft`, `compose_email`, `handleComposeSubmit`, `mark_email_as_read`, `runEmailDisplayTests` and `mail/static/mail/email-display.js`. Their pure pieces are the validator, the text helpers and the button rules above.
- The server side is not modelled: `turso_utils.py`, `mail/management/commands/check_turso_sync.py` and `project3/wsgi.py` are a database sync client, a background thread and server start-up.
- The sort of the drafts list by parsed locale date strings is not modelled: it depends on locale date parsing.
- `Date.now()` ids, `toLocaleString` timestamps and the `Date` hours and minutes are parameters. The source does not guarantee unique ids, and `Drafts.DeleteUndoesSave` requires a fresh id for that reason.
- Drafts.GetDrafts: when the storage slot holds text that `JSON.parse` rejects, `getDrafts` throws, modelled as `Failure`. A stored JSON value that is not a list of drafts is not modelled.
- Drafts.SaveDraft: `JSON.stringify` followed by `JSON.parse` is taken to give the same drafts back. The storage slot holds the parsed list rather than its text.
- Cookies.GetCookie: `decodeURIComponent` is the parameter `decode`. Its `URIError` on malformed percent-escapes is not modelled.
- Cookies.GetCookieOfCookieString: stated only for names without `=`. A name holding `=` can match a longer cookie name's text, and the lemma does not cover that case.
- MailActions.ToggleArchive and MailActions.ToggleRead have two gaps:
  - `succeeded` means the `fetch` promise resolved. `fetch` resolves on any HTTP status, so a server error also takes the success branch.
  - The button comes from `event.target.closest(...)`. Here it is a parameter.
- MailActions.StateChangeMatchesRendering: the match with a fresh load leaves out the caption's classes. `load_mailbox` gives the caption span `d-none d-md-inline-block ml-1` (inbox.js:422), while `handleArchiveStateChange` gives it `button-text ms-1` (inbox.js:593). The model keeps only whether the caption hides on narrow screens. The row's `archived` class, which `handleArchiveStateChange` sets (inbox.js:601) and `load_mailbox` never draws, is the separate `rowArchived` field.
- MailActions.ToggleRead: a button outside any message row is not modelled. In the code it makes the success handler throw into the failure handler.
- The one-second delayed inbox reload and the auto-disappearing alert of `toggle_archive` are not modelled: they are timers and DOM. They appear only as the `reloadInbox` flag and the `Notice` value.
- Text.Utf16Length and HtmlText.Escape: a JavaScript string can hold a lone surrogate, but a Dafny `char` is a Unicode scalar value. Strings with lone surrogates are therefore not modelled.
- HtmlText.EscapeHtml: `null` and `undefined` inputs are not modelled. The model has strings only, and its falsy string is the empty one.
- HtmlText.FormatEmailBody: the same holds for `null` and `undefined` bodies.
- Notifications.Show has four gaps:
  - The HTML markup of the toast is not modelled. That covers the icon from `_getIconForType` (SVG and `btoa`), the close button and the time stamp placement.
  - Options are modelled as four optional keys. An explicitly `undefined` key or any other key is not modelled.
  - The message is inserted into the toast's HTML without escaping. The model keeps it as plain data.
  - Bootstrap's `Toast` object, its `autohide`/`delay` timer and its animations are not modelled. The model never hides a toast by itself: the hidden event is an input to `Hide`.
- Notifications.ProcessQueue: a notification container found already holding other children is not modelled. Only toasts occupy slots.
- The page-load creation of the global `NotificationManager` and its Bootstrap check are not modelled: it is DOM start-up.
- DarkMode.Load: the button's icon element is assumed to exist.

## Findings

| source | as written | input that shows it | evidently intended | confidence | as-written member | corrected member |
|---|---|---|---|---|---|---|
| mail/static/mail/inbox.js:444-447 | the read button's listener passes the `email.read` captured when the row was drawn, so every click sends the same `read: !email.read` | an unread message's read button clicked twice, both requests succeeding: both send `read: true`; the button says "Mark as unread" while the row is back to `unread` | each click asks for the state the row does not show, so a second click marks the message unread again | high, by reading the listener and `toggle_read`; not executed | MailActions.ReadClickedTwiceAsWritten | MailActions.ReadClickedTwice |
