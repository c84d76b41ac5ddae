/**
 * The per-message actions of the inbox script: the reply pre-fill of
 * `reply_to_email`, and the archive and read toggles (`toggle_archive`,
 * `toggle_read`, `handleArchiveStateChange`). The HTTP request is reduced
 * to the body it sends, and its outcome is a parameter.
 */
module MailActions {
  import opened Wrappers
  import opened Text

  /** A message as the backend returns it. */
  datatype Email = Email(
    id: nat, sender: string, recipients: seq<string>, subject: string,
    body: string, timestamp: string, read: bool, archived: bool)

  /** The compose form's fields, and the message a reply answers. */
  datatype ComposeForm = ComposeForm(recipients: string, subject: string, body: string, replyTo: Option<nat>)

  const ReplyPrefix: string := "Re: "

  /** The subject of a reply: `Re: ` is put in front unless it is already there. */
  function ReplySubject(subject: string): (r: string)
    ensures StartsWith(r, ReplyPrefix)
    ensures r == subject <==> StartsWith(subject, ReplyPrefix)
    ensures r == subject || r == ReplyPrefix + subject
  {
    if StartsWith(subject, ReplyPrefix) then subject else ReplyPrefix + subject
  }

  /** Replying to a reply does not add a second `Re: `. */
  lemma ReplySubjectIdempotent(subject: string)
    ensures ReplySubject(ReplySubject(subject)) == ReplySubject(subject)
  {
  }

  /** The original subject can be read back from the reply subject whenever `Re: ` was added. */
  lemma ReplySubjectRecoverable(subject: string)
    requires !StartsWith(subject, ReplyPrefix)
    ensures ReplySubject(subject)[|ReplyPrefix|..] == subject
  {
  }

  const QuoteHeader: string := "\n\n-----Original Message-----\n"

  /**
   * `reply_to_email(email)`: the compose form addressed to the sender, with
   * the reply subject and the quoted original; `formattedDate` is the
   * locale rendering of the message's timestamp.
   */
  function ReplyForm(email: Email, formattedDate: string): (form: ComposeForm)
    ensures form.recipients == email.sender
    ensures form.subject == ReplySubject(email.subject)
    ensures StartsWith(form.body, QuoteHeader)
    ensures |form.body| >= |email.body| && form.body[|form.body| - |email.body|..] == email.body
    ensures form.replyTo == Some(email.id)
  {
    var body := QuoteHeader + "From: " + email.sender + "\nDate: " + formattedDate
      + "\nSubject: " + email.subject + "\n\n" + email.body;
    assert body[..|QuoteHeader|] == QuoteHeader;
    ComposeForm(email.sender, ReplySubject(email.subject), body, Some(email.id))
  }

  /**
   * The visible state of an archive button. `narrowHidesCaption` is whether
   * the caption's span carries the responsive classes that hide it on small
   * screens.
   */
  datatype ArchiveButton = ArchiveButton(
    icon: string, caption: string, title: string, narrowHidesCaption: bool,
    outlineSuccess: bool, outlineSecondary: bool, disabled: bool)

  /** An archive button and the `archived` class of its message row, when the button sits in a row. */
  datatype ArchiveControl = ArchiveControl(button: ArchiveButton, rowArchived: Option<bool>)

  /** The archive button `load_mailbox` draws for a message, before any click. */
  function RenderedArchiveButton(archived: bool): (b: ArchiveButton)
    ensures b.outlineSuccess == archived && b.outlineSecondary == !archived
    ensures b.caption == "Unarchive" <==> archived
    ensures b.icon == "inbox" <==> archived
    ensures b.narrowHidesCaption && !b.disabled
  {
    ArchiveButton(
      if archived then "inbox" else "archive",
      if archived then "Unarchive" else "Archive",
      if archived then "Move to inbox" else "Archive",
      true, archived, !archived, false)
  }

  /** `handleArchiveStateChange(button, archived)`. */
  function HandleArchiveStateChange(control: ArchiveControl, archived: bool): (r: ArchiveControl)
    ensures archived ==> r.button.icon == "inbox" && r.button.caption == "Unarchive" && r.button.title == "Move to inbox"
    ensures !archived ==> r.button.icon == "archive" && r.button.caption == "Archive" && r.button.title == "Archive"
    ensures r.button.outlineSuccess == archived && r.button.outlineSecondary == !archived
    ensures !r.button.narrowHidesCaption && !r.button.disabled
    ensures r.rowArchived == if control.rowArchived.Some? then Some(archived) else None
  {
    var button := control.button.(
      icon := if archived then "inbox" else "archive",
      caption := if archived then "Unarchive" else "Archive",
      title := if archived then "Move to inbox" else "Archive",
      narrowHidesCaption := false,
      outlineSuccess := archived,
      outlineSecondary := !archived);
    var row := if control.rowArchived.Some? then Some(archived) else None;
    ArchiveControl(button.(disabled := false), row)
  }

  /**
   * After a state change the button shows the icon, caption, title and
   * outline of a fresh mailbox load of that state; only the caption's
   * responsive classes differ.
   */
  lemma StateChangeMatchesRendering(control: ArchiveControl, archived: bool)
    ensures HandleArchiveStateChange(control, archived).button
      == RenderedArchiveButton(archived).(narrowHidesCaption := false)
  {
  }

  /** A transient notice: its type and its message. */
  datatype Notice = Notice(kind: string, message: string)

  /** The effect of one archive click. */
  datatype ArchiveEffect = ArchiveEffect(
    requestId: nat, requestArchived: bool, control: ArchiveControl,
    notice: Notice, reloadInbox: bool)

  /**
   * `toggle_archive(email_id, archived)` for the button `control`: sends
   * `archived: !archived`; when the request succeeds the button shows the new
   * state and the inbox is reloaded, when it fails the button is only
   * re-enabled so the user can retry.
   */
  function ToggleArchive(emailId: nat, archived: bool, control: ArchiveControl, succeeded: bool): (r: ArchiveEffect)
    ensures r.requestId == emailId && r.requestArchived == !archived
    ensures succeeded ==> r.control.button == RenderedArchiveButton(!archived).(narrowHidesCaption := false) && r.reloadInbox
    ensures succeeded ==> r.control.rowArchived == if control.rowArchived.Some? then Some(!archived) else None
    ensures succeeded ==> r.notice.message == "Email " + (if archived then "unarchived" else "archived") + " successfully!"
    ensures !succeeded ==> r.notice.message == "Failed to " + (if archived then "unarchive" else "archive") + " email. Please try again."
    ensures !succeeded ==> r.control == control.(button := control.button.(disabled := false)) && !r.reloadInbox
    ensures !r.control.button.disabled
    ensures r.notice.kind == if succeeded then "success" else "danger"
  {
    var pressed := control.(button := control.button.(disabled := true));
    if succeeded then
      StateChangeMatchesRendering(pressed, !archived);
      ArchiveEffect(emailId, !archived, HandleArchiveStateChange(pressed, !archived),
        Notice("success", "Email " + (if archived then "unarchived" else "archived") + " successfully!"), true)
    else
      ArchiveEffect(emailId, !archived, pressed.(button := pressed.button.(disabled := false)),
        Notice("danger", "Failed to " + (if archived then "unarchive" else "archive") + " email. Please try again."), false)
  }

  /**
   * Archiving from one drawn list and then unarchiving from the list drawn
   * after the reload requests the original state again, and the button
   * shows it as the first list drew it, apart from the caption's responsive
   * classes.
   */
  lemma ArchiveThenUnarchive(emailId: nat, archived: bool, control: ArchiveControl)
    requires control.button == RenderedArchiveButton(archived)
    ensures var once := ToggleArchive(emailId, archived, control, true);
      var redrawn := ArchiveControl(RenderedArchiveButton(!archived), control.rowArchived);
      var twice := ToggleArchive(emailId, !archived, redrawn, true);
      once.reloadInbox && twice.requestArchived == archived
      && twice.control.button == control.button.(narrowHidesCaption := false)
  {
  }

  /** The visible state of a read button. */
  datatype ReadButton = ReadButton(icon: string, title: string, disabled: bool)

  /** The `read` and `unread` classes of a message row. */
  datatype RowClasses = RowClasses(read: bool, unread: bool)

  /** The read button `load_mailbox` draws for a message. */
  function RenderedReadButton(read: bool): (b: ReadButton)
    ensures b.icon == "envelope-open" <==> read
    ensures b.title == "Mark as unread" <==> read
    ensures !b.disabled
  {
    ReadButton(if read then "envelope-open" else "envelope", if read then "Mark as unread" else "Mark as read", false)
  }

  /** The row classes `load_mailbox` gives a message: exactly one of `read` and `unread`. */
  function RenderedRow(read: bool): (c: RowClasses)
    ensures c.read == read && c.unread == !read
    ensures c.read != c.unread
  {
    RowClasses(read, !read)
  }

  /** The effect of one read-toggle click. */
  datatype ReadEffect = ReadEffect(requestId: nat, requestRead: bool, button: ReadButton, row: RowClasses)

  /**
   * `toggle_read(email_id, read)` for a button and its row: sends
   * `read: !read`; on success redraws the button for the new state and flips
   * both row classes; on failure only re-enables the button.
   */
  function ToggleRead(emailId: nat, read: bool, button: ReadButton, row: RowClasses, succeeded: bool): (r: ReadEffect)
    ensures r.requestId == emailId && r.requestRead == !read
    ensures succeeded ==> r.button.icon == (if !read then "envelope-open" else "envelope")
    ensures succeeded ==> r.button.title == (if !read then "Mark as unread" else "Mark as read")
    ensures succeeded ==> r.row.read != row.read && r.row.unread != row.unread
    ensures !succeeded ==> r.button == button.(disabled := false) && r.row == row
    ensures !r.button.disabled
  {
    if succeeded then
      ReadEffect(emailId, !read,
        button.(icon := if !read then "envelope-open" else "envelope",
                title := if !read then "Mark as unread" else "Mark as read",
                disabled := false),
        RowClasses(!row.read, !row.unread))
    else
      ReadEffect(emailId, !read, button.(disabled := false), row)
  }

  /**
   * Starting from what `load_mailbox` drew, a successful read toggle leaves
   * the button and the row exactly as a fresh load of the new state would.
   */
  lemma ToggleReadMatchesRendering(emailId: nat, read: bool)
    ensures var r := ToggleRead(emailId, read, RenderedReadButton(read), RenderedRow(read), true);
      r.button == RenderedReadButton(!read) && r.row == RenderedRow(!read)
  {
  }

  /**
   * A message row of the mailbox list: the message it shows, the `read` and
   * `archived` flags it was drawn with, and its controls.
   */
  datatype MailRow = MailRow(
    emailId: nat, drawnRead: bool, drawnArchived: bool,
    readButton: ReadButton, classes: RowClasses, archive: ArchiveControl)

  /** The row `load_mailbox` draws for a message in a mailbox other than `sent`. */
  function DrawRow(email: Email): (row: MailRow)
    ensures row.readButton == RenderedReadButton(email.read) && row.classes == RenderedRow(email.read)
    ensures row.archive.button == RenderedArchiveButton(email.archived) && row.archive.rowArchived == Some(false)
    ensures row.drawnRead == email.read && row.drawnArchived == email.archived
    ensures ReadInSync(row) && row.classes.read == row.drawnRead
  {
    MailRow(email.id, email.read, email.archived,
      RenderedReadButton(email.read), RenderedRow(email.read),
      ArchiveControl(RenderedArchiveButton(email.archived), Some(false)))
  }

  /**
   * The read button's click listener as written: it passes the `read` flag
   * captured when the row was drawn, whatever earlier clicks did. Returns
   * the row afterwards and the `read` value sent.
   */
  function ClickReadAsWritten(row: MailRow, succeeded: bool): (r: (MailRow, bool))
    ensures r.1 == !row.drawnRead
    ensures r.0.drawnRead == row.drawnRead
  {
    var e := ToggleRead(row.emailId, row.drawnRead, row.readButton, row.classes, succeeded);
    (row.(readButton := e.button, classes := e.row), e.requestRead)
  }

  /**
   * As written, a second successful click on the same read button sends the
   * same `read` value again, while the row's classes flip back: the button
   * and the server say one state, the row the other.
   */
  lemma ReadClickedTwiceAsWritten(email: Email)
    ensures var (once, sent1) := ClickReadAsWritten(DrawRow(email), true);
      var (twice, sent2) := ClickReadAsWritten(once, true);
      && sent1 == !email.read && sent2 == !email.read
      && twice.readButton == RenderedReadButton(!email.read)
      && twice.classes == RenderedRow(email.read)
  {
  }

  /** The row's read button and classes both show the state recorded in the classes. */
  predicate ReadInSync(row: MailRow) {
    row.readButton == RenderedReadButton(row.classes.read) && row.classes == RenderedRow(row.classes.read)
  }

  /**
   * The read listener as intended: it passes the state the row shows now
   * (its `read` class), so every click asks for the other state.
   */
  function ClickRead(row: MailRow, succeeded: bool): (r: (MailRow, bool))
    ensures r.1 == !row.classes.read
    ensures ReadInSync(row) ==> ReadInSync(r.0)
    ensures succeeded && ReadInSync(row) ==> r.0.classes.read == r.1
    ensures !succeeded ==> r.0.classes == row.classes
  {
    var e := ToggleRead(row.emailId, row.classes.read, row.readButton, row.classes, succeeded);
    (row.(readButton := e.button, classes := e.row), e.requestRead)
  }

  /**
   * With the intended listener, two successful clicks mark the message read
   * and unread in turn and leave the row as first drawn.
   */
  lemma ReadClickedTwice(email: Email)
    ensures var (once, sent1) := ClickRead(DrawRow(email), true);
      var (twice, sent2) := ClickRead(once, true);
      && sent1 == !email.read && sent2 == email.read
      && twice == DrawRow(email)
  {
  }

  /**
   * The archive button's click listener: like the read listener it passes
   * the flag captured when the row was drawn. Returns the row afterwards and
   * the effect of the click.
   */
  function ClickArchive(row: MailRow, succeeded: bool): (r: (MailRow, ArchiveEffect))
    ensures r.1.requestArchived == !row.drawnArchived
    ensures r.0.archive == r.1.control
  {
    var e := ToggleArchive(row.emailId, row.drawnArchived, row.archive, succeeded);
    (row.(archive := e.control), e)
  }

  /**
   * A second successful archive click on the same row, before the inbox
   * reload redraws it, sends the same request again and leaves the button
   * as the first click left it.
   */
  lemma ArchiveClickedTwice(email: Email)
    ensures var (once, e1) := ClickArchive(DrawRow(email), true);
      var (twice, e2) := ClickArchive(once, true);
      && e1.requestArchived == !email.archived && e2.requestArchived == !email.archived
      && twice.archive == once.archive && e1.reloadInbox
  {
  }
}
