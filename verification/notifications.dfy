/**
 * The `NotificationManager` of the mail client: a FIFO queue of toasts
 * feeding at most three visible slots. Bootstrap's toast widget is reduced
 * to two events, "shown" (the toast enters the container) and "hidden"
 * (the `hidden.bs.toast` handler), and creating a toast element is
 * modelled by handing out the next element number. The clock reading is a
 * parameter.
 */
module Notifications {
  import opened Wrappers

  /** `maxNotifications`: toasts visible at once. */
  const MaxVisible: nat := 3

  /** `notificationDuration`: the default delay before a toast hides, in milliseconds. */
  const DefaultDuration: int := 5000

  /** The options a caller may pass; an absent key keeps the default. */
  datatype Options = Options(title: Option<string>, duration: Option<int>, closeable: Option<bool>, animation: Option<bool>)

  const NoOptions: Options := Options(None, None, None, None)

  /** The settings a toast is built from. */
  datatype Settings = Settings(title: string, duration: int, closeable: bool, animation: bool)

  /** The four types the manager knows. */
  predicate KnownKind(kind: string) {
    kind == "success" || kind == "danger" || kind == "info" || kind == "warning"
  }

  /** `_getDefaultTitle(type)`: a title of its own for each known type, "Notification" for any other. */
  function DefaultTitle(kind: string): (r: string)
    ensures r == "Notification" <==> !KnownKind(kind)
  {
    match kind
    case "success" => "Success"
    case "danger" => "Error"
    case "info" => "Info"
    case "warning" => "Warning"
    case _ => "Notification"
  }

  /** The class list of a toast element of type `kind`: `toast`, then the colour class. */
  function ToastClass(kind: string): (r: string)
    ensures |r| > 6 && r[..6] == "toast " && r[6..] == ColourClass(kind)
  {
    "toast " + ColourClass(kind)
  }

  /** The colour class of a toast: `text-bg-` and the type for a known type, `bg-light` otherwise. */
  function ColourClass(kind: string): (r: string)
    ensures r == "bg-light" <==> !KnownKind(kind)
    ensures KnownKind(kind) ==> r == "text-bg-" + kind
  {
    if kind == "danger" then "text-bg-danger"
    else if kind == "success" then "text-bg-success"
    else if kind == "info" then "text-bg-info"
    else if kind == "warning" then "text-bg-warning"
    else "bg-light"
  }

  /**
   * The two type tables agree on which types are known: a type gets the
   * generic title exactly when it gets the neutral colour.
   */
  lemma TitleAndClassAgree(kind: string)
    ensures DefaultTitle(kind) == "Notification" <==> ToastClass(kind) == "toast bg-light"
    ensures ToastClass(kind) == "toast text-bg-" + kind <==> DefaultTitle(kind) != "Notification"
  {
    var c := ColourClass(kind);
    assert ("toast " + c)[6..] == c;
    assert "toast bg-light"[6..] == "bg-light";
    assert ("toast text-bg-" + kind)[6..] == "text-bg-" + kind;
    assert ("text-bg-" + kind)[0] == 't';
  }

  /** Different known types get different default titles. */
  lemma TitlesDistinct(kind: string, other: string)
    requires KnownKind(kind) && KnownKind(other) && kind != other
    ensures DefaultTitle(kind) != DefaultTitle(other)
  {
  }

  /** The defaults of `show(type, ...)`: the type's title, five seconds, closeable, animated. */
  function Defaults(kind: string): (d: Settings)
    ensures d.title == DefaultTitle(kind) && d.duration == DefaultDuration
    ensures d.closeable && d.animation
  {
    Settings(DefaultTitle(kind), DefaultDuration, true, true)
  }

  /** `{ ...defaults, ...options }`: each key the caller gave wins. */
  function Merge(defaults: Settings, options: Options): (s: Settings)
    ensures s.title == (if options.title.Some? then options.title.value else defaults.title)
    ensures s.duration == (if options.duration.Some? then options.duration.value else defaults.duration)
    ensures s.closeable == (if options.closeable.Some? then options.closeable.value else defaults.closeable)
    ensures s.animation == (if options.animation.Some? then options.animation.value else defaults.animation)
  {
    Settings(
      match options.title case Some(t) => t case None => defaults.title,
      match options.duration case Some(d) => d case None => defaults.duration,
      match options.closeable case Some(c) => c case None => defaults.closeable,
      match options.animation case Some(a) => a case None => defaults.animation)
  }

  /** Spreading `later` over `earlier`. */
  function Override(earlier: Options, later: Options): Options {
    Options(
      if later.title.Some? then later.title else earlier.title,
      if later.duration.Some? then later.duration else earlier.duration,
      if later.closeable.Some? then later.closeable else earlier.closeable,
      if later.animation.Some? then later.animation else earlier.animation)
  }

  /** No options leave the defaults alone, and two spreads in a row are one spread of the combined options. */
  lemma MergeLaws(defaults: Settings, o1: Options, o2: Options)
    ensures Merge(defaults, NoOptions) == defaults
    ensures Merge(Merge(defaults, o1), o2) == Merge(defaults, Override(o1, o2))
  {
  }

  /** A toast element: its element number, type, message, settings and the `HH:MM` it was created at. */
  datatype Toast = Toast(element: nat, kind: string, message: string, settings: Settings, time: string)

  /** The manager: pending toasts in call order, the toasts in the container, and the next element number. */
  datatype Manager = Manager(queue: seq<Toast>, visible: seq<Toast>, nextElement: nat)

  /** Every element number in use. */
  predicate ElementsBelow(toasts: seq<Toast>, bound: nat) {
    forall k :: 0 <= k < |toasts| ==> toasts[k].element < bound
  }

  predicate DistinctElements(toasts: seq<Toast>) {
    forall i, j :: 0 <= i < j < |toasts| ==> toasts[i].element != toasts[j].element
  }

  /**
   * What the manager keeps true between events: at most three toasts are
   * visible, a toast waits only while all slots are taken, and every toast
   * is a distinct element created earlier.
   */
  predicate Valid(m: Manager) {
    && |m.visible| <= MaxVisible
    && (m.queue == [] || |m.visible| == MaxVisible)
    && ElementsBelow(m.visible + m.queue, m.nextElement)
    && DistinctElements(m.visible + m.queue)
  }

  /** The manager as the constructor leaves it. */
  const Initial: Manager := Manager([], [], 0)

  lemma InitialValid()
    ensures Valid(Initial)
  {
  }

  /**
   * `_processQueue()`: moves toasts from the head of the queue to the end of
   * the container while a slot is free.
   */
  function ProcessQueue(m: Manager): (r: Manager)
    ensures r.visible + r.queue == m.visible + m.queue
    ensures r.nextElement == m.nextElement
    ensures |m.visible| <= |r.visible|
    ensures |m.visible| <= MaxVisible ==> |r.visible| <= MaxVisible
    ensures |m.visible| <= MaxVisible ==> r.queue == [] || |r.visible| == MaxVisible
    ensures r.visible[..|m.visible|] == m.visible
    decreases |m.queue|
  {
    if m.queue != [] && |m.visible| < MaxVisible then
      var next := Manager(m.queue[1..], m.visible + [m.queue[0]], m.nextElement);
      assert next.visible + next.queue == m.visible + m.queue by {
        assert [m.queue[0]] + m.queue[1..] == m.queue;
      }
      var r := ProcessQueue(next);
      assert r.visible[..|m.visible|] == next.visible[..|m.visible|];
      r
    else
      m
  }

  /** `_getTimeString()` digits: `n.toString().padStart(2, '0')`. */
  function Pad2(n: nat): (r: string)
    requires n < 100
    ensures |r| == 2 && IsDigit(r[0]) && IsDigit(r[1])
    ensures 10 * DigitValue(r[0]) + DigitValue(r[1]) == n
  {
    if n < 10 then ['0', Digit(n)] else [Digit(n / 10), Digit(n % 10)]
  }

  predicate IsDigit(c: char) {
    '0' <= c <= '9'
  }

  function Digit(d: nat): (c: char)
    requires d < 10
    ensures IsDigit(c) && DigitValue(c) == d
  {
    '0' + d as char
  }

  function DigitValue(c: char): int {
    c as int - '0' as int
  }

  /**
   * `_getTimeString()` for the clock reading `hours`:`minutes`: two padded
   * digits, a colon, two padded digits, reading back as the clock.
   */
  function TimeString(hours: nat, minutes: nat): (r: string)
    requires hours < 24 && minutes < 60
    ensures |r| == 5 && r[2] == ':'
    ensures forall k :: 0 <= k < 5 && k != 2 ==> IsDigit(r[k])
    ensures 10 * DigitValue(r[0]) + DigitValue(r[1]) == hours
    ensures 10 * DigitValue(r[3]) + DigitValue(r[4]) == minutes
  {
    Pad2(hours) + ":" + Pad2(minutes)
  }

  /**
   * `show(type, message, options)` at clock reading `hours`:`minutes`:
   * builds a toast from the merged settings, queues it at the tail and
   * processes the queue. Returns the new manager and the toast.
   */
  function Show(m: Manager, kind: string, message: string, options: Options, hours: nat, minutes: nat): (r: (Manager, Toast))
    requires hours < 24 && minutes < 60
    ensures r.0.visible + r.0.queue == m.visible + m.queue + [r.1]
    ensures r.1.element == m.nextElement && r.0.nextElement == m.nextElement + 1
    ensures r.1.kind == kind && r.1.message == message
    ensures r.1.settings == Merge(Defaults(kind), options)
    ensures r.1.time == TimeString(hours, minutes)
    ensures Valid(m) ==> Valid(r.0)
  {
    var toast := Toast(m.nextElement, kind, message, Merge(Defaults(kind), options), TimeString(hours, minutes));
    var queued := Manager(m.queue + [toast], m.visible, m.nextElement + 1);
    assert queued.visible + queued.queue == m.visible + m.queue + [toast];
    var r := ProcessQueue(queued);
    ShowKeepsValid(m, toast, r);
    (r, toast)
  }

  lemma ShowKeepsValid(m: Manager, toast: Toast, r: Manager)
    requires toast.element == m.nextElement
    requires r == ProcessQueue(Manager(m.queue + [toast], m.visible, m.nextElement + 1))
    ensures Valid(m) ==> Valid(r)
  {
    if Valid(m) {
      ShowKeepsValidCase(m, toast, r);
    }
  }

  lemma ShowKeepsValidCase(m: Manager, toast: Toast, r: Manager)
    requires Valid(m) && toast.element == m.nextElement
    requires r == ProcessQueue(Manager(m.queue + [toast], m.visible, m.nextElement + 1))
    ensures Valid(r)
  {
    var all := m.visible + m.queue + [toast];
    assert r.visible + r.queue == all;
    forall i, j | 0 <= i < j < |all| ensures all[i].element != all[j].element {
      if j < |all| - 1 {
        assert all[i] == (m.visible + m.queue)[i] && all[j] == (m.visible + m.queue)[j];
      } else {
        assert all[i] == (m.visible + m.queue)[i];
      }
    }
    forall k | 0 <= k < |all| ensures all[k].element < m.nextElement + 1 {
      if k < |all| - 1 {
        assert all[k] == (m.visible + m.queue)[k];
      }
    }
  }

  /** The convenience methods `success`, `error`, `info` and `warning`. */
  function ShowSuccess(m: Manager, message: string, options: Options, hours: nat, minutes: nat): (r: (Manager, Toast))
    requires hours < 24 && minutes < 60
    ensures r.1.kind == "success"
    ensures options.title.None? ==> r.1.settings.title == "Success"
  {
    Show(m, "success", message, options, hours, minutes)
  }

  function ShowError(m: Manager, message: string, options: Options, hours: nat, minutes: nat): (r: (Manager, Toast))
    requires hours < 24 && minutes < 60
    ensures r.1.kind == "danger"
    ensures options.title.None? ==> r.1.settings.title == "Error"
  {
    Show(m, "danger", message, options, hours, minutes)
  }

  function ShowInfo(m: Manager, message: string, options: Options, hours: nat, minutes: nat): (r: (Manager, Toast))
    requires hours < 24 && minutes < 60
    ensures r.1.kind == "info"
    ensures options.title.None? ==> r.1.settings.title == "Info"
  {
    Show(m, "info", message, options, hours, minutes)
  }

  function ShowWarning(m: Manager, message: string, options: Options, hours: nat, minutes: nat): (r: (Manager, Toast))
    requires hours < 24 && minutes < 60
    ensures r.1.kind == "warning"
    ensures options.title.None? ==> r.1.settings.title == "Warning"
  {
    Show(m, "warning", message, options, hours, minutes)
  }

  /** The position of element `element` in `toasts`, if it is there. */
  function IndexOf(toasts: seq<Toast>, element: nat): (r: Option<nat>)
    ensures r.Some? ==> r.value < |toasts| && toasts[r.value].element == element
    ensures r.None? ==> forall k :: 0 <= k < |toasts| ==> toasts[k].element != element
  {
    if toasts == [] then None
    else if toasts[0].element == element then Some(0)
    else match IndexOf(toasts[1..], element)
      case Some(k) => Some(k + 1)
      case None => None
  }

  function RemoveAt(toasts: seq<Toast>, k: nat): seq<Toast>
    requires k < |toasts|
  {
    toasts[..k] + toasts[k + 1..]
  }

  /**
   * The `hidden.bs.toast` handler of element `element`: if the element is
   * still in the container it is removed and the queue is processed again;
   * otherwise nothing happens.
   */
  function Hide(m: Manager, element: nat): (r: Manager)
    ensures IndexOf(m.visible, element).None? ==> r == m
    ensures IndexOf(m.visible, element).Some? ==>
      r.visible + r.queue == RemoveAt(m.visible, IndexOf(m.visible, element).value) + m.queue
    ensures Valid(m) && IndexOf(m.visible, element).Some? && m.queue != [] ==>
      r.visible == RemoveAt(m.visible, IndexOf(m.visible, element).value) + [m.queue[0]]
      && r.queue == m.queue[1..]
    ensures Valid(m) ==> Valid(r)
  {
    match IndexOf(m.visible, element)
    case None => m
    case Some(k) =>
      var removed := Manager(m.queue, RemoveAt(m.visible, k), m.nextElement);
      var r := ProcessQueue(removed);
      HideKeepsValid(m, k, r);
      HideFillsSlot(m, k, r);
      r
  }

  lemma HideKeepsValid(m: Manager, k: nat, r: Manager)
    requires k < |m.visible|
    requires r == ProcessQueue(Manager(m.queue, RemoveAt(m.visible, k), m.nextElement))
    ensures Valid(m) ==> Valid(r)
  {
    if Valid(m) {
      HideKeepsValidCase(m, k, r);
    }
  }

  lemma HideKeepsValidCase(m: Manager, k: nat, r: Manager)
    requires Valid(m) && k < |m.visible|
    requires r == ProcessQueue(Manager(m.queue, RemoveAt(m.visible, k), m.nextElement))
    ensures Valid(r)
  {
    RemoveBeforeQueue(m.visible, m.queue, k);
    RemoveKeepsElements(m.visible + m.queue, k, m.nextElement);
  }

  /** Removing a shown toast removes it from the line of shown-then-queued toasts. */
  lemma RemoveBeforeQueue(visible: seq<Toast>, queue: seq<Toast>, k: nat)
    requires k < |visible|
    ensures RemoveAt(visible, k) + queue == RemoveAt(visible + queue, k)
  {
    assert (visible + queue)[..k] == visible[..k];
    assert (visible + queue)[k + 1..] == visible[k + 1..] + queue;
  }

  /** Removing one toast keeps the others distinct and created earlier. */
  lemma RemoveKeepsElements(toasts: seq<Toast>, k: nat, bound: nat)
    requires k < |toasts|
    requires DistinctElements(toasts) && ElementsBelow(toasts, bound)
    ensures DistinctElements(RemoveAt(toasts, k)) && ElementsBelow(RemoveAt(toasts, k), bound)
  {
    var after := RemoveAt(toasts, k);
    assert forall i :: 0 <= i < |after| ==> after[i] == toasts[if i < k then i else i + 1];
  }

  lemma HideFillsSlot(m: Manager, k: nat, r: Manager)
    requires k < |m.visible|
    requires r == ProcessQueue(Manager(m.queue, RemoveAt(m.visible, k), m.nextElement))
    ensures Valid(m) && m.queue != [] ==> r.visible == RemoveAt(m.visible, k) + [m.queue[0]] && r.queue == m.queue[1..]
  {
    if Valid(m) && m.queue != [] {
      HideFillsSlotCase(m, k, r);
    }
  }

  lemma HideFillsSlotCase(m: Manager, k: nat, r: Manager)
    requires Valid(m) && k < |m.visible| && m.queue != []
    requires r == ProcessQueue(Manager(m.queue, RemoveAt(m.visible, k), m.nextElement))
    ensures r.visible == RemoveAt(m.visible, k) + [m.queue[0]] && r.queue == m.queue[1..]
  {
    var removed := Manager(m.queue, RemoveAt(m.visible, k), m.nextElement);
    var next := Manager(m.queue[1..], removed.visible + [m.queue[0]], m.nextElement);
    assert |removed.visible| == MaxVisible - 1;
    assert ProcessQueue(removed) == ProcessQueue(next);
  }
}
