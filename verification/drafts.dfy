/**
 * The draft store of the inbox script (`saveDraft`, `getDrafts`,
 * `deleteDraft`) and the guard of the "save draft" button. Local storage
 * is one slot, the `emailDrafts` key; what it holds is modelled already
 * parsed, with the two texts `JSON.parse` is never or cannot be asked
 * about kept apart. The creation time that becomes a draft's id and its
 * display timestamp are parameters.
 */
module Drafts {
  import opened Wrappers
  import opened Text

  datatype Draft = Draft(id: string, recipients: string, subject: string, body: string, timestamp: string)

  /** The content of the `emailDrafts` storage slot. */
  datatype Storage =
    | Missing                     // nothing stored: `getItem` gives null
    | EmptyText                   // the empty string, which is falsy
    | Stored(drafts: seq<Draft>)  // the JSON text of a list of drafts
    | Garbled                     // a text `JSON.parse` rejects

  /** `JSON.parse` threw. */
  datatype StorageError = ParseError

  /** `getDrafts()`: the stored list; nothing stored reads as no drafts, a garbled slot throws. */
  function GetDrafts(storage: Storage): (r: Result<seq<Draft>, StorageError>)
    ensures r.Failure? <==> storage.Garbled?
    ensures storage.Missing? || storage.EmptyText? ==> r == Success([])
    ensures storage.Stored? ==> r == Success(storage.drafts)
  {
    match storage
    case Missing => Success([])
    case EmptyText => Success([])
    case Stored(drafts) => Success(drafts)
    case Garbled => Failure(ParseError)
  }

  /**
   * `saveDraft(recipients, subject, body)` at creation time `id` (the
   * `Date.now()` string) and display time `timestamp`: appends a new draft
   * and stores the whole list again. Returns the new storage and the draft.
   */
  function SaveDraft(storage: Storage, id: string, timestamp: string,
                     recipients: string, subject: string, body: string): (r: Result<(Storage, Draft), StorageError>)
    ensures r.Failure? <==> storage.Garbled?
    ensures r.Success? ==>
      var (after, draft) := r.value;
      var before := GetDrafts(storage).value;
      && after.Stored?
      && |after.drafts| == |before| + 1
      && after.drafts[..|before|] == before
      && after.drafts[|before|] == draft
      && draft.id == id && draft.timestamp == timestamp
      && draft.recipients == recipients && draft.subject == subject && draft.body == body
  {
    match GetDrafts(storage)
    case Failure(e) => Failure(e)
    case Success(drafts) =>
      var draft := Draft(id, recipients, subject, body, timestamp);
      Success((Stored(drafts + [draft]), draft))
  }

  /** The drafts whose id is not `id`, in their original order (`filter`). */
  function RemoveId(drafts: seq<Draft>, id: string): (r: seq<Draft>)
    ensures |r| <= |drafts|
    ensures forall d :: d in r <==> d in drafts && d.id != id
  {
    if drafts == [] then []
    else (if drafts[0].id == id then [] else [drafts[0]]) + RemoveId(drafts[1..], id)
  }

  /** `deleteDraft(id)`: stores the list without the drafts of that id. */
  function DeleteDraft(storage: Storage, id: string): (r: Result<Storage, StorageError>)
    ensures r.Failure? <==> storage.Garbled?
    ensures r.Success? ==> r.value.Stored? && r.value.drafts == RemoveId(GetDrafts(storage).value, id)
  {
    match GetDrafts(storage)
    case Failure(e) => Failure(e)
    case Success(drafts) => Success(Stored(RemoveId(drafts, id)))
  }

  /** Removing an id from a concatenation removes it from each part: the order is kept. */
  lemma {:induction false} RemoveIdAppend(a: seq<Draft>, b: seq<Draft>, id: string)
    ensures RemoveId(a + b, id) == RemoveId(a, id) + RemoveId(b, id)
  {
    if a == [] {
      assert a + b == b;
    } else {
      assert (a + b)[1..] == a[1..] + b;
      RemoveIdAppend(a[1..], b, id);
    }
  }

  /** Deleting an id no draft carries changes nothing. */
  lemma {:induction false} RemoveAbsentId(drafts: seq<Draft>, id: string)
    requires forall k :: 0 <= k < |drafts| ==> drafts[k].id != id
    ensures RemoveId(drafts, id) == drafts
  {
    if drafts != [] {
      RemoveAbsentId(drafts[1..], id);
    }
  }

  /** Deleting twice is deleting once. */
  lemma RemoveIdIdempotent(drafts: seq<Draft>, id: string)
    ensures RemoveId(RemoveId(drafts, id), id) == RemoveId(drafts, id)
  {
    var r := RemoveId(drafts, id);
    forall k | 0 <= k < |r| ensures r[k].id != id {
      assert r[k] in r;
    }
    RemoveAbsentId(r, id);
  }

  /** Saving a draft under a fresh id and deleting that id gives back the drafts there were. */
  lemma DeleteUndoesSave(storage: Storage, id: string, timestamp: string,
                         recipients: string, subject: string, body: string)
    requires !storage.Garbled?
    requires forall k :: 0 <= k < |GetDrafts(storage).value| ==> GetDrafts(storage).value[k].id != id
    ensures var saved := SaveDraft(storage, id, timestamp, recipients, subject, body).value.0;
      GetDrafts(DeleteDraft(saved, id).value) == GetDrafts(storage)
  {
    var before := GetDrafts(storage).value;
    var draft := Draft(id, recipients, subject, body, timestamp);
    RemoveIdAppend(before, [draft], id);
    RemoveAbsentId(before, id);
    assert RemoveId([draft], id) == [];
    assert before + [] == before;
  }

  /** What pressing "save draft" does. */
  datatype SaveOutcome =
    | Saved(storage: Storage, draft: Draft)
    | RefusedEmpty                 // the "Cannot save empty draft" alert
    | Threw(error: StorageError)

  /**
   * The save-draft button: saves only when at least one of the three fields
   * has something other than white space.
   */
  function SaveDraftClicked(storage: Storage, id: string, timestamp: string,
                            recipients: string, subject: string, body: string): (r: SaveOutcome)
    ensures r.RefusedEmpty? <==> Blank(recipients) && Blank(subject) && Blank(body)
    ensures r.Threw? <==> storage.Garbled? && !(Blank(recipients) && Blank(subject) && Blank(body))
    ensures r.Saved? ==> GetDrafts(r.storage) == Success(GetDrafts(storage).value + [r.draft])
  {
    if Trim(recipients) != [] || Trim(subject) != [] || Trim(body) != [] then
      match SaveDraft(storage, id, timestamp, recipients, subject, body)
      case Success((after, draft)) =>
        assert after.drafts == GetDrafts(storage).value + [draft];
        Saved(after, draft)
      case Failure(e) => Threw(e)
    else
      RefusedEmpty
  }
}
