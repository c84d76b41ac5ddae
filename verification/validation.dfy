/**
 * The compose-form validator `validateEmailForm` of the mail client's
 * inbox script: recipients, subject and body are checked in that order
 * and every problem found becomes one message of the returned list.
 */
module Validation {
  import opened Text

  /** The subject may be at most this many UTF-16 code units long. */
  const MaxSubjectLength: nat := 255

  /** One problem the validator reports. */
  datatype FormError =
    | RecipientsRequired
    | InvalidEmail(address: string)
    | SubjectRequired
    | SubjectTooLong
    | BodyRequired

  /** The text shown to the user for an error. */
  function Message(e: FormError): string {
    match e
    case RecipientsRequired => "Recipients field is required"
    case InvalidEmail(a) => "Invalid email format: " + a
    case SubjectRequired => "Subject field is required"
    case SubjectTooLong => "Subject must be less than 256 characters"
    case BodyRequired => "Email body is required"
  }

  /** The form field an error is about: 0 recipients, 1 subject, 2 body. */
  function Field(e: FormError): nat {
    match e
    case RecipientsRequired | InvalidEmail(_) => 0
    case SubjectRequired | SubjectTooLong => 1
    case BodyRequired => 2
  }

  /** Different errors never share a message, so the messages say which errors occurred. */
  lemma MessageInjective(e1: FormError, e2: FormError)
    ensures Message(e1) == Message(e2) ==> e1 == e2
  {
    if e1.InvalidEmail? && e2.InvalidEmail? {
      AddressFromMessage(e1.address);
      AddressFromMessage(e2.address);
    } else if e1.InvalidEmail? {
      AddressMessageIsNotFixed(e1.address, e2);
    } else if e2.InvalidEmail? {
      AddressMessageIsNotFixed(e2.address, e1);
    } else {
      FixedMessagesDiffer(e1, e2);
    }
  }

  /** The address can be read back from its message. */
  lemma AddressFromMessage(a: string)
    ensures Message(InvalidEmail(a))[|"Invalid email format: "|..] == a
  {
  }

  /** An address message starts with `I`, which no fixed message does. */
  lemma AddressMessageIsNotFixed(a: string, e: FormError)
    requires !e.InvalidEmail?
    ensures Message(InvalidEmail(a)) != Message(e)
  {
    assert Message(InvalidEmail(a))[0] == 'I';
  }

  /** The ninth character tells the four fixed messages apart. */
  lemma FixedMessagesDiffer(e1: FormError, e2: FormError)
    requires !e1.InvalidEmail? && !e2.InvalidEmail?
    ensures Message(e1) == Message(e2) ==> e1 == e2
  {
    assert Message(RecipientsRequired)[8] == 't';
    assert Message(SubjectRequired)[8] == 'f';
    assert Message(SubjectTooLong)[8] == 'm';
    assert Message(BodyRequired)[8] == 'd';
  }

  /** A character of the class `[^\s@]`. */
  predicate AddressChar(c: char) {
    !IsSpace(c) && c != '@'
  }

  /** A string matching `[^\s@]+`. */
  predicate AddressRun(s: string) {
    |s| > 0 && forall c :: c in s ==> AddressChar(c)
  }

  /**
   * `s` matches `^[^\s@]+@[^\s@]+\.[^\s@]+$`: a run, an `@`, a run, a dot
   * and a run, where no run is empty or holds white space or an `@`.
   */
  predicate IsEmailAddress(s: string) {
    exists at, dot | 0 <= at < |s| && 0 <= dot < |s| :: SplitsAddress(s, at, dot)
  }

  /** `s` is a run, `@` at index `at`, a run, `.` at index `dot`, and a run. */
  predicate SplitsAddress(s: string, at: int, dot: int) {
    && 0 < at < dot < |s| - 1
    && s[at] == '@' && s[dot] == '.'
    && AddressRun(s[..at]) && AddressRun(s[at + 1..dot]) && AddressRun(s[dot + 1..])
  }

  /** Every character of an address but its one `@` belongs to `[^\s@]`. */
  lemma AddressChars(s: string, at: int, dot: int, p: int)
    requires SplitsAddress(s, at, dot)
    requires 0 <= p < |s| && p != at
    ensures AddressChar(s[p])
  {
    if p < at {
      assert s[p] in s[..at];
    } else if at < p < dot {
      assert s[p] == s[at + 1..dot][p - at - 1];
    } else if dot < p {
      assert s[p] == s[dot + 1..][p - dot - 1];
    }
  }

  /**
   * A one-pass matcher for the address pattern, standing for
   * `emailRegex.test(s)`: it rejects on white space or a second `@`, and
   * otherwise needs a non-empty local part and a dot strictly inside the
   * part after the `@`.
   */
  method MatchEmailPattern(s: string) returns (ok: bool)
    ensures ok <==> IsEmailAddress(s)
  {
    var at := -1;
    var innerDot := false;
    var i := 0;
    while i < |s|
      invariant 0 <= i <= |s|
      invariant -1 <= at < i
      invariant forall p :: 0 <= p < i ==> !IsSpace(s[p])
      invariant forall p :: 0 <= p < i && s[p] == '@' ==> p == at
      invariant at >= 0 ==> s[at] == '@'
      invariant innerDot <==> at >= 0 && exists k :: at + 1 < k < i && k < |s| - 1 && s[k] == '.'
    {
      if IsSpace(s[i]) {
        SpaceRejects(s, i);
        return false;
      }
      if s[i] == '@' && at >= 0 {
        SecondAtRejects(s, at, i);
        return false;
      }
      if s[i] == '@' {
        at := i;
      } else if s[i] == '.' && at >= 0 && at + 1 < i && i < |s| - 1 {
        innerDot := true;
      }
      i := i + 1;
    }
    if at > 0 && innerDot {
      var k :| at + 1 < k < |s| && k < |s| - 1 && s[k] == '.';
      AcceptWitness(s, at, k);
      ok := true;
    } else {
      MissingPartRejects(s, at);
      ok := false;
    }
  }

  /** White space anywhere rules an address out. */
  lemma SpaceRejects(s: string, i: int)
    requires 0 <= i < |s| && IsSpace(s[i])
    ensures !IsEmailAddress(s)
  {
    forall at, dot | 0 <= at < |s| && 0 <= dot < |s| && SplitsAddress(s, at, dot)
      ensures false
    {
      AddressChars(s, at, dot, i);
    }
  }

  /** A second `@` rules an address out. */
  lemma SecondAtRejects(s: string, first: int, second: int)
    requires 0 <= first < second < |s| && s[first] == '@' && s[second] == '@'
    ensures !IsEmailAddress(s)
  {
    forall at, dot | 0 <= at < |s| && 0 <= dot < |s| && SplitsAddress(s, at, dot)
      ensures false
    {
      if at == first {
        AddressChars(s, at, dot, second);
      } else {
        AddressChars(s, at, dot, first);
      }
    }
  }

  /** Without an `@` after a non-empty local part, followed by an inner dot, there is no address. */
  lemma MissingPartRejects(s: string, at: int)
    requires -1 <= at < |s|
    requires forall p :: 0 <= p < |s| && s[p] == '@' ==> p == at
    requires at <= 0 || forall k :: at + 1 < k < |s| - 1 ==> s[k] != '.'
    ensures !IsEmailAddress(s)
  {
    forall a, d | 0 <= a < |s| && 0 <= d < |s| && SplitsAddress(s, a, d)
      ensures false
    {
    }
  }

  /** One `@` after a non-empty local part, an inner dot after it, and no white space make an address. */
  lemma AcceptWitness(s: string, at: int, dot: int)
    requires 0 < at && at + 1 < dot < |s| - 1 && s[at] == '@' && s[dot] == '.'
    requires forall p :: 0 <= p < |s| ==> !IsSpace(s[p])
    requires forall p :: 0 <= p < |s| && s[p] == '@' ==> p == at
    ensures IsEmailAddress(s)
  {
    forall c | c in s[..at] ensures AddressChar(c) { }
    forall c | c in s[at + 1..dot] ensures AddressChar(c) { }
    forall c | c in s[dot + 1..] ensures AddressChar(c) { }
    assert SplitsAddress(s, at, dot);
  }

  /** The trimmed comma-separated parts of the recipients field. */
  function Addresses(recipients: string): seq<string> {
    TrimAll(Split(recipients, ','))
  }

  /** One `InvalidEmail` error per malformed address, in the order of the addresses. */
  function InvalidAddressErrors(addresses: seq<string>): (r: seq<FormError>)
    ensures |r| <= |addresses|
    ensures r == [] <==> forall k :: 0 <= k < |addresses| ==> IsEmailAddress(addresses[k])
    ensures forall e :: e in r ==> e.InvalidEmail? && e.address in addresses && !IsEmailAddress(e.address)
  {
    if addresses == [] then []
    else
      (if IsEmailAddress(addresses[0]) then [] else [InvalidEmail(addresses[0])])
      + InvalidAddressErrors(addresses[1..])
  }

  /** The errors for the recipients field. */
  function RecipientErrors(recipients: string): (r: seq<FormError>)
    ensures Blank(recipients) ==> r == [RecipientsRequired]
    ensures !Blank(recipients) ==> RecipientsRequired !in r
    ensures !Blank(recipients) ==> forall e :: e in r ==>
      e.InvalidEmail? && e.address in Addresses(recipients) && !IsEmailAddress(e.address)
    ensures !Blank(recipients) ==> forall k :: 0 <= k < |Addresses(recipients)| && !IsEmailAddress(Addresses(recipients)[k]) ==>
      InvalidEmail(Addresses(recipients)[k]) in r
    ensures !Blank(recipients) ==> r == InvalidAddressErrors(Addresses(recipients))
    ensures r == [] <==> (!Blank(recipients)
      && forall k :: 0 <= k < |Addresses(recipients)| ==> IsEmailAddress(Addresses(recipients)[k]))
    ensures forall e :: e in r ==> Field(e) == 0
  {
    if Trim(recipients) == [] then [RecipientsRequired]
    else
      InvalidAddressErrorsComplete(Addresses(recipients));
      InvalidAddressErrors(Addresses(recipients))
  }

  /** The errors for the subject field: at most one. */
  function SubjectErrors(subject: string): (r: seq<FormError>)
    ensures Blank(subject) <==> r == [SubjectRequired]
    ensures !Blank(subject) && Utf16Length(subject) > MaxSubjectLength <==> r == [SubjectTooLong]
    ensures !Blank(subject) && Utf16Length(subject) <= MaxSubjectLength <==> r == []
    ensures |r| <= 1
    ensures forall e :: e in r ==> Field(e) == 1
  {
    if Trim(subject) == [] then [SubjectRequired]
    else if Utf16Length(subject) > MaxSubjectLength then [SubjectTooLong]
    else []
  }

  /** The errors for the body field: at most one. */
  function BodyErrors(body: string): (r: seq<FormError>)
    ensures Blank(body) <==> r == [BodyRequired]
    ensures !Blank(body) <==> r == []
    ensures forall e :: e in r ==> Field(e) == 2
  {
    if Trim(body) == [] then [BodyRequired] else []
  }

  /**
   * What a valid form is, stated field by field: recipients not blank and
   * each trimmed comma-separated part a well-formed address, subject not
   * blank and at most 255 code units, body not blank.
   */
  predicate FormValid(recipients: string, subject: string, body: string) {
    && !Blank(recipients)
    && (forall part :: part in Split(recipients, ',') ==> IsEmailAddress(Trim(part)))
    && !Blank(subject) && Utf16Length(subject) <= MaxSubjectLength
    && !Blank(body)
  }

  /**
   * The checks of `validateEmailForm`, as errors rather than messages: there
   * are none exactly when the form is valid field by field.
   */
  function ValidateForm(recipients: string, subject: string, body: string): (r: seq<FormError>)
    ensures r == [] <==> FormValid(recipients, subject, body)
  {
    var rec, sub, bod := RecipientErrors(recipients), SubjectErrors(subject), BodyErrors(body);
    AddressesValid(recipients);
    assert |rec + sub + bod| == |rec| + |sub| + |bod|;
    rec + sub + bod
  }

  /** Errors of one field sit in that field's part of a grouped list. */
  lemma GroupedMembership(rec: seq<FormError>, sub: seq<FormError>, bod: seq<FormError>, e: FormError)
    requires forall x :: x in rec ==> Field(x) == 0
    requires forall x :: x in sub ==> Field(x) == 1
    requires forall x :: x in bod ==> Field(x) == 2
    ensures Field(e) == 0 ==> (e in rec + sub + bod <==> e in rec)
    ensures Field(e) == 1 ==> (e in rec + sub + bod <==> e in sub)
    ensures Field(e) == 2 ==> (e in rec + sub + bod <==> e in bod)
  {
  }

  /**
   * Each "required" error is reported exactly when its field is blank, and a
   * blank recipients field suppresses every per-address error.
   */
  lemma ValidateFormRequired(recipients: string, subject: string, body: string)
    ensures var r := ValidateForm(recipients, subject, body);
      && (RecipientsRequired in r <==> Blank(recipients))
      && (Blank(recipients) ==> forall e :: e in r ==> !e.InvalidEmail?)
      && (SubjectRequired in r <==> Blank(subject))
      && (BodyRequired in r <==> Blank(body))
  {
    var rec := RecipientErrors(recipients);
    var sub := SubjectErrors(subject);
    var bod := BodyErrors(body);
    GroupedMembership(rec, sub, bod, RecipientsRequired);
    GroupedMembership(rec, sub, bod, SubjectRequired);
    GroupedMembership(rec, sub, bod, BodyRequired);
    if Blank(recipients) {
      forall e: FormError | e in rec + sub + bod ensures !e.InvalidEmail? {
        GroupedMembership(rec, sub, bod, e);
      }
    }
  }

  /** Errors come out grouped: recipients first, then subject, then body. */
  lemma ValidateFormOrder(recipients: string, subject: string, body: string)
    ensures var r := ValidateForm(recipients, subject, body);
      forall i, j :: 0 <= i < j < |r| ==> Field(r[i]) <= Field(r[j])
  {
    ValidateFormOrdered(RecipientErrors(recipients), SubjectErrors(subject), BodyErrors(body));
  }

  lemma ValidateFormOrdered(rec: seq<FormError>, sub: seq<FormError>, bod: seq<FormError>)
    requires forall e :: e in rec ==> Field(e) == 0
    requires forall e :: e in sub ==> Field(e) == 1
    requires forall e :: e in bod ==> Field(e) == 2
    ensures var r := rec + sub + bod; forall i, j :: 0 <= i < j < |r| ==> Field(r[i]) <= Field(r[j])
  {
    var r := rec + sub + bod;
    forall i, j | 0 <= i < j < |r| ensures Field(r[i]) <= Field(r[j]) {
      assert r[i] in rec || r[i] in sub || r[i] in bod;
      assert r[j] in rec || r[j] in sub || r[j] in bod;
      if i < |rec| { assert r[i] == rec[i]; }
      if j >= |rec| + |sub| { assert r[j] == bod[j - |rec| - |sub|]; }
    }
  }

  /** All addresses are well formed exactly when every trimmed part is. */
  lemma AddressesValid(recipients: string)
    ensures (forall k :: 0 <= k < |Addresses(recipients)| ==> IsEmailAddress(Addresses(recipients)[k]))
        <==> (forall part :: part in Split(recipients, ',') ==> IsEmailAddress(Trim(part)))
  {
    var parts := Split(recipients, ',');
    var addrs := Addresses(recipients);
    if forall k :: 0 <= k < |addrs| ==> IsEmailAddress(addrs[k]) {
      forall part | part in parts ensures IsEmailAddress(Trim(part)) {
        var k :| 0 <= k < |parts| && parts[k] == part;
        assert addrs[k] == Trim(part);
      }
    }
  }

  /** `validateEmailForm(recipients, subject, body)`: the error messages, in order. */
  function ValidateEmailForm(recipients: string, subject: string, body: string): (r: seq<string>)
    ensures r == [] <==> FormValid(recipients, subject, body)
    ensures Message(RecipientsRequired) in r <==> Blank(recipients)
    ensures Message(SubjectRequired) in r <==> Blank(subject)
    ensures Message(BodyRequired) in r <==> Blank(body)
    ensures r == Messages(RecipientErrors(recipients)) + Messages(SubjectErrors(subject)) + Messages(BodyErrors(body))
  {
    ValidateFormRequired(recipients, subject, body);
    var rec, sub, bod := RecipientErrors(recipients), SubjectErrors(subject), BodyErrors(body);
    MessagesAppend(rec, sub);
    MessagesAppend(rec + sub, bod);
    Messages(ValidateForm(recipients, subject, body))
  }

  /** The messages of a list of errors, in the same order; they name exactly those errors. */
  function Messages(errs: seq<FormError>): (msgs: seq<string>)
    ensures |msgs| == |errs|
    ensures forall i :: 0 <= i < |errs| ==> msgs[i] == Message(errs[i])
    ensures forall e :: Message(e) in msgs <==> e in errs
  {
    var msgs := seq(|errs|, i requires 0 <= i < |errs| => Message(errs[i]));
    MessagesReflectErrors(errs, msgs);
    msgs
  }

  lemma MessagesReflectErrors(errs: seq<FormError>, msgs: seq<string>)
    requires |msgs| == |errs| && forall i :: 0 <= i < |errs| ==> msgs[i] == Message(errs[i])
    ensures forall e :: Message(e) in msgs <==> e in errs
  {
    forall e | Message(e) in msgs ensures e in errs {
      var i :| 0 <= i < |msgs| && msgs[i] == Message(e);
      MessageInjective(e, errs[i]);
    }
  }

  /** Messages are taken error by error, so the order of the errors carries over. */
  lemma MessagesAppend(a: seq<FormError>, b: seq<FormError>)
    ensures Messages(a + b) == Messages(a) + Messages(b)
  {
    var l, r := Messages(a + b), Messages(a) + Messages(b);
    forall i | 0 <= i < |l| ensures l[i] == r[i] {
      if i < |a| {
        assert (a + b)[i] == a[i];
      } else {
        assert (a + b)[i] == b[i - |a|];
      }
    }
  }

  /** Errors for malformed addresses follow the order of the addresses. */
  lemma {:induction false} InvalidAddressErrorsAppend(a: seq<string>, b: seq<string>)
    ensures InvalidAddressErrors(a + b) == InvalidAddressErrors(a) + InvalidAddressErrors(b)
  {
    if a != [] {
      assert (a + b)[0] == a[0] && (a + b)[1..] == a[1..] + b;
      InvalidAddressErrorsAppend(a[1..], b);
    } else {
      assert a + b == b;
    }
  }

  /** Every malformed address gets its error. */
  lemma {:induction false} InvalidAddressErrorsComplete(addresses: seq<string>)
    ensures forall k :: 0 <= k < |addresses| && !IsEmailAddress(addresses[k]) ==>
      InvalidEmail(addresses[k]) in InvalidAddressErrors(addresses)
  {
    if addresses != [] {
      var head := if IsEmailAddress(addresses[0]) then [] else [InvalidEmail(addresses[0])];
      var rest := InvalidAddressErrors(addresses[1..]);
      assert InvalidAddressErrors(addresses) == head + rest;
      InvalidAddressErrorsComplete(addresses[1..]);
      forall k | 0 <= k < |addresses| && !IsEmailAddress(addresses[k])
        ensures InvalidEmail(addresses[k]) in head + rest
      {
        if k > 0 {
          assert addresses[k] == addresses[1..][k - 1];
        }
      }
    }
  }

  /** A single address gives one error when it is malformed and none otherwise. */
  lemma InvalidAddressErrorsSingle(a: string)
    ensures InvalidAddressErrors([a]) == if IsEmailAddress(a) then [] else [InvalidEmail(a)]
  {
    assert [a][1..] == [];
  }
}
