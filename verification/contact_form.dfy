/** The two-step contact form: the step-1 validator with its e-mail and
    phone patterns, the message character counter, and the wizard
    transitions (next, back, submit, reset). Toasts, focus, CSS classes and
    the confetti burst are left out; each refusal is returned as a value. */
module ContactForm {
  import opened JsText
  import Attachments

  /** Characters of one part of the e-mail pattern `[^\s@]`. */
  predicate PartChar(c: char) {
    !IsSpace(c) && c != '@'
  }

  predicate PartChars(s: string) {
    forall k :: 0 <= k < |s| ==> PartChar(s[k])
  }

  /** Direct reading of `/^[^\s@]+@[^\s@]+\.[^\s@]+$/`: three non-empty runs
      of non-space, non-`@` characters joined by `@` and by a dot. */
  ghost predicate EmailPattern(s: string) {
    exists i, j :: 0 < i && i + 1 < j && j + 1 < |s| && s[i] == '@' && s[j] == '.'
                   && PartChars(s[..i]) && PartChars(s[i + 1..j]) && PartChars(s[j + 1..])
  }

  /** Direct reading of `/^[0-9+\-\s()]+$/`. */
  predicate PhoneChar(c: char) {
    ('0' <= c <= '9') || c == '+' || c == '-' || c == '(' || c == ')' || IsSpace(c)
  }

  predicate PhonePattern(s: string) {
    |s| > 0 && forall k :: 0 <= k < |s| ==> PhoneChar(s[k])
  }

  /** No `@` in positions `lo` up to `hi`. */
  predicate NoAtIn(s: string, lo: nat, hi: nat)
    requires lo <= hi <= |s|
  {
    forall k :: lo <= k < hi ==> s[k] != '@'
  }

  /** Some dot in positions `lo` up to `hi`. */
  predicate DotIn(s: string, lo: nat, hi: nat)
    requires hi <= |s|
  {
    exists k | lo <= k < hi :: s[k] == '.'
  }

  /** Position `i` holds the only `@`, something precedes it, and a dot
      follows the character after it and precedes the last character. */
  predicate AtSplit(s: string, i: nat)
    requires i < |s|
  {
    0 < i && s[i] == '@' && NoAtIn(s, 0, i) && NoAtIn(s, i + 1, |s|) && DotIn(s, i + 2, |s| - 1)
  }

  /** The e-mail test as a check: no white space anywhere and an `@` at
      which the string splits as `AtSplit` describes. */
  function IsEmail(s: string): bool {
    NoSpace(s) && exists i | 0 < i < |s| :: AtSplit(s, i)
  }

  /** Every character of positions `lo` up to `hi` passes `PartChar`. */
  predicate PartRange(s: string, lo: nat, hi: nat)
    requires lo <= hi <= |s|
  {
    forall k :: lo <= k < hi ==> PartChar(s[k])
  }

  /** `PartChars` of a slice is `PartRange` of its positions. */
  lemma PartSlice(s: string, lo: nat, hi: nat)
    requires lo <= hi <= |s|
    ensures PartChars(s[lo..hi]) <==> PartRange(s, lo, hi)
  {
    if PartRange(s, lo, hi) {
      forall k | 0 <= k < hi - lo ensures PartChar(s[lo..hi][k]) {
        assert s[lo..hi][k] == s[lo + k];
      }
    }
    if PartChars(s[lo..hi]) {
      forall k | lo <= k < hi ensures PartChar(s[k]) {
        assert s[lo..hi][k - lo] == s[k];
      }
    }
  }

  lemma IsEmailToPattern(s: string)
    requires IsEmail(s)
    ensures EmailPattern(s)
  {
    var i :| 0 < i < |s| && AtSplit(s, i);
    var j :| i + 2 <= j < |s| - 1 && s[j] == '.';
    assert PartRange(s, 0, i);
    assert PartRange(s, i + 1, j);
    assert PartRange(s, j + 1, |s|);
    PartSlice(s, 0, i);
    PartSlice(s, i + 1, j);
    PartSlice(s, j + 1, |s|);
    assert s[..i] == s[0..i] && s[j + 1..] == s[j + 1..|s|];
    assert PartChars(s[..i]) && PartChars(s[i + 1..j]) && PartChars(s[j + 1..]);
  }

  lemma PatternToIsEmail(s: string)
    requires EmailPattern(s)
    ensures IsEmail(s)
  {
    var i, j :| 0 < i && i + 1 < j && j + 1 < |s| && s[i] == '@' && s[j] == '.'
                && PartChars(s[..i]) && PartChars(s[i + 1..j]) && PartChars(s[j + 1..]);
    assert s[..i] == s[0..i] && s[j + 1..] == s[j + 1..|s|];
    PartSlice(s, 0, i);
    PartSlice(s, i + 1, j);
    PartSlice(s, j + 1, |s|);
    PatternParts(s, i, j);
  }

  /** The three runs around an `@` at `i` and a dot at `j` make `s` pass
      the check with `i` as the split. */
  lemma PatternParts(s: string, i: nat, j: nat)
    requires 0 < i && i + 1 < j && j + 1 < |s| && s[i] == '@' && s[j] == '.'
    requires PartRange(s, 0, i) && PartRange(s, i + 1, j) && PartRange(s, j + 1, |s|)
    ensures IsEmail(s)
  {
    forall k | 0 <= k < |s| ensures !IsSpace(s[k]) && (k != i ==> s[k] != '@') {
      if k < i {
        assert PartChar(s[k]);
      } else if i < k < j {
        assert PartChar(s[k]);
      } else if j < k {
        assert PartChar(s[k]);
      }
    }
    assert DotIn(s, i + 2, |s| - 1);
    assert AtSplit(s, i);
  }

  /** The check accepts exactly the strings the regular expression matches. */
  lemma IsEmailIffPattern(s: string)
    ensures IsEmail(s) <==> EmailPattern(s)
  {
    if IsEmail(s) { IsEmailToPattern(s); }
    if EmailPattern(s) { PatternToIsEmail(s); }
  }

  /** The examples the form's behaviour is usually explained with. */
  lemma EmailExamples()
    ensures EmailPattern("a@b.co")
    ensures !EmailPattern("a@b") && !EmailPattern("a@@b.com") && !EmailPattern("plainstring")
  {
    AcceptsPlainAddress();
    RejectsDoubleAt();
    RejectsMissingAt();
  }

  lemma AcceptsPlainAddress()
    ensures EmailPattern("a@b.co")
  {
    var s := "a@b.co";
    assert s[..1] == "a" && s[2..3] == "b" && s[4..] == "co";
    assert PartChars("a") && PartChars("b") && PartChars("co");
    assert 0 < 1 && 1 + 1 < 3 && 3 + 1 < |s| && s[1] == '@' && s[3] == '.'
           && PartChars(s[..1]) && PartChars(s[1 + 1..3]) && PartChars(s[3 + 1..]);
  }

  lemma RejectsDoubleAt()
    ensures !EmailPattern("a@@b.com")
  {
    var t := "a@@b.com";
    forall i, j | 0 < i && i + 1 < j && j + 1 < |t| && t[i] == '@' && t[j] == '.'
      ensures !(PartChars(t[..i]) && PartChars(t[i + 1..j]))
    {
      if i == 1 {
        assert t[i + 1..j][0] == '@';
      } else {
        assert t[..i][1] == '@';
      }
    }
  }

  lemma RejectsMissingAt()
    ensures !EmailPattern("plainstring")
  {
    var u := "plainstring";
    forall i | 0 <= i < |u| ensures u[i] != '@' {
    }
  }

  /** Why the first step was refused, or `StepOneOk`. */
  datatype StepOneResult = StepOneOk | MissingFields | InvalidEmail | InvalidMobile

  /** `validateStepOne` over the raw field values (`trim()` applied here). */
  function ValidateStepOne(first: string, last: string, email: string, mobile: string): (r: StepOneResult)
    ensures r == MissingFields <==> AllSpace(first) || AllSpace(last) || AllSpace(email) || AllSpace(mobile)
    ensures r == InvalidEmail <==>
              !(AllSpace(first) || AllSpace(last) || AllSpace(email) || AllSpace(mobile))
              && !EmailPattern(Trim(email))
    ensures r == StepOneOk <==>
              !(AllSpace(first) || AllSpace(last) || AllSpace(email) || AllSpace(mobile))
              && EmailPattern(Trim(email)) && PhonePattern(Trim(mobile))
  {
    TrimEmptyIffAllSpace(first);
    TrimEmptyIffAllSpace(last);
    TrimEmptyIffAllSpace(email);
    TrimEmptyIffAllSpace(mobile);
    var f, l, e, m := Trim(first), Trim(last), Trim(email), Trim(mobile);
    IsEmailIffPattern(e);
    if f == [] || l == [] || e == [] || m == [] then MissingFields
    else if !IsEmail(e) then InvalidEmail
    else if !PhonePattern(m) then InvalidMobile
    else StepOneOk
  }

  const MaxMessageLength: nat := 500
  const WarnMessageLength: nat := 450

  /** What the counter shows after an input event: the (possibly cut)
      textarea value, the number in "n / 500", and whether it is red. */
  datatype Counter = Counter(text: string, shown: nat, red: bool)

  /** `updateMessageCharacterCount`. */
  function UpdateCharacterCount(message: string): (c: Counter)
    ensures c.shown == |c.text| <= MaxMessageLength && |c.text| <= |message|
    ensures c.text == message[..|c.text|]
    ensures |message| > MaxMessageLength ==> |c.text| == MaxMessageLength && c.red
    ensures |message| <= MaxMessageLength ==> c.text == message && (c.red <==> |message| > WarnMessageLength)
  {
    if |message| > MaxMessageLength then Counter(message[..MaxMessageLength], MaxMessageLength, true)
    else Counter(message, |message|, |message| > WarnMessageLength)
  }

  /** Re-running the counter on the text it left behind changes nothing. */
  lemma CounterIdempotent(message: string)
    ensures UpdateCharacterCount(UpdateCharacterCount(message).text) == UpdateCharacterCount(message)
  {
  }

  datatype Step = StepOne | StepTwo

  /** Whether the loading overlay or the success overlay is showing. */
  datatype Phase = Editing | Sending | Sent

  datatype Fields = Fields(firstName: string, lastName: string, email: string, mobile: string,
                           subject: string, message: string)

  datatype Form = Form(step: Step, progress: nat, fields: Fields, files: seq<Attachments.FileInfo>,
                       counter: nat, phase: Phase, submitDisabled: bool)

  const BlankFields: Fields := Fields("", "", "", "", "", "")

  const InitialForm: Form := Form(StepOne, 0, BlankFields, [], 0, Editing, false)

  /** The progress bar reads 100% on step 2 and 0% on step 1. */
  predicate ProgressAgrees(f: Form) {
    (f.step == StepTwo ==> f.progress == 100) && (f.step == StepOne ==> f.progress == 0)
  }

  function StepOneOf(f: Fields): StepOneResult {
    ValidateStepOne(f.firstName, f.lastName, f.email, f.mobile)
  }

  /** `proceedToNextStep`: step 2 and a full progress bar when step 1
      validates, otherwise nothing changes. */
  function ProceedToNextStep(f: Form): (r: Form)
    ensures r.step == StepTwo <==> StepOneOf(f.fields) == StepOneOk || (f.step == StepTwo && r == f)
    ensures StepOneOf(f.fields) != StepOneOk ==> r == f
    ensures StepOneOf(f.fields) == StepOneOk ==> r.progress == 100 && r.fields == f.fields && r.files == f.files
    ensures ProgressAgrees(f) ==> ProgressAgrees(r)
  {
    if StepOneOf(f.fields) == StepOneOk then f.(step := StepTwo, progress := 100) else f
  }

  /** `returnToPreviousStep`: back to step 1 unconditionally, keeping what
      was typed and attached. */
  function ReturnToPreviousStep(f: Form): (r: Form)
    ensures r.step == StepOne && ProgressAgrees(r)
    ensures r.fields == f.fields && r.files == f.files && r.phase == f.phase
  {
    f.(step := StepOne, progress := 0)
  }

  /** Why a submission was refused, or that it was sent. */
  datatype SubmitResult = Submitted | SubjectMissing | MessageMissing

  /** `submitContactForm`: the subject must be chosen and the message must
      not be blank; then the loading overlay shows and the button is
      disabled until the simulated delay ends. The step is not checked. */
  function SubmitContactForm(f: Form): (r: (Form, SubmitResult))
    ensures r.1 == Submitted <==> f.fields.subject != [] && !AllSpace(f.fields.message)
    ensures r.1 == SubjectMissing <==> f.fields.subject == []
    ensures r.1 != Submitted ==> r.0 == f
    ensures r.1 == Submitted ==> r.0.phase == Sending && r.0.submitDisabled
                                 && r.0.fields == f.fields && r.0.step == f.step
  {
    TrimEmptyIffAllSpace(f.fields.message);
    if f.fields.subject == [] then (f, SubjectMissing)
    else if Trim(f.fields.message) == [] then (f, MessageMissing)
    else (f.(phase := Sending, submitDisabled := true), Submitted)
  }

  /** The end of the simulated network delay: the loading overlay hides
      and the success overlay shows. */
  function SubmitDelayElapsed(f: Form): (r: Form)
    ensures r.phase == Sent && r.fields == f.fields && r.step == f.step
  {
    f.(phase := Sent)
  }

  /** Typing in the message box runs the counter and may cut the text. */
  function TypeMessage(f: Form, text: string): (r: Form)
    ensures |r.fields.message| <= MaxMessageLength && r.counter == |r.fields.message|
    ensures |text| <= MaxMessageLength ==> r.fields.message == text
  {
    var c := UpdateCharacterCount(text);
    f.(fields := f.fields.(message := c.text), counter := c.shown)
  }

  /** `resetContactForm` (the last of its definitions): whatever the
      state, the form is back to how the page loaded it. */
  function ResetContactForm(f: Form): (r: Form)
    ensures r.step == StepOne && r.progress == 0 && r.files == [] && r.counter == 0
    ensures r.phase == Editing && !r.submitDisabled
    ensures r.fields == BlankFields
  {
    var files := Attachments.RemoveAllFiles(f.files);
    var g := ReturnToPreviousStep(f.(fields := BlankFields, counter := 0, phase := Editing,
                                      submitDisabled := false, files := files));
    g
  }

  /** After a reset the form is blank again: the next step is refused for
      missing fields and a submission is refused for the missing subject. */
  lemma {:induction false} ResetThenRetry(f: Form)
    ensures ResetContactForm(f) == InitialForm
    ensures ProceedToNextStep(ResetContactForm(f)) == InitialForm
    ensures StepOneOf(ResetContactForm(f).fields) == MissingFields
    ensures SubmitContactForm(ResetContactForm(f)).1 == SubjectMissing
  {
    assert AllSpace("");
  }

  /** Going forward and back returns to step 1 with everything typed and
      attached kept. */
  lemma ProceedThenReturn(f: Form)
    requires f.step == StepOne && ProgressAgrees(f)
    ensures ReturnToPreviousStep(ProceedToNextStep(f)) == f
  {
  }
}
