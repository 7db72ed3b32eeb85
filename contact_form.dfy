/**
 * The contact form in js/main.js: `validateForm` (three required fields
 * and an e-mail shape given by a regular expression) and the button state
 * machine of `handleFormSubmit` around one POST whose outcome is abstract.
 */
module ContactForm {
  import opened JsStrings

  /** The entries of the submitted form, by field name. */
  type FormData = map<string, string>

  // ---------------------------------------------------------------------
  // The e-mail regular expression /^[^\s@]+@[^\s@]+\.[^\s@]+$/
  // ---------------------------------------------------------------------

  /** A character of the class `[^\s@]`. */
  predicate PlainChar(c: char) {
    !IsJsWhitespace(c) && c != '@'
  }

  predicate AllPlain(s: string) {
    forall k :: 0 <= k < |s| ==> PlainChar(s[k])
  }

  /** `s` reads as the regular expression with its `@` at `at` and its
      literal `.` at `dot`: three non-empty runs of `[^\s@]` around them. */
  ghost predicate RegexSplit(s: string, at: int, dot: int) {
    && 0 < at && at + 1 < dot && dot + 1 < |s|
    && s[at] == '@' && s[dot] == '.'
    && AllPlain(s[..at]) && AllPlain(s[at + 1..dot]) && AllPlain(s[dot + 1..])
  }

  /** The language of the regular expression. */
  ghost predicate MatchesEmailRegex(s: string) {
    exists at, dot :: RegexSplit(s, at, dot)
  }

  /** A `.` that is neither the first nor the last character. */
  predicate HasInnerDot(d: string) {
    exists k :: 0 < k < |d| - 1 && d[k] == '.'
  }

  /** The shape the regular expression accepts, stated directly: no white
      space, exactly one `@`, something before it, and after it a `.` that
      is neither the first nor the last character of the domain. */
  predicate IsEmailShape(s: string) {
    && (forall k :: 0 <= k < |s| ==> !IsJsWhitespace(s[k]))
    && Occurrences(s, '@') == 1
    && var at := IndexOf(s, '@');
       at > 0 && HasInnerDot(s[at + 1..])
  }

  /** A slice whose every position holds a plain character is plain. */
  lemma PlainSlice(s: string, lo: nat, hi: nat)
    requires lo <= hi <= |s|
    requires forall k :: lo <= k < hi ==> PlainChar(s[k])
    ensures AllPlain(s[lo..hi])
  {
    var t := s[lo..hi];
    forall j | 0 <= j < |t| ensures PlainChar(t[j]) {
      assert t[j] == s[lo + j];
    }
  }

  /** Each position of a plain slice holds a plain character. */
  lemma PlainAt(s: string, lo: nat, hi: nat, k: nat)
    requires lo <= k < hi <= |s| && AllPlain(s[lo..hi])
    ensures PlainChar(s[k])
  {
    assert s[lo..hi][k - lo] == s[k];
  }

  lemma NoAtInPlain(t: string)
    requires AllPlain(t)
    ensures Occurrences(t, '@') == 0
  {
  }

  /** A string the regular expression matches has the direct shape. */
  lemma {:induction false} RegexGivesShape(s: string, at: int, dot: int)
    requires RegexSplit(s, at, dot)
    ensures IsEmailShape(s)
  {
    forall k | 0 <= k < |s| ensures !IsJsWhitespace(s[k]) {
      if k < at {
        PlainAt(s, 0, at, k);
      } else if at < k < dot {
        PlainAt(s, at + 1, dot, k);
      } else if dot < k {
        PlainAt(s, dot + 1, |s|, k);
      }
    }
    assert s == s[..at] + [s[at]] + s[at + 1..dot] + [s[dot]] + s[dot + 1..];
    assert s[..at] == s[0..at] && s[dot + 1..] == s[dot + 1..|s|];
    NoAtInPlain(s[..at]);
    NoAtInPlain(s[at + 1..dot]);
    NoAtInPlain(s[dot + 1..]);
    OccurrencesAppend(s[..at] + [s[at]] + s[at + 1..dot] + [s[dot]], s[dot + 1..], '@');
    OccurrencesAppend(s[..at] + [s[at]] + s[at + 1..dot], [s[dot]], '@');
    OccurrencesAppend(s[..at] + [s[at]], s[at + 1..dot], '@');
    OccurrencesAppend(s[..at], [s[at]], '@');
    assert Occurrences(s, '@') == 1;
    var d := s[at + 1..];
    assert d[dot - at - 1] == '.';
  }

  /** A string of the direct shape is matched by the regular expression. */
  lemma {:induction false} ShapeGivesRegex(s: string)
    requires IsEmailShape(s)
    ensures MatchesEmailRegex(s)
  {
    var at := IndexOf(s, '@');
    var d := s[at + 1..];
    var k :| 0 < k < |d| - 1 && d[k] == '.';
    var dot := at + 1 + k;
    forall j | 0 <= j < |s| && j != at ensures PlainChar(s[j]) {
      if s[j] == '@' && j > at {
        TwoOccurrences(s, '@', at, j);
      }
    }
    assert s[dot] == d[k];
    PlainSlice(s, 0, at);
    PlainSlice(s, at + 1, dot);
    PlainSlice(s, dot + 1, |s|);
    assert s[..at] == s[0..at] && s[dot + 1..] == s[dot + 1..|s|];
    assert RegexSplit(s, at, dot);
  }

  /** The regular expression and the direct statement accept the same
      strings. */
  lemma EmailShapeIsRegex(s: string)
    ensures IsEmailShape(s) <==> MatchesEmailRegex(s)
  {
    if MatchesEmailRegex(s) {
      var at, dot :| RegexSplit(s, at, dot);
      RegexGivesShape(s, at, dot);
    }
    if IsEmailShape(s) {
      ShapeGivesRegex(s);
    }
  }

  // ---------------------------------------------------------------------
  // validateForm
  // ---------------------------------------------------------------------

  /** `formData.get(key)` is truthy: present and not the empty string. */
  predicate Filled(fd: FormData, key: string) {
    key in fd && fd[key] != ""
  }

  /** `validateForm(formData)`: name, e-mail and message are present and
      non-empty (nothing is trimmed), and the e-mail is in the language of
      the regular expression. */
  function ValidateForm(fd: FormData): (ok: bool)
    ensures ok <==>
      && Filled(fd, "name") && Filled(fd, "email") && Filled(fd, "message")
      && MatchesEmailRegex(fd["email"])
  {
    if !Filled(fd, "name") || !Filled(fd, "email") || !Filled(fd, "message") then false
    else
      EmailShapeIsRegex(fd["email"]);
      IsEmailShape(fd["email"])
  }

  /** Name and message made only of white space pass, because nothing is
      trimmed. */
  lemma BlankFieldsPass(name: string, email: string, message: string)
    requires name != "" && message != ""
    requires forall k :: 0 <= k < |name| ==> IsJsWhitespace(name[k])
    requires forall k :: 0 <= k < |message| ==> IsJsWhitespace(message[k])
    requires MatchesEmailRegex(email)
    ensures ValidateForm(map["name" := name, "email" := email, "message" := message])
  {
    var fd := map["name" := name, "email" := email, "message" := message];
    assert fd["email"] == email;
    var at, dot :| RegexSplit(email, at, dot);
    assert email != "";
  }

  // ---------------------------------------------------------------------
  // handleFormSubmit
  // ---------------------------------------------------------------------

  /** How the POST settles: `response.ok`, a response that is not ok, or
      a rejected fetch. */
  datatype Response = ResponseOk | ResponseNotOk | Rejected

  datatype NoticeKind = SuccessNotice | ErrorNotice

  /** A notification shown by `showNotification(message, type)`. */
  datatype Notice = Notice(message: string, kind: NoticeKind)

  const MissingFieldsNotice: Notice := Notice("Please fill in all required fields", ErrorNotice)
  const SentNotice: Notice := Notice("Message sent successfully! We'll get back to you soon.", SuccessNotice)
  const SendFailedNotice: Notice := Notice("Error sending message. Please try again.", ErrorNotice)
  const SendingLabel: string := "Sending..."

  /** The notice shown when the POST settles: a success exactly when the
      response is ok; a not-ok response and a rejection look the same. */
  function Settlement(r: Response): (n: Notice)
    ensures n.kind == SuccessNotice <==> r == ResponseOk
    ensures r != ResponseOk ==> n == SendFailedNotice
  {
    if r == ResponseOk then SentNotice else SendFailedNotice
  }

  /** The contact form with its submit button, the notices shown and the
      bodies posted to `form.action`. `hasSubmitButton` says whether
      `form.querySelector('button[type="submit"]')` finds a button; when it
      does not, the button state below is never read or written. */
  class Form {
    const defaults: FormData
    const hasSubmitButton: bool
    const buttonLabel: string
    var fields: FormData
    var buttonDisabled: bool
    var buttonText: string
    var originalText: string
    var pending: bool
    var notices: seq<Notice>
    var posts: seq<FormData>

    /** The button is disabled exactly while a POST is pending; it reads
        `Sending...` then, and its own label otherwise. Only a form with
        such a button ever gets as far as posting. */
    ghost predicate Valid()
      reads this
    {
      && (buttonDisabled <==> pending)
      && (pending ==> hasSubmitButton && buttonText == SendingLabel && originalText == buttonLabel)
      && (!pending ==> buttonText == buttonLabel)
    }

    /** A form whose fields hold their default values and whose button, if
        there is one, reads `buttonLabel`. */
    constructor (defaults: FormData, hasSubmitButton: bool, buttonLabel: string)
      ensures Valid() && !pending
      ensures this.defaults == defaults && this.hasSubmitButton == hasSubmitButton
      ensures this.buttonLabel == buttonLabel && fields == defaults
      ensures notices == [] && posts == []
    {
      this.defaults := defaults;
      this.hasSubmitButton := hasSubmitButton;
      this.buttonLabel := buttonLabel;
      fields := defaults;
      buttonDisabled := false;
      buttonText := buttonLabel;
      originalText := buttonLabel;
      pending := false;
      notices := [];
      posts := [];
    }

    /** The user edits the fields; this is possible while a POST is
        pending, and touches nothing but the fields. */
    method Edit(fd: FormData)
      requires Valid()
      modifies this
      ensures Valid() && fields == fd
      ensures buttonDisabled == old(buttonDisabled) && buttonText == old(buttonText)
      ensures originalText == old(originalText) && pending == old(pending)
      ensures notices == old(notices) && posts == old(posts)
    {
      fields := fd;
    }

    /** The synchronous part of `handleFormSubmit`. A browser does not
        submit a form through a disabled submit button, so no submit
        arrives while a POST is pending. An invalid form shows one error
        and leaves everything else alone. A valid form without a
        `button[type="submit"]` throws a TypeError on reading the missing
        button's text, before any notice or request: nothing changes. A
        valid form with one posts its data once and puts the button in its
        sending state. */
    method Submit()
      requires Valid() && !pending
      modifies this
      ensures Valid() && fields == old(fields)
      ensures !ValidateForm(old(fields)) ==>
        && notices == old(notices) + [MissingFieldsNotice] && posts == old(posts)
        && !pending && !buttonDisabled && buttonText == old(buttonText)
      ensures ValidateForm(old(fields)) && !hasSubmitButton ==>
        && notices == old(notices) && posts == old(posts)
        && !pending && !buttonDisabled && buttonText == old(buttonText)
      ensures ValidateForm(old(fields)) && hasSubmitButton ==>
        && notices == old(notices) && posts == old(posts) + [old(fields)]
        && pending && buttonDisabled && buttonText == SendingLabel
    {
      if !ValidateForm(fields) {
        notices := notices + [MissingFieldsNotice];
        return;
      }
      if !hasSubmitButton {
        return;
      }
      originalText := buttonText;
      buttonDisabled := true;
      buttonText := SendingLabel;
      pending := true;
      posts := posts + [fields];
    }

    /** The `then`/`catch` and `finally` of the pending POST: one notice,
        a reset to the default values on success only, and the button
        enabled again with its original text. */
    method Settle(r: Response)
      requires Valid() && pending
      modifies this
      ensures Valid() && !pending && !buttonDisabled && buttonText == buttonLabel
      ensures notices == old(notices) + [Settlement(r)] && posts == old(posts)
      ensures fields == if r == ResponseOk then defaults else old(fields)
    {
      if r == ResponseOk {
        notices := notices + [SentNotice];
        fields := defaults;
      } else {
        notices := notices + [SendFailedNotice];
      }
      buttonDisabled := false;
      buttonText := originalText;
      pending := false;
    }
  }
}
