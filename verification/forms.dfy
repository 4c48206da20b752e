/** What the two form endpoints share: the JSON response they send and the
    email pattern `/^[^\s@]+@[^\s@]+\.[^\s@]+$/` both of them test. */
module Api {
  import opened Js

  /** The JSON body of a response: `{ success: true, message }` or `{ error }`. */
  datatype Body = Success(message: string) | Failure(error: string)

  datatype Response = Response(status: nat, body: Body)

  /** A 400 response carrying `error`. */
  function BadRequest(error: string): (r: Response)
    ensures r.status == 400 && r.body == Failure(error)
  {
    Response(400, Failure(error))
  }

  /** The JavaScript `\s` class: the WhiteSpace and LineTerminator code points
      of ECMAScript (tab, line feed, vertical tab, form feed, carriage return,
      the Unicode space separators, the line and paragraph separators and the
      byte order mark). */
  predicate IsSpace(c: char)
  {
    var n := c as int;
    || (0x09 <= n <= 0x0D) || n == 0x20 || n == 0xA0 || n == 0x1680
    || (0x2000 <= n <= 0x200A) || n == 0x2028 || n == 0x2029
    || n == 0x202F || n == 0x205F || n == 0x3000 || n == 0xFEFF
  }

  /** `[^\s@]`. */
  predicate Plain(c: char)
  {
    !IsSpace(c) && c != '@'
  }

  /** `[^\s@]+` matches all of `t`. */
  ghost predicate PlainRun(t: string)
  {
    |t| > 0 && forall j :: 0 <= j < |t| ==> Plain(t[j])
  }

  /** The whole of `s` matches `^[^\s@]+@[^\s@]+\.[^\s@]+$`: some `@` at `i`
      and some `.` at `k` split it into three non-empty runs of characters
      that are neither whitespace nor `@`. */
  ghost predicate MatchesEmailPattern(s: string)
  {
    exists i, k :: 0 <= i < k < |s| && MatchesAt(s, i, k)
  }

  ghost predicate MatchesAt(s: string, i: int, k: int)
    requires 0 <= i < k < |s|
  {
    && s[i] == '@' && s[k] == '.'
    && PlainRun(s[..i]) && PlainRun(s[i + 1..k]) && PlainRun(s[k + 1..])
  }

  function IsSpaceFn(): char -> bool { c => IsSpace(c) }

  function IsAt(): char -> bool { c => c == '@' }

  function IsDot(): char -> bool { c => c == '.' }

  /** The pattern decided without backtracking: no whitespace, a single `@`
      that is not the first character, and a `.` in the part after the `@`
      that is neither its first nor the string's last character. */
  predicate EmailShape(s: string)
  {
    var i := FindIndex(s, IsAt());
    && FindIndex(s, IsSpaceFn()) == -1
    && i > 0
    && i + 2 < |s|
    && FindIndex(s[i + 1..], IsAt()) == -1
    && FindIndex(s[i + 2..|s| - 1], IsDot()) >= 0
  }

  /** The decision procedure and the pattern accept the same strings. */
  lemma EmailShapeDecidesPattern(s: string)
    ensures EmailShape(s) <==> MatchesEmailPattern(s)
  {
    if EmailShape(s) {
      SoundEmail(s);
    }
    if MatchesEmailPattern(s) {
      CompleteEmail(s);
    }
  }

  /** `emailRegex.test(s)`. */
  function ValidEmail(s: string): (ok: bool)
    ensures ok <==> MatchesEmailPattern(s)
  {
    EmailShapeDecidesPattern(s);
    EmailShape(s)
  }

  /** What the decision procedure accepts matches the pattern. */
  lemma SoundEmail(s: string)
    requires EmailShape(s)
    ensures MatchesEmailPattern(s)
  {
    var i := FindIndex(s, IsAt());
    var d := FindIndex(s[i + 2..|s| - 1], IsDot());
    var k := i + 2 + d;
    assert s[k] == s[i + 2..|s| - 1][d];
    forall j | 0 <= j < |s| ensures !IsSpace(s[j]) {
      assert !IsSpaceFn()(s[j]);
    }
    forall j | 0 <= j < |s| && j != i ensures s[j] != '@' {
      if j > i {
        assert s[j] == s[i + 1..][j - i - 1];
      }
    }
    var local, domain, top := s[..i], s[i + 1..k], s[k + 1..];
    forall j | 0 <= j < |local| ensures Plain(local[j]) { assert local[j] == s[j]; }
    forall j | 0 <= j < |domain| ensures Plain(domain[j]) { assert domain[j] == s[i + 1 + j]; }
    forall j | 0 <= j < |top| ensures Plain(top[j]) { assert top[j] == s[k + 1 + j]; }
    assert MatchesAt(s, i, k);
  }

  /** Whatever matches the pattern is accepted by the decision procedure. */
  lemma CompleteEmail(s: string)
    requires MatchesEmailPattern(s)
    ensures EmailShape(s)
  {
    var i, k :| 0 <= i < k < |s| && MatchesAt(s, i, k);
    // Every character but the `@` at `i` and the `.` at `k` is plain.
    forall j | 0 <= j < |s| && j != i && j != k ensures Plain(s[j]) {
      if j < i {
        assert s[j] == s[..i][j];
      } else if j < k {
        assert s[j] == s[i + 1..k][j - i - 1];
      } else {
        assert s[j] == s[k + 1..][j - k - 1];
      }
    }
    assert Plain(s[0]) by { assert s[0] == s[..i][0]; }
    forall j | 0 <= j < |s| ensures !IsSpaceFn()(s[j]) {
      if j != i && j != k {
        assert Plain(s[j]);
      }
    }
    assert FindIndex(s, IsAt()) == i;
    var t := s[i + 1..];
    forall j | 0 <= j < |t| ensures !IsAt()(t[j]) {
      assert t[j] == s[i + 1 + j];
    }
    var u := s[i + 2..|s| - 1];
    assert u[k - i - 2] == s[k];
    assert IsDot()(u[k - i - 2]);
  }

  /** A string without `@` is rejected. */
  lemma NoAtRejected()
    ensures !ValidEmail("not-an-email")
  {
    var s := "not-an-email";
    forall i, k | 0 <= i < k < |s| ensures !MatchesAt(s, i, k) {
      assert s[i] != '@';
    }
  }

  /** The shortest kind of address is accepted. */
  lemma ShortAddressAccepted()
    ensures ValidEmail("a@b.co")
  {
    var s := "a@b.co";
    assert s[..1] == "a" && s[2..3] == "b" && s[4..] == "co";
    assert MatchesAt(s, 1, 3);
  }

  /** Whitespace before the `@` is rejected. */
  lemma SpaceRejected()
    ensures !ValidEmail("a b@c.de")
  {
    var s := "a b@c.de";
    forall i, k | 0 <= i < k < |s| && s[i] == '@' ensures !MatchesAt(s, i, k) {
      assert i == 3;
      assert s[..i][1] == ' ';
    }
  }

  /** A domain that starts with the dot is rejected. */
  lemma EmptyDomainRejected()
    ensures !ValidEmail("a@.c")
  {
    var s := "a@.c";
    forall i, k | 0 <= i < k < |s| && s[i] == '@' && s[k] == '.' ensures !MatchesAt(s, i, k) {
      assert i == 1 && k == 2;
    }
  }
}

/** `POST /api/contact` of app/api/contact/route.ts: three checks in order,
    then success. */
module ContactRoute {
  import opened Js
  import opened Api

  /** The parsed JSON body; a missing field is `None`. Only string-valued
      fields are modelled. */
  datatype ContactForm = ContactForm(
    name: Option<string>,
    email: Option<string>,
    organization: Option<string>,
    inquiryType: Option<string>,
    message: Option<string>)

  /** A field is truthy: present and not the empty string. */
  predicate Present(f: Option<string>)
  {
    f.Some? && f.value != ""
  }

  const ValidTypes: seq<string> := ["media", "speaking", "academic", "general"]

  const RequiredError := "Name, email, inquiry type, and message are required"
  const EmailError := "Valid email address is required"
  const TypeError := "Invalid inquiry type"
  const SentMessage := "Message sent successfully. We will be in touch soon."

  /** The handler once the body has parsed. */
  function Post(form: ContactForm): (r: Response)
    ensures r.status == 200 || r.status == 400
    ensures r.status == 200 <==>
              && Present(form.name) && Present(form.message)
              && form.email.Some? && MatchesEmailPattern(form.email.value)
              && form.inquiryType.Some? && form.inquiryType.value in ValidTypes
    ensures r.status == 200 ==> r.body == Success(SentMessage)
    ensures r.status == 400 ==> r.body in {Failure(RequiredError), Failure(EmailError), Failure(TypeError)}
  {
    if !Present(form.name) || !Present(form.email) || !Present(form.inquiryType) || !Present(form.message) then
      BadRequest(RequiredError)
    else if !ValidEmail(form.email.value) then
      BadRequest(EmailError)
    else if form.inquiryType.value !in ValidTypes then
      BadRequest(TypeError)
    else
      Response(200, Success(SentMessage))
  }

  /** The checks run in order: a missing field is reported even when the
      email is malformed, and a malformed email even when the inquiry type
      is invalid; each error names the first check that failed. */
  lemma CheckOrder(form: ContactForm)
    ensures !Present(form.name) || !Present(form.email) || !Present(form.inquiryType) || !Present(form.message) ==>
              Post(form) == BadRequest(RequiredError)
    ensures Present(form.name) && Present(form.email) && Present(form.inquiryType) && Present(form.message)
            && !MatchesEmailPattern(form.email.value) ==>
              Post(form) == BadRequest(EmailError)
    ensures Present(form.name) && Present(form.email) && Present(form.inquiryType) && Present(form.message)
            && MatchesEmailPattern(form.email.value) && form.inquiryType.value !in ValidTypes ==>
              Post(form) == BadRequest(TypeError)
  {
  }

  /** The optional organization never changes the response. */
  lemma OrganizationIgnored(form: ContactForm, organization: Option<string>)
    ensures Post(form.(organization := organization)) == Post(form)
  {
  }

  lemma ExampleAddressAccepted()
    ensures ValidEmail("ada@example.org")
  {
    var e := "ada@example.org";
    assert e[..3] == "ada" && e[4..11] == "example" && e[12..] == "org";
    assert MatchesAt(e, 3, 11);
  }

  /** A well-formed inquiry of the unknown type "sponsorship" is rejected. */
  lemma SponsorshipRejected(form: ContactForm)
    requires Present(form.name) && Present(form.message)
    requires form.email.Some? && MatchesEmailPattern(form.email.value)
    requires form.inquiryType == Some("sponsorship")
    ensures Post(form) == BadRequest(TypeError)
  {
    assert "sponsorship" != ValidTypes[0] && "sponsorship" != ValidTypes[1];
  }
}

/** `POST /api/newsletter` of app/api/newsletter/route.ts. */
module NewsletterRoute {
  import opened Js
  import opened Api
  import ContactRoute

  const SubscribedMessage := "Successfully subscribed to newsletter"

  /** The handler once the body has parsed; `email` is `None` when missing. */
  function Post(email: Option<string>): (r: Response)
    ensures r.status == 200 <==> email.Some? && MatchesEmailPattern(email.value)
    ensures r.status == 200 ==> r.body == Success(SubscribedMessage)
    ensures r.status != 200 ==> r == BadRequest(EmailError)
  {
    if email.None? || email.value == "" || !ValidEmail(email.value) then BadRequest(EmailError)
    else Response(200, Success(SubscribedMessage))
  }

  const EmailError := ContactRoute.EmailError

  /** The two forms agree on emails: with the other contact fields valid, the
      contact form goes through exactly when the newsletter signup would,
      and both reject a non-empty bad email with the same message (an empty
      one is a missing field to the contact form). */
  lemma SameEmailRule(form: ContactForm, email: string)
    requires ContactRoute.Present(form.name) && ContactRoute.Present(form.message)
    requires form.inquiryType.Some? && form.inquiryType.value in ContactRoute.ValidTypes
    ensures (ContactRoute.Post(form.(email := Some(email))).status == 200) <==> (Post(Some(email)).status == 200)
    ensures email != "" && Post(Some(email)).status == 400 ==> ContactRoute.Post(form.(email := Some(email))).body == Post(Some(email)).body
  {
  }

  type ContactForm = ContactRoute.ContactForm
}
