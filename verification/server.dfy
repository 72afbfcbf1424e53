/**
  The `/send` handler of the bulk-mail relay (server.js:55-111) and the
  daily wipe of its counter tables (server.js:24-27).

  A request runs an ordered chain of checks, builds one message per
  recipient and hands them to the send loop. The mail provider is replaced
  by two inputs: whether the login check (`transporter.verify()`)
  succeeded, and the outcomes of the individual sends.
*/
module Server {
  import opened AddressShape
  import opened Distinct
  import opened Recipients
  import opened Decimal
  import opened Dispatch

  /** `MAX_PER_ID`: the most mails one sender identity may send per epoch. */
  const MaxPerId: nat := 28

  /** The JSON body of a `/send` request. A field that is absent, `null` or
      the empty string is the empty string here: all of them are falsy. */
  datatype Request = Request(
    senderName: string,
    gmail: string,
    apppass: string,
    to: string,
    subject: string,
    message: string)

  /** The reasons a request is turned down, in the order they are checked. */
  datatype Rejection =
    | MissingFields
    | InvalidGmail
    | LimitReached
    | OnlyAllowed(remaining: nat)
    | LoginFailed

  /** The `msg` field of a rejection. The allowance is rendered as
      "Only <digits> emails allowed", where the digits read back as the
      remaining count. */
  function Message(r: Rejection): (m: string)
    ensures r.OnlyAllowed? ==>
      && |m| > |"Only "| + |" emails allowed"|
      && m[..5] == "Only " && m[|m| - 15..] == " emails allowed"
      && AllDigits(m[5..|m| - 15]) && ValueOf(m[5..|m| - 15]) == r.remaining
  {
    match r
    case MissingFields => "Missing fields"
    case InvalidGmail => "Invalid Gmail"
    case LimitReached => "28 email limit reached"
    case OnlyAllowed(n) => "Only " + NatToDecimal(n) + " emails allowed"
    case LoginFailed => "Gmail login failed"
  }

  /** Different rejections carry different messages, so the client can
      tell every reason apart, including two different allowances. */
  lemma MessageDistinguishes(a: Rejection, b: Rejection)
    requires Message(a) == Message(b)
    ensures a == b
  {
    var m := Message(a);
    assert m[0] == Message(b)[0];
    if a.OnlyAllowed? && b.OnlyAllowed? {
      assert m[5..|m| - 15] == Message(b)[5..|m| - 15];
    }
  }

  /** The JSON reply: `{success: false, msg}` or
      `{success: true, sent, used, limit}`. */
  datatype Response =
    | Rejected(reason: Rejection)
    | Accepted(sent: nat, used: nat, limit: nat)

  datatype Result<T> = Ok(value: T) | Err(rejection: Rejection)

  predicate MissingField(req: Request) {
    req.gmail == "" || req.apppass == "" || req.to == "" || req.subject == "" || req.message == ""
  }

  /** `sentCount[gmail] || 0`. */
  function Used(c: Counters, gmail: string): nat {
    Lookup(c.sent, gmail)
  }

  /** The checks made before the provider is contacted, in source order.
      On success the recipient list is returned. An empty recipient list is
      not a rejection. */
  function Validate(c: Counters, req: Request): (r: Result<seq<string>>)
    ensures r == Err(MissingFields) <==> MissingField(req)
    ensures r == Err(InvalidGmail) <==> !MissingField(req) && !IsEmailShape(req.gmail)
    ensures r == Err(LimitReached) <==>
      !MissingField(req) && IsEmailShape(req.gmail) && Used(c, req.gmail) >= MaxPerId
    ensures r.Err? && r.rejection.OnlyAllowed? <==>
      && !MissingField(req) && IsEmailShape(req.gmail)
      && Used(c, req.gmail) < MaxPerId < Used(c, req.gmail) + |Parse(req.to)|
    ensures r.Err? && r.rejection.OnlyAllowed? ==>
      r.rejection.remaining == MaxPerId - Used(c, req.gmail) && 0 < r.rejection.remaining < |Parse(req.to)|
    ensures r.Ok? <==>
      && !MissingField(req) && IsEmailShape(req.gmail)
      && Used(c, req.gmail) < MaxPerId
      && Used(c, req.gmail) + |Parse(req.to)| <= MaxPerId
    ensures r.Ok? ==> r.value == Parse(req.to)
    ensures r != Err(LoginFailed)
  {
    if MissingField(req) then Err(MissingFields)
    else if !IsEmailShape(req.gmail) then Err(InvalidGmail)
    else if Used(c, req.gmail) >= MaxPerId then Err(LimitReached)
    else
      var recipients := Parse(req.to);
      var remaining := MaxPerId - Used(c, req.gmail);
      if |recipients| > remaining then Err(OnlyAllowed(remaining))
      else Ok(recipients)
  }

  /** `sentCount[gmail] = sentCount[gmail] || 0`: materialises the sender's
      entry without changing any count. */
  function Touch(c: Counters, gmail: string): (t: Counters)
    ensures forall g :: Lookup(t.sent, g) == Lookup(c.sent, g)
    ensures gmail in t.sent && t.failures == c.failures
  {
    c.(sent := c.sent[gmail := Lookup(c.sent, gmail)])
  }

  /** `senderName || gmail`. */
  function DisplayName(req: Request): string {
    if req.senderName != "" then req.senderName else req.gmail
  }

  /** The `from` header `"name" <address>`. */
  function FromHeader(name: string, address: string): string {
    "\"" + name + "\" <" + address + ">"
  }

  /** `recipients.map(...)`: one single-recipient message per address. */
  function BuildMails(req: Request, recipients: seq<string>): (ms: seq<Mail>)
    ensures |ms| == |recipients|
    ensures forall k :: 0 <= k < |ms| ==>
      && ms[k].to == recipients[k]
      && ms[k].replyTo == req.gmail
      && ms[k].from == FromHeader(if req.senderName != "" then req.senderName else req.gmail, req.gmail)
      && ms[k].subject == req.subject && ms[k].text == req.message
  {
    var from := FromHeader(DisplayName(req), req.gmail);
    assert from == FromHeader(if req.senderName != "" then req.senderName else req.gmail, req.gmail);
    seq(|recipients|, k requires 0 <= k < |recipients| =>
      Mail(from, recipients[k], req.subject, req.message, req.gmail))
  }

  /** The recipient of each message, in order. */
  function Addressees(ms: seq<Mail>): seq<string> {
    seq(|ms|, k requires 0 <= k < |ms| => ms[k].to)
  }

  /** The messages go to exactly the recipients, in the same order. */
  lemma BuildMailsAddressees(req: Request, recipients: seq<string>)
    ensures Addressees(BuildMails(req, recipients)) == recipients
  {
  }

  /** One handled request: the counter tables afterwards, the reply, and
      the messages handed to the transport. */
  datatype Step = Step(counters: Counters, response: Response, attempted: seq<Mail>)

  /** `POST /send`. `verified` is the outcome of `transporter.verify()` and
      `results` the outcomes of the successive `sendMail` calls. */
  function HandleSend(c: Counters, req: Request, verified: bool, results: seq<bool>): (s: Step)
    ensures s.response.Rejected? ==>
      && s.attempted == []
      && s.counters.failures == c.failures
      && (forall g :: Lookup(s.counters.sent, g) == Lookup(c.sent, g))
    ensures Validate(c, req).Err? ==> s.response == Rejected(Validate(c, req).rejection)
    ensures s.response == Rejected(LoginFailed) <==> Validate(c, req).Ok? && !verified
    ensures s.response.Accepted? <==> Validate(c, req).Ok? && verified
    ensures s.response.Accepted? ==>
      && verified && Validate(c, req).Ok?
      && s.response.limit == MaxPerId
      && s.response.used == Used(s.counters, req.gmail) == Used(c, req.gmail) + s.response.sent
      && s.response.sent <= |s.attempted| <= |Parse(req.to)|
      && s.attempted == BuildMails(req, Parse(req.to))[..|s.attempted|]
  {
    match Validate(c, req)
    case Err(e) =>
      var c' := if e == MissingFields || e == InvalidGmail then c else Touch(c, req.gmail);
      Step(c', Rejected(e), [])
    case Ok(recipients) =>
      var c' := Touch(c, req.gmail);
      if !verified then Step(c', Rejected(LoginFailed), [])
      else
        var d := SendOneByOne(BuildMails(req, recipients), req.gmail, c', results);
        Step(d.counters, Accepted(d.sent, Lookup(d.counters.sent, req.gmail), MaxPerId), d.attempted)
  }

  /** A request only ever changes the counters of its own sender. */
  lemma OtherSendersUntouched(c: Counters, req: Request, verified: bool, results: seq<bool>, g: string)
    requires g != req.gmail
    ensures Lookup(HandleSend(c, req, verified, results).counters.sent, g) == Lookup(c.sent, g)
    ensures Lookup(HandleSend(c, req, verified, results).counters.failures, g) == Lookup(c.failures, g)
  {
    var s := HandleSend(c, req, verified, results);
    if s.response.Accepted? {
      var c' := Touch(c, req.gmail);
      var d := SendOneByOne(BuildMails(req, Parse(req.to)), req.gmail, c', results);
      assert s.counters == d.counters;
      assert g in d.counters.sent <==> g in d.counters.sent - {req.gmail};
      assert g in c'.sent <==> g in c'.sent - {req.gmail};
      assert g in d.counters.failures <==> g in d.counters.failures - {req.gmail};
      assert g in c'.failures <==> g in c'.failures - {req.gmail};
      if g in c'.sent {
        assert (c'.sent - {req.gmail})[g] == c'.sent[g];
      }
      if g in c'.failures {
        assert (c'.failures - {req.gmail})[g] == c'.failures[g];
      }
    }
  }

  /** On an accepted request the sender's failure count continues from the
      value left by earlier requests, as the reference counters predict. */
  lemma FailuresCarryOver(c: Counters, req: Request, verified: bool, results: seq<bool>)
    requires HandleSend(c, req, verified, results).response.Accepted?
    ensures var s := HandleSend(c, req, verified, results);
      Agrees(Lookup(c.failures, req.gmail), results, |s.attempted|, |Parse(req.to)|,
             s.response.sent, Lookup(s.counters.failures, req.gmail))
  {
    var c' := Touch(c, req.gmail);
    SendOneByOneMatchesReference(BuildMails(req, Parse(req.to)), req.gmail, c', results);
  }

  /** No identity has sent more than the cap in the current epoch. */
  ghost predicate WithinQuota(c: Counters) {
    forall g :: Lookup(c.sent, g) <= MaxPerId
  }

  /** Handling one request never takes any identity over the cap. */
  lemma QuotaPreserved(c: Counters, req: Request, verified: bool, results: seq<bool>)
    requires WithinQuota(c)
    ensures WithinQuota(HandleSend(c, req, verified, results).counters)
  {
    var s := HandleSend(c, req, verified, results);
    forall g ensures Lookup(s.counters.sent, g) <= MaxPerId {
      if g != req.gmail {
        OtherSendersUntouched(c, req, verified, results, g);
      }
    }
  }

  /** The 24-hour wipe: both tables are emptied. */
  function Reset(c: Counters): (r: Counters)
    ensures forall g :: Lookup(r.sent, g) == 0 && Lookup(r.failures, g) == 0
  {
    Counters(map[], map[])
  }

  /** After the wipe, any well-formed request from any sender with at most
      `MaxPerId` valid recipients passes every check, however much the
      sender had used before. */
  lemma ResetRestoresFullQuota(c: Counters, req: Request)
    requires !MissingField(req) && IsEmailShape(req.gmail)
    requires |Parse(req.to)| <= MaxPerId
    ensures Validate(Reset(c), req) == Ok(Parse(req.to))
  {
  }

  /** What happens to the relay: a request, with the provider's answers to
      it, or the daily wipe. */
  datatype Event =
    | SendRequest(req: Request, verified: bool, results: seq<bool>)
    | DailyWipe

  datatype History = History(counters: Counters, responses: seq<Response>)

  /** Requests and wipes processed one at a time, from `c`. */
  function Run(c: Counters, events: seq<Event>): History
    decreases |events|
  {
    if |events| == 0 then History(c, [])
    else
      match events[0]
      case DailyWipe => Run(Reset(c), events[1..])
      case SendRequest(req, verified, results) =>
        var s := HandleSend(c, req, verified, results);
        var h := Run(s.counters, events[1..]);
        History(h.counters, [s.response] + h.responses)
  }

  /** The counters of a freshly started process. */
  const Initial: Counters := Counters(map[], map[])

  /** Across any sequence of requests and wipes handled one at a time, no
      identity exceeds the cap, and every success reports a usage within it
      together with the cap itself. */
  lemma {:induction false} RunWithinQuota(c: Counters, events: seq<Event>)
    requires WithinQuota(c)
    ensures WithinQuota(Run(c, events).counters)
    ensures forall r :: r in Run(c, events).responses && r.Accepted? ==>
      r.used <= MaxPerId && r.limit == MaxPerId
    decreases |events|
  {
    if |events| > 0 {
      match events[0]
      case DailyWipe =>
        RunWithinQuota(Reset(c), events[1..]);
      case SendRequest(req, verified, results) =>
        QuotaPreserved(c, req, verified, results);
        var s := HandleSend(c, req, verified, results);
        RunWithinQuota(s.counters, events[1..]);
    }
  }

  lemma QuotaFromStart(events: seq<Event>)
    ensures forall g :: Lookup(Run(Initial, events).counters.sent, g) <= MaxPerId
  {
    RunWithinQuota(Initial, events);
  }

  /** The source has no rejection for an empty recipient list: such a
      request is accepted, sends nothing and reports zero sent. */
  lemma EmptyRecipientListAccepted(c: Counters, req: Request, results: seq<bool>)
    requires !MissingField(req) && IsEmailShape(req.gmail)
    requires Used(c, req.gmail) < MaxPerId && Parse(req.to) == []
    ensures var s := HandleSend(c, req, true, results);
      && s.response == Accepted(0, Used(c, req.gmail), MaxPerId)
      && s.attempted == []
  {
  }

  /** A `to` field made of separators only is not missing, yet yields no
      recipient. */
  lemma SeparatorsOnlyGiveNoRecipients()
    ensures Parse(",") == []
  {
    assert Split(",") == ["", ""];
    assert Segments(",") == ["", ""];
  }
}
