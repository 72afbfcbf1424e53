# Bulk-mail relay: `/send` handler model

A Dafny model of the request-handling core of a small bulk-mail relay
(`server.js`). A `POST /send` request names a sender account (`gmail`), its
app password, a free-text recipient field, a subject and a body. The handler
runs an ordered chain of checks against a per-sender quota of 28 mails, logs in
to the provider, builds one message per recipient and sends them one at a time.
A circuit breaker stops the loop after three consecutive failures. Two
process-wide tables, `sentCount` and `failCount`, are wiped every 24 hours.

Modules, one per concern of the handler:

- `AddressShape` (`address_shape.dfy`): the shape check
  `/^[^\s@]+@[^\s@]+\.[^\s@]+$/`. It appears twice: as the language of the
  regular expression (`MatchesPattern`) and as a closed-form test
  (`IsEmailShape`). A lemma proves the two agree. Whitespace is the exact
  ECMAScript `WhiteSpace`/`LineTerminator` set, and `trim` uses the same set.
- `Distinct` (`distinct.dfy`): `[...new Set(xs)]`, checked against an
  independent "first occurrences" definition.
- `Recipients` (`recipients.dfy`): `split(/,|\n/)`, `trim`, the shape filter
  and dedup, with split/join round trips.
- `Decimal` (`decimal.dfy`): the number printed in the "Only N emails allowed"
  message.
- `Dispatch` (`dispatch.dfy`): `sendOneByOne` as a recursive fold over the
  outcomes of the send attempts, checked against reference counters.
- `Server` (`server.dfy`): the validation chain, message construction, the
  handler, the daily wipe, and sequences of requests and wipes.

The provider is replaced by inputs. `verified` is the outcome of
`transporter.verify()`. `results[k]` is the outcome of the k-th `sendMail`
call of one loop, and an attempt past the end of `results` counts as a failed
send.

Some behaviour of `server.js` that a reader might not expect:
- `server.js` has no rejection for an empty recipient list. A `to` field such
  as `","` gets `success: true, sent: 0`.
- The quota check rejects a request that has too many recipients. It does not
  cut the list down to the remaining allowance.
- Subject and body are passed through without sanitising.
- The wipe is a timer that fires every 24 hours after start-up, not at a
  calendar boundary.
- Repeated recipients are sent one message only: the list is de-duplicated
  before the quota check.

## Model

| member | source | states |
|---|---|---|
| AddressShape.IsEmailShapeMatchesPattern | server.js:29 | the closed-form test accepts a string exactly when it is a non-empty `[^\s@]` run, `@`, a non-empty run, `.`, and a non-empty run. The closed form is: no whitespace, one `@`, something before it, and a `.` strictly inside the part after it |
| AddressShape.FirstAt | server.js:29 | the index returned is the position of the first `@`, or the length when there is none |
| Recipients.Split | server.js:70 | there is one more piece than there are `,`/newline separators, and no piece contains a separator |
| Recipients.SplitInterleave | server.js:70 | putting the separators back between the pieces gives the original field |
| Recipients.InterleaveSplit | server.js:70 | separator-free pieces joined by separators split back into exactly those pieces |
| Recipients.TrimStart | server.js:71 | the result is a suffix of the input, everything it drops is whitespace, and it does not start with whitespace |
| Recipients.TrimEnd | server.js:71 | the result is a prefix of the input, everything it drops is whitespace, and it does not end with whitespace |
| Recipients.Trim | server.js:71 | the result is an infix of the input with only whitespace around it, and it neither starts nor ends with whitespace |
| Recipients.TrimIdempotent | server.js:71 | trimming twice is trimming once |
| Recipients.KeepValid | server.js:72 | every kept entry passes the shape check and came from the input, and every input entry that passes is kept (order: see `KeepValidAppend`) |
| Recipients.KeepValidSingle | server.js:72 | a one-entry list keeps its entry exactly when it passes the shape check |
| Recipients.KeepValidAppend | server.js:72 | filtering a concatenation is the concatenation of the filtered parts, so kept entries stay in input order and keep their repeats |
| Recipients.ParseSound | server.js:69-74 | every recipient passes the shape check, none repeats, none contains a separator, and each is the trimmed form of some piece of the field |
| Recipients.ParseComplete | server.js:69-72 | every trimmed piece of the field that passes the shape check is a recipient |
| Recipients.ParseOrder | server.js:74 | the recipient list is the first occurrences of the accepted trimmed pieces, in order |
| Recipients.ParseIdempotent | server.js:69-74 | parsing the comma-joined recipient list again gives the same list in the same order |
| Recipients.ParseExample | server.js:69-74 | for the field `b@x.com, b@x.com, bad-addr` the repeated address is kept once and the malformed one is dropped |
| Distinct.Dedup | server.js:74 | the result has no duplicates and holds exactly the elements of the input |
| Distinct.DedupFrom | server.js:74 | the result has no duplicates and holds exactly the input elements not already seen |
| Distinct.DedupIsFirstOccurrences | server.js:74 | dedup keeps a position exactly when its value has not occurred earlier, so it keeps first-occurrence order |
| Distinct.DedupIdempotent | server.js:74 | de-duplicating twice is de-duplicating once |
| Distinct.DedupOfDistinct | server.js:74 | a list without duplicates is returned unchanged |
| Decimal.NatToDecimal | server.js:81 | the remaining allowance is printed as digits that read back as the number, with no leading zero |
| Dispatch.SendOneByOne | server.js:37-53 | confirmed sends are at most the attempts, and the attempts are at most the mails. The attempts are a prefix of the mails, in order. The sender's sent count rises by exactly the confirmed sends. Nothing else in either table changes. Stopping early means the last attempt failed and the failure count reached 3 |
| Dispatch.SendOneByOneMatchesReference | server.js:37-53 | the loop agrees with reference counters: a success resets the failure count, a failure adds one, no attempt before the last trips the breaker, the loop stops at the first attempt that does, and the reported count is the successes among the attempts |
| Dispatch.CarriedFailuresTrip | server.js:47-48 | failures from earlier requests count: a sender with 2 failures on record stops after one more failed attempt |
| Server.Message | server.js:59-92 | the allowance message is `Only `, then decimal digits that read back as the remaining count, then ` emails allowed` |
| Server.MessageDistinguishes | server.js:59-92 | different rejections have different messages, including two different allowances |
| Server.Validate | server.js:58-82 | the checks run in source order, each as an if-and-only-if. "Missing fields" exactly when a field is empty. "Invalid Gmail" exactly when all fields are present and the sender fails the shape check. "28 email limit reached" exactly when the sender is well-formed and has used 28 or more. "Only N emails allowed" exactly when the sender is under 28 but the recipients do not fit, with N = 28 minus usage. A request passes exactly when all checks hold, and then its recipients are the parsed list and fit in the remaining quota |
| Server.Touch | server.js:64 | materialising the sender's entry changes no count |
| Server.BuildMails | server.js:95-101 | there is one message per recipient, in recipient order, each to that recipient alone, replying to the sender, with display name `senderName` when it is non-empty and `gmail` otherwise |
| Server.HandleSend | server.js:55-111 | every rejection sends nothing and leaves both tables' counts unchanged. A failed login is rejected exactly when validation passed. A request is accepted exactly when it validates and the login succeeds. A success reports `used` equal to the sender's new count, which is the old count plus `sent`, and `limit` 28. The attempted messages are a prefix of the built ones |
| Server.OtherSendersUntouched | server.js:37-53 | a request never changes another sender's counts |
| Server.FailuresCarryOver | server.js:44-48 | within an accepted request the failure count starts from the value left by earlier requests and follows the reference counters |
| Server.QuotaPreserved | server.js:76-82 | if no sender is over 28 before a request, none is after it |
| Server.Reset | server.js:24-27 | after the wipe every identity's sent and failure counts read as 0 |
| Server.ResetRestoresFullQuota | server.js:24-27 | after the wipe a well-formed request with at most 28 valid recipients passes every check, whatever the sender used before |
| Server.RunWithinQuota | server.js:66-110 | over any sequence of requests and wipes handled one at a time, no sender's count exceeds 28, and every success reports `used` at most 28 and `limit` 28 |
| Server.QuotaFromStart | server.js:21-27 | starting from empty tables, no sender's count ever exceeds 28 |
| Server.EmptyRecipientListAccepted | server.js:58-110 | a valid request whose field yields no recipient is accepted with `sent` 0 and sends nothing |
| Server.SeparatorsOnlyGiveNoRecipients | server.js:69-74 | the non-empty field `,` yields no recipients |

## Left out

- Express routing, static file serving, `login.html`, JSON body parsing, and
  `app.listen`/`PORT` are framework I/O with no logic to model.
- nodemailer (`createTransport`, `verify`, `sendMail`) is a foreign library
  doing network calls. Its answers are inputs: a boolean for `verify` and a
  sequence of outcomes for the sends.
- `wait()` and its random jitter are left out: the delay does not affect the
  counters. The `setInterval` timer is left out too; the wipe is an explicit
  `Reset`/`DailyWipe` step.
- Concurrency between requests is left out. The `await` points let two
  requests from one sender interleave and overshoot the quota. The quota
  results hold for requests handled one at a time only.
- Non-string JSON values (numbers, arrays, objects) in the request body are
  not modelled. Absent, `null` and `""` fields are all the empty string,
  since all three are falsy.
- Strings are sequences of Unicode scalar values, not UTF-16 code units, so
  lone surrogates are not modelled.
- The `console.log` on start-up is left out.
- Server.HandleSend: counters are stated unchanged as read through `|| 0`, not
  as identical objects, because line 64 can add a zero entry for the sender
  before a later rejection.
