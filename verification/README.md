# CertPilot core: a verified model

CertPilot issues and renews X.509 certificates through CA gateways, serves ACME
clients, streams changes to dashboards and keeps a tamper-evident audit trail.
This project models the parts of its core where a wrong step is hard to see
from one function, and proves what they promise:

| file | models |
|---|---|
| `Broker.dfy` | the event broker as a class over a ghost log of everything published: bounded queues that give up their oldest, the replay history shifted in place, the three selects of a send with the consumer receiving in between |
| `EventStream.dfy` | one dashboard client of the stream as a step machine against concurrent publishers: subscribe, replay or snapshot, pump, resynchronise |
| `StreamAccounts.dfy` | what such a client is owed over every run, and what is given up |
| `AuditChain.dfy` | the canonical encoding of an audit entry, the keyed chain, the verifying walk, and the log as it is written under rotating keys |
| `Orders.dfy`, `OrderServer.dfy` | ACME orders as a protocol of single store steps and signer calls, and the handlers as they run |
| `SecondIssuance.dfy`, `ValidOrders.dfy` | exactly when a second certificate can be issued for an order, and exactly when a valid order can change |
| `Authorizations.dfy`, `EverProved.dfy`, `InTime.dfy` | what authorizations guarantee when challenge requests are handled whole, what they guarantee whatever interleaves, and that nothing expired is proved or issued |
| `Accounts.dfy` | ACME accounts and credentials: store calls in any order, handlers, the life of an account |
| `Nonces.dfy` | ACME nonces: minting, and check, claim and sweep in any interleaving |
| `Identifiers.dfy` | host names, cleaning an order's identifiers, matching a CSR and a certificate |
| `Renewals.dfy` | renewal over the same record: conservation of counts, one live record |
| `RenewalLead.dfy` | the renewal lead in Go's int64 nanoseconds, and the suggested window |
| `CertIdentifier.dfy`, `Base64.dfy` | RFC 9773 certificate identifiers over RFC 4648 section 5 base64url |
| `Gateways.dfy` | the gateway registry as a resource-ownership protocol |
| `Migrations.dfy` | schema migration with crashes and restarts |
| `LoginThrottle.dfy` | password lockout and the rate it allows |
| `Prelude.dfy` | bytes, Go's integer widths, big-endian numbers |

Two styles recur. What the core does by updating fields under a lock is a class
whose methods are proved against a function of the old state. What is designed to
run concurrently is a state machine whose steps are the atomic actions, with
theorems over every finite sequence of them. Where a promise needs a hypothesis
about how the code is used, the hypothesis is named, and a lemma beside it exhibits
what happens without it, or says exactly when the promise holds. That a MAC or a
hash does not collide on the inputs at hand is a hypothesis too, and stays one.

`dafny verify dfyconfig.toml` checks everything.

## Model

| member | source | states |
|---|---|---|
| Broker.OfferConserves | core/events/broker.go:477-491 | however many receives the consumer makes before and between the three selects, the event sent ends up last in the queue, at most one event is given up, and received, queued and lost together are the matching events published, with the queue their newest suffix |
| Broker.Subscription.SendToFull | core/events/broker.go:479-490 | the last fallback, which would count the new event as dropped, is unreachable: after a discard there is always room |
| Broker.Subscription.Send | core/events/broker.go:476-492 | the sends as they run, with the consumer on its own goroutine; the dropped counter grows by exactly what was lost |
| Broker.Subscription.ReceiveOne | core/events/broker.go:350-352 | a receive takes the oldest, keeps the accounts against every log, and reports closed only once drained |
| Broker.Subscription.Offered | core/events/broker.go:474-492 | one subscriber's share of a publication keeps its account of the log, and ends with the new event newest in its queue |
| Broker.Subscription.WantsTopic | core/events/broker.go:601-614 | no topics means every topic; otherwise an equal topic or a starred prefix |
| Broker.WantsExactly | core/events/broker.go:601-614 | a filter wants the topic it spells, and one that ends in a star every topic that begins with the rest of it |
| Broker.Broker.FanOut | core/events/broker.go:467-492 | every subscriber whose topics match has the event newest in its queue, and every subscriber's account then covers it |
| Broker.Broker.Publish | core/events/broker.go:444-495 | the log grows by the stamped event with the next identifier, the history and all accounts stay exact, and a stopped broker publishes nothing |
| Broker.StampedExactly | core/events/broker.go:448-462 | publishing gives an event its identifier, and a severity (INFO) and a time (now) only where it has none of its own |
| Broker.Broker.AppendHistory | core/events/broker.go:508-521 | after the shift in place the history is the last min(capacity, published) events of the log, for any capacity including none |
| Broker.Broker.SubscribeWithBuffer | core/events/broker.go:401-434 | a subscription starts with nothing owed and nothing lost, under an unused identifier; from a stopped broker it is already closed and not registered |
| Broker.ReplayIsExact | core/events/broker.go:528-552 | replay reports complete exactly when everything published after the identifier is still retained, except for the greatest 64-bit identifier whose successor wraps to zero; when complete it returns exactly the matching events since, in order |
| Broker.Broker.Replay | core/events/broker.go:528-552 | the loop over the history computes the function that ReplayIsExact is about |
| Broker.Broker.Close | core/events/broker.go:370-384 | closing is idempotent and removes exactly that subscription, keeping every account |
| Broker.Broker.Stop | core/events/broker.go:579-598 | stopping closes every subscription and empties the registry, once, leaving queues to be drained |
| StreamAccounts.NoSilentGap | core/api/events.go:105-191 | for every interleaving of publishers, handler steps, failed writes and failed reads: when an event has been written, each event since the base (the resume point, or subscribing for a client not resumed or resumed beyond the log) was written before it unless it has no JSON form, or the same iteration goes on to a resync and a snapshot (or its failure notice) whose reads began after the loss, or the iteration is still under way or the connection broke in it; at the head of the loop only the first two remain |
| StreamAccounts.SkippedExactly | core/api/events.go:260-265 | at the head of the loop and without a resync, an event since the base was written before a later one if and only if it has a JSON form |
| StreamAccounts.OpensWithoutGap | core/api/events.go:121-142 | the base is the resume point exactly when the client is resumed at an identifier the broker has reached, else the subscription; a client that is not resumed gets a snapshot begun after it subscribed, or notice that there is none, before any event; a resync is sent only after a loss |
| StreamAccounts.ResumesWithEverything | core/api/events.go:121-132 | with no publisher at work, a client is resumed if and only if it has a resume point and nothing since it has fallen out of the history, the greatest identifier aside; what is replayed is then exactly the log since that point (nothing when it lies beyond the log), and otherwise the client goes on to a snapshot |
| StreamAccounts.ReplayedFirst | core/api/events.go:121-132 | over every run, what a client resumed at a point the broker had reached is written before anything else is each encodable event since that point, in order, up to when it was asked to replay |
| StreamAccounts.ReconnectIsResumed | core/api/events.go:121-132 | an ordinary reconnect is resumed: it is sent exactly the encodable events since its resume point, in order, with no snapshot, and pumped |
| StreamAccounts.ArrivalIsShownSnapshot | core/api/events.go:133-142 | a client with no resume point, or one that has fallen out of the history, is sent a snapshot of the log as it then is, and pumped |
| StreamAccounts.LossIsToldOf | core/api/events.go:168-181 | a client that has lost something is sent a resync and a fresh snapshot right after the event it was being sent |
| StreamAccounts.PublisherGetsThrough | core/events/broker.go:477-491 | a send ends with the event queued, at once when there is room, else in three steps at the price of the oldest one queued |
| StreamAccounts.AccountedExactly | core/events/broker.go:535-542 | a client resumed without a snapshot has each event from before its subscription vouched for by its resume point or written if and only if that point is at most the last identifier when replay is asked for (or there was nothing to write) |
| StreamAccounts.BeyondIsResumed | core/api/events.go:121-132 | a client that comes back with any identifier beyond what is published, short of the greatest, is resumed with no snapshot and told of nothing published before it subscribed |
| StreamAccounts.AtRestComplete | core/api/events.go:154-181 | back at the head of the loop with nothing being published and nothing queued, each event since the base has been shown, or the last thing written is a resync with a snapshot (or its failure notice) begun when all of the log was out |
| EventStream.ThirdSelectKeeps | core/events/broker.go:486-490 | with the selects as separate steps among the handler's, the retry still always finds room |
| StreamAccounts.OneThrough | core/api/events.go:154-181 | a client that keeps up is sent each event once and at once, and one with no JSON form is passed over without a resync |
| StreamAccounts.UnreadStoreStreamsOn | core/api/events.go:194-212 | when the store cannot be read the client gets an error message instead of a snapshot, and the stream goes on |
| AuditChain.ReadsBack | core/store/audit_chain.go:98-128 | a reader of version 1, which takes a number, strings under 32-bit lengths, optional strings under a mark, and an instant, gets back exactly the covered fields from the canonical bytes, nil apart from empty, while strings are shorter than 2^32 |
| AuditChain.CanonicalInjective | core/store/audit_chain.go:98-128 | so equal canonical bytes mean equal covered fields |
| AuditChain.CanonicalCollidesPastTheBound | core/store/audit_chain.go:118-121 | at 2^32 bytes the length prefix wraps, and two different entries encode alike |
| AuditChain.VerifyAuditChainOver | core/store/audit_chain.go:159-237 | the walk reports intact exactly when every entry passes; otherwise it reports the first expected number that is missing or fails, with all before it verified: unreadable exactly for a checkable entry in its place whose key is not held, altered exactly for one in its place that cannot be checked at all or whose held key gives another tag |
| AuditChain.IntactIsLinked | core/store/audit_chain.go:170-208 | of an intact list the numbers have no gap, each recorded predecessor is the tag before it, and that of number 1 is all zero |
| AuditChain.Commitment | core/store/audit_chain.go:53-86 | two chains that walk as intact from number 1, with no empty predecessor after the first and one final tag, have the same length and the same covered fields throughout, by induction back along the links |
| AuditChain.AnchoredCommitment | core/store/audit_chain.go:53-86 | once one such chain is trusted, and none of its tags before the last is all zero, any list at all that walks as intact from number 1 and ends in its final tag says the same, entry by entry |
| AuditChain.ZeroTagIsNoAnchor | core/store/audit_chain.go:79-82 | with one all-zero tag before the last there is another list of that length and final tag, intact from number 1, that says something else |
| AuditChain.EmptyPredecessorSevers | core/store/audit_chain.go:200-208 | an entry tagged with no predecessor verifies after any intact list, so its tag says nothing about what came before |
| AuditChain.UnlinkedIsNoCommitment | core/store/audit_chain.go:200-208 | any intact chain from number 1 with one such entry past the first has another of its length beside it, intact from number 1 with the same final tag, that says something else |
| AuditChain.PagesCompose | core/store/audit_chain.go:170-231 | two adjacent pages are one intact list exactly when each is intact and they agree at the boundary |
| AuditChain.SliceIntact | core/store/audit_chain.go:180-189 | every contiguous slice of an intact list is intact, so a missing head is not detected |
| AuditChain.AppendExtends | core/store/inmemory.go:975-1015 | one write extends a gapless chain by one entry saying what was written |
| AuditChain.AppendRefuses | core/store/audit_chain.go:53-61 | after a last tag that is not 32 bytes a write is refused and the log is as it was |
| AuditChain.WrittenIsIntact | core/store/inmemory.go:975-1015 | whatever is written, and however often the key is rotated, the log is one gapless chain from 1 recording each write in order |
| AuditChain.WrittenSlicesVerify | core/store/audit_chain.go:159-237 | so every page of a log that was only written to verifies |
| Base64.RoundTrip | core/acmeserver/ari.go:40-41 | decoding undoes encoding for every byte string |
| Base64.EncodesByTable | core/acmeserver/ari.go:52-58 | every six bits in turn, the last filled up with zero bits, become the letter of RFC 4648 section 5 for them, without padding |
| Base64.DecodedExactly | core/acmeserver/ari.go:35-48 | apart from line breaks, which are ignored wherever they stand, a string decodes exactly when all of it is of the alphabet and no single letter is left over |
| CertIdentifier.RoundTrip | core/acmeserver/ari.go:35-58 | parsing the printed form gives back any identifier with a non-empty issuer key identifier and non-negative serial |
| CertIdentifier.ParsedExactly | core/acmeserver/ari.go:35-48 | accepted is exactly what decodes to a non-empty issuer key identifier before the first dot, and behind it to octets whose sign bit is clear |
| CertIdentifier.SerialIsMinimal | core/acmeserver/ari.go:52-58 | the serial is printed as its DER content octets: of the same number, sign bit clear, none too many |
| CertIdentifier.PrintInjective | core/acmeserver/ari.go:52-58 | two identifiers print alike exactly when they are equal |
| CertIdentifier.ParsePrintIdempotent | core/acmeserver/ari.go:35-58 | printing what was parsed is canonical |
| CertIdentifier.SpellingsAgree | core/acmeserver/ari.go:35-58 | two accepted spellings name one certificate exactly when they print the same |
| Nonces.MintNonce | core/acmeserver/nonce.go:33-50 | the buffer filled in place is the random bytes then the expiry, under the primary key's tag |
| Nonces.MintedExpiry | core/acmeserver/nonce.go:53-85 | parsing undoes the layout, also after the key has been retired, and the encoded expiry is the life of a nonce to the second |
| Nonces.MintedLayout | core/acmeserver/nonce.go:33-50 | a nonce is 64 bytes: key identifier, 16 random bytes, the second ten minutes on, and the tag over the last two |
| Nonces.TakenExactly | core/acmeserver/nonce.go:53-85 | a string is taken for a nonce exactly when it decodes to 64 bytes whose tag the held key they name gives over what stands between |
| Nonces.NonceTable.ClaimACMENonce | core/store/inmemory_acme.go:183-192 | a claim succeeds exactly when the hash is new, and changes nothing else |
| Nonces.NonceTable.SweepACMENonces | core/store/inmemory_acme.go:194-205 | a sweep removes exactly the rows past expiry, and counts them |
| Nonces.SingleUse | core/acmeserver/nonce.go:53-85 | over any interleaving of checks, claims and sweeps with a clock that does not go back, no nonce string is let through twice unless a sweep is late: at the instant the sweep's pass began at, some request between check and claim has an expired nonce that was let through already |
| Nonces.AcceptedTwiceExactly | core/store/inmemory_acme.go:194-205 | over every such run, some point of it can be carried on by one claim to a nonce let through twice if and only if some sweep of the run is late |
| Nonces.SingleUseAtOnce | core/acmeserver/nonce.go:53-85 | with each check followed at once by its claim no sweep is late, and single use needs no proviso |
| Nonces.TwoRequestsReachIt | core/acmeserver/nonce.go:68-84 | and two requests with one nonce reach a late sweep |
| Nonces.AcceptedWasUnexpired | core/acmeserver/nonce.go:68-84 | nothing is let through that was not checked before its expiry |
| Nonces.FreshNonceAccepted | core/acmeserver/nonce.go:33-85 | after any run without a late sweep, a minted nonce not yet let through, first spent before its encoded expiry, is accepted |
| Orders.AtMostOneIssuanceUnlessStale | core/store/inmemory_acme.go:297-308 | over any interleaving of single store steps of any number of finalize and challenge requests in which each challenge request's order write finds its row still pending, the signer is called at most once for an order, and a valid order never changes again |
| Orders.AtMostOneIssuance | core/acmeserver/orders.go:284-392 | over any interleaving at all, both hold of an order with no stored authorizations |
| Orders.AtMostOneIssuanceAtOnce | core/acmeserver/orders.go:284-392 | with each challenge request handled as a whole, both hold of every order |
| SecondIssuance.SecondIssuanceExactly | core/store/inmemory_acme.go:297-308 | some point of a run of single steps can be carried on by finalize requests alone to a second call to the signer if and only if some challenge request writes ready over the order while a claim stands on it or after the signer was called |
| SecondIssuance.ChallengeRaceIssuesTwice | core/store/inmemory_acme.go:297-308 | and two interleaved challenge requests do write so: the signer is called twice |
| ValidOrders.ValidChangesExactly | core/store/inmemory_acme.go:297-308 | some point of a run of single steps can be carried on by finalize requests alone, or by nothing, to a valid order that has changed if and only if some challenge request writes over the order when it is valid, or writes it ready while a finalize request that claimed it has not ended |
| ValidOrders.ChallengeRaceOverturns | core/store/inmemory_acme.go:297-308 | and it is reached with one call to the signer: two interleaved challenge requests, two finalize requests, and a valid order written over |
| Orders.SafeClaim | core/store/inmemory_acme.go:285-295 | the conditional claim keeps one holder at a time, and never touches a valid order |
| Orders.SafeEnd | core/store/inmemory_acme.go:297-308 | the unconditional write that ends a finalize is only ever made by the one holder, and never over a valid order |
| Authorizations.ProvedBeforeIssuance | core/acmeserver/challenges.go:401-508 | with challenge requests handled each as a whole and no order created in part: of an order that requires proof, authorization i is for identifier i, a wildcard stored as one for the name below it and proved only by dns-01, any other name as it is and no wildcard; and once the order is ready or further, or the signer was called, there is one per identifier and each is proved, even when order writes are lost |
| Authorizations.OrderFollows | core/acmeserver/challenges.go:458-488 | with challenge requests handled each as a whole, no order created in part and no order write lost, one refused authorization means an invalid order, and all proved means no longer pending |
| Authorizations.DecidedOnce | core/acmeserver/challenges.go:433-437 | with challenge requests handled each as a whole, an authorization that has been decided never changes again |
| Authorizations.OrderGoesThrough | core/acmeserver/orders.go:284-392 | from every state the handlers reach, a new order can be carried through: with the challenges it requires answered, a finalize that nothing is against makes it valid with the certificate signed, by one call to the signer |
| EverProved.EveryNameWasProved | core/acmeserver/challenges.go:401-508 | over any interleaving of single steps, once an order is ready or further, or a finalize request is at work on it, or the signer was called for it, each of its stored authorizations was at some point of the run proved, for its name and by a challenge it offers |
| EverProved.EveryNameWasProvedWhole | core/acmeserver/challenges.go:308-326 | and with no order created in part, that is every name of an order that requires proof |
| EverProved.OfferedByName | core/acmeserver/challenges.go:331-336 | over any interleaving, what can be answered is told by the name alone: dns-01 for a wildcard, every kind for any other |
| InTime.ProvedInTime | core/acmeserver/challenges.go:434-440 | over any interleaving, an authorization is proved only by a challenge found answered before the authorization expired |
| InTime.IssuedInTime | core/store/inmemory_acme.go:285-295 | over any interleaving, the signer is called only for an order that some request claimed before it expired |
| Authorizations.StatusMoves | core/acmeserver/orders.go:284-411 | over any interleaving of single steps in which challenge requests' order writes find the row pending, every step moves every order only along RFC 8555 section 7.1.6: pending to ready or invalid, ready to processing, processing to valid or invalid |
| Authorizations.ReadyUnprovedExactly | core/acmeserver/orders.go:137-144 | from any state the handlers reach, a new order can go on to be ready with a name unproved if and only if it was created in part: some but not all of its authorizations stored, and it not marked invalid |
| OrderServer.Server.ClaimACMEOrderForFinalize | core/store/inmemory_acme.go:285-295 | the claim succeeds exactly for a ready, unexpired order, and writes nothing but its status |
| OrderServer.Server.CreateAuthorizations | core/acmeserver/challenges.go:308-326 | one undecided authorization per identifier in order, up to the one that could not be stored: of a name that begins with "*." for the rest of it and marked a wildcard, of any other for that name |
| OrderServer.Server.AllValid | core/acmeserver/challenges.go:497-508 | true exactly when every authorization is valid, counting the one just decided as it now is |
| OrderServer.Server.NewOrder | core/acmeserver/orders.go:108-145 | the handler performs the protocol's new-order step |
| OrderServer.Server.RespondToChallenge | core/acmeserver/challenges.go:401-493 | the handler, run alone, performs the protocol's whole challenge step |
| OrderServer.Server.Finalize | core/acmeserver/orders.go:284-392 | the handler, run alone, has the effect FinalizedAlone describes |
| OrderServer.FinalizedAloneIsItsSteps | core/acmeserver/orders.go:284-411 | and that is the five protocol steps taken one after another |
| Accounts.AccountsUnique | core/store/inmemory_acme.go:86-181 | over any sequence of store calls, key rollover included, there is at most one account per credential, one per template and key, and one credential per key identifier |
| Accounts.AccountLife | core/acmeserver/accounts.go:205-256 | with atomic handlers, in every reachable state a revoked credential has no valid account, and nothing brings back a deactivated account or takes back a revocation |
| Accounts.RegisteredExactly | core/acmeserver/accounts.go:41-122 | an account comes into being exactly by a new-account request with an accepted binding to an unrevoked, unused credential of its own template and a key nobody has there; it is what was asked for, valid, and nothing else changes |
| Accounts.PostAccountExactly | core/acmeserver/accounts.go:205-256 | what a post to an account does, for every state and payload: "deactivated" deactivates a valid account, an empty status updates contacts, and anything else leaves everything as it was |
| Accounts.DeactivationLasts | core/acmeserver/accounts.go:205-256 | in every reachable state a client's deactivation ends that account and no other, and at every later point it is deactivated |
| Accounts.RevocationLasts | core/store/inmemory_acme.go:66-84 | in every reachable state a revocation ends the credential and its account, and at every later point no account of it is valid |
| Accounts.RolledOverExactly | core/acmeserver/key_change.go:21-125 | a key is rolled over exactly to one nobody has under the template, the account itself included |
| Accounts.StaleUpdateRevives | core/store/inmemory_acme.go:153-165 | an account update read before a revocation and written after it brings the account back |
| Accounts.RevivedExactly | core/store/inmemory_acme.go:153-165 | over any store calls in any order, a revoked credential never has a valid account if and only if no update writes valid over an account whose credential is revoked |
| Accounts.ReactivatedExactly | core/store/inmemory_acme.go:153-165 | over any store calls in any order, an account deactivated at one point is deactivated at every later one if and only if no update writes valid over a deactivated account, its credential revoked or not |
| Accounts.AccountStore.RevokeACMEEABCredential | core/store/inmemory_acme.go:66-84 | stopping at the first valid account found deactivates every account of the credential |
| Accounts.AccountStore.CreateACMEAccount | core/store/inmemory_acme.go:86-113 | refused exactly for an unknown or revoked credential or a clash, else the account is stored valid; uniqueness is kept |
| Accounts.AccountStore.UpdateACMEAccountKey | core/store/inmemory_acme.go:167-181 | refused exactly when the account is unknown or the key is another account's of its template; uniqueness is kept |
| Accounts.AccountStore.GetACMEAccountByThumbprint | core/store/inmemory_acme.go:131-140 | finds the one account there is, whatever the map order |
| Accounts.CleanContacts | core/acmeserver/accounts.go:261-273 | at most ten non-empty mailto addresses of at most 255 characters are kept as given; anything else refuses the list |
| Identifiers.IsDNSName | core/acmeserver/orders.go:550-568 | accepts exactly host names of at most 253 characters whose labels are well formed and whose last is not all digits, under at most one wildcard label |
| Identifiers.HostNameExactly | core/acmeserver/orders.go:550-568 | told by its labels: at most 253 characters without a wildcard label, each label of 1 to 63 small letters, digits and inner hyphens, and the last not of digits alone |
| Identifiers.LabelsBetweenDots | core/acmeserver/orders.go:550-568 | the labels joined by dots are the name, and none holds a dot |
| Identifiers.SpellingsClean | core/acmeserver/orders.go:150-173 | however a host name is spelled, in any case, with or without a dot at its end, blanks around it, it is cleaned to that name |
| Identifiers.CertNameExactly | core/acmeserver/renewal.go:69-85 | a certificate's name counts as a given one exactly when they differ in case, and in one dot at the end, at most |
| Identifiers.AddressIsNoHostName | core/acmeserver/orders.go:550-568 | a string of digits and dots, so any IPv4 address, is never a host name |
| Identifiers.CleanIdentifiers | core/acmeserver/orders.go:150-173 | succeeds exactly for 1 to 100 dns identifiers that are host names once cleaned, and then lists each cleaned name once |
| Identifiers.CsrMatchesOrder | core/acmeserver/orders.go:416-440 | a CSR matches exactly when it names nothing but DNS names and those, with its common name, are the ordered set |
| Identifiers.CsrNamesExactly | core/acmeserver/orders.go:416-440 | a CSR's names are its DNS names and, when it has one, its common name, in lower case |
| Identifiers.SameNames | core/acmeserver/renewal.go:69-85 | a certificate has the wanted names exactly when its common name and SANs, blanks aside, are that set |
| Renewals.RenewalsAreCounted | core/acmeserver/renewal.go:90-156 | in every reachable state a record's renewal count plus one is the number of valid orders naming it, all of its owner's account |
| Renewals.HoldsLastIssued | core/acmeserver/renewal.go:90-156 | over every run, a record holds the names, key type, serial and expiry of the certificate last issued to it |
| Renewals.WritesOverExactly | core/acmeserver/orders.go:453-516 | over every run, a finalize writes over what its order replaces, if that is live and still the certificate meant; else over a live record of its own account for the same names and key type, none of which expires later; and makes a new record exactly when there is neither |
| Renewals.NeverReplacedAgain | core/acmeserver/ari.go:149-190 | over every run, once an order that replaces a certificate has been issued, no later order that replaces it is accepted |
| Renewals.AcceptedExactly | core/acmeserver/ari.go:149-190 | over every run, a new order is accepted exactly under an unused identifier and, where it is to replace a certificate, when a record of its own account holds that certificate now, they share a name, and no order that replaces it has been issued |
| Renewals.NoTwoLiveRecords | core/acmeserver/renewal.go:32-66 | with no order carrying replaces and the CA issuing what was ordered, no two live records share account, names and key type |
| Renewals.TwinsAppearWhenNotClear | core/acmeserver/orders.go:453-516 | over every run at all: it stays free of two such records if and only if, at each issuance, searching for the names and key type issued finds nothing but the record being written over |
| Renewals.ReplacesMakesTwo | core/acmeserver/ari.go:149-190 | an accepted order for one record's names that replaces another record makes such a pair |
| Renewals.Renews | core/acmeserver/renewal.go:32-66 | the search returns a matching live record that none expires after, or none exactly when nothing matches, whatever the order of the listing |
| Renewals.SearchPicks | core/acmeserver/renewal.go:32-66 | what the search ranges over is exactly the account's candidates |
| Renewals.Inventory.Issue | core/acmeserver/orders.go:453-516 | the replaced record first, then the search, then a new record: a step the protocol allows |
| RenewalLead.LeadIsTheRuleExactly | core/store/renewal_lead.go:33-43 | for 1 to 35583 days and every known life, Go's wrapped arithmetic gives the unbounded rule exactly when the life is at most half the int64 range, or a third of it happens to be the configured lead |
| RenewalLead.LeadRangeIsExact | core/store/renewal_lead.go:34-40 | the tripled lead fits 64 bits exactly up to 35583 days |
| RenewalLead.LeadBound | core/store/renewal_lead.go:33-43 | the lead is at most two thirds of the life, kept exactly when configured within that, and renewal is never due in the first third |
| RenewalLead.UnknownLifeKeepsLead | core/store/renewal_lead.go:33-43 | with no beginning recorded, or one not before the end, the window opens the configured number of days before the end and takes a third of them |
| RenewalLead.RevokedIsDueNow | core/acmeserver/ari.go:128-131 | the window of a revoked certificate is the hour that ended an hour ago |
| RenewalLead.WindowIsUsable | core/acmeserver/ari.go:129-140 | at whole seconds the window of an unrevoked certificate of at least nine seconds is non-empty, opens the lead before the expiry and after the first third, and takes a third of the lead (RFC 9773 section 4.2) |
| RenewalLead.WindowIsUsableExactly | core/acmeserver/ari.go:129-140 | for every lead of 1 to 35583 days and every life up to half the int64 range, the printed window is non-empty whenever the certificate began if and only if the life is at least nine seconds |
| Gateways.ConnectionOwnership | core/pluginmgr/manager.go:91-184 | over any interleaving of registrations, dials, swaps, health results and Close, the open connections are exactly those in the registry and those held between dial and swap, each in one place, and none is closed twice |
| Gateways.NothingLeaked | core/pluginmgr/manager.go:438-449 | when no call is between dial and swap only registered connections are open, and Close leaves none at that moment |
| Gateways.ServingStays | core/pluginmgr/manager.go:157-184 | over any interleaving, a registered connection whose last health check went well stays registered and open until Close |
| Gateways.SwapExactly | core/pluginmgr/manager.go:157-184 | over any interleaving, a dial that comes back to a name served so is closed and the other kept; otherwise it takes the name and what held it is closed; nothing else is touched |
| Gateways.RegistrationServes | core/pluginmgr/manager.go:91-184 | over any interleaving, registering a name that is served dials nothing; any other is dialled, a failed dial leaves no trace, and one that nothing comes between ends up serving the name |
| Gateways.SurvivesCloseExactly | core/pluginmgr/manager.go:157-184 | once all calls have returned, a connection is open after the last Close if and only if some registration won its swap after it |
| Gateways.Manager.BeginRegister | core/pluginmgr/manager.go:91-100 | returns the live gateway when there is one, else lets go of the lock to dial |
| Gateways.Manager.SwapIn | core/pluginmgr/manager.go:157-184 | the first caller in wins and the loser closes its own; a dead entry is closed and replaced; one connection per name |
| Gateways.Manager.HealthResult | core/pluginmgr/manager.go:351-365 | a health check changes one flag, owns nothing |
| Gateways.Manager.Close | core/pluginmgr/manager.go:438-449 | closes each registered connection once and empties the registry |
| Migrations.LoadedExactly | core/store/migrate.go:47-79 | the migrations are exactly the .sql files, each with its text, its checksum and as version what stands before the first underscore; and of any two the earlier has a name that ends first, or has the smaller character, where they first differ |
| Migrations.ListingOrderIrrelevant | core/store/migrate.go:75-78 | whatever order the directory was listed in |
| Migrations.Database.Migrate | core/store/migrate.go:104-198 | a run stopped after any number of statements leaves what Attempt describes; a finished one reports exactly the files it applied and those that drifted |
| Migrations.CrashRestart | core/store/migrate.go:160-195 | with distinct pending versions and idempotent files, any number of runs stopped anywhere and then one that completes leave the schema and the record of applying the pending files once each in name order |
| Migrations.LandsTwice | core/store/migrate.go:160-195 | whether files are idempotent or not, a run stopped with a file landed and not recorded, and the one that completes it, leave the schema of applying each pending file once but that one twice |
| Migrations.RecordedWasApplied | core/store/migrate.go:160-195 | at every point a run can be stopped, a recorded version was applied |
| Migrations.EverythingLandsExactly | core/store/migrate.go:85-90 | every pending file has landed once a run completes, wherever earlier runs were stopped, if and only if no two pending files share a version |
| LoginThrottle.LoginStore.AuthenticatePassword | core/store/inmemory_sessions.go:39-86 | the outcome and the new lockout state for every account state and instant |
| LoginThrottle.SignedInExactly | core/store/inmemory_sessions.go:51-85 | signing in takes a known, active account, this very password and no lockout that still runs; of the reasons against it the first is given |
| LoginThrottle.OnlyCheckedCounts | core/store/inmemory_sessions.go:51-85 | only a password that was looked at leaves a trace: a wrong one counts one more, the right one clears the count and the lockout |
| LoginThrottle.LockedOutAfterEight | core/store/inmemory_sessions.go:74-81 | once eight guesses have been checked, in whatever order and state, nothing gets in for fifteen minutes, the right password included |
| LoginThrottle.ResetRestoresAllowance | core/store/inmemory_sessions.go:83-100 | a sign-in or a new password gives the account its whole allowance again |
| LoginThrottle.GuessRateBound | core/store/inmemory_sessions.go:51-85 | from any state, with no success or reset and a clock that does not go back, a span T sees at most MaxFailedLogins + floor(T / LockoutWindow) checked wrong passwords for one account |
| LoginThrottle.BoundAttained | core/store/inmemory_sessions.go:74-81 | and that many are reached, for every number of windows |

## Left out

- Broker.Broker.Publish: requires a sequence number below 2^64 - 1; the wrap of the counter after that is not modelled.
- Broker.Broker.Replay: identifiers start again with the process and do not say which one they came from; StreamAccounts.AccountedExactly says when a resume point is beyond the log, but one from an earlier process that lies within it is taken at its word, as it is in the code.
- StreamAccounts.NoSilentGap: exact about its two exceptions, by SkippedExactly and UnreadStoreStreamsOn: an event with no JSON form is never written, and a failed store read puts an error message where the snapshot would be.
- StreamAccounts.NoSilentGap: the handler and the channel are values stepped over every interleaving, not objects, because the steps of two goroutines alternate; snapshot contents, heartbeats' bytes and the encoding of snapshot and resync messages are not modelled.
- Nonces.SingleUse: claims are per nonce string; lenient base64 lets one nonce have several spellings, and the hash is taken as collision-free.
- AuditChain.Commitment: the MAC is collision-free on the tag inputs of the two lists, across the keys in use; AuditChain.VerifyAuditChainOver leaves the int64 overflow of the expected number out.
- Orders.AtMostOneIssuanceAtOnce: challenge requests are single steps there; AtMostOneIssuanceUnlessStale and SecondIssuanceExactly are the statements without that. Each request reads a clock of its own, and which account owns an order is not modelled.
- Accounts.AccountLife: each handler is one step, as are Renewals' handlers; uniqueness and RevivedExactly need no such thing. The binding's signature is an accepted or refused flag.
- Renewals.RenewalsAreCounted: writes succeed; PostgreSQL's limit of 1000 orders in the search's listing is not modelled, and a serial stands for the RFC 9773 identifier.
- OrderServer.Server.Finalize: the checks after the claim, the signer and the recording are oracles with arbitrary answers.
- Identifiers.IsDNSName: Unicode lower-casing is modelled as far as host names can tell; letters whose lower case is outside ASCII are refused with or without it.
- Migrations.Database.Migrate: applying a file is any function of schema and text; what SQL does, and transactions inside a file, are not modelled.
- Gateways.ConnectionOwnership: GatewayFor and ConnectAll are further callers of registration; the pause before redialling, known endpoints and capabilities own nothing and are not modelled.
- LoginThrottle.GuessRateBound: states the in-memory store, which holds one lock from check to update; the PostgreSQL check and update are two statements and are not modelled.
- SQL text and locking: the PostgreSQL store enters only as conditional atomic steps.
- JWS, JWK, X.509, HMAC, SHA-256 and Argon2, and the HTTP-01, DNS-01 and TLS-ALPN-01 checks: parameters or nondeterministic outcomes.
- The nil broker that discards everything, the WithBufferSize and WithHistorySize options, and subscriber counts: one-line behaviour with nothing to relate.
- HTTP plumbing, JSON binding, audit texts, API CRUD, configuration, metrics, OIDC, scanners, queues and the frontend: they would add easy members, and no theorem above rests on them.
