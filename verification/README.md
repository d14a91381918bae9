# RusMES: a verified model of its mail, session and authentication core

RusMES is a mail server. This project models six of its cores in Dafny and proves what they keep over
whole runs. Text is modelled as decoded characters and bytes as numbers below 256. What the code reads
from elsewhere (clocks, random bytes, the mail store, matchers, mailets, hash functions, the file system)
is a parameter of each step. A theorem is about all answers unless it says what it asks of them. The
conservation of recipients, for one, is about matchers that answer with recipients of the mail and
mailets that keep them. A matcher is a function of the mail, and a mailet of the mail and the number of
the call within one invocation. Both may be other functions in each pass of a route.

Where the code changes an object step by step, the model is a class. Its methods are proved against step
functions on values, which give the whole new state. The theorems are about all runs of those steps.

- **Mailbox notification** (`MailboxRegistry.dfy`, `ImapSession.dfy`, `SessionRuns.dfy`,
  `SessionDelivery.dfy`, `EventLines.dfy`, `SessionReplies.dfy`). Each mailbox has a broadcast channel that
  keeps its newest 256 events. The registry refines one unbounded queue per receiver. On top of it, a
  session's selection, IDLE loop and drains are followed through all interleavings with other sessions, up
  to what a client reads from the lines of a whole selection. Each reply is tied to what the command did.
- **Addressing** (`MailboxPattern.dfy`, `SequenceSet.dfy`, `SequenceRfc.dfy`, `Expunge.dfy`,
  `UidExpunge.dfy`, `ExpungeTranscript.dfy`, `MessageData.dfy`). The wildcard matcher, the sequence sets and
  UID sets, which messages EXPUNGE removes, its numbering and what clients make of it, and the split of a
  message into headers and body.
- **Throttling** (`Timestamps.dfy`, `AuthRateLimiter.dfy`, `AuthSecurity.dfy`, `LoginGate.dfy`,
  `LockoutRuns.dfy`, `MessageRateLimiter.dfy`). A sliding log, a lockout machine with doubling durations,
  and fixed windows. Their theorems count events in arbitrary intervals of arbitrary timed runs.
- **Mail pipeline** (`Pipeline.dfy`, `Journeys.dfy`, `Matchers.dfy`, `Router.dfy`). A pass is what its
  service calls make of the mail. When recipients are conserved through forks, passes and whole routes, and
  which matchers see to it. Termination of routing is tied to what the Error processor does.
- **SCRAM-SHA-256** (`SaslMessages.dfy`, `Scram.dfy`). Parsers, the three-message exchange, safety over
  all runs of steps and resets, and completeness for the honest client.
- **Password file** (`Base64.dfy`, `PasswordFile.dfy`, `FileAuth.dfy`). Printer and parser undo each other
  exactly on well-formed entries, and a restart restores the last committed state.

`Text.dfy` holds the string functions of the Rust library that these cores use, `Basics.dfy` what several
modules share, and `Wrappers.dfy` the option and result types. `dafny verify dfyconfig.toml` checks everything.

## Where code and documentation differ

The model follows the code. The exact conditions under which the promise is met are stated in the table.

- EXPUNGE numbers are the positions in the snapshot and are not lowered for the removals announced
  before them. A client of another session, or one that looks at the reply alone, ends up with the
  survivors only if at most one message was expunged (`Expunge.ReplayAsEmitted`). The session that issued
  the command is a receiver of its own events, so its connection carries every number twice. A
  client for which a number out of range is an error can follow them only if nothing was expunged
  (`ExpungeTranscript.IssuerReplayIff`). A client that ignores such numbers is sometimes right
  (`ExpungeTranscript.LenientReplayOfOne`, `ExpungeTranscript.LastTwoAreFollowed`).
- A reversed range such as `5:3` denotes nothing, while section 9 of RFC 3501 denotes three UIDs. In
  message numbers a star in first place is read as 1 (`SequenceRfc.MemberMeetsRfcIff`).
- `session.rs` says that the receiver is cleared on LOGOUT. `handle_logout` only sets the state.
- An IDLE loop that ends with an error drops the receiver, and the session goes back to Selected without
  one. It hears nothing until the next IDLE or SELECT (`SessionRuns.FailedIdleLosesTheReceiver`).
- A SASL continuation does not look at the session's state. If a caller keeps an exchange open across
  other commands, finishing it replaces the user name, or revives a session that has logged out. The
  server loop of this version never hands out such an exchange.
- SCRAM sets the state `FinalData` before it validates the user name. A name longer than 128 bytes
  therefore succeeds in the next step without a name (`Scram.ClientAcceptedIffKeyMatches`).
- RFC 5802 puts the proof last in the client-final message and lets it sign all before it. The parser takes
  fields from behind the proof too, so the binding and nonce it checks may be unsigned
  (`SaslMessages.CheckedFieldsAreSignedIff`).
- A recipient may be given twice, and the union matcher lists each address once. The fork then serves one
  copy and loses the other (`Matchers.UnionLosesACopy`).
- The documentation of the lockouts promises doubling. In 64 bits the duration wraps, and from the 65th
  lockout on it is zero (`LockoutRuns.EmptyLockoutIsReached`).
- `file.rs` says that the hash field is kept intact so that unknown data survives. A password change
  re-prints the credentials it can read and drops every other column (`FileAuth.OtherColumnsSurviveIff`).
- A user name may contain a colon, or start with a number sign or a blank. After a restart such a user
  is lost or renamed, or the whole file is unreadable (`PasswordFile.LoadUndoesSaveIff`).
- The depth limit of the router does not end a loop whose Error processor moves mail on
  (`Router.RouteEndsIff`).
- The limit of 0 messages per window lets the first message of each window pass
  (`MessageRateLimiter.ZeroLimitAdmitsFirstMessages`).

Additions and subtractions on 64-bit and 32-bit integers wrap, as they do in a build without overflow
checks, wherever the throttling code can overflow.

## Model

| member | source | states |
|---|---|---|
| `Registry.MailboxRegistry.constructor` | crates/rusmes-imap/src/mailbox_registry.rs:46-58 | a new registry has no channels |
| `Registry.MailboxRegistry.Subscribe` | crates/rusmes-imap/src/mailbox_registry.rs:65-77 | the new receiver starts at the end of the mailbox's channel, which is created for a first subscriber; nothing else changes |
| `Registry.MailboxRegistry.Publish` | crates/rusmes-imap/src/mailbox_registry.rs:82-87 | the event goes to the mailbox's channel if it has a receiver; the channel keeps its newest 256 events |
| `Registry.MailboxRegistry.TryReceive` | crates/rusmes-imap/src/session.rs:93-111 | one poll of a bounded broadcast channel: empty, closed, the next event, or a jump to the oldest retained one |
| `Registry.MailboxRegistry.DropReceiver` | crates/rusmes-imap/src/handler_message.rs:488 | exactly the dropped receiver is gone |
| `Registry.MailboxRegistry.CleanupClosed` | crates/rusmes-imap/src/mailbox_registry.rs:92-95 | exactly the channels without receivers are removed |
| `Registry.SweepRemovesUnheard` | crates/rusmes-imap/src/mailbox_registry.rs:92-95 | a sweep removes exactly the mailboxes that no receiver hears, and touches nothing else |
| `Registry.UnheardEventIsDropped` | crates/rusmes-imap/src/mailbox_registry.rs:82-87 | an event for a mailbox that no receiver hears leaves no trace |
| `Registry.StepRefines` | crates/rusmes-imap/src/mailbox_registry.rs:65-95 | every single step refines the reference of one unbounded queue per receiver, with the same output |
| `Registry.RunRefines` | crates/rusmes-imap/src/mailbox_registry.rs:65-95 | every interleaving of subscriptions, publications, polls, drains, drops and sweeps behaves like the unbounded queues |
| `Registry.ClosedIsUnreachable` | crates/rusmes-imap/src/session.rs:107-110 | in no run does a poll or drain see a closed channel; every live receiver's channel is registered |
| `Registry.SubscribingAndDrainingCatchUp` | crates/rusmes-imap/src/session.rs:88-114 | after subscribing, and after a drain, nothing is left to read |
| `Registry.DrainDeliversNewest` | crates/rusmes-imap/src/session.rs:88-114 | a drain returns, in publication order, exactly the newest min(pending, 256) events published to the mailbox since the receiver was last caught up |
| `Registry.DrainsAreExactlyThePublications` | crates/rusmes-imap/src/session.rs:88-114 | if at most 256 events are published before each drain since the one before, the drains and what still waits are the publications since subscription, each once and in order |
| `MailboxPattern.MatchMailboxPattern` | crates/rusmes-imap/src/handler_mailbox.rs:472-534 | the backtracking matcher terminates and is true exactly when the name splits into one piece per pattern character (section 6.3.8 of RFC 3501) |
| `MailboxPattern.MatchAfterWildcard` | crates/rusmes-imap/src/handler_mailbox.rs:480-522 | the search for the length of a wildcard's piece succeeds exactly when some length works |
| `MailboxPattern.MatchesAppend` | crates/rusmes-imap/src/handler_mailbox.rs:472-534 | matching distributes over pattern concatenation, in both directions |
| `MailboxPattern.EquivalentInContext` | crates/rusmes-imap/src/handler_mailbox.rs:472-534 | a pattern may be replaced by an equivalent one anywhere inside a pattern |
| `MailboxPattern.WildcardsAbsorb` | crates/rusmes-imap/src/handler_mailbox.rs:476-522 | `**`, `*%` and `%*` mean `*`, and `%%` means `%`, in every context |
| `MailboxPattern.LiteralPattern` | crates/rusmes-imap/src/handler_mailbox.rs:524-531 | a pattern without wildcards matches exactly itself |
| `MailboxPattern.SingleCharacters` | crates/rusmes-imap/src/handler_mailbox.rs:476-531 | `*` matches everything, `%` what has no slash, and any other character itself; with MatchesAppend this determines every pattern |
| `MailboxPattern.FilterSubscriptions` | crates/rusmes-imap/src/handler_mailbox.rs:155-170 | the three-way test of LSUB keeps exactly the subscriptions the pattern matches, in order |
| `MailboxPattern.SelectedAppend` | crates/rusmes-imap/src/handler_mailbox.rs:155-170 | the kept subscriptions are a filter: each is looked at by itself and the order stays |
| `SequenceSet.ParseSequenceNumbers` | crates/rusmes-imap/src/handler_message.rs:940-979 | the result is strictly increasing and is exactly the union of what the parts denote |
| `SequenceSet.OrderAndRepetitionDoNotMatter` | crates/rusmes-imap/src/handler_message.rs:940-979 | two sets with the same parts, in any order and multiplicity, give the same list |
| `SequenceSet.BlanksDoNotMatter` | crates/rusmes-imap/src/handler_message.rs:944-945 | blanks around the members of a set do not matter |
| `SequenceSet.SelectedNumbersAreInRange` | crates/rusmes-imap/src/handler_message.rs:946-976 | all numbers are at most the mailbox size, and zero occurs exactly when some range starts at an explicit zero |
| `SequenceSet.FetchTargets` | crates/rusmes-imap/src/handler_message.rs:32-46 | FETCH answers for exactly the selected numbers that name a message whose content the store still has |
| `SequenceRfc.ParsedSet` | crates/rusmes-imap/src/handler_message.rs:940-979 | what the parser selects for grammatical text, member by member |
| `SequenceRfc.MalformedParts` | crates/rusmes-imap/src/handler_message.rs:946-976 | outside the grammar nothing is rejected: an unreadable first end counts as 1, an unreadable second end as the mailbox size; two colons, or no number, select nothing |
| `SequenceRfc.MemberMeetsRfcIff` | crates/rusmes-imap/src/handler_message.rs:946-976 | one member selects what section 9 of RFC 3501 denotes, clipped to the mailbox, exactly when it is a single number, or an ascending range or one beyond the mailbox, or runs to the star from inside it, or starts with the star in a mailbox of at most one message |
| `SequenceRfc.SetMeetsRfcIff` | crates/rusmes-imap/src/handler_message.rs:940-979 | a whole set does so exactly when each number that one member loses (in a reversed or overshooting range, or above the second end of a range from the star) is counted through by some member, and each number that one gains (below such an end) lies between the ends of some member |
| `SequenceSet.ParseUidSequenceSet` | crates/rusmes-imap/src/handler_message.rs:1199-1249 | succeeds exactly when every part is readable, and then is the union of the upward ranges |
| `SequenceRfc.ParsedUidSet` | crates/rusmes-imap/src/handler_message.rs:1199-1249 | what the UID parser selects for grammatical text, member by member: it counts up from the first end to the second, and the star is the highest UID in either place |
| `SequenceRfc.UidPartReadableIff` | crates/rusmes-imap/src/handler_message.rs:1215-1245 | a part is readable exactly when it is a star or a 32-bit number, or two of these around the only colon |
| `SequenceSet.OnlyReversedRangesAreLost` | crates/rusmes-imap/src/handler_message.rs:1230-1240 | nothing extra is selected, and a UID that RFC 3501 selects is missing exactly when some range denotes it and every range that does is reversed |
| `SequenceSet.SetMeetsRfcIffReversedRangesAreCovered` | crates/rusmes-imap/src/handler_message.rs:1199-1249 | a whole set has its RFC meaning if and only if its ascending ranges cover its reversed ones |
| `SequenceSet.AscendingSetsMeetTheRfc` | crates/rusmes-imap/src/handler_message.rs:1199-1249 | on ascending ranges the set is the one of section 9 of RFC 3501 |
| `SequenceSet.RangeMeetsRfcIffAscending` | crates/rusmes-imap/src/handler_message.rs:1230-1240 | one range has its RFC meaning if and only if its ends ascend |
| `SequenceSet.ReversedRangeSelectsNothing` | crates/rusmes-imap/src/handler_message.rs:1230-1240 | `5:3` selects nothing although the RFC denotes three UIDs |
| `Expunge.Collect` | crates/rusmes-imap/src/handler_message.rs:422-436 | the loop collects the ids and the 1-based snapshot positions of the chosen messages |
| `Expunge.HandleExpunge` | crates/rusmes-imap/src/handler_message.rs:410-457 | on a selected mailbox: the reply, the deletion and the broadcast all follow the snapshot positions; a refused deletion broadcasts nothing |
| `Expunge.HandleUidExpunge` | crates/rusmes-imap/src/handler_message.rs:875-929 | the same, for deleted messages whose UID the set selects; an unreadable set changes nothing |
| `Expunge.NumbersAreSnapshotPositions` | crates/rusmes-imap/src/handler_message.rs:429-436 | the emitted numbers increase strictly and are exactly the positions of the chosen messages |
| `Expunge.ExpungedExactly` | crates/rusmes-imap/src/handler_message.rs:429-436 | the emitted numbers, the ids given to the store and the messages that stay, in terms of flag and UID: without UIDs the flag alone decides |
| `Expunge.StoreKeepsSurvivors` | crates/rusmes-imap/src/handler_message.rs:438-441 | with distinct ids the store keeps exactly the messages not chosen, in order |
| `UidExpunge.UidExpungeIsExact` | crates/rusmes-imap/src/handler_message.rs:890-908 | UID EXPUNGE announces and deletes exactly the messages that are marked and whose UID some part of the set counts up to; the others stay |
| `UidExpunge.OnlyListedMessagesGo` | crates/rusmes-imap/src/handler_message.rs:890-908 | the same for grammatical text, in terms of its numbers and stars |
| `UidExpunge.UnlistedMessageStays` | crates/rusmes-imap/src/handler_message.rs:890-908 | `UID EXPUNGE 1` with two marked messages leaves the second |
| `Expunge.ReplayHighestFirst` | crates/rusmes-imap/src/handler_message.rs:429-448 | one copy of the numbers (the reply alone, or another session): replayed highest first under section 7.4.1 of RFC 3501, the numbers turn the snapshot into the survivors |
| `Expunge.ReplayRenumbered` | crates/rusmes-imap/src/handler_message.rs:429-448 | one copy does so in order, with the i-th number lowered by i, and each lowered number is then valid |
| `Expunge.ReplayAsEmitted` | crates/rusmes-imap/src/handler_message.rs:429-448 | one copy replayed as emitted does so if and only if at most one message was expunged |
| `Expunge.WatchersSeeEveryExpunge` | crates/rusmes-imap/src/handler_message.rs:442-447 | a caught-up watcher of the mailbox drains exactly the emitted events, up to 256 of them |
| `ExpungeTranscript.ServeExpunge` | crates/rusmes-imap/src/server.rs:170-188 | what the connection that issues EXPUNGE carries, in each session state: the drained events, its own among them, and then the reply |
| `ExpungeTranscript.ServeUidExpunge` | crates/rusmes-imap/src/server.rs:170-188 | the same for UID EXPUNGE; an unreadable set ends the connection |
| `ExpungeTranscript.ServeClose` | crates/rusmes-imap/src/handler_message.rs:462-492 | CLOSE deletes exactly the marked messages, publishes nothing, and is refused without a selected mailbox |
| `ExpungeTranscript.RefusedDeletionTellsNobody` | crates/rusmes-imap/src/handler_message.rs:438-447 | the connection ends exactly when the store refuses a deletion, and then nothing has changed and nobody was told; the command is refused exactly without a selected mailbox |
| `ExpungeTranscript.UnreadableSetEndsConnection` | crates/rusmes-imap/src/handler_message.rs:892-893 | in a selected mailbox an unreadable set ends the connection and changes nothing; any other set is expunged |
| `ExpungeTranscript.IssuerHearsItself` | crates/rusmes-imap/src/handler_message.rs:442-447 | over all legal runs: the issuing connection carries the newest 256 events since its last drain, which end with its own, and then the reply that repeats them |
| `ExpungeTranscript.IssuerSeesEveryNumberTwice` | crates/rusmes-imap/src/handler_message.rs:442-457 | with nothing else to hear, the issuing connection is sent each of up to 256 numbers twice |
| `ExpungeTranscript.IssuerReplayIff` | crates/rusmes-imap/src/handler_message.rs:442-457 | its client can follow that transcript to the survivors if and only if nothing was expunged |
| `ExpungeTranscript.LenientReplayOfOne` | crates/rusmes-imap/src/handler_message.rs:442-457 | a client that ignores numbers out of range gets a single removal right exactly when it was the last message |
| `ExpungeTranscript.LastTwoAreFollowed` | crates/rusmes-imap/src/handler_message.rs:442-457 | such a client can also get two removals right: the last two of three messages |
| `ExpungeTranscript.KeptMessageIsLost` | crates/rusmes-imap/src/handler_message.rs:442-457 | two messages of which the first is expunged: the second copy of the number removes the one that was kept |
| `MessageData.ParseMessageData` | crates/rusmes-imap/src/handler_message.rs:1073-1116 | the loop over lines and the substring search give the headers and body fixed by the first blank line |
| `MessageData.LocateFirstEmptyLine` | crates/rusmes-imap/src/handler_message.rs:1082-1100 | where the line loop stops, in terms of the blank-line search, for every text |
| `MessageData.LoopMeetsParsed` | crates/rusmes-imap/src/handler_message.rs:1082-1116 | the stop position determines the headers and body returned |
| `MessageData.LinesMakeUpText` | crates/rusmes-imap/src/handler_message.rs:1082 | the lines joined by line ends are the text, and none contains one |
| `MessageData.HeaderOfLine` | crates/rusmes-imap/src/handler_message.rs:1092-1098 | a header is the name before the first colon and the value after it, each trimmed; a line without a colon is none |
| `MessageData.BodyIsIntendedIff` | crates/rusmes-imap/src/handler_message.rs:1102-1116 | the body is the text after the first empty line exactly when the text does not start with one (unless that is all) and, without one, ends with CRLF |
| `AuthRateLimiter.RateLimiter.CheckRateLimit` | crates/rusmes-auth/src/security.rs:589-611 | prunes the address's log and admits if the rest leaves room; other addresses are untouched |
| `AuthRateLimiter.RateLimiter.ResetLimit` | crates/rusmes-auth/src/security.rs:614-617 | forgets exactly that address |
| `AuthRateLimiter.AdmitsIffFewerThanMaximum` | crates/rusmes-auth/src/security.rs:589-611 | a request at `now` is admitted if and only if fewer than the maximum were admitted in (now - window, now] since the last reset |
| `AuthRateLimiter.NoWindowExceedsMaximum` | crates/rusmes-auth/src/security.rs:589-611 | no half-open interval of one window holds more than the maximum of admissions |
| `AuthRateLimiter.WindowLongerThanClockNeverFills` | crates/rusmes-auth/src/security.rs:592-593 | without the clock hypothesis the subtraction wraps, and in no run is a request refused unless the maximum is 0 |
| `AuthSecurity.BruteForceProtector.IsUserLocked` | crates/rusmes-auth/src/security.rs:288-298 | true exactly before the stored unlock time |
| `AuthSecurity.BruteForceProtector.IsIpLocked` | crates/rusmes-auth/src/security.rs:301-311 | the same for addresses |
| `AuthSecurity.BruteForceProtector.GetUnlockTime` | crates/rusmes-auth/src/security.rs:447-460 | the remaining time, and only while locked |
| `AuthSecurity.BruteForceProtector.RecordFailedAttempt` | crates/rusmes-auth/src/security.rs:314-355 | logs the failure for the user and the address and locks whichever has reached the maximum |
| `AuthSecurity.BruteForceProtector.LockUser` | crates/rusmes-auth/src/security.rs:358-386 | raises the lockout count, sets the duration, clears the attempts |
| `AuthSecurity.BruteForceProtector.LockIp` | crates/rusmes-auth/src/security.rs:389-414 | the same for addresses |
| `AuthSecurity.BruteForceProtector.ClearUserAttempts` | crates/rusmes-auth/src/security.rs:417-420 | clears the attempts and keeps the lockout |
| `AuthSecurity.BruteForceProtector.ClearIpAttempts` | crates/rusmes-auth/src/security.rs:423-426 | the same for addresses |
| `AuthSecurity.BruteForceProtector.UnlockUser` | crates/rusmes-auth/src/security.rs:429-435 | clears attempts and lockout |
| `AuthSecurity.BruteForceProtector.UnlockIp` | crates/rusmes-auth/src/security.rs:438-444 | the same for addresses |
| `AuthSecurity.AuthSecurity.CheckAuthAttempt` | crates/rusmes-auth/src/security.rs:664-718 | the verdict of rate limit, address lock and user lock, in that order; only the request log changes |
| `LoginGate.RateLimitedIff` | crates/rusmes-auth/src/security.rs:664-682 | over all timed runs: a check is refused for its number exactly when as many checks as the maximum were admitted from its address in the window that ends now |
| `LoginGate.OtherVerdictsIff` | crates/rusmes-auth/src/security.rs:684-718 | otherwise it is refused exactly for a lock of its address, then for one of its user with the time left of it |
| `AuthSecurity.AuthSecurity.RecordAuthSuccess` | crates/rusmes-auth/src/security.rs:721-734 | clears the attempts of user and address |
| `AuthSecurity.AuthSecurity.RecordAuthFailure` | crates/rusmes-auth/src/security.rs:737-747 | records the failure for user and address |
| `AuthSecurity.LockoutAccounting` | crates/rusmes-auth/src/security.rs:314-386 | between admin unlocks, lockouts times the maximum plus pending attempts never exceed the recorded failures; the pending list stays below the maximum; each lockout lasts what its number says |
| `AuthSecurity.DurationIsPromisedIff` | crates/rusmes-auth/src/security.rs:367-372 | the k-th lockout lasts base * 2^(k-1) seconds if and only if that fits 64 bits |
| `AuthSecurity.LateLockoutsAreEmpty` | crates/rusmes-auth/src/security.rs:367-372 | from the 65th progressive lockout on, the wrapped duration is zero and nothing is locked |
| `AuthSecurity.UnlockTimeWraps` | crates/rusmes-auth/src/security.rs:288-298 | when a lockout ends, also if that lies beyond 64 bits |
| `AuthSecurity.LockoutCountWraps` | crates/rusmes-auth/src/security.rs:358-372 | after 2^32 - 1 lockouts the next one counts as none |
| `LockoutRuns.EmptyLockoutIsReached` | crates/rusmes-auth/src/security.rs:314-386 | such a lockout is reached: 65 times the maximum of failures, recorded at one time without checks between them, end with a user who is not locked then or later |
| `AuthSecurity.CutHistory` | crates/rusmes-auth/src/security.rs:314-386 | in every gated run the failures split at the last lockout into an old part and one a full window later, which is what the log holds |
| `AuthSecurity.AtMostMaximumFailuresPerWindow` | crates/rusmes-auth/src/security.rs:664-747 | with a lockout at least as long as the window, no half-open window of any gated run holds more than the maximum of admitted failures of a user |
| `LockoutRuns.AtMostMaximumFailuresPerAddress` | crates/rusmes-auth/src/security.rs:664-747 | the same bound for the failures from one address, whoever the users are |
| `AuthSecurity.ShortLockoutBreaksTheBound` | crates/rusmes-auth/src/security.rs:358-386 | with a shorter lockout, for all other settings, some gated run puts one failure more than the maximum into a window |
| `AuthSecurity.BoundHoldsIffLockoutCoversWindow` | crates/rusmes-auth/src/security.rs:314-386 | so the bound holds of all runs exactly when the lockout covers the window |
| `MessageRateLimiter.RateLimiter.AllowMessageKeyed` | crates/rusmes-core/src/rate_limit.rs:286-314 | opens, fills or refuses the bucket of the key's string |
| `MessageRateLimiter.KeysCollideIff` | crates/rusmes-core/src/rate_limit.rs:31-37 | two different keys have one string exactly when both are pairs and one is the other with a piece of the sender moved to the address |
| `MessageRateLimiter.KeyStringsAreDistinct` | crates/rusmes-core/src/rate_limit.rs:31-37 | the string is injective on keys whose combined addresses have no colon |
| `MessageRateLimiter.Ipv6AddressesCollide` | crates/rusmes-core/src/rate_limit.rs:31-37 | two IPv6 addresses and senders that share one string |
| `MessageRateLimiter.CutIntoWindows` | crates/rusmes-core/src/rate_limit.rs:286-314 | the admissions of a key, cut into its current window, the one before, and older ones |
| `MessageRateLimiter.FewerThanTwiceTheMaximum` | crates/rusmes-core/src/rate_limit.rs:286-314 | the most messages of a key that an interval of one window length can hold, which is less than twice the maximum (a maximum of 0 acts as 1) |
| `MessageRateLimiter.BoundIsTight` | crates/rusmes-core/src/rate_limit.rs:286-314 | that bound is met for every configuration and key |
| `MessageRateLimiter.WindowOpens` | crates/rusmes-core/src/rate_limit.rs:297-311 | whatever the limit, the first message of a window passes |
| `MessageRateLimiter.ZeroLimitAdmitsFirstMessages` | crates/rusmes-core/src/rate_limit.rs:297-311 | with a limit of 0 exactly the messages that open a window pass |
| `MessageRateLimiter.ClockSetBackKeepsWindow` | crates/rusmes-core/src/rate_limit.rs:109-113 | a wall clock that is set back keeps the window open |
| `MessageRateLimiter.RefusedOnlyWhenOffersExceedMaximum` | crates/rusmes-core/src/rate_limit.rs:303-305 | a refusal means that more than the maximum were offered under the key in the interval that ends there |
| `MessageRateLimiter.DecisionsAreIsolated` | crates/rusmes-core/src/rate_limit.rs:286-314 | deleting the messages of other keys changes no decision, if no other key shares the string |
| `MessageRateLimiter.ColonFreeKeysAreIsolated` | crates/rusmes-core/src/rate_limit.rs:31-37 | that is so whenever combined addresses have no colon |
| `MessageRateLimiter.CollidingKeysInterfere` | crates/rusmes-core/src/rate_limit.rs:31-37 | any two keys that do collide can refuse each other's messages |
| `Pipeline.InvokeWithPolicy` | crates/rusmes-core/src/processor.rs:44-101 | the loop computes skip, abort or bounded retry |
| `Pipeline.RetryStopsAtFirstSuccess` | crates/rusmes-core/src/processor.rs:70-98 | retry ends at the first success and fails exactly when the first call and all repetitions fail |
| `Journeys.InvocationIsItsCalls` | crates/rusmes-core/src/processor.rs:44-101 | every policy in terms of the service calls: when it reports a success and with which mail, when it skips, and when it gives up |
| `Pipeline.Process` | crates/rusmes-core/src/processor.rs:177-278 | the loop over steps is the fold of single turns: fork, service, early exit on a changed state |
| `Journeys.PassIsJourney` | crates/rusmes-core/src/processor.rs:177-278 | a pass finishes with a mail, forked mails and visits exactly when there is a journey from step to step, told by the service calls, that ends so |
| `Journeys.PassFailsIff` | crates/rusmes-core/src/processor.rs:185-257 | a pass fails exactly when the step it has reached fails, or the mail goes on and fails later |
| `Journeys.ChangedStateEndsPass` | crates/rusmes-core/src/processor.rs:262-270 | a mailet that succeeds for everybody and leaves another state ends the pass: exactly that mail is returned and no later step is visited |
| `Journeys.OtherwiseNextStepGetsMail` | crates/rusmes-core/src/processor.rs:236-270 | if it leaves the processor's state, or failed and was skipped, the next step gets the mail |
| `Journeys.UnmatchedMailPassesBy` | crates/rusmes-core/src/processor.rs:189-196 | a step whose matcher answers with nobody calls nothing |
| `Journeys.SecondMailetIsNotCalled` | crates/rusmes-core/src/processor.rs:262-270 | of two mailets for everybody the second is not called once the first has changed the state |
| `Pipeline.ForkPartitionsIff` | crates/rusmes-proto/src/mail.rs:297-312 | if a matcher answers with recipients, a fork never duplicates one, and it cuts the recipients into two parts that make up the whole exactly when every matched address is matched with all its copies |
| `Pipeline.UnmatchedAppend` | crates/rusmes-proto/src/mail.rs:297-312 | the unmatched half keeps the order of the recipients |
| `Pipeline.RecipientsArePartitionedIff` | crates/rusmes-core/src/processor.rs:177-278 | for matchers that answer with recipients of the mail and mailets that keep recipients: a pass duplicates nobody and forks off no empty mail, and nobody is lost exactly when none of its forks tears the copies of an address apart |
| `Pipeline.NonEmptyStaysNonEmpty` | crates/rusmes-core/src/processor.rs:177-278 | without such a fork a mail with recipients keeps some |
| `Pipeline.RecipientsArePartitioned` | crates/rusmes-core/src/processor.rs:177-278 | so the recipients are the disjoint union of those returned and those forked off for every mail without repeated recipients, and for every mail if the matchers match whole groups |
| `Matchers.MatchMail` | crates/rusmes-core/src/matchers/composite.rs:22-115 | the matchers with their loops compute the recursive matching that the next rows are about |
| `Matchers.MatchMeans` | crates/rusmes-core/src/matchers/composite.rs:22-115 | an address is matched exactly when the combination means it: all parts of an intersection of at least one, some part of a union, not the part of a complement |
| `Matchers.MatchSelects` | crates/rusmes-core/src/matchers/composite.rs:22-115 | everyone, nobody, tests of recipients, intersections, unions and complements, nested in any way, answer with recipients of the mail, none more often than the mail has it |
| `Matchers.MatchFilters` | crates/rusmes-core/src/matchers/composite.rs:22-115 | all of them but a union give each address with all its copies or not at all |
| `Matchers.UnionIsWholeIff` | crates/rusmes-core/src/matchers/composite.rs:64-79 | a union matches whole groups exactly when the mail has none of the matched addresses twice |
| `Matchers.ServerMatchersQualify` | crates/rusmes-core/src/matcher.rs:7-40 | steps with these matchers meet the hypotheses of the conservation results |
| `Matchers.UnionLosesACopy` | crates/rusmes-core/src/matchers/composite.rs:64-79 | a mail to one address twice and a union of everyone: one copy is serviced, the other is lost, and a mail to nobody goes on |
| `Pipeline.ReturnedRecipientsAreServedAlike` | crates/rusmes-core/src/processor.rs:203-257 | all returned recipients were serviced by the same mailets in the same order |
| `Pipeline.ReturnedActionsAreIgnored` | crates/rusmes-core/src/processor.rs:219-262 | replacing every returned action changes nothing: only the state steers |
| `Router.Route` | crates/rusmes-core/src/router.rs:37-101 | the routing loop, for as many rounds as it is given; the processors may answer differently in each |
| `Router.PassesAreChained` | crates/rusmes-core/src/router.rs:37-101 | each pass gets the mail that the one before left; from the hundred and first change of state on, and not earlier, it gets it in the state Error |
| `Router.RouteEndsWithin102Passes` | crates/rusmes-core/src/router.rs:37-49 | if the Error processor settles in the first round beyond the limit, every route ends within 102 passes, whatever the others do |
| `Router.LimitStopsEverythingIff` | crates/rusmes-core/src/router.rs:41-49 | that hypothesis is exact: the limit stops every mail that reaches it if and only if it holds |
| `Router.ForcedRouteEndsIff` | crates/rusmes-core/src/router.rs:41-49 | beyond the limit a route ends within a number of passes exactly when one of that many iterates of the forced Error pass settles |
| `Router.RouteEndsIff` | crates/rusmes-core/src/router.rs:37-101 | for each mail: its route ends exactly when it ends within 101 rounds or some iterate of the forced Error pass settles on what is left |
| `Router.DeliveredIffLastPassEndsWell` | crates/rusmes-core/src/router.rs:70-92 | the result is success exactly when the last pass ends in Ghost, or in the non-Error state it started with; and which of the three failures it is |
| `Router.PingPongNeverEnds` | crates/rusmes-core/src/router.rs:41-49 | without that hypothesis the depth limit does not end the loop: a concrete router runs forever |
| `Router.RouteConservesRecipientsIff` | crates/rusmes-core/src/router.rs:37-101 | over a whole route, with such matchers and mailets in every round: nobody is duplicated, and the recipients are the disjoint union of the last mail's and of everything forked off exactly when no fork on the way tears copies apart; a mail with recipients then keeps some |
| `Router.RouteConservesRecipients` | crates/rusmes-core/src/router.rs:37-101 | so they are on every route of a mail without repeated recipients, and of every mail if all matchers match whole groups |
| `Router.TrailFollowsRoute` | crates/rusmes-core/src/router.rs:37-101 | the recorded trail ends with the mail the routing loop has |
| `SaslMessages.ParseClientFirst` | crates/rusmes-auth/src/sasl.rs:464-484 | the loop over fields takes the last name and the last nonce |
| `SaslMessages.ParseClientFinal` | crates/rusmes-auth/src/sasl.rs:486-517 | the loop and the search from the right give all four parts |
| `SaslMessages.ClientFinalIsConsistent` | crates/rusmes-auth/src/sasl.rs:486-517 | on success the message is the part without proof, `,p=`, the proof, then nothing or a comma and more, without another proof |
| `SaslMessages.FieldsOfClientFinal` | crates/rusmes-auth/src/sasl.rs:486-517 | the fields of an accepted message are those of the signed part, the proof, and those after it |
| `SaslMessages.CheckedFieldsAreSignedIff` | crates/rusmes-auth/src/sasl.rs:486-517 | the channel binding and nonce that are checked are those of the signed part exactly when no field after the proof replaces them |
| `SaslMessages.UnsignedFieldsAreAccepted` | crates/rusmes-auth/src/sasl.rs:486-517 | a message whose proof signs neither: both follow it |
| `SaslMessages.ClientFirstRoundTrip` | crates/rusmes-auth/src/sasl.rs:464-484 | the parser inverts the printer on comma-free fields |
| `SaslMessages.ClientFinalRoundTrip` | crates/rusmes-auth/src/sasl.rs:486-517 | the parser inverts the printer on comma-free fields |
| `SaslMessages.PlainIsThreePieces` | crates/rusmes-auth/src/sasl.rs:105-124 | a PLAIN response is accepted exactly when it is three NUL-free pieces joined by NULs whose last two decode |
| `Scram.XorAllTwice` | crates/rusmes-auth/src/sasl.rs:559-562 | masking twice with one signature restores the key |
| `Scram.XorAllIsBitwise` | crates/rusmes-auth/src/sasl.rs:561-565 | each bit of the unmasked key is the exclusive or of two bits |
| `Scram.HexIsInjective` | crates/rusmes-auth/src/sasl.rs:447-462 | different random bytes print as different nonces |
| `Scram.VerifyClientProof` | crates/rusmes-auth/src/sasl.rs:548-569 | true exactly for a proof of digest length that unmasks a preimage of the stored key; bad Base64 is an error |
| `Scram.ServerFirstIsRead` | crates/rusmes-auth/src/sasl.rs:621-626 | a client that splits the message at its commas reads the nonce, the salt and the iteration count, in this order |
| `Scram.TextsOfTheExchange` | crates/rusmes-auth/src/sasl.rs:682-693 | the messages and the signed text, written out as section 3 of RFC 5802 has them |
| `Scram.ScramSha256Mechanism.constructor` | crates/rusmes-auth/src/sasl.rs:435-445 | a fresh exchange |
| `Scram.ScramSha256Mechanism.Reset` | crates/rusmes-auth/src/sasl.rs:736-744 | back to the fresh exchange, with nothing kept |
| `Scram.ScramSha256Mechanism.Step` | crates/rusmes-auth/src/sasl.rs:596-734 | the whole new state and the reply of one step, in each of the five states |
| `Scram.ScramSha256Mechanism.AcceptClientFirst` | crates/rusmes-auth/src/sasl.rs:598-633 | the first message: what is remembered and what is sent; errors change nothing |
| `Scram.ScramSha256Mechanism.AcceptClientFinal` | crates/rusmes-auth/src/sasl.rs:634-665 | the second message: binding and nonce checks |
| `Scram.ScramSha256Mechanism.AcceptProof` | crates/rusmes-auth/src/sasl.rs:667-717 | the proof check, and that the state moves on before the user name is validated |
| `Scram.RunsAreAccounted` | crates/rusmes-auth/src/sasl.rs:596-744 | over all sequences of steps and resets, each state is backed by the messages that led to it |
| `Scram.SuccessNeedsProof` | crates/rusmes-auth/src/sasl.rs:718-725 | every success reply follows, since the last reset, a client-first for that user and a client-final with `biws`, the issued nonce and a proof that opens the stored key |
| `Scram.OnlyResetReopens` | crates/rusmes-auth/src/sasl.rs:726-732 | after success or failure every step rejects until a reset |
| `Scram.ChallengeAllowsOneAnswer` | crates/rusmes-auth/src/sasl.rs:631-725 | a wrong answer to the challenge is rejected and ends the exchange; only an unreadable message or a failing store leaves it open |
| `Scram.ClientAcceptedIffKeyMatches` | crates/rusmes-auth/src/sasl.rs:596-725 | for every user name: an honest client passes exactly when its key hashes to the stored key; it is then named and given the server signature, or, with an empty or over-long name, gets an error and then a success for nobody |
| `Base64.DecodeOfEncode` | crates/rusmes-auth/src/sasl.rs:549-551 | decoding inverts encoding (section 4 of RFC 4648) |
| `Base64.EncodeOfDecode` | crates/rusmes-auth/src/sasl.rs:549-551 | what decodes is the canonical encoding of its value |
| `Base64.AlphabetIsTable1` | crates/rusmes-auth/src/sasl.rs:549-551 | the symbols are those of table 1 of RFC 4648 |
| `Base64.GroupIsOneNumber` | crates/rusmes-auth/src/sasl.rs:549-551 | three bytes and their four sextets are one number, the first highest |
| `Base64.EncodingIsByGroups` | crates/rusmes-auth/src/sasl.rs:549-551 | the groups are encoded in order, and a short last one is padded |
| `PasswordFile.LoadUsers` | crates/rusmes-auth/src/file.rs:259-303 | the loop over lines builds the map that the line-by-line reading defines, with the line of the first error |
| `PasswordFile.PaddedLines` | crates/rusmes-auth/src/file.rs:262-268 | blanks around an entry do not matter; blank lines and comments are ignored |
| `PasswordFile.LineIsMalformedIff` | crates/rusmes-auth/src/file.rs:268-299 | what else is an entry, and which error it is if not |
| `PasswordFile.KnownHashes` | crates/rusmes-auth/src/file.rs:93-100 | the six prefixes of a password hash |
| `PasswordFile.LoadAppend` | crates/rusmes-auth/src/file.rs:259-303 | a file is read line after line, and the lines of errors are counted through |
| `PasswordFile.LastEntryWins` | crates/rusmes-auth/src/file.rs:299 | a later entry of a name replaces an earlier one |
| `PasswordFile.SaveUsers` | crates/rusmes-auth/src/file.rs:309-317 | the loop writes one line per user in increasing order of names |
| `PasswordFile.FileOfOne` | crates/rusmes-auth/src/file.rs:313-316 | the file of a single user |
| `PasswordFile.SortNames` | crates/rusmes-auth/src/file.rs:311-312 | the listing of the names is the increasing one |
| `PasswordFile.LessMeans` | crates/rusmes-auth/src/file.rs:311-312 | the order is the lexicographic one |
| `PasswordFile.ListingIsUnique` | crates/rusmes-auth/src/file.rs:311-312 | there is only one, so the file contents depend on the map alone |
| `PasswordFile.LoadUndoesSaveIff` | crates/rusmes-auth/src/file.rs:241-317 | reading back gives the same map if and only if every entry is well-formed |
| `PasswordFile.LoadedEntriesAreWellFormed` | crates/rusmes-auth/src/file.rs:259-303 | every map that was loaded is well-formed |
| `PasswordFile.ColonNameBreaksTheFile` | crates/rusmes-auth/src/file.rs:268-277 | a name with a colon makes the saved file unreadable, whoever else is in it, unless the rest looks like a hash |
| `PasswordFile.ColonNameIsReported` | crates/rusmes-auth/src/file.rs:268-303 | for a single such user, the error |
| `PasswordFile.CommentedNamesAreDropped` | crates/rusmes-auth/src/file.rs:262-264 | users whose names start with a number sign are gone after a restart, and nobody else is |
| `PasswordFile.ScramUndoesWithScramIff` | crates/rusmes-auth/src/file.rs:126-177 | stored credentials are read back exactly when the keys have 32 bytes and the salt is not empty, and the password hash stays |
| `FileAuth.FileAuthBackend.constructor` | crates/rusmes-auth/src/file.rs:224-228 | a backend with the given map and file |
| `FileAuth.FileAuthBackend.Open` | crates/rusmes-auth/src/file.rs:217-257 | a backend whose map is what the file loads to, an empty one for a missing file, or the error of a file that does not load |
| `FileAuth.FileAuthBackend.Save` | crates/rusmes-auth/src/file.rs:309-337 | the file is replaced whole or not at all |
| `FileAuth.FileAuthBackend.CreateUser` | crates/rusmes-auth/src/file.rs:464-478 | the new map and file, or the error; a failed write leaves the map changed |
| `FileAuth.FileAuthBackend.DeleteUser` | crates/rusmes-auth/src/file.rs:480-489 | the same for deletion |
| `FileAuth.FileAuthBackend.ChangeUserPassword` | crates/rusmes-auth/src/file.rs:491-514 | the same for a password change, which re-prints readable credentials |
| `FileAuth.FileAuthBackend.SetScramCredentials` | crates/rusmes-auth/src/file.rs:399-415 | the same for enrolment, which keeps the password hash |
| `FileAuth.CreateSucceedsIff` | crates/rusmes-auth/src/file.rs:464-478 | a user is created exactly if the name is new, the password could be hashed and the file was written; an existing user is refused and no entry changes; the map gains exactly the new name |
| `FileAuth.DeleteSucceedsIff` | crates/rusmes-auth/src/file.rs:480-489 | a user is deleted exactly if there is one and the file was written; exactly its entry goes |
| `FileAuth.ChangeSucceedsIff` | crates/rusmes-auth/src/file.rs:491-514 | when a password is changed, and that nobody comes, goes or has another entry changed |
| `FileAuth.EnrolSucceedsIff` | crates/rusmes-auth/src/file.rs:399-415 | likewise for enrolment |
| `FileAuth.OthersAreLeftAlone` | crates/rusmes-auth/src/file.rs:399-514 | over any run, the entry of a user whom no operation names stays as it was |
| `FileAuth.CreatingNeverReplaces` | crates/rusmes-auth/src/file.rs:464-478 | over any run of creations an existing entry stays |
| `FileAuth.OperationKeepsEntries` | crates/rusmes-auth/src/file.rs:464-514 | safe operations keep every entry well-formed |
| `FileAuth.OperationCommits` | crates/rusmes-auth/src/file.rs:309-337 | an operation writes its whole result or leaves the file alone; every error but a failed write leaves the map alone |
| `FileAuth.RestartRestoresCommitted` | crates/rusmes-auth/src/file.rs:241-337 | after any run of safe operations, with any writes failing, the file loads to the map as of the last success |
| `FileAuth.RestartIsTransparent` | crates/rusmes-auth/src/file.rs:241-337 | if no write fails, a restart after any run changes nothing |
| `FileAuth.LoadedStoresAreWellFormed` | crates/rusmes-auth/src/file.rs:217-229 | a freshly loaded store meets the hypotheses of both |
| `FileAuth.EnrollingKeepsPassword` | crates/rusmes-auth/src/file.rs:399-415 | enrolling sets the credentials and changes nothing else |
| `FileAuth.PasswordChangeKeepsScram` | crates/rusmes-auth/src/file.rs:491-514 | a password change sets the hash, keeps the credentials, and changes nobody else |
| `FileAuth.OtherColumnsSurviveIff` | crates/rusmes-auth/src/file.rs:491-514 | what follows the password hash survives a password change exactly when it is nothing, or readable credentials and nothing else in the printed form |
| `FileAuth.ExtraColumnIsLost` | crates/rusmes-auth/src/file.rs:491-514 | one extra column is lost |
| `FileAuth.NoteIsLost` | crates/rusmes-auth/src/file.rs:113-114 | a concrete field whose extra column is lost |
| `FileAuth.SixthColumnLosesCredentials` | crates/rusmes-auth/src/file.rs:136-163 | a column after the credentials makes them unreadable, and a password change drops both |
| `FileAuth.DeleteUndoesCreate` | crates/rusmes-auth/src/file.rs:464-489 | deleting a user just created restores the map |
| `Session.ImapSession.constructor` | crates/rusmes-imap/src/session.rs:53-63 | a new session |
| `Session.ImapSession.HandleLogin` | crates/rusmes-imap/src/handler_auth.rs:9-46 | the whole new session and reply, on each outcome |
| `Text.NamesByCharacters` | crates/rusmes-proto/src/address.rs:252-260 | a user name has 1 to 128 bytes in UTF-8: as many characters in ASCII, and always with up to 32 |
| `Session.ImapSession.HandleLogout` | crates/rusmes-imap/src/handler_auth.rs:48-54 | only the state changes |
| `Session.ImapSession.HandleAuthenticate` | crates/rusmes-imap/src/authenticate.rs:97-196 | the first exchange, refused unless unauthenticated |
| `Session.ImapSession.HandleAuthenticateContinue` | crates/rusmes-imap/src/authenticate.rs:206-237 | a further exchange, which does not test the state |
| `Session.ImapSession.HandleAuthenticateStep` | crates/rusmes-imap/src/authenticate.rs:240-300 | what each answer of the mechanism does to the session |
| `Session.ImapSession.HandleSelect` | crates/rusmes-imap/src/handler_mailbox.rs:12-80 | subscribes to the new mailbox, then drops the old receiver; failures change nothing |
| `Session.ImapSession.HandleClose` | crates/rusmes-imap/src/handler_message.rs:462-492 | deselects and drops the receiver, unless the expunge fails |
| `Session.ImapSession.HandleIdle` | crates/rusmes-imap/src/handler_mailbox.rs:387-408 | enters Idle on the selected mailbox with a snapshot |
| `Session.ImapSession.BeginIdle` | crates/rusmes-imap/src/server.rs:273-278 | takes the receiver, or subscribes if there is none |
| `Session.ImapSession.IdlePoll` | crates/rusmes-imap/src/server.rs:304-337 | one event becomes one line |
| `Session.ImapSession.EndIdle` | crates/rusmes-imap/src/server.rs:217-227 | back to Selected, with the receiver unless the loop failed |
| `Session.ImapSession.DrainMailboxEvents` | crates/rusmes-imap/src/session.rs:88-114 | the loop sends the lines of exactly what a drain yields, skipping over lags |
| `EventLines.EventIsRead` | crates/rusmes-imap/src/session.rs:118-130 | a client that reads the line has the event back: its kind, its number, both UIDs and the flags, if these are not empty and have no blanks |
| `EventLines.EventsAreRead` | crates/rusmes-imap/src/session.rs:88-130 | the lines of some events read back as these events, in order |
| `SessionReplies.RepliesTellOutcomes` | crates/rusmes-imap/src/handler_auth.rs:9-46 | for LOGIN, AUTHENTICATE, SELECT, CLOSE and IDLE: OK, a request for more, BAD, and a broken connection are answered in exactly these states and outcomes |
| `SessionReplies.RefusalsChangeNothing` | crates/rusmes-imap/src/handler_mailbox.rs:12-80 | a command that is not answered with OK changes neither session nor registry, except that IDLE enters the Idle state |
| `SessionReplies.GrantedCommandsAct` | crates/rusmes-imap/src/handler_auth.rs:34-38 | what a command that is answered with OK makes of the session |
| `SessionReplies.ReasonsOfRefusal` | crates/rusmes-imap/src/handler_auth.rs:17-46 | which refusal is given for which reason |
| `SessionReplies.PendingIffAskedForMore` | crates/rusmes-imap/src/authenticate.rs:240-300 | a SASL exchange stays open exactly when the client is asked for more |
| `SessionRuns.WorldFollows` | crates/rusmes-imap/src/session.rs:88-114 | every act of the session does to session and registry what it does to session and queues |
| `SessionRuns.DrainEventsFollow` | crates/rusmes-imap/src/session.rs:88-114 | a drain keeps the receiver and sends the newest 256 pending events |
| `SessionRuns.RunIsKept` | crates/rusmes-imap/src/server.rs:100-230 | the invariant of all runs interleaved with other sessions |
| `SessionRuns.SubscriptionFollowsSelection` | crates/rusmes-imap/src/handler_mailbox.rs:56-62 | while a mailbox is selected or idle the session's receiver is subscribed to that mailbox; it has none exactly when a failed IDLE loop lost it |
| `SessionRuns.FailedIdleLosesTheReceiver` | crates/rusmes-imap/src/server.rs:217-227 | that loss happens: a legal run that ends with the mailbox selected and no receiver |
| `SessionRuns.LoggedInUserWasAccepted` | crates/rusmes-imap/src/handler_auth.rs:34-38 | a session past authentication has a user name that some act of the run was accepted with |
| `SessionRuns.OnlyLateContinuationsReopen` | crates/rusmes-imap/src/authenticate.rs:240-280 | a name changes, or a logged-out session revives, exactly by a SASL continuation that succeeds on a session no longer unauthenticated |
| `SessionRuns.NamesAndLogoutAreFinal` | crates/rusmes-imap/src/authenticate.rs:206-280 | in runs without such continuations the name is set once and logout is final |
| `SessionRuns.LateContinuationTakesOver` | crates/rusmes-imap/src/authenticate.rs:206-280 | for any two names there is a run with one that takes over a logged-out session |
| `SessionRuns.DrainsSendWhatWasPublished` | crates/rusmes-imap/src/session.rs:88-114 | between two drains other sessions may do anything: the second sends the lines of exactly the newest 256 events published to the selected mailbox |
| `SessionDelivery.SelectionSendsThePublications` | crates/rusmes-imap/src/session.rs:88-114 | over one whole selection with its drains and IDLE loops, the lines sent are the formatted publications to the mailbox, each once and in order, up to those that still wait, if at most 256 wait at each read |
| `SessionDelivery.SelectionDelivers` | crates/rusmes-imap/src/server.rs:275-360 | what was sent and what waits is what was published, at every point of the selection |
| `EventLines.SelectionIsRead` | crates/rusmes-imap/src/session.rs:88-130 | a client that reads the lines of one whole selection has the events published to the mailbox, each once and in order, up to those that still wait |

## Left out

- Router.Route: stops after a given number of rounds, because the loop of the source need not terminate; the theorems hold for every number of rounds.
- Pipeline.InvokeWithPolicy: does not model the 32-bit retry counter, which overflows only when the configured maximum is the largest 32-bit number, nor the pauses between calls.
- Pipeline.RecipientsArePartitionedIff: says nothing about mailets that rewrite the recipients.
- Matchers.MatchMail: leaves out matchers that fail, which fail the pass at any depth of nesting, and what each test looks at.
- SequenceSet.ParseSequenceNumbers: counts messages with unbounded numbers; the source's 64-bit counts cannot overflow here.
- Expunge.Collect: does not model the cast of positions to 32 bits, which matters beyond 2^32 messages.
- AuthSecurity.AuthSecurity.CheckAuthAttempt: reads the clock once, while the source reads it again for each of its checks, and does not write the audit log.
- AuthSecurity.BruteForceProtector.RecordFailedAttempt: merges the recording of the failure and the lockout into one step with one clock reading, while the source locks in a second locked section that reads the clock again.
- AuthSecurity.AuthSecurity.RecordAuthSuccess: does not write the audit log.
- AuthSecurity.AuthSecurity.RecordAuthFailure: does not write the audit log.
- AuthSecurity.BoundHoldsIffLockoutCoversWindow: assumes window plus three lockouts to fit 64 bits, so that the run of the converse does not overflow the clock.
- SaslMessages.PlainIsThreePieces: takes UTF-8 decoding as a parameter.
- Scram.ClientAcceptedIffKeyMatches: is about user names without commas, as RFC 5802 requires of the encoded name; the server does not decode the escapes.
- Scram.VerifyClientProof: takes SHA-256 and HMAC as arbitrary functions; only the completeness result uses their 32-byte results.
- Session.ImapSession.EndIdle: does not model the closed-channel exit of the IDLE loop, which is unreachable by Registry.ClosedIsUnreachable, nor the lines sent after polling the store.
- Session.ImapSession.IdlePoll: does not model the lines that are sent after a lag or a timer from polling the store.
- Session.ImapSession.HandleClose: takes the outcome of the implicit expunge; which messages it deletes is stated by ExpungeTranscript.ServeClose.
- Expunge.HandleExpunge: is the part of the handler after the mailbox is known to be selected; ExpungeTranscript.ServeExpunge has the whole.
- Expunge.HandleUidExpunge: likewise, with ExpungeTranscript.ServeUidExpunge.
- Session.ImapSession.HandleSelect: does not model the counters in the reply, and takes the store's lookup as one outcome.
- Steps are atomic, and each stands for one or more locked sections of the source; lock poisoning and cancellation are not modelled.
- The connection counter of the message rate limiter and its snapshot to disk: counters and JSON plumbing.
- The audit log, password strength and entropy: a bounded list, table checks and floating point.
- CRAM-MD5, LOGIN and XOAUTH2 mechanisms: placeholder checks in the source.
- STORE, COPY, MOVE and SEARCH, and the numbering of UID FETCH: simplified in the source, or formatting.
- Bcrypt, argon2 and PBKDF2: a password's hash is given, with the prefix facts the file format relies on.
- Storage backends, SMTP, ACME, configuration and the command line: plumbing around these cores.
