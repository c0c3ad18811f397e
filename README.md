# Live polling session — a Dafny model

This project models the live-session controller of a classroom polling
server (`server.js`, a Node.js/socket.io program). The controller keeps:

- a registry of connected students, with two maps: `connectedStudents`
  (name to socket id) and `studentSockets` (socket id to name);
- at most one active poll (`currentPoll`), with the raw answer strings
  (`pollResponses`) and a one-shot expiry timer (`pollTimer`).

The model covers every socket handler that changes this state, and every
handler that reads it except `get-participatns`, plus the tally the
handlers compute:

- `student-join`, `disconnect`, `remove-participant`;
- `create-poll` and its timer callback;
- `submit-answer`, `get-poll-results`, `chat`;
- `calculatePollResults` and its two inline copies;
- `endPoll`.

Modules:

- `Wrappers`: `Option`. JavaScript's `undefined`, `null` and the `NaN` of a
  failed `parseInt` all become `None`.
- `JsStrings`: the pieces of JavaScript string semantics the controller
  relies on.
  - The ECMAScript whitespace set that `trim` and `parseInt` skip.
  - `parseInt` in radix 10: skip leading whitespace, one optional sign,
    the longest run of digits.
  - `Number.prototype.toString` for non-negative integers.
  - Lemmas relating the last two: `parseInt(String(n)) === n`, and the
    strings `parseInt` accepts that are not the decimal form of any index.
- `Tallies`: the per-option counts. `answer === index.toString()` is read
  as a set of students, and the lemmas give bounds on the sum of the counts.
- `Roster`: the key order of a JavaScript `Map`, which
  `Array.from(connectedStudents.keys())` exposes in `student-list-update`.
- `Polls`: the poll record, the time-limit clamp, the option filter and
  answer validation.
- `LiveSession`: the class `Session`.
  - It has six fields. Five are the globals of `server.js:28-32`, with the
    timer modelled as whether a timeout is pending. The sixth, `order`, is
    the key order of `connectedStudents`, which `Array.from(keys())`
    exposes.
  - There is one method per handler. Each runs as one atomic step, as
    handlers do on Node's single thread.
  - A handler returns the events it emits instead of sending them. Each
    event is addressed to one connection (`socket.emit`) or to all
    (`io.emit`).
  - The clock (`Date.now()`) and the set of sockets still open
    (`io.sockets.sockets`) are parameters.
  - `Valid()` is the invariant every handler keeps:
    - every registered connection's name maps back to that connection;
    - names are non-empty;
    - the roster order lists exactly the registered names, once each;
    - a timer is pending exactly while a poll exists;
    - no answers are stored without a poll;
    - every stored answer parses to an option index.
  - `Inverse(names, conns)` is the stronger state where the two maps are
    exact inverses.
    Every handler keeps it except one: a join from a socket already
    registered under a different name. That join leaves the old name
    pointing at the socket, and `Join`'s contract says so.
- `Scenarios`: verified traces. `QuorumCloses`, `EmptyRoomTimesOut`,
  `NameTakenThenReclaimed`, `OutOfRangeAnswer` and `AnsweredThenLeft` start
  from a fresh server. The other members are the steps and the facts about
  concrete tallies and strings that those traces use.

In these places the code behaves in ways a reader might not expect. The
model follows the code:

- A requested time limit below 10 seconds (say 5) is raised to 10 seconds.
  Only a missing limit or 0 means 60.
- The "at least two options" test runs on the raw options, before blank
  options are filtered out. A poll can therefore be stored with fewer than
  two options (`Polls.BlankOptionSurvivesCheck`).
- An option counts only answers that equal its index's decimal form.
  `parseInt` also accepts "01", " 1", "1abc" and "-0". These are recorded
  but counted by no option, so the counts can sum to less than
  `totalResponses` (`Tallies.TallyBounded`, `Polls.AcceptedButUncounted`).
- Stored answers survive the disconnection or removal of their authors.
  `totalResponses` can therefore exceed `totalStudents`
  (`Scenarios.AnsweredThenLeft`). The quorum test `size === size` then
  does not fire until enough new students join to match the stored
  answers again.

## Model

| member | source | states |
|---|---|---|
| JsStrings.IsWhitespace | server.js:141 | the ECMAScript WhiteSpace and LineTerminator code points that `trim` removes (a definition; no contract) |
| JsStrings.Blank | server.js:141 | a string made only of those code points (a definition; no contract) |
| JsStrings.ParseInt | server.js:208 | `parseInt` in radix 10: skip whitespace, one optional sign, the longest digit run, None for NaN (a definition; its NaN case is stated by `JsStrings.ParseIntNaN`) |
| JsStrings.ParseIntNaN | server.js:208-210 | `parseInt` gives NaN exactly when no digit follows the leading whitespace and the optional sign |
| JsStrings.TrimStart | server.js:141 | the result is a suffix of the input; everything removed is whitespace; the result is empty or starts with a non-whitespace character |
| JsStrings.BlankIffTrimsToEmpty | server.js:141 | `opt.trim()` is falsy exactly when the option consists only of whitespace |
| JsStrings.TrimStartSkipsBlank | server.js:141 | leading whitespace never changes what `trim` keeps |
| JsStrings.ToDecimal | server.js:227 | `index.toString()` is a non-empty digit string with no leading zero (other than "0" itself) |
| JsStrings.ParseDecimal | server.js:208 | round trip: `parseInt` of the decimal form of n gives n back, for every non-negative n |
| JsStrings.ParseSkipsBlank | server.js:208 | `parseInt` ignores leading whitespace |
| JsStrings.ParseIgnoresTrailing | server.js:208 | `parseInt` of a non-empty digit string followed by anything that does not start with a digit is the digit string's value; with nothing after it, an all-digit string parses to its value |
| JsStrings.ParseLeadingZero | server.js:208 | `parseInt` reads a leading zero as part of the number |
| JsStrings.ParseNegative | server.js:208 | `parseInt` reads a leading minus sign as negation |
| JsStrings.DecimalIffCanonical | server.js:227 | a string is what `i.toString()` prints exactly when it is a non-empty digit string with no leading zero (other than "0") that `parseInt` reads as i |
| JsStrings.DecimalOfValue | server.js:227 | printing the value of such a canonical digit string gives the string back |
| JsStrings.NotDecimal | server.js:227 | a string that parses to v but is not how v prints is the decimal form of no index at all |
| Tallies.TallyOf | server.js:223-233 | the `{results, totalResponses, totalStudents}` object: the per-option counts, `pollResponses.size` and `connectedStudents.size` (a definition; its counts are stated by `Tallies.Counts`, its sums by `Tallies.TallyBounded` and `Tallies.TallyExact`) |
| Tallies.Counts | server.js:303-307 | one count per option, in option order; the count at i is the number of answers equal to i's decimal form |
| Tallies.CountedIffDecimal | server.js:302-306 | an answer is counted by some option below n exactly when it is the `toString` of an index below n |
| Tallies.SumOfCounts | server.js:303-307 | the counts add up to the number of students whose answer is the decimal form of some index below the option count |
| Tallies.TallyBounded | server.js:309-313 | the counts never add up to more than `totalResponses` |
| Tallies.TallyExact | server.js:309-313 | when every stored answer is the decimal form of an option index, the counts add up to `totalResponses` |
| Tallies.RecordingCounts | server.js:218-233 | recording a first answer raises `totalResponses` by one and raises by one exactly the count of the option whose decimal form the answer is |
| Roster.Without | server.js:54 | `Map.delete` removes exactly that key from the key order, keeps the others in order, keeps keys distinct and shortens the order by one when the key was present |
| Roster.AppendNew | server.js:77 | `Map.set` of a new key appends it to the key order and keeps the keys distinct |
| Roster.WithoutAppend | server.js:69 | deleting a key from a concatenated key order deletes it from each part, so the survivors keep their relative order |
| Polls.WellFormed | server.js:122-126 | the shape test of `create-poll`: a non-empty question and at least two raw options (a definition; no contract) |
| Polls.ValidAnswer | server.js:208-213 | the answer test of `submit-answer`: `parseInt(answer)` is a number in [0, optionCount) (a definition; its accepted value is stated by `Polls.AnswerIndex`) |
| Polls.ClampLimit | server.js:136 | the limit lies in [10, 300]; a missing or zero limit means 60; a limit in range is kept; one below 10 becomes 10; one above 300 becomes 300 |
| Polls.KeepNonBlank | server.js:141 | the kept options are exactly the non-blank ones, and there are no more of them than before |
| Polls.KeepNonBlankAppend | server.js:141 | the filter works option by option, so it keeps the survivors' order |
| Polls.KeepOne | server.js:141 | a single option is kept exactly when it is not blank |
| Polls.BlankOptionSurvivesCheck | server.js:122-141 | ["Red", " "] passes the two-option test, and only ["Red"] is stored |
| Polls.StartPoll | server.js:135-145 | the stored poll has the request's question and its non-blank options, is active, was created now, and expires now plus the clamped limit in milliseconds (between 10 s and 300 s later) |
| Polls.AnswerIndex | server.js:208-212 | an accepted answer's `studentAnswer` is its parsed value, an index below the option count |
| Polls.AcceptedButUncounted | server.js:208-227 | an answer that parses to an in-range index but is not that index's decimal form passes validation and is credited by no option |
| Polls.LeadingZeroUncounted | server.js:208-227 | "01" is accepted against two options and credited by no option |
| Polls.LeadingSpaceUncounted | server.js:208-227 | " 1" is accepted against two options and credited by no option |
| Polls.TrailingTextUncounted | server.js:208-227 | "1abc" is accepted against two options and credited by no option |
| Polls.NegativeZeroUncounted | server.js:208-227 | "-0" is accepted against two options and credited by no option |
| LiveSession.ReleaseKeepsRegistry | server.js:54-55 | deleting a name and its socket keeps "every socket's name points back", and keeps the two maps inverse when they were |
| LiveSession.RegisterKeepsRegistry | server.js:77-78 | setting both maps keeps "points back"; the maps stay inverse exactly when the socket had no other name, and otherwise the old name is left pointing at the socket |
| LiveSession.Session.constructor | server.js:28-32 | at start-up nobody is registered, there is no poll, no answer and no timer |
| LiveSession.Session.CalculatePollResults | server.js:299-314 | no tally without a poll; otherwise the per-option counts of the stored answers, the number of answers and the number of registered students; changes nothing |
| LiveSession.Session.EndPoll | server.js:316-329 | with a poll: broadcast its final tally, then clear the poll, the answers and the timer; without one: emit nothing and change nothing |
| LiveSession.Session.TimerFired | server.js:169-174 | a pending timer ends the poll exactly as `endPoll` does; otherwise nothing happens |
| LiveSession.Session.Disconnect | server.js:47-58 | a registered socket loses its name in both maps and the roster order, and everyone gets the new roster; an unregistered socket changes nothing; the poll and answers are untouched |
| LiveSession.Session.Join | server.js:60-101 | a missing or empty name gets "Student name is required"; a name held by another open socket gets "This name is already taken"; otherwise the name maps to the socket (a dead holder is dropped), the roster order is updated as a JS Map would, and the replies follow, with the roster last |
| LiveSession.Session.Admit | server.js:66-100 | the accepting branch of `student-join`: a dead holder is dropped from both maps, the name is re-registered and appended to the roster order, or kept in place if the socket already held it, and the replies follow |
| LiveSession.Session.Release | server.js:54-55 | both map entries go, the name leaves the roster order, and the invariant and inverse pairing are kept |
| LiveSession.Session.Register | server.js:77-78 | both maps are set; a new name goes last in the roster order and a present one keeps its place |
| LiveSession.Session.JoinReplies | server.js:79-100 | the welcome with the current poll and whether this student answered; then, during a poll, `new-poll` and, if the student answered or the poll has run out, the tally without `studentAnswer`; then the roster to everyone; changes nothing |
| LiveSession.Session.CreatePoll | server.js:103-181 | missing data, a poll in progress and a request without a question or with under two raw options get their error messages and change nothing; otherwise the poll from `StartPoll` is stored, the answers are cleared, the timer is armed and the poll is broadcast |
| LiveSession.Session.SubmitAnswer | server.js:183-245 | the five rejections, in source order, with their messages and no change; an accepted answer is stored raw and acknowledged, the submitter gets the tally with its parsed index, and `poll-ended` follows in the same step exactly when the answer count reaches the number of registered students |
| LiveSession.Session.Accept | server.js:218-240 | the accepting branch of `submit-answer`: stores the answer, replies with the acknowledgement and the tally, and ends the poll on quorum; afterwards the same socket cannot be accepted again |
| LiveSession.Session.GetPollResults | server.js:247-270 | no poll or no registration gets "No active poll or not registered"; a student who answered gets the tally with their parsed answer; anyone else gets nothing; changes nothing |
| LiveSession.Session.Chat | server.js:277-280 | one broadcast to everyone carrying the text, the socket id, and the sender's name or "Teacher" |
| LiveSession.Session.RemoveParticipant | server.js:282-296 | a registered name and its socket leave both maps and the roster order; the answers and the poll stay; the requester alone gets the roster, and the removed socket gets `kickedout` if it is still open |
| Scenarios.RedBlueKept | server.js:141 | neither "Red" nor "Blue" is filtered out |
| Scenarios.NoAnswersYet | server.js:299-313 | a two-option tally with no answers is [0, 0] with zero responses |
| Scenarios.OneVoteEach | server.js:299-313 | "A" voting "1" and "B" voting "0" give [1, 1] with two responses |
| Scenarios.OneVoteNoStudents | server.js:299-313 | "A" voting "1" with nobody registered gives [0, 1], one response and zero students |
| Scenarios.RoomWithA | server.js:60-101 | after "A" joins on socket "a" the maps are exactly {A: a} and {a: A} |
| Scenarios.RoomWithAB | server.js:60-101 | after "A" and "B" join the maps are exactly {A: a, B: b} and {a: A, b: B} |
| Scenarios.OpenColorPoll | server.js:103-181 | a well-formed request with no blank option stores exactly those options with the clamped deadline |
| Scenarios.StartColorPoll | server.js:103-181 | creating "Color?" with Red and Blue stores both options with the clamped deadline and no answers |
| Scenarios.FirstOfTwoAnswers | server.js:183-245 | with two students registered, A's first answer is stored and the poll stays open |
| Scenarios.ClosingAnswer | server.js:218-240 | an accepted answer that brings the answer count up to the number of registered students yields exactly the acknowledgement, the tally with its index, and `poll-ended` with the same tally, and the poll is gone |
| Scenarios.SecondOfTwoAnswers | server.js:218-240 | B's answer brings the answers to two of two: the acknowledgement and the tally [1, 1] with `studentAnswer` 0 go to "b", then `poll-ended` with [1, 1] goes to everyone, and the poll is gone |
| Scenarios.QuorumCloses | server.js:237-240 | from a fresh server, two joins, the poll and two answers end the poll at once, without the timer |
| Scenarios.EmptyRoomTimesOut | server.js:136-174 | with nobody registered, a requested limit of 5 s gives a deadline 10 s away; the timer ends the poll with [0, 0], zero responses and zero students; ending it again emits nothing |
| Scenarios.NameTakenThenReclaimed | server.js:66-78 | a name held by an open socket is refused, is taken over once that socket is gone, and the old socket is no longer registered |
| Scenarios.OutOfRangeAnswer | server.js:208-216 | "5" against two options gets "Invalid answer" and records nothing |
| Scenarios.ClosingTwiceEmitsOnce | server.js:316-317 | a second `endPoll` emits nothing |
| Scenarios.Leave | server.js:47-58 | a registered socket's disconnect shrinks the roster by one and keeps the answers |
| Scenarios.BothLeave | server.js:47-58 | when both registered sockets disconnect, nobody is left registered and the answers stay |
| Scenarios.AnsweredThenLeft | server.js:309-313 | after A answers and both students disconnect, the tally reports one response and zero students |

## Left out

- Network, HTTP, CORS, socket.io transport setup, `server.listen` and all
  console logging: these are I/O with no effect on the session state.
- The `connect_success` greeting (server.js:35-45): a fixed message that
  reads and changes no state.
- The `get-participatns` handler (server.js:272-275): it emits a live
  `Map` key iterator object rather than a list, and reads no state beyond
  the names the roster events already carry.
- The `try`/`catch` branches of `create-poll` and `submit-answer` ("Failed
  to create poll", "Failed to submit answer"): they are reached only
  through exceptions from JavaScript values that are not strings or arrays,
  which the typed model cannot build.
- Non-string payloads: a name, an option or an answer that is a number,
  an object or a boolean. The model types them as strings. There are two
  consequences:
  - `!studentName` rejects only a missing or empty name;
  - a numeric `answer` (which `===` on a string would never count) is
    not represented.
- JsStrings.ParseInt: radix 10 only. `parseInt` without a radix reads a
  `0x` or `0X` prefix as hexadecimal, and the model does not. The model
  reads "0x" and "0x5" as 0 and accepts both against a two-option poll.
  JavaScript gives NaN and 5 and rejects both.
- LiveSession.Session.CalculatePollResults: the payload shape is not
  modelled. `calculatePollResults` builds its counts as an index-keyed
  object, `{0: c0, 1: c1}` (server.js:302-306), and this object is what
  `poll-ended` and the join-time `poll-results` carry. The inline copies
  in `submit-answer` and `get-poll-results` build an array with
  `options.map` (server.js:224-229, 257-262). The model uses one
  `seq<nat>` for both, so it does not capture that the two payloads
  differ on the wire: the object has no `length` and no `map`.
- Polls.ClampLimit: the time limit is an integer. A fractional or
  non-numeric `timeLimit` (floating point, `NaN`) is not modelled.
- Socket ids are assumed non-empty (socket.io always assigns one). So
  `existingSocketId && …` is modelled as "the name is registered".
- LiveSession.Session.TimerFired: when it fires is left to the caller.
  The model does not tie the callback to `expiresAt`; it states only what
  the callback does when it runs, and that a cleared timer does nothing.
- The Mongoose models (`models/Poll.js`, `models/Response.js`) are never
  used by `server.js`'s controller and are not part of this model.
- Concurrency within a handler: there is none, since Node runs each
  handler to completion. The `async` handlers never `await`.
