/** The live-session controller: the student registry, the single active
    poll with its answers and expiry timer, and every socket handler as one
    atomic step. Outbound emits are returned as targeted events instead of
    being sent; the clock (`now`) and the set of still-open sockets (`live`)
    are arguments. */
module LiveSession {
  import opened Wrappers
  import opened JsStrings
  import opened Tallies
  import opened Roster
  import opened Polls

  /** A socket.io connection id (never empty). */
  type ConnId = string

  /** `socket.emit` goes to one connection, `io.emit` to every connection. */
  datatype Target = One(conn: ConnId) | All

  /** The poll as a (re)joining student sees it. */
  datatype PollView = PollView(poll: Poll, hasAnswered: bool)

  /** The payloads the server emits, by event name. */
  datatype Message =
    | JoinError(reason: string)                             // "join-error"
    | JoinSuccess(welcome: string, current: Option<PollView>) // "join-success"
    | NewPoll(poll: Poll)                                   // "new-poll"
    | PollError(reason: string)                             // "poll-error"
    | AnswerReceived(note: string)                          // "answer-received"
    | PollResults(tally: Tally, studentAnswer: Option<int>) // "poll-results"
    | PollEnded(tally: Tally)                               // "poll-ended"
    | StudentListUpdate(roster: seq<string>)                // "student-list-update"
    | Broadcast(chat: string, socketId: ConnId, user: string) // "broadcast"
    | KickedOut                                             // "kickedout"

  datatype Event = Event(to: Target, message: Message)

  const NAME_REQUIRED := "Student name is required"
  const NAME_TAKEN := "This name is already taken"
  const NO_POLL_DATA := "No poll data provided"
  const POLL_IN_PROGRESS := "A poll is already in progress"
  const INVALID_POLL := "Invalid poll data"
  const NOT_REGISTERED := "You are not registered as a student"
  const NO_ACTIVE_POLL := "No active poll"
  const ALREADY_ANSWERED := "You have already answered this poll"
  const POLL_EXPIRED := "Poll has expired"
  const INVALID_ANSWER := "Invalid answer"
  const ANSWER_RECORDED := "Your answer has been recorded"
  const NO_POLL_OR_NOT_REGISTERED := "No active poll or not registered"
  const TEACHER := "Teacher"

  function Welcome(name: string): string {
    "Welcome " + name + "!"
  }

  /** Every registered connection's name points back to that connection:
      `studentSockets` is a partial inverse of `connectedStudents`. */
  ghost predicate PointsBack(names: map<string, ConnId>, conns: map<ConnId, string>) {
    forall c :: c in conns ==> conns[c] in names && names[conns[c]] == c
  }

  /** The two registry maps are exact inverses of each other. */
  ghost predicate Inverse(names: map<string, ConnId>, conns: map<ConnId, string>) {
    && PointsBack(names, conns)
    && (forall n :: n in names ==> names[n] in conns && conns[names[n]] == n)
  }

  /** Deleting a name and the connection it maps to keeps both registry
      relations. */
  lemma ReleaseKeepsRegistry(names: map<string, ConnId>, conns: map<ConnId, string>, name: string)
    requires PointsBack(names, conns) && name in names
    ensures PointsBack(names - {name}, conns - {names[name]})
    ensures Inverse(names, conns) ==> Inverse(names - {name}, conns - {names[name]})
  {
  }

  /** Registering a name that no other connection holds keeps the
      point-back relation; it keeps the two maps inverse exactly when the
      connection was not already registered under a different name, and in
      that case the old name is left pointing at the connection. */
  lemma RegisterKeepsRegistry(names: map<string, ConnId>, conns: map<ConnId, string>, name: string, conn: ConnId)
    requires PointsBack(names, conns)
    requires name !in names || names[name] == conn
    ensures PointsBack(names[name := conn], conns[conn := name])
    ensures Inverse(names, conns) && (conn !in conns || conns[conn] == name) ==>
              Inverse(names[name := conn], conns[conn := name])
    ensures conn in conns && conns[conn] != name ==>
              var stale := conns[conn];
              && stale in names[name := conn] && names[name := conn][stale] == conn
              && !Inverse(names[name := conn], conns[conn := name])
  {
    if conn in conns && conns[conn] != name {
      var stale := conns[conn];
      assert names[name := conn][stale] == conn;
      assert conns[conn := name][conn] == name;
    }
  }

  /** Deleting a key and then setting it gives the same map as setting it. */
  lemma OverwriteAfterDelete(m: map<string, ConnId>, k: string, v: ConnId)
    ensures (m - {k})[k := v] == m[k := v]
  {
  }

  class Session {
    /** `connectedStudents`: student name to socket id. */
    var names: map<string, ConnId>
    /** The key order of `connectedStudents`, as `Array.from(keys())` lists it. */
    var order: seq<string>
    /** `studentSockets`: socket id to student name. */
    var conns: map<ConnId, string>
    /** `currentPoll`. */
    var poll: Option<Poll>
    /** `pollResponses`: student name to the raw answer string. */
    var responses: map<string, string>
    /** Whether `pollTimer` holds a pending timeout. */
    var timerArmed: bool

    /** The invariant every handler keeps. */
    ghost predicate Valid()
      reads this
    {
      && PointsBack(names, conns)
      && (forall n :: n in names ==> n != "")
      && NoDup(order) && (forall n :: n in order <==> n in names)
      && (timerArmed <==> poll.Some?)
      && (poll.None? ==> responses == map[])
      && (poll.Some? ==> forall k :: k in responses ==> ValidAnswer(responses[k], |poll.value.options|))
    }

    /** The connection that a join of `name` from `conn` pushes out: the
        other socket currently registered under that name, if any. */
    ghost function Displaced(name: string, conn: ConnId): set<ConnId>
      reads this
    {
      if name in names && names[name] != conn then {names[name]} else {}
    }

    /** Whether `student-join` from `conn` with this name succeeds. */
    ghost predicate Admits(name: Option<string>, conn: ConnId, live: set<ConnId>)
      reads this
    {
      && name.Some? && name.value != ""
      && !(name.value in names && names[name.value] != conn && names[name.value] in live)
    }

    /** Whether `submit-answer` from `conn` with this answer at time `now`
        is recorded. */
    ghost predicate Accepts(conn: ConnId, answer: string, now: int)
      reads this
    {
      && conn in conns && poll.Some? && conns[conn] !in responses
      && now <= poll.value.expiresAt
      && ValidAnswer(answer, |poll.value.options|)
    }

    /** The server at start-up: nobody registered, no poll, no timer. */
    constructor ()
      ensures Valid() && Inverse(names, conns)
      ensures names == map[] && order == [] && conns == map[]
      ensures poll == None && responses == map[] && !timerArmed
    {
      names, order, conns := map[], [], map[];
      poll, responses, timerArmed := None, map[], false;
    }

    /** `calculatePollResults`: no tally without a poll, otherwise one count
        per stored option, the number of answers and the number of
        registered students. Changes nothing. */
    method CalculatePollResults() returns (r: Option<Tally>)
      ensures poll.None? ==> r == None
      ensures poll.Some? ==> r == Some(TallyOf(poll.value.options, responses, |names|))
    {
      if poll.None? {
        return None;
      }
      var optionCount := |poll.value.options|;
      var counts: seq<nat> := [];
      var index := 0;
      while index < optionCount
        invariant 0 <= index <= optionCount
        invariant counts == Counts(index, responses)
      {
        counts := counts + [CountOf(responses, ToDecimal(index))];
        index := index + 1;
      }
      r := Some(Tally(counts, |responses|, |names|));
    }

    /** `endPoll`: with a poll, broadcast its final tally and clear the poll,
        the answers and the timer; without one, do nothing. */
    method EndPoll() returns (events: seq<Event>)
      requires Valid()
      modifies this
      ensures Valid()
      ensures names == old(names) && conns == old(conns) && order == old(order)
      ensures old(poll).None? ==>
                events == [] && poll == old(poll) && responses == old(responses) && timerArmed == old(timerArmed)
      ensures old(poll).Some? ==>
                && events == [Event(All, PollEnded(TallyOf(old(poll).value.options, old(responses), |names|)))]
                && poll.None? && responses == map[] && !timerArmed
    {
      if poll.None? {
        return [];
      }
      var results := CalculatePollResults();
      events := [Event(All, PollEnded(results.value))];
      poll := None;
      responses := map[];
      timerArmed := false;
    }

    /** The timeout armed by `create-poll`: it ends the poll if one is still
        active; a cleared timer never fires. */
    method TimerFired() returns (events: seq<Event>)
      requires Valid()
      modifies this
      ensures Valid()
      ensures names == old(names) && conns == old(conns) && order == old(order)
      ensures !old(timerArmed) ==>
                events == [] && poll == old(poll) && responses == old(responses) && !timerArmed
      ensures old(timerArmed) ==>
                && events == [Event(All, PollEnded(TallyOf(old(poll).value.options, old(responses), |names|)))]
                && poll.None? && responses == map[] && !timerArmed
    {
      if timerArmed && poll.Some? {
        events := EndPoll();
      } else {
        events := [];
      }
    }

    /** `disconnect`: a registered connection loses its name in both maps
        and everyone gets the new roster; an unregistered one changes
        nothing. */
    method Disconnect(conn: ConnId) returns (events: seq<Event>)
      requires Valid()
      modifies this
      ensures Valid()
      ensures poll == old(poll) && responses == old(responses) && timerArmed == old(timerArmed)
      ensures conn in old(conns) ==>
                && names == old(names) - {old(conns[conn])}
                && conns == old(conns) - {conn}
                && order == Without(old(order), old(conns[conn]))
                && events == [Event(All, StudentListUpdate(order))]
      ensures conn !in old(conns) ==>
                names == old(names) && conns == old(conns) && order == old(order) && events == []
      ensures old(Inverse(names, conns)) ==> Inverse(names, conns)
    {
      if conn in conns {
        var name := conns[conn];
        Release(name);
        events := [Event(All, StudentListUpdate(order))];
      } else {
        events := [];
      }
    }

    /** `student-join`: reject a missing or empty name, and a name held by
        another socket that is still open; otherwise take the name over
        (dropping a dead holder from both maps), send the welcome with the
        current poll, the poll itself and, once this student has answered
        or the poll has run out, its tally, and broadcast the roster. */
    method Join(conn: ConnId, name: Option<string>, live: set<ConnId>, now: int) returns (events: seq<Event>)
      requires Valid()
      modifies this
      ensures Valid()
      ensures poll == old(poll) && responses == old(responses) && timerArmed == old(timerArmed)
      ensures name.None? || name.value == "" ==>
                && events == [Event(One(conn), JoinError(NAME_REQUIRED))]
                && names == old(names) && conns == old(conns) && order == old(order)
      ensures name.Some? && name.value != "" && !old(Admits(name, conn, live)) ==>
                && events == [Event(One(conn), JoinError(NAME_TAKEN))]
                && names == old(names) && conns == old(conns) && order == old(order)
      ensures old(Admits(name, conn, live)) ==>
                var n := name.value;
                && names == old(names)[n := conn]
                && conns == (old(conns) - old(Displaced(n, conn)))[conn := n]
                && names[n] == conn && conns[conn] == n
                && order == (if n in old(names) && old(names[n]) == conn then old(order) else Without(old(order), n) + [n])
                && events ==
                     [Event(One(conn), JoinSuccess(Welcome(n), if poll.Some? then Some(PollView(poll.value, n in responses)) else None))]
                     + (if poll.None? then []
                        else [Event(One(conn), NewPoll(poll.value))]
                             + (if n in responses || now > poll.value.expiresAt
                                then [Event(One(conn), PollResults(TallyOf(poll.value.options, responses, |names|), None))]
                                else []))
                     + [Event(All, StudentListUpdate(order))]
      ensures old(Admits(name, conn, live)) && old(Inverse(names, conns)) && (conn !in old(conns) || old(conns[conn]) == name.value) ==> Inverse(names, conns)
      ensures old(Admits(name, conn, live)) && conn in old(conns) && old(conns[conn]) != name.value ==>
                old(conns[conn]) in names && names[old(conns[conn])] == conn && !Inverse(names, conns)
    {
      if name.None? || name.value == "" {
        return [Event(One(conn), JoinError(NAME_REQUIRED))];
      }
      var n := name.value;
      if n in names && names[n] != conn && names[n] in live {
        return [Event(One(conn), JoinError(NAME_TAKEN))];
      }
      events := Admit(conn, n, live, now);
    }

    /** The accepting branch of `student-join`: a dead holder of the name is
        dropped from both maps, then the name is registered to `conn` and
        the replies are sent. */
    method Admit(conn: ConnId, n: string, live: set<ConnId>, now: int) returns (events: seq<Event>)
      requires Valid() && Admits(Some(n), conn, live)
      modifies this
      ensures Valid()
      ensures poll == old(poll) && responses == old(responses) && timerArmed == old(timerArmed)
      ensures names == old(names)[n := conn]
      ensures conns == (old(conns) - old(Displaced(n, conn)))[conn := n]
      ensures order == (if n in old(names) && old(names[n]) == conn then old(order) else Without(old(order), n) + [n])
      ensures events ==
                [Event(One(conn), JoinSuccess(Welcome(n), if poll.Some? then Some(PollView(poll.value, n in responses)) else None))]
                + (if poll.None? then []
                   else [Event(One(conn), NewPoll(poll.value))]
                        + (if n in responses || now > poll.value.expiresAt
                           then [Event(One(conn), PollResults(TallyOf(poll.value.options, responses, |names|), None))]
                           else []))
                + [Event(All, StudentListUpdate(order))]
      ensures old(Inverse(names, conns)) && (conn !in old(conns) || old(conns[conn]) == n) ==> Inverse(names, conns)
      ensures conn in old(conns) && old(conns[conn]) != n ==>
                old(conns[conn]) in names && names[old(conns[conn])] == conn && !Inverse(names, conns)
    {
      ghost var names0, conns0 := names, conns;
      ghost var displaced := Displaced(n, conn);
      if n in names && names[n] != conn {
        Release(n);
        OverwriteAfterDelete(names0, n, conn);
        assert conns == conns0 - displaced;
      } else {
        assert displaced == {};
        assert conns0 - displaced == conns0;
      }
      Register(n, conn);
      assert conns == (conns0 - displaced)[conn := n];
      events := JoinReplies(conn, n, now);
    }

    /** Delete a name and the connection it maps to from both maps, as
        `connectedStudents.delete(name); studentSockets.delete(socketId)`
        do in `disconnect`, in the stale-name reclaim of `student-join` and in
        `remove-participant`. */
    method Release(name: string)
      requires Valid() && name in names
      modifies this
      ensures Valid()
      ensures poll == old(poll) && responses == old(responses) && timerArmed == old(timerArmed)
      ensures names == old(names) - {name}
      ensures conns == old(conns) - {old(names[name])}
      ensures order == Without(old(order), name)
      ensures old(Inverse(names, conns)) ==> Inverse(names, conns)
    {
      var socketId := names[name];
      ReleaseKeepsRegistry(names, conns, name);
      names := names - {name};
      conns := conns - {socketId};
      order := Without(order, name);
    }

    /** `connectedStudents.set(name, conn); studentSockets.set(conn, name)`
        once no other socket holds the name. A name already present keeps
        its place in the roster order; a new one goes last. */
    method Register(name: string, conn: ConnId)
      requires Valid() && name != ""
      requires name !in names || names[name] == conn
      modifies this
      ensures Valid()
      ensures poll == old(poll) && responses == old(responses) && timerArmed == old(timerArmed)
      ensures names == old(names)[name := conn]
      ensures conns == old(conns)[conn := name]
      ensures order == if name in old(names) then old(order) else old(order) + [name]
      ensures old(Inverse(names, conns)) && (conn !in old(conns) || old(conns[conn]) == name) ==> Inverse(names, conns)
      ensures conn in old(conns) && old(conns[conn]) != name ==>
                old(conns[conn]) in names && names[old(conns[conn])] == conn && !Inverse(names, conns)
    {
      if name !in names {
        AppendNew(order, name);
        order := order + [name];
      }
      RegisterKeepsRegistry(names, conns, name, conn);
      names := names[name := conn];
      conns := conns[conn := name];
    }

    /** What a successful `student-join` sends: the welcome with the current
        poll marked with whether this student has answered, then, while a poll
        is active, the poll and, if the student has answered or the poll has
        run out, its tally; last the roster to everyone. Changes nothing. */
    method JoinReplies(conn: ConnId, name: string, now: int) returns (events: seq<Event>)
      ensures events ==
                [Event(One(conn), JoinSuccess(Welcome(name), if poll.Some? then Some(PollView(poll.value, name in responses)) else None))]
                + (if poll.None? then []
                   else [Event(One(conn), NewPoll(poll.value))]
                        + (if name in responses || now > poll.value.expiresAt
                           then [Event(One(conn), PollResults(TallyOf(poll.value.options, responses, |names|), None))]
                           else []))
                + [Event(All, StudentListUpdate(order))]
    {
      var view := if poll.Some? then Some(PollView(poll.value, name in responses)) else None;
      events := [Event(One(conn), JoinSuccess(Welcome(name), view))];
      if poll.Some? {
        events := events + [Event(One(conn), NewPoll(poll.value))];
        if name in responses || now > poll.value.expiresAt {
          var results := CalculatePollResults();
          events := events + [Event(One(conn), PollResults(results.value, None))];
        }
      }
      events := events + [Event(All, StudentListUpdate(order))];
    }

    /** `create-poll`: reject missing data, a poll already running and a
        request without a question or with fewer than two raw options;
        otherwise store the poll with its clamped deadline and blank options
        dropped, clear the answers, arm the timer and broadcast the poll. */
    method CreatePoll(conn: ConnId, data: Option<PollRequest>, now: int) returns (events: seq<Event>)
      requires Valid()
      modifies this
      ensures Valid()
      ensures names == old(names) && conns == old(conns) && order == old(order)
      ensures data.None? ==>
                events == [Event(One(conn), PollError(NO_POLL_DATA))]
      ensures data.Some? && old(poll).Some? ==>
                events == [Event(One(conn), PollError(POLL_IN_PROGRESS))]
      ensures data.Some? && old(poll).None? && !WellFormed(data.value) ==>
                events == [Event(One(conn), PollError(INVALID_POLL))]
      ensures !(data.Some? && old(poll).None? && WellFormed(data.value)) ==>
                poll == old(poll) && responses == old(responses) && timerArmed == old(timerArmed)
      ensures data.Some? && old(poll).None? && WellFormed(data.value) ==>
                && poll == Some(StartPoll(data.value, now))
                && responses == map[] && timerArmed
                && events == [Event(All, NewPoll(poll.value))]
    {
      if data.None? {
        return [Event(One(conn), PollError(NO_POLL_DATA))];
      }
      if poll.Some? {
        return [Event(One(conn), PollError(POLL_IN_PROGRESS))];
      }
      var req := data.value;
      if !WellFormed(req) {
        return [Event(One(conn), PollError(INVALID_POLL))];
      }
      var limit := ClampLimit(req.timeLimit);
      poll := Some(Poll(req.question.value, KeepNonBlank(req.options.value), now, now + limit * MILLIS_PER_SECOND, true));
      responses := map[];
      events := [Event(All, NewPoll(poll.value))];
      timerArmed := true;
    }

    /** `submit-answer`: the rejections, in the order they are tried, are
        not registered, no poll, already answered, past the deadline and an
        answer that does not parse to an option index. An accepted answer is
        stored as the raw string; the submitter gets an acknowledgement and
        the tally with its own index; when the number of answers equals the
        number of registered students the poll ends at once. */
    method SubmitAnswer(conn: ConnId, answer: string, now: int) returns (events: seq<Event>)
      requires Valid()
      modifies this
      ensures Valid()
      ensures names == old(names) && conns == old(conns) && order == old(order)
      ensures conn !in old(conns) ==>
                events == [Event(One(conn), PollError(NOT_REGISTERED))]
      ensures conn in old(conns) && old(poll).None? ==>
                events == [Event(One(conn), PollError(NO_ACTIVE_POLL))]
      ensures conn in old(conns) && old(poll).Some? && old(conns[conn]) in old(responses) ==>
                events == [Event(One(conn), PollError(ALREADY_ANSWERED))]
      ensures conn in old(conns) && old(poll).Some? && old(conns[conn]) !in old(responses)
              && now > old(poll).value.expiresAt ==>
                events == [Event(One(conn), PollError(POLL_EXPIRED))]
      ensures conn in old(conns) && old(poll).Some? && old(conns[conn]) !in old(responses)
              && now <= old(poll).value.expiresAt && !ValidAnswer(answer, |old(poll).value.options|) ==>
                events == [Event(One(conn), PollError(INVALID_ANSWER))]
      ensures !old(Accepts(conn, answer, now)) ==>
                poll == old(poll) && responses == old(responses) && timerArmed == old(timerArmed)
      ensures old(Accepts(conn, answer, now)) ==>
                var p := old(poll).value;
                var recorded := old(responses)[old(conns[conn]) := answer];
                var tally := TallyOf(p.options, recorded, |names|);
                && |recorded| == |old(responses)| + 1
                && events == [Event(One(conn), AnswerReceived(ANSWER_RECORDED)),
                              Event(One(conn), PollResults(tally, Some(AnswerIndex(answer, |p.options|))))]
                             + (if |recorded| == |names| then [Event(All, PollEnded(tally))] else [])
                && (|recorded| == |names| ==> poll.None? && responses == map[] && !timerArmed)
                && (|recorded| != |names| ==> poll == old(poll) && responses == recorded && timerArmed)
      ensures old(Accepts(conn, answer, now)) ==> forall a, t :: !Accepts(conn, a, t)
    {
      if conn !in conns {
        return [Event(One(conn), PollError(NOT_REGISTERED))];
      }
      var name := conns[conn];
      if poll.None? {
        return [Event(One(conn), PollError(NO_ACTIVE_POLL))];
      }
      if name in responses {
        return [Event(One(conn), PollError(ALREADY_ANSWERED))];
      }
      if now > poll.value.expiresAt {
        return [Event(One(conn), PollError(POLL_EXPIRED))];
      }
      if !ValidAnswer(answer, |poll.value.options|) {
        return [Event(One(conn), PollError(INVALID_ANSWER))];
      }
      events := Accept(conn, answer, now);
    }

    /** The accepting branch of `submit-answer`: store the raw answer,
        acknowledge it, send the tally with the parsed index, and end the
        poll when every registered student has an answer on record. */
    method Accept(conn: ConnId, answer: string, now: int) returns (events: seq<Event>)
      requires Valid() && Accepts(conn, answer, now)
      modifies this
      ensures Valid()
      ensures names == old(names) && conns == old(conns) && order == old(order)
      ensures var p := old(poll).value;
              var recorded := old(responses)[old(conns[conn]) := answer];
              var tally := TallyOf(p.options, recorded, |names|);
              && |recorded| == |old(responses)| + 1
              && events == [Event(One(conn), AnswerReceived(ANSWER_RECORDED)),
                            Event(One(conn), PollResults(tally, Some(AnswerIndex(answer, |p.options|))))]
                           + (if |recorded| == |names| then [Event(All, PollEnded(tally))] else [])
              && (|recorded| == |names| ==> poll.None? && responses == map[] && !timerArmed)
              && (|recorded| != |names| ==> poll == old(poll) && responses == recorded && timerArmed)
      ensures forall a, t :: !Accepts(conn, a, t)
    {
      var name := conns[conn];
      var index := AnswerIndex(answer, |poll.value.options|);
      responses := responses[name := answer];
      var tally := TallyOf(poll.value.options, responses, |names|);
      var replies := [Event(One(conn), AnswerReceived(ANSWER_RECORDED)),
                      Event(One(conn), PollResults(tally, Some(index)))];
      if |responses| == |names| {
        var ended := EndPoll();
        assert ended == [Event(All, PollEnded(tally))];
        events := replies + ended;
      } else {
        events := replies;
      }
    }

    /** `get-poll-results`: an error without a poll or a registration; the
        tally with the student's own parsed answer once they have answered;
        otherwise nothing. Changes nothing. */
    method GetPollResults(conn: ConnId) returns (events: seq<Event>)
      requires Valid()
      ensures poll.None? || conn !in conns ==>
                events == [Event(One(conn), PollError(NO_POLL_OR_NOT_REGISTERED))]
      ensures poll.Some? && conn in conns && conns[conn] !in responses ==> events == []
      ensures poll.Some? && conn in conns && conns[conn] in responses ==>
                var p := poll.value;
                events == [Event(One(conn), PollResults(TallyOf(p.options, responses, |names|),
                                                        Some(AnswerIndex(responses[conns[conn]], |p.options|))))]
    {
      if poll.None? || conn !in conns {
        return [Event(One(conn), PollError(NO_POLL_OR_NOT_REGISTERED))];
      }
      var name := conns[conn];
      if name in responses {
        var p := poll.value;
        var tally := TallyOf(p.options, responses, |names|);
        events := [Event(One(conn), PollResults(tally, ParseInt(responses[name])))];
      } else {
        events := [];
      }
    }

    /** `chat`: relay the message to everybody, signed with the sender's
        student name or, for an unregistered socket, "Teacher". */
    method Chat(conn: ConnId, text: string) returns (events: seq<Event>)
      requires Valid()
      ensures |events| == 1 && events[0].to == All
      ensures conn in conns ==> events[0].message == Broadcast(text, conn, conns[conn])
      ensures conn !in conns ==> events[0].message == Broadcast(text, conn, TEACHER)
    {
      var user := if conn in conns then conns[conn] else TEACHER;
      events := [Event(All, Broadcast(text, conn, user))];
    }

    /** `remove-participant`: drop the name and the socket it maps to from
        both maps, leaving any answer and the poll alone; send the new roster
        to the requester only, and `kickedout` to the removed socket if it is
        still open. */
    method RemoveParticipant(conn: ConnId, participant: string, live: set<ConnId>) returns (events: seq<Event>)
      requires Valid()
      modifies this
      ensures Valid()
      ensures poll == old(poll) && responses == old(responses) && timerArmed == old(timerArmed)
      ensures participant in old(names) ==>
                var removed := old(names[participant]);
                && names == old(names) - {participant}
                && conns == old(conns) - {removed}
                && order == Without(old(order), participant)
                && events == [Event(One(conn), StudentListUpdate(order))]
                             + (if removed in live then [Event(One(removed), KickedOut)] else [])
      ensures participant !in old(names) ==>
                && names == old(names) && conns == old(conns) && order == old(order)
                && events == [Event(One(conn), StudentListUpdate(order))]
      ensures old(Inverse(names, conns)) ==> Inverse(names, conns)
    {
      if participant in names {
        var removed := names[participant];
        Release(participant);
        events := [Event(One(conn), StudentListUpdate(order))];
        if removed in live {
          events := events + [Event(One(removed), KickedOut)];
        }
      } else {
        events := [Event(One(conn), StudentListUpdate(order))];
      }
    }
  }
}
