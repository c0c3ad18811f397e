/** Verified traces of the session. QuorumCloses, EmptyRoomTimesOut,
    NameTakenThenReclaimed, OutOfRangeAnswer and AnsweredThenLeft drive a
    fresh server through a sequence of socket events, and their contracts
    state what the server emits; the other members are the steps and the
    facts about concrete tallies and strings that those traces use. */
module Scenarios {
  import opened Wrappers
  import opened JsStrings
  import opened Tallies
  import opened Polls
  import opened LiveSession

  /** Options with visible text all survive the blank filter. */
  lemma RedBlueKept()
    ensures KeepNonBlank(["Red", "Blue"]) == ["Red", "Blue"]
  {
    var red, blue := "Red", "Blue";
    assert !IsWhitespace(red[0]) && !IsWhitespace(blue[0]);
    KeepOne(red);
    KeepOne(blue);
    KeepNonBlankAppend([red], [blue]);
    assert [red] + [blue] == ["Red", "Blue"];
  }

  /** The tally of two options before any answer. */
  lemma NoAnswersYet(options: seq<string>, students: nat)
    requires |options| == 2
    ensures TallyOf(options, map[], students) == Tally([0, 0], 0, students)
  {
    assert KeysAnswering(map[], ToDecimal(0)) == {};
    assert KeysAnswering(map[], ToDecimal(1)) == {};
  }

  /** "A" voting 1 and "B" voting 0 give one vote to each option. */
  lemma OneVoteEach()
    ensures TallyOf(["Red", "Blue"], map["A" := "1", "B" := "0"], 2) == Tally([1, 1], 2, 2)
  {
    NoAnswersYet(["Red", "Blue"], 2);
    RecordingCounts(["Red", "Blue"], map[], "A", "1", 2);
    RecordingCounts(["Red", "Blue"], map["A" := "1"], "B", "0", 2);
    assert map["A" := "1"]["B" := "0"] == map["A" := "1", "B" := "0"];
    assert ToDecimal(0) == "0" && ToDecimal(1) == "1";
    var counts := TallyOf(["Red", "Blue"], map["A" := "1", "B" := "0"], 2).counts;
    assert counts[0] == 1 && counts[1] == 1;
  }

  /** A fresh server where student "A" has joined on socket "a". */
  method RoomWithA() returns (s: Session)
    ensures fresh(s) && s.Valid()
    ensures s.names == map["A" := "a"] && s.conns == map["a" := "A"]
    ensures s.poll.None? && s.responses == map[]
  {
    s := new Session();
    var _ := s.Join("a", Some("A"), {"a"}, 0);
  }

  /** A fresh server where "A" (socket "a") and "B" (socket "b") have joined. */
  method RoomWithAB() returns (s: Session)
    ensures fresh(s) && s.Valid()
    ensures s.names == map["A" := "a", "B" := "b"] && |s.names| == 2
    ensures s.conns == map["a" := "A", "b" := "B"]
    ensures s.poll.None? && s.responses == map[]
  {
    s := RoomWithA();
    var _ := s.Join("b", Some("B"), {"a", "b"}, 0);
    assert s.names == map["A" := "a", "B" := "b"];
  }

  /** The teacher, on socket "t", starts the poll "Color?" with options
      none of which is blank. */
  method OpenColorPoll(s: Session, options: seq<string>, limit: Option<int>, now: int)
    requires s.Valid() && s.poll.None? && |options| >= 2 && KeepNonBlank(options) == options
    modifies s
    ensures s.Valid()
    ensures s.names == old(s.names) && s.conns == old(s.conns)
    ensures s.poll == Some(Poll("Color?", options, now, now + ClampLimit(limit) * MILLIS_PER_SECOND, true))
    ensures s.responses == map[]
  {
    var _ := s.CreatePoll("t", Some(PollRequest(Some("Color?"), Some(options), limit)), now);
  }

  /** The teacher starts the poll "Color?" with options Red and Blue. */
  method StartColorPoll(s: Session, limit: Option<int>, now: int)
    requires s.Valid() && s.poll.None?
    modifies s
    ensures s.Valid()
    ensures s.names == old(s.names) && s.conns == old(s.conns)
    ensures s.poll == Some(Poll("Color?", ["Red", "Blue"], now, now + ClampLimit(limit) * MILLIS_PER_SECOND, true))
    ensures s.responses == map[]
  {
    RedBlueKept();
    OpenColorPoll(s, ["Red", "Blue"], limit, now);
  }

  /** With two students registered, "A" answering 1 is recorded and the
      poll stays open. */
  method FirstOfTwoAnswers(s: Session)
    requires s.Valid() && |s.names| == 2 && s.conns == map["a" := "A", "b" := "B"]
    requires s.poll.Some? && |s.poll.value.options| == 2 && 1000 <= s.poll.value.expiresAt && s.responses == map[]
    modifies s
    ensures s.Valid() && s.names == old(s.names) && s.conns == old(s.conns) && s.poll == old(s.poll)
    ensures s.responses == map["A" := "1"]
  {
    ParseDecimal(1);
    var _ := s.SubmitAnswer("a", "1", 1000);
  }

  /** An accepted answer that brings the answers up to the number of
      registered students: the acknowledgement and the tally go to the
      submitter, then `poll-ended` with the same tally to everybody. */
  method ClosingAnswer(s: Session, conn: ConnId, answer: string, now: int, recorded: map<string, string>)
      returns (last: seq<Event>)
    requires s.Valid() && s.Accepts(conn, answer, now)
    requires recorded == s.responses[s.conns[conn] := answer] && |recorded| == |s.names|
    modifies s
    ensures var p := old(s.poll).value;
            var tally := TallyOf(p.options, recorded, |old(s.names)|);
            last == [Event(One(conn), AnswerReceived(ANSWER_RECORDED)),
                     Event(One(conn), PollResults(tally, Some(AnswerIndex(answer, |p.options|)))),
                     Event(All, PollEnded(tally))]
    ensures s.Valid() && s.poll.None?
  {
    last := s.SubmitAnswer(conn, answer, now);
  }

  /** After "A" has answered 1, "B" answering 0 completes the quorum of
      two: the reply and the tally go to "b", then `poll-ended` to everybody,
      and the poll is gone. */
  method SecondOfTwoAnswers(s: Session) returns (last: seq<Event>)
    requires s.Valid() && |s.names| == 2 && s.conns == map["a" := "A", "b" := "B"]
    requires s.poll.Some? && s.poll.value.options == ["Red", "Blue"] && 2000 <= s.poll.value.expiresAt
    requires s.responses == map["A" := "1"]
    modifies s
    ensures last == [Event(One("b"), AnswerReceived(ANSWER_RECORDED)),
                     Event(One("b"), PollResults(Tally([1, 1], 2, 2), Some(0))),
                     Event(All, PollEnded(Tally([1, 1], 2, 2)))]
    ensures s.Valid() && s.poll.None?
  {
    ParseDecimal(0);
    OneVoteEach();
    var recorded := s.responses[s.conns["b"] := "0"];
    assert recorded == map["A" := "1", "B" := "0"];
    assert s.Accepts("b", "0", 2000);
    assert AnswerIndex("0", 2) == 0;
    last := ClosingAnswer(s, "b", "0", 2000, recorded);
  }

  /** "A" answers 1 and then "B" answers 0: "B"'s answer reaches the quorum
      of two registered students, so it is followed at once by `poll-ended`
      with one vote per option and the poll is gone. */
  method QuorumCloses() returns (last: seq<Event>, closed: bool)
    ensures last == [Event(One("b"), AnswerReceived(ANSWER_RECORDED)),
                     Event(One("b"), PollResults(Tally([1, 1], 2, 2), Some(0))),
                     Event(All, PollEnded(Tally([1, 1], 2, 2)))]
    ensures closed
  {
    var s := RoomWithAB();
    StartColorPoll(s, Some(30), 0);
    FirstOfTwoAnswers(s);
    last := SecondOfTwoAnswers(s);
    closed := s.poll.None?;
  }

  /** A poll created with nobody registered and a requested limit of 5
      seconds runs for the 10-second minimum; when its timer fires it ends
      with no votes, no responses and no students, and ending it again
      emits nothing. */
  method EmptyRoomTimesOut(now: int) returns (expiresAt: int, ended: seq<Event>, again: seq<Event>)
    ensures expiresAt == now + 10000
    ensures ended == [Event(All, PollEnded(Tally([0, 0], 0, 0)))]
    ensures again == []
  {
    var s := new Session();
    StartColorPoll(s, Some(5), now);
    expiresAt := s.poll.value.expiresAt;
    NoAnswersYet(["Red", "Blue"], 0);
    ended := s.TimerFired();
    again := s.EndPoll();
  }

  /** "A" joins on socket "a"; socket "c" asking for "A" is refused while
      "a" is open, and takes the name over once "a" is gone, after which "a"
      is no longer registered. */
  method NameTakenThenReclaimed() returns (refused: seq<Event>, holder: ConnId, oldRegistered: bool)
    ensures refused == [Event(One("c"), JoinError(NAME_TAKEN))]
    ensures holder == "c" && !oldRegistered
  {
    var s := RoomWithA();
    refused := s.Join("c", Some("A"), {"a", "c"}, 0);
    var _ := s.Join("c", Some("A"), {"c"}, 0);
    holder := s.names["A"];
    oldRegistered := "a" in s.conns;
  }

  /** "5" against a two-option poll is refused and records nothing. */
  method OutOfRangeAnswer() returns (refused: seq<Event>, recorded: nat)
    ensures refused == [Event(One("a"), PollError(INVALID_ANSWER))]
    ensures recorded == 0
  {
    var s := RoomWithA();
    StartColorPoll(s, None, 0);
    ParseDecimal(5);
    refused := s.SubmitAnswer("a", "5", 1000);
    recorded := |s.responses|;
  }

  /** Ending a poll twice emits `poll-ended` once. */
  method ClosingTwiceEmitsOnce(s: Session) returns (first: seq<Event>, second: seq<Event>)
    requires s.Valid()
    modifies s
    ensures |first| <= 1 && second == []
    ensures s.Valid() && s.poll.None?
  {
    first := s.EndPoll();
    second := s.EndPoll();
  }

  /** "A" having voted 1, with nobody registered. */
  lemma OneVoteNoStudents()
    ensures TallyOf(["Red", "Blue"], map["A" := "1"], 0) == Tally([0, 1], 1, 0)
  {
    NoAnswersYet(["Red", "Blue"], 0);
    RecordingCounts(["Red", "Blue"], map[], "A", "1", 0);
    assert ToDecimal(0) == "0" && ToDecimal(1) == "1";
  }

  /** A registered socket disconnects, and the roster shrinks by one. */
  method Leave(s: Session, conn: ConnId)
    requires s.Valid() && conn in s.conns
    modifies s
    ensures s.Valid()
    ensures |s.names| == |old(s.names)| - 1 && s.conns == old(s.conns) - {conn}
    ensures s.poll == old(s.poll) && s.responses == old(s.responses)
  {
    ghost var name := s.conns[conn];
    ghost var before := s.names;
    var _ := s.Disconnect(conn);
    assert s.names.Keys == before.Keys - {name};
  }

  /** Sockets "a" and "b", the only two registered, both disconnect. */
  method BothLeave(s: Session)
    requires s.Valid() && s.conns == map["a" := "A", "b" := "B"] && |s.names| == 2
    modifies s
    ensures s.Valid() && |s.names| == 0
    ensures s.poll == old(s.poll) && s.responses == old(s.responses)
  {
    Leave(s, "a");
    assert "b" in s.conns;
    Leave(s, "b");
  }

  /** "A" answers and then both students disconnect: the answer stays while
      the roster empties, so the tally reports more responses than
      students. */
  method AnsweredThenLeft() returns (tally: Tally)
    ensures tally == Tally([0, 1], 1, 0)
  {
    var s := RoomWithAB();
    StartColorPoll(s, None, 0);
    FirstOfTwoAnswers(s);
    BothLeave(s);
    OneVoteNoStudents();
    var r := s.CalculatePollResults();
    tally := r.value;
  }
}
