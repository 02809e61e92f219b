/**
 The control-port session of `RobotController`: the send guard, the receive
 loop over the chunks the robot sends, the exchange of one command for one
 decoded reply, and the commands that change the session's flags.

 The socket is replaced by inputs: whether the session holds a socket, whether
 the write succeeds, and the sequence of chunks a read would return, the end of
 that sequence standing for the read timeout.
 */
module Controller {
  import opened Wrappers
  import opened Strings
  import opened Decimal
  import opened Commands
  import opened Codes
  import opened Decoder
  import AnswerExamples

  /** The session flags: a socket is held, the robot was seen in error, and the
      end-of-block and end-of-movement replies are enabled (EOB == 1, EOM == 1). */
  datatype Session = Session(hasSocket: bool, inError: bool, eob: bool, eom: bool)

  /** A new controller: no socket, no error, both replies enabled. */
  const InitialSession: Session := Session(false, false, true, true)

  /** What a read loop ends with: the timeout, or the chunk that ended it, whether
      an error code was in it, and how many chunks were read. */
  datatype Received = TimedOut | Answer(reply: string, errorSeen: bool, consumed: nat)

  /** What an exchange hands back: None, the decoded reply, or the raw reply. */
  datatype Reply = NoReply | Value(decoded: Decoded) | Raw(text: string)

  /** The traffic of an exchange: the text handed to the socket, if a write was
      attempted (whether or not it succeeded); the number of chunks read; whether
      the connection was dropped and opened again. */
  datatype Io = Io(sent: Option<string>, received: nat, reconnected: bool)

  const NoTraffic: Io := Io(None, 0, false)

  /** The error codes in bracketed form, as the read loop looks for them. */
  const ErrorMarks: seq<string> := BracketAll(ErrorCodes)

  /** A chunk holds a bracketed error code. */
  predicate HasErrorCode(chunk: string) {
    ResponseContains(chunk, ErrorMarks)
  }

  /** A chunk ends the read loop: it holds a bracketed answer code (looked for only
      when some are expected) or a bracketed error code. */
  predicate Hit(answers: seq<int>, chunk: string) {
    || (|answers| != 0 && ResponseContains(chunk, BracketAll(answers)))
    || HasErrorCode(chunk)
  }

  /** `_send`'s guard: a write is made only with a socket and outside error. */
  predicate SendAllowed(s: Session) {
    s.hasSocket && !s.inError
  }

  /** Which chunks would end the read loop, one flag per chunk. */
  function HitFlags(answers: seq<int>, chunks: seq<string>): (hits: seq<bool>)
    ensures |hits| == |chunks|
    ensures forall j :: 0 <= j < |chunks| ==> hits[j] == Hit(answers, chunks[j])
  {
    seq(|chunks|, j requires 0 <= j < |chunks| => Hit(answers, chunks[j]))
  }

  /** The index of the first set flag from `i` on, or the length when none is. */
  function FirstSet(hits: seq<bool>, i: nat): (k: nat)
    requires i <= |hits|
    ensures i <= k <= |hits|
    ensures k < |hits| ==> hits[k]
    ensures forall j :: i <= j < k ==> !hits[j]
    decreases |hits| - i
  {
    if i == |hits| || hits[i] then i else FirstSet(hits, i + 1)
  }

  /** The read loop of `_receive` from chunk `i` on: the first chunk from there
      that ends the loop, or a timeout when the chunks run out first. */
  function ReceiveFrom(answers: seq<int>, chunks: seq<string>, i: nat): (r: Received)
    requires i <= |chunks|
    ensures r.Answer? ==> i < r.consumed <= |chunks| && r.reply == chunks[r.consumed - 1]
  {
    var k := FirstSet(HitFlags(answers, chunks), i);
    if k == |chunks| then TimedOut
    else Answer(chunks[k], HasErrorCode(chunks[k]), k + 1)
  }

  /** `_receive`: reads chunks until one holds an expected answer code or an error
      code, and returns that chunk alone; the timeout returns None. */
  function Receive(answers: seq<int>, chunks: seq<string>): (r: Received)
    ensures r.Answer? ==> 0 < r.consumed <= |chunks| && r.reply == chunks[r.consumed - 1]
  {
    ReceiveFrom(answers, chunks, 0)
  }

  /** The chunk returned ends the loop, and the flag reports whether it holds an
      error code. */
  lemma ReceiveStopsAtHit(answers: seq<int>, chunks: seq<string>)
    ensures var r := Receive(answers, chunks);
            r.Answer? ==> Hit(answers, r.reply) && (r.errorSeen <==> HasErrorCode(r.reply))
  {
  }

  /** Every chunk read before the returned one is passed over. */
  lemma ReceiveSkipsMisses(answers: seq<int>, chunks: seq<string>)
    ensures var r := Receive(answers, chunks);
            r.Answer? ==> forall j :: 0 <= j < r.consumed - 1 ==> !Hit(answers, chunks[j])
  {
  }

  /** The read times out exactly when no chunk ends the loop. */
  lemma ReceiveTimesOut(answers: seq<int>, chunks: seq<string>)
    ensures Receive(answers, chunks).TimedOut? <==> forall j :: 0 <= j < |chunks| ==> !Hit(answers, chunks[j])
  {
  }

  /** With no code expected, only an error code ends the loop. */
  lemma ReceiveNothingExpected(chunks: seq<string>)
    ensures Receive([], chunks).Answer? ==> Receive([], chunks).errorSeen
  {
    ReceiveStopsAtHit([], chunks);
  }

  /** The loop of `_receive` as the driver writes it, with its two flags. */
  method ReceiveLoop(answers: seq<int>, chunks: seq<string>) returns (r: Received)
    ensures r == Receive(answers, chunks)
  {
    var responseList := BracketAll(answers);
    var errorList := ErrorMarks;
    var responseFound := false;
    var errorFound := false;
    var response := "";
    var next := 0;
    while !responseFound && !errorFound
      invariant 0 <= next <= |chunks|
      invariant !responseFound && !errorFound ==> Receive(answers, chunks) == ReceiveFrom(answers, chunks, next)
      invariant responseFound || errorFound ==>
                  0 < next && Receive(answers, chunks) == Answer(response, errorFound, next)
      decreases |chunks| - next
    {
      if next == |chunks| {
        return TimedOut;
      }
      response := chunks[next];
      next := next + 1;
      if |responseList| != 0 {
        responseFound := ResponseContains(response, responseList);
      }
      errorFound := ResponseContains(response, errorList);
    }
    r := Answer(response, errorFound, next);
  }

  /** The index of the first text in `texts` that occurs in `reply`. */
  function FirstFound(reply: string, texts: seq<string>): (r: Option<nat>)
    ensures r.Some? ==> r.value < |texts| && Contains(reply, texts[r.value])
    ensures r.Some? ==> forall k :: 0 <= k < r.value ==> !Contains(reply, texts[k])
    ensures r.None? <==> forall k :: 0 <= k < |texts| ==> !Contains(reply, texts[k])
    decreases |texts|
  {
    if |texts| == 0 then None
    else if Contains(reply, texts[0]) then Some(0)
    else
      match FirstFound(reply, texts[1..])
      case None => None
      case Some(k) => Some(k + 1)
  }

  /** The index of the first code whose digits occur in `reply`. */
  function FirstCode(reply: string, codes: seq<int>): (r: Option<nat>)
    ensures r.Some? ==> r.value < |codes| && Contains(reply, IntToString(codes[r.value]))
    ensures r.Some? ==> forall k :: 0 <= k < r.value ==> !Contains(reply, IntToString(codes[k]))
    ensures r.None? <==> forall k :: 0 <= k < |codes| ==> !Contains(reply, IntToString(codes[k]))
  {
    FirstFound(reply, CodeTexts(codes))
  }

  /** The digits of each code. */
  function CodeTexts(codes: seq<int>): (texts: seq<string>)
    ensures |texts| == |codes|
    ensures forall i :: 0 <= i < |codes| ==> texts[i] == IntToString(codes[i])
  {
    seq(|codes|, i requires 0 <= i < |codes| => IntToString(codes[i]))
  }

  /** The key `exchangeMsg` decodes a reply with: the first expected code, in list
      order, whose digits occur in it; failing that, the first error code, in
      ascending order; failing that, none. */
  function ReplyKey(reply: string, answers: seq<int>): (key: Option<Key>)
    ensures key.Some? && key.value.AnswerKey? ==> key.value.code in answers
    ensures key.Some? && key.value.AnswerKey? ==>
              exists k :: 0 <= k < |answers| && answers[k] == key.value.code
                          && forall j :: 0 <= j < k ==> !Contains(reply, IntToString(answers[j]))
    ensures key.Some? && key.value.ErrorKey? ==>
              exists k :: 0 <= k < |ErrorCodes| && ErrorCodes[k] == key.value.code
                          && forall j :: 0 <= j < k ==> !Contains(reply, IntToString(ErrorCodes[j]))
    ensures key.Some? ==> Contains(reply, IntToString(key.value.code))
    ensures key.Some? && key.value.ErrorKey? ==>
              IsErrorCode(key.value.code) && forall k :: 0 <= k < |answers| ==> !Contains(reply, IntToString(answers[k]))
    ensures key.None? <==>
              && (forall k :: 0 <= k < |answers| ==> !Contains(reply, IntToString(answers[k])))
              && (forall k :: 0 <= k < |ErrorCodes| ==> !Contains(reply, IntToString(ErrorCodes[k])))
  {
    ErrorCodesTable();
    match FirstCode(reply, answers)
    case Some(k) => Some(AnswerKey(answers[k]))
    case None =>
      match FirstCode(reply, ErrorCodes)
      case Some(k) => Some(ErrorKey(ErrorCodes[k]))
      case None => None
  }

  /** An error key is the lowest error code whose digits occur in the reply, as
      the driver tries the error codes in ascending order. */
  lemma ReplyKeyLowestError(reply: string, answers: seq<int>)
    ensures var key := ReplyKey(reply, answers);
            key.Some? && key.value.ErrorKey? ==>
              forall e :: IsErrorCode(e) && e < key.value.code ==> !Contains(reply, IntToString(e))
  {
    var key := ReplyKey(reply, answers);
    if key.Some? && key.value.ErrorKey? {
      ErrorCodesTable();
      var k :| 0 <= k < |ErrorCodes| && ErrorCodes[k] == key.value.code
               && forall j :: 0 <= j < k ==> !Contains(reply, IntToString(ErrorCodes[j]));
      forall e | IsErrorCode(e) && e < key.value.code
        ensures !Contains(reply, IntToString(e))
      {
        var j :| 0 <= j < |ErrorCodes| && ErrorCodes[j] == e;
        assert j < k;
      }
    }
  }

  /** The session after the connection is dropped and opened again: `Connect`
      stores a new socket whether or not the robot answers. */
  function Reconnected(s: Session): (t: Session)
    ensures t.hasSocket
    ensures t.inError == s.inError && t.eob == s.eob && t.eom == s.eom
  {
    s.(hasSocket := true)
  }

  /** The end of `exchangeMsg` once a reply has been read: decode it (or, without
      `decode`, return it) by the key it matches, or reconnect when none matches. */
  function Answered(s: Session, answers: seq<int>, decode: bool, reply: string, errorSeen: bool, io: Io)
    : (r: (Session, Reply, Io))
    ensures r.0.inError == (s.inError || errorSeen)
    ensures r.0.eob == s.eob && r.0.eom == s.eom
    ensures r.2.sent == io.sent && r.2.received == io.received
    ensures r.2.reconnected <==> ReplyKey(reply, answers).None?
    ensures r.2.reconnected ==> r.0.hasSocket && r.1.NoReply?
    ensures !r.2.reconnected ==> r.0.hasSocket == s.hasSocket && !r.1.NoReply?
    ensures r.1.Raw? ==> !decode && r.1.text == reply
    ensures r.1.Value? ==> decode
    ensures r.1.Value? ==> ReplyKey(reply, answers).Some? && r.1.decoded == Decode(reply, ReplyKey(reply, answers).value)
  {
    var t := if errorSeen then s.(inError := true) else s;
    match ReplyKey(reply, answers)
    case Some(key) => (t, if decode then Value(Decode(reply, key)) else Raw(reply), io.(reconnected := false))
    case None => (Reconnected(t), NoReply, io.(reconnected := true))
  }

  /** `exchangeMsg` after a successful write: read, then finish with the reply,
      or hand back None on a timeout. */
  function Delivered(s: Session, cmd: string, answers: seq<int>, decode: bool, chunks: seq<string>)
    : (r: (Session, Reply, Io))
    requires SendAllowed(s)
    ensures r.2.sent == Some(cmd + [Nul])
    ensures r.0.eob == s.eob && r.0.eom == s.eom
    ensures r.2.received <= |chunks|
    ensures Receive(answers, chunks).TimedOut? ==> r == (s, NoReply, Io(Some(cmd + [Nul]), |chunks|, false))
    ensures Receive(answers, chunks).Answer? ==> r.2.received == Receive(answers, chunks).consumed
    ensures r.0.inError <==> Receive(answers, chunks).Answer? && Receive(answers, chunks).errorSeen
    ensures r.2.reconnected ==> r.0.hasSocket && r.1.NoReply?
    ensures !r.2.reconnected ==> r.0.hasSocket == s.hasSocket
    ensures r.1.Raw? ==> !decode && Receive(answers, chunks).Answer? && r.1.text == Receive(answers, chunks).reply
    ensures r.1.Value? ==> decode && Receive(answers, chunks).Answer?
    ensures r.1.Value? ==> var reply := Receive(answers, chunks).reply;
              ReplyKey(reply, answers).Some? && r.1.decoded == Decode(reply, ReplyKey(reply, answers).value)
  {
    match Receive(answers, chunks)
    case TimedOut =>
      (s, NoReply, Io(Some(cmd + [Nul]), |chunks|, false))
    case Answer(reply, errorSeen, consumed) =>
      Answered(s, answers, decode, reply, errorSeen, Io(Some(cmd + [Nul]), consumed, false))
  }

  /** `exchangeMsg`: refused outright in error; otherwise send `cmd` followed by
      NUL and read the reply, or reconnect when the write is refused or fails.
      `sendOk` is whether the socket accepts the write. */
  function Exchange(s: Session, cmd: string, decode: bool, sendOk: bool, chunks: seq<string>)
    : (r: (Session, Reply, Io))
    ensures s.inError ==> r == (s, NoReply, NoTraffic)
    ensures !s.inError && s.hasSocket ==> r.2.sent == Some(cmd + [Nul])
    ensures !s.hasSocket ==> r.2.sent.None?
    ensures !s.inError && !s.hasSocket ==> r.1.NoReply? && r.2 == Io(None, 0, true)
    ensures !sendOk ==> r.1.NoReply?
    ensures !s.inError && s.hasSocket && !sendOk ==> r.2.reconnected && r.2.received == 0
    ensures r.0.eob == s.eob && r.0.eom == s.eom
    ensures r.2.received <= |chunks|
    ensures s.inError ==> r.0.inError
    ensures r.2.reconnected ==> r.0.hasSocket && r.1.NoReply?
    ensures !r.2.reconnected ==> r.0.hasSocket == s.hasSocket
    ensures r.1.Raw? ==> !decode && 0 < r.2.received
    ensures r.1.Value? ==> decode && 0 < r.2.received
  {
    if s.inError then (s, NoReply, NoTraffic)
    else if !SendAllowed(s) then (Reconnected(s), NoReply, Io(None, 0, true))
    else if !sendOk then (Reconnected(s), NoReply, Io(Some(cmd + [Nul]), 0, true))
    else Delivered(s, cmd, AnswerList(cmd, s.eob, s.eom), decode, chunks)
  }

  /** A write that goes through is followed by the read and key search for the
      codes the answer table gives the command under the session's settings. */
  lemma ExchangeDelivers(s: Session, cmd: string, decode: bool, chunks: seq<string>)
    requires !s.inError && s.hasSocket
    ensures Exchange(s, cmd, decode, true, chunks) == Delivered(s, cmd, AnswerList(cmd, s.eob, s.eom), decode, chunks)
  {
  }

  /** A write is attempted exactly when a socket is held and the flag is clear. */
  lemma SendGuard(s: Session, cmd: string, decode: bool, sendOk: bool, chunks: seq<string>)
    ensures Exchange(s, cmd, decode, sendOk, chunks).2.sent.Some? <==> s.hasSocket && !s.inError
  {
  }

  /** After a timeout the last chunk read holds no error code. */
  lemma ResponseLastChunk(answers: seq<int>, chunks: seq<string>)
    requires Receive(answers, chunks).TimedOut?
    ensures |chunks| > 0 ==> !HasErrorCode(chunks[|chunks| - 1])
  {
    ReceiveTimesOut(answers, chunks);
    if |chunks| > 0 {
      assert !Hit(answers, chunks[|chunks| - 1]);
    }
  }

  /** After a write, the error flag is set exactly when the last chunk read holds
      an error code. */
  lemma DeliveredErrorFlag(s: Session, cmd: string, answers: seq<int>, decode: bool, chunks: seq<string>)
    requires SendAllowed(s)
    ensures var r := Delivered(s, cmd, answers, decode, chunks);
            r.0.inError <==> 0 < r.2.received <= |chunks| && HasErrorCode(chunks[r.2.received - 1])
  {
    if Receive(answers, chunks).TimedOut? {
      TimedOutErrorFlag(s, cmd, answers, decode, chunks);
    } else {
      AnsweredErrorFlag(s, cmd, answers, decode, chunks);
    }
  }

  lemma TimedOutErrorFlag(s: Session, cmd: string, answers: seq<int>, decode: bool, chunks: seq<string>)
    requires SendAllowed(s) && Receive(answers, chunks).TimedOut?
    ensures var r := Delivered(s, cmd, answers, decode, chunks);
            !r.0.inError && r.2.received == |chunks| && (|chunks| > 0 ==> !HasErrorCode(chunks[|chunks| - 1]))
  {
    ResponseLastChunk(answers, chunks);
  }

  lemma AnsweredErrorFlag(s: Session, cmd: string, answers: seq<int>, decode: bool, chunks: seq<string>)
    requires SendAllowed(s) && Receive(answers, chunks).Answer?
    ensures var r := Delivered(s, cmd, answers, decode, chunks);
            0 < r.2.received <= |chunks| && (r.0.inError <==> HasErrorCode(chunks[r.2.received - 1]))
  {
    ReceiveStopsAtHit(answers, chunks);
  }

  /** The error flag after an exchange: set before, or set by an error code in the
      last chunk read. */
  lemma ExchangeErrorFlag(s: Session, cmd: string, decode: bool, sendOk: bool, chunks: seq<string>)
    ensures var r := Exchange(s, cmd, decode, sendOk, chunks);
            r.0.inError <==> s.inError || (0 < r.2.received <= |chunks| && HasErrorCode(chunks[r.2.received - 1]))
  {
    if !s.inError && SendAllowed(s) && sendOk {
      DeliveredErrorFlag(s, cmd, AnswerList(cmd, s.eob, s.eom), decode, chunks);
    }
  }

  /** A raw reply is the last chunk read. */
  lemma ExchangeRawReply(s: Session, cmd: string, decode: bool, sendOk: bool, chunks: seq<string>)
    ensures var r := Exchange(s, cmd, decode, sendOk, chunks);
            r.1.Raw? ==> 0 < r.2.received <= |chunks| && r.1.text == chunks[r.2.received - 1]
  {
    if !s.inError && SendAllowed(s) && sendOk {
      var answers := AnswerList(cmd, s.eob, s.eom);
      DeliveredRawReply(s, cmd, answers, decode, chunks);
      assert Exchange(s, cmd, decode, sendOk, chunks) == Delivered(s, cmd, answers, decode, chunks);
    } else {
      assert Exchange(s, cmd, decode, sendOk, chunks).1.NoReply?;
    }
  }

  lemma DeliveredRawReply(s: Session, cmd: string, answers: seq<int>, decode: bool, chunks: seq<string>)
    requires SendAllowed(s)
    ensures var r := Delivered(s, cmd, answers, decode, chunks);
            r.1.Raw? ==> 0 < r.2.received <= |chunks| && r.1.text == chunks[r.2.received - 1]
  {
    var rec := Receive(answers, chunks);
    var r := Delivered(s, cmd, answers, decode, chunks);
    if rec.Answer? {
      assert r.2.received == rec.consumed;
      assert r.1.Raw? ==> r.1.text == rec.reply;
    } else {
      assert r.1.NoReply?;
    }
  }

  /** A chunk that ended the read loop always has a key: a bracketed code in it
      also shows the code's digits. */
  lemma HitHasKey(answers: seq<int>, reply: string)
    requires Hit(answers, reply)
    ensures ReplyKey(reply, answers).Some?
  {
    if |answers| != 0 && ResponseContains(reply, BracketAll(answers)) {
      var i :| 0 <= i < |answers| && Contains(reply, BracketAll(answers)[i]);
      BracketedHasCode(reply, answers[i]);
    } else {
      var i :| 0 <= i < |ErrorCodes| && Contains(reply, ErrorMarks[i]);
      BracketedHasCode(reply, ErrorCodes[i]);
    }
  }

  /** Once a reply is read, the exchange returns it and never reconnects: the
      reconnect after the key search is reached only when nothing arrives in time
      is false, since a reply that ends the read loop always matches a key. */
  lemma AnsweredExchangeReturns(s: Session, cmd: string, decode: bool, chunks: seq<string>)
    requires SendAllowed(s)
    requires Receive(AnswerList(cmd, s.eob, s.eom), chunks).Answer?
    ensures !Exchange(s, cmd, decode, true, chunks).1.NoReply?
    ensures !Exchange(s, cmd, decode, true, chunks).2.reconnected
  {
    var answers := AnswerList(cmd, s.eob, s.eom);
    ReceiveStopsAtHit(answers, chunks);
    HitHasKey(answers, Receive(answers, chunks).reply);
  }

  /** A new controller holds no socket: its first exchange writes nothing, returns
      None and connects. */
  lemma NewControllerReconnects(cmd: string, decode: bool, sendOk: bool, chunks: seq<string>)
    ensures Exchange(InitialSession, cmd, decode, sendOk, chunks)
            == (Session(true, false, true, true), NoReply, Io(None, 0, true))
  {
  }

  /** A timeout returns None and leaves every flag as it was. */
  lemma TimeoutKeepsSession(s: Session, cmd: string, decode: bool, chunks: seq<string>)
    requires SendAllowed(s)
    requires Receive(AnswerList(cmd, s.eob, s.eom), chunks).TimedOut?
    ensures Exchange(s, cmd, decode, true, chunks).0 == s
    ensures Exchange(s, cmd, decode, true, chunks).1.NoReply?
    ensures Exchange(s, cmd, decode, true, chunks).2 == Io(Some(cmd + [Nul]), |chunks|, false)
  {
  }

  /** The error flag, once set, survives any number of exchanges, and each of
      them is refused without traffic. */
  lemma {:induction false} ErrorIsSticky(s: Session, cmds: seq<string>, sendOk: bool, chunks: seq<string>)
    requires s.inError
    ensures Exchanges(s, cmds, sendOk, chunks) == s
    decreases |cmds|
  {
    if |cmds| > 0 {
      ErrorIsSticky(Exchange(s, cmds[0], true, sendOk, chunks).0, cmds[1..], sendOk, chunks);
    }
  }

  /** The session after exchanging each command in turn, all with the same inputs. */
  function Exchanges(s: Session, cmds: seq<string>, sendOk: bool, chunks: seq<string>): (t: Session)
    ensures t.eob == s.eob && t.eom == s.eom
    decreases |cmds|
  {
    if |cmds| == 0 then s
    else Exchanges(Exchange(s, cmds[0], true, sendOk, chunks).0, cmds[1..], sendOk, chunks)
  }

  /** When the key is an error code, the decoded reply is its cleaned text. */
  lemma ErrorReplyIsText(s: Session, cmd: string, chunks: seq<string>)
    requires SendAllowed(s)
    requires Receive(AnswerList(cmd, s.eob, s.eom), chunks).Answer?
    requires ReplyKey(Receive(AnswerList(cmd, s.eob, s.eom), chunks).reply, AnswerList(cmd, s.eob, s.eom)).Some?
    requires ReplyKey(Receive(AnswerList(cmd, s.eob, s.eom), chunks).reply, AnswerList(cmd, s.eob, s.eom)).value.ErrorKey?
    ensures Exchange(s, cmd, true, true, chunks).1.Value?
    ensures Exchange(s, cmd, true, true, chunks).1.decoded.Text?
  {
  }

  /** The replies that tell `ResetError` the reset went through. */
  const ResetConfirmations: seq<string> := ["The error was reset", "There was no error to reset"]

  /** What `ResetError` ends with: the reply it checked, or the AttributeError raised
      when the exchange gave None (or a tuple) instead of text. */
  datatype ResetOutcome = Raised | ResetReply(text: string)

  /** An exchange started outside error that gives None leaves the flag clear:
      a timeout reads no error code, and a reply with one is always returned. */
  lemma NoReplyLeavesFlagClear(s: Session, cmd: string, decode: bool, sendOk: bool, chunks: seq<string>)
    requires !s.inError
    ensures Exchange(s, cmd, decode, sendOk, chunks).1.NoReply? ==> !Exchange(s, cmd, decode, sendOk, chunks).0.inError
  {
    if SendAllowed(s) && sendOk {
      var answers := AnswerList(cmd, s.eob, s.eom);
      match Receive(answers, chunks)
      case TimedOut =>
        ResponseLastChunk(answers, chunks);
      case Answer(reply, _, _) =>
        ReceiveStopsAtHit(answers, chunks);
        HitHasKey(answers, reply);
    }
  }

  /** A command whose expected codes carry neither positions nor integers can only
      decode to text. */
  lemma TextOnlyReplies(s: Session, cmd: string, sendOk: bool, chunks: seq<string>)
    requires forall c :: c in AnswerList(cmd, s.eob, s.eom) ==> !IsPositionKey(AnswerKey(c)) && !IsStatusKey(AnswerKey(c))
    ensures Exchange(s, cmd, true, sendOk, chunks).1.Value? ==> Exchange(s, cmd, true, sendOk, chunks).1.decoded.Text?
  {
  }

  /** The reset command is acknowledged by 2005 or 2006 only. */
  lemma ResetCommandAnswers(eob: bool, eom: bool)
    ensures AnswerList("ResetError", eob, eom) == [2005, 2006]
  {
    AnswerExamples.ResetErrorAnswers("", eob, eom);
    assert "ResetError" + "" == "ResetError";
  }

  /** `ResetError`: clear the flag, exchange "ResetError", then set the flag again
      unless the reply confirms the reset. Checking a None reply raises. */
  function ResetError(s: Session, sendOk: bool, chunks: seq<string>): (r: (Session, ResetOutcome, Io))
    ensures var x := Exchange(s.(inError := false), "ResetError", true, sendOk, chunks);
            && (r.1.ResetReply? <==> x.1.Value?)
            && (r.1.ResetReply? ==> x.1.decoded == Text(r.1.text))
            && r.2 == x.2
            && r.0 == x.0.(inError := r.0.inError)
    ensures s.hasSocket ==> r.2.sent == Some("ResetError" + [Nul])
    ensures r.1.Raised? ==> !r.0.inError
    ensures r.1.ResetReply? ==> (r.0.inError <==> !ResponseContains(r.1.text, ResetConfirmations))
    ensures r.0.eob == s.eob && r.0.eom == s.eom
  {
    var cleared := s.(inError := false);
    var x := Exchange(cleared, "ResetError", true, sendOk, chunks);
    NoReplyLeavesFlagClear(cleared, "ResetError", true, sendOk, chunks);
    ResetCommandAnswers(s.eob, s.eom);
    TextOnlyReplies(cleared, "ResetError", sendOk, chunks);
    match x.1
    case Value(Text(text)) =>
      (x.0.(inError := !ResponseContains(text, ResetConfirmations)), ResetReply(text), x.2)
    case _ =>
      (x.0, Raised, x.2)
  }

  /** Only the answer list reads EOB and EOM: two sessions that differ in those
      settings alone, and await the same codes for `cmd`, exchange alike. */
  lemma ExchangeIgnoresSettings(s: Session, eob: bool, eom: bool, cmd: string, decode: bool, sendOk: bool, chunks: seq<string>)
    requires AnswerList(cmd, eob, eom) == AnswerList(cmd, s.eob, s.eom)
    ensures var x := Exchange(s, cmd, decode, sendOk, chunks);
            Exchange(s.(eob := eob, eom := eom), cmd, decode, sendOk, chunks) == (x.0.(eob := eob, eom := eom), x.1, x.2)
  {
    var t := s.(eob := eob, eom := eom);
    if !s.inError && SendAllowed(s) && sendOk {
      var answers := AnswerList(cmd, s.eob, s.eom);
      assert Exchange(s, cmd, decode, sendOk, chunks) == Delivered(s, cmd, answers, decode, chunks);
      assert Exchange(t, cmd, decode, sendOk, chunks) == Delivered(t, cmd, answers, decode, chunks);
      DeliveredIgnoresSettings(s, t, cmd, answers, decode, chunks);
    }
  }

  lemma DeliveredIgnoresSettings(s: Session, t: Session, cmd: string, answers: seq<int>, decode: bool, chunks: seq<string>)
    requires SendAllowed(s)
    requires t == s.(eob := t.eob, eom := t.eom)
    ensures var x := Delivered(s, cmd, answers, decode, chunks);
            Delivered(t, cmd, answers, decode, chunks) == (x.0.(eob := t.eob, eom := t.eom), x.1, x.2)
  {
    match Receive(answers, chunks)
    case TimedOut =>
    case Answer(reply, errorSeen, consumed) =>
      var io := Io(Some(cmd + [Nul]), consumed, false);
      assert Delivered(s, cmd, answers, decode, chunks) == Answered(s, answers, decode, reply, errorSeen, io);
      assert Delivered(t, cmd, answers, decode, chunks) == Answered(t, answers, decode, reply, errorSeen, io);
      AnsweredIgnoresSettings(s, t, answers, decode, reply, errorSeen, io);
  }

  lemma AnsweredIgnoresSettings(s: Session, t: Session, answers: seq<int>, decode: bool, reply: string, errorSeen: bool, io: Io)
    requires t == s.(eob := t.eob, eom := t.eom)
    ensures var x := Answered(s, answers, decode, reply, errorSeen, io);
            Answered(t, answers, decode, reply, errorSeen, io) == (x.0.(eob := t.eob, eom := t.eom), x.1, x.2)
  {
  }

  /** The argument list `(e)` of a setting command holds no letter. */
  lemma SettingArgument(e: int)
    ensures NoLetters("(" + IntToString(e) + ")")
  {
    var a := "(" + IntToString(e) + ")";
    forall c | c in a
      ensures !IsLetter(c)
    {
      if c != '(' && c != ')' {
        assert c in IntToString(e);
      }
    }
  }

  /** The text `_buildCommand` makes of a setting and its integer argument. */
  lemma SettingCommand(name: string, e: int)
    ensures CommandText(name, [IntToString(e)]) == name + "(" + IntToString(e) + ")"
  {
    assert Join([IntToString(e)], ',') == IntToString(e);
  }

  /** The setting commands await the same codes whatever EOB and EOM are. */
  lemma SetEOBAwaits(e: int, eob: bool, eom: bool)
    ensures AnswerList("SetEOB(" + IntToString(e) + ")", eob, eom) == [2054, 2055]
  {
    var args := "(" + IntToString(e) + ")";
    assert "SetEOB" + args == "SetEOB(" + IntToString(e) + ")";
    SettingArgument(e);
    AnswerExamples.SetEOBAnswers(args, eob, eom);
  }

  lemma SetEOMAwaits(e: int, eob: bool, eom: bool)
    ensures AnswerList("SetEOM(" + IntToString(e) + ")", eob, eom) == [2052, 2053]
  {
    var args := "(" + IntToString(e) + ")";
    assert "SetEOM" + args == "SetEOM(" + IntToString(e) + ")";
    SettingArgument(e);
    AnswerExamples.SetEOMAnswers(args, eob, eom);
  }

  /** `SetEOB(e)` is the plain exchange of its command text, with EOB set
      beforehand: the codes it awaits do not depend on EOB, so every property of
      `Exchange` carries over, including the refusal in error. */
  lemma SetEOBExchange(s: Session, e: int, sendOk: bool, chunks: seq<string>)
    ensures var x := Exchange(s, "SetEOB(" + IntToString(e) + ")", true, sendOk, chunks);
            SetEOB(s, e, sendOk, chunks) == (x.0.(eob := e == 1), x.1, x.2)
  {
    var cmd := "SetEOB(" + IntToString(e) + ")";
    var t := s.(eob := e == 1);
    SettingCommand("SetEOB", e);
    var built := CommandText("SetEOB", [IntToString(e)]);
    assert built == cmd;
    assert SetEOB(s, e, sendOk, chunks) == Exchange(t, built, true, sendOk, chunks);
    SetEOBAwaits(e, s.eob, s.eom);
    SetEOBAwaits(e, t.eob, t.eom);
    ExchangeIgnoresSettings(s, t.eob, t.eom, cmd, true, sendOk, chunks);
  }

  /** `SetEOM(e)` is likewise the plain exchange of its command text, with EOM set
      beforehand. */
  lemma SetEOMExchange(s: Session, e: int, sendOk: bool, chunks: seq<string>)
    ensures var x := Exchange(s, "SetEOM(" + IntToString(e) + ")", true, sendOk, chunks);
            SetEOM(s, e, sendOk, chunks) == (x.0.(eom := e == 1), x.1, x.2)
  {
    var cmd := "SetEOM(" + IntToString(e) + ")";
    var t := s.(eom := e == 1);
    SettingCommand("SetEOM", e);
    var built := CommandText("SetEOM", [IntToString(e)]);
    assert built == cmd;
    assert SetEOM(s, e, sendOk, chunks) == Exchange(t, built, true, sendOk, chunks);
    SetEOMAwaits(e, s.eob, s.eom);
    SetEOMAwaits(e, t.eob, t.eom);
    ExchangeIgnoresSettings(s, t.eob, t.eom, cmd, true, sendOk, chunks);
  }

  /** `SetEOB(e)`: the flag becomes `e == 1` before `SetEOB(e)` is exchanged. */
  function SetEOB(s: Session, e: int, sendOk: bool, chunks: seq<string>): (r: (Session, Reply, Io))
    ensures r.0.eob <==> e == 1
    ensures r.0.eom == s.eom
    ensures s.inError ==> r == (s.(eob := e == 1), NoReply, NoTraffic)
    ensures !s.inError && s.hasSocket ==> r.2.sent == Some("SetEOB(" + IntToString(e) + ")" + [Nul])
  {
    var cmd := CommandText("SetEOB", [IntToString(e)]);
    assert cmd == "SetEOB(" + IntToString(e) + ")";
    Exchange(s.(eob := e == 1), cmd, true, sendOk, chunks)
  }

  /** `SetEOM(e)`: the flag becomes `e == 1` before `SetEOM(e)` is exchanged. */
  function SetEOM(s: Session, e: int, sendOk: bool, chunks: seq<string>): (r: (Session, Reply, Io))
    ensures r.0.eom <==> e == 1
    ensures r.0.eob == s.eob
    ensures s.inError ==> r == (s.(eom := e == 1), NoReply, NoTraffic)
    ensures !s.inError && s.hasSocket ==> r.2.sent == Some("SetEOM(" + IntToString(e) + ")" + [Nul])
  {
    var cmd := CommandText("SetEOM", [IntToString(e)]);
    assert cmd == "SetEOM(" + IntToString(e) + ")";
    Exchange(s.(eom := e == 1), cmd, true, sendOk, chunks)
  }
}
