# Mecademic robot driver: control-port exchange and telemetry decoding

This project models the core of the Python driver for Mecademic robot arms in
Dafny, and proves properties of that model. The driver has two sides.

**Control port** (`RobotController`):

- A command is written as `Name` or `Name(a1,a2,...)`, followed by a NUL.
- The driver then reads chunks until one of them holds a bracketed
  acknowledgement code or a bracketed error code.
- It decodes that chunk by the code found in it:
  - positions become numeric tuples;
  - status replies become integer tuples;
  - anything else becomes its cleaned text.
- The session has three pieces of state:
  - an error flag, which is sticky and refuses every further exchange;
  - the end-of-block (EOB) and end-of-movement (EOM) settings, which decide
    which codes are awaited;
  - whether a socket is held.
- A refused or failed write makes the driver drop the connection and connect
  again.

**Telemetry port** (`RobotFeedback`):

- Each read gives one chunk of text.
- The payloads of the first joints frame `[2102]` and of the first cartesian
  frame `[2103]` are cut out of the chunk. Each payload is cleaned, split at
  commas and converted with `float`.

## How the model is organised

The modules follow the driver's structure. They sit on a thin layer that models
the Python built-ins the driver relies on:

- `Strings`:
  - `find`, which gives -1 when the text is absent;
  - slicing with negative bounds;
  - `replace(x, "")`, `split(',')` and `strip`.
- `Decimal`: `str` and `int` for integers, including the underscore grammar
  of `int`.
- `Floats`: which texts `float` accepts.
- `Seqs`: generic "every element" and "map or fail" combinators.

On top of that layer:

- `Commands` is `_buildCommand`.
- `Codes` holds:
  - `_response_contains`;
  - the error-code table;
  - `_getAnswerList`, as a table of 17 rules tried in order plus the fallback.
- `Decoder` is `_decodeMsg`.
- `Controller` holds:
  - the session;
  - `_send`, `_receive` and `exchangeMsg`;
  - `ResetError`, `SetEOB` and `SetEOM`.

  `isInError` is the session's `inError` field.
- `Feedback` holds `_getJoints`, `_getCartesian`, `getData` and the initial
  telemetry state.
- `AnswerExamples` instantiates the answer table for the commands whose wrappers
  depend on it.

The socket is replaced by inputs:

- whether the session holds a socket;
- whether the write succeeds (`sendOk`);
- the sequence of chunks the robot sends. Running out of chunks stands for the
  read timeout.

`Exchange` returns three things:

- the new session;
- the reply: None, a decoded value, or the raw text;
- a record of the traffic: what was handed to the socket, how many chunks were read, and
  whether the connection was dropped and re-opened.

**Behaviour of the code worth stating up front:**

- `_send` treats any non-zero return of `send` as a complete write, so a partial
  write is not retried. An exception counts as a failed write. The model's
  `sendOk` input covers both outcomes.
- In error, `exchangeMsg` returns at once. Without a socket it does not:
  `_send` returns False and the driver reconnects. `Exchange` and
  `NewControllerReconnects` state this.
- Acknowledgement codes are matched in `_receive` in bracketed form. After the
  read, `exchangeMsg` looks for them again as bare digits:
  - first in answer-list order;
  - then through the error codes in ascending order.

  The error codes are compared as strings, so an error reply never takes a
  position or status decoding. It is returned as text.

## Model

| member | source | states |
|---|---|---|
| Codes.ResponseContains | MecademicRobot/RobotController.py:105-125 | the scan is true exactly when some listed code occurs in the response, and false for an empty list |
| Codes.ErrorCodesTable | MecademicRobot/RobotController.py:177 | the error table has 45 entries, ascending, and a code is in it exactly when it is 1000-1038 or one of 3001, 3003, 3005, 3009, 3014, 3026 |
| Codes.BracketedHasCode | MecademicRobot/RobotController.py:175-177 | a reply holding a code in brackets also holds the code's bare digits, the form `exchangeMsg` looks for |
| Codes.FirstRule | MecademicRobot/RobotController.py:302-338 | the rule chosen is the first in table order whose name occurs in the command; none is chosen only when no name occurs |
| Codes.RulesWellFormed | MecademicRobot/RobotController.py:302-338 | every rule awaits distinct codes, never end of movement on its own, and at most two codes in all |
| Codes.RuleAnswers | MecademicRobot/RobotController.py:326-330 | a rule's list has at most two codes, never the same twice |
| Codes.OtherAnswers | MecademicRobot/RobotController.py:339-348 | the fallback list holds 3012 exactly when EOB is on, holds 3004 exactly when EOM is on and a motion or frame-setting name occurs, holds nothing else, and when it holds both, 3012 comes first |
| Codes.AnswerList | MecademicRobot/RobotController.py:288-348 | every answer list has at most two codes, never the same twice |
| Codes.OtherCommandAnswers | MecademicRobot/RobotController.py:339-348 | a command naming no rule waits for end of block iff EOB is on, for end of movement iff EOM is on and it is a motion or frame setting, for nothing else, and for 3012 before 3004 when it waits for both |
| Codes.FirstHitWins | MecademicRobot/RobotController.py:302-338 | when rule k's name is the first to occur in the command, the answer list is rule k's codes, plus 3004 only for PauseMotion with EOM on |
| Codes.NamedCommandAnswers | MecademicRobot/RobotController.py:302-338 | a rule's name followed by letter-free arguments reaches that rule, provided no earlier rule's name is inside it |
| AnswerExamples.ActivateRobotAnswers | MecademicRobot/RobotController.py:302-303 | ActivateRobot, with or without an argument list, awaits 2000 or 2001 |
| AnswerExamples.DeactivateRobotAnswers | MecademicRobot/RobotController.py:308-309 | DeactivateRobot awaits 2004: the earlier ActivateRobot branch does not catch it, because its name has a lower-case "a" |
| AnswerExamples.HomeAnswers | MecademicRobot/RobotController.py:324-325 | Home awaits 2002 or 2003 |
| AnswerExamples.PauseMotionAnswers | MecademicRobot/RobotController.py:326-330 | PauseMotion awaits 2042, and also 3004 exactly when EOM is on |
| AnswerExamples.ResetErrorAnswers | MecademicRobot/RobotController.py:331-332 | ResetError awaits 2005 or 2006 |
| AnswerExamples.SetEOBAnswers | MecademicRobot/RobotController.py:335-336 | SetEOB(e) awaits 2054 or 2055, whatever EOB and EOM are |
| AnswerExamples.SetEOMAnswers | MecademicRobot/RobotController.py:337-338 | SetEOM(e) awaits 2052 or 2053, whatever EOB and EOM are |
| Commands.BuildCommand | MecademicRobot/RobotController.py:237-259 | the loop builds the bare name without arguments, and otherwise the name followed by the arguments joined with commas in parentheses |
| Commands.ParseBuiltCommand | MecademicRobot/RobotController.py:253-259 | reading a built command back gives its name and its arguments in order, when the name has no `(` and no argument has a comma |
| Commands.BuiltArgumentCount | MecademicRobot/RobotController.py:256-258 | comma-free arguments joined as the loop joins them hold one comma fewer than there are arguments |
| Decimal.ParseInt | MecademicRobot/RobotController.py:283 | `int` succeeds exactly on a literal of its grammar: optional blanks and sign around digits grouped by single underscores |
| Decimal.IntToStringRoundTrip | MecademicRobot/RobotController.py:283 | `int` reads back every integer `str` writes, so status values survive the wire |
| Decimal.IntToStringInjective | MecademicRobot/RobotController.py:175 | different codes are written as different texts |
| Floats.EmptyIsNotFloat | MecademicRobot/RobotController.py:280 | `float` rejects the empty field, such as the one between two adjacent commas |
| Floats.PointNumberIsFloat | MecademicRobot/RobotFeedback.py:91 | digits, a point and digits, as in `10.5`, are accepted by `float` |
| Floats.AllFloatsEach | MecademicRobot/RobotController.py:280 | a tuple converts exactly when `float` accepts each of its fields |
| Seqs.TryMap | MecademicRobot/RobotController.py:283 | converting every field succeeds exactly when each field converts, and then gives one value per field |
| Seqs.TryMapAt | MecademicRobot/RobotController.py:283 | the i-th value of a converted tuple is what the conversion gives for the i-th field |
| Decoder.Clean | MecademicRobot/RobotController.py:277 | the cleaned reply has no `]` and no NUL left and is no longer than the reply |
| Decoder.Decode | MecademicRobot/RobotController.py:261-286 | replies for 2026/2027 become one number per comma-separated field or raise; replies for 2029/2007/2079 become `int` of each field, in order, or raise; all others, and every error key, give the cleaned text itself |
| Decoder.ParseInts | MecademicRobot/RobotController.py:282-284 | the integer tuple exists exactly when `int` accepts every field, and has one value per field |
| Decoder.ParseIntsAt | MecademicRobot/RobotController.py:283 | each integer read is `int` of the field at the same position |
| Decoder.CleanFrame | MecademicRobot/RobotController.py:277 | cleaning a frame `[code][payload]` with its NUL gives back the payload, when the payload has no brackets or NUL |
| Decoder.SplitFrame | MecademicRobot/RobotController.py:277-278 | the cleaned frame of joined fields splits back into exactly those fields |
| Decoder.DecodeStatusFrame | MecademicRobot/RobotController.py:282-284 | a status frame of integers written by `str` decodes to exactly those integers |
| Decoder.DecodePositionFrame | MecademicRobot/RobotController.py:279-281 | a position frame decodes to its fields, in order, when `float` accepts each |
| Decoder.EmptyPositionField | MecademicRobot/RobotController.py:279-281 | a position frame with an empty field raises ValueError |
| Decoder.DecodeTextFrame | MecademicRobot/RobotController.py:285-286 | any other acknowledgement frame decodes to its payload text |
| Controller.Receive | MecademicRobot/RobotController.py:154-189 | the text returned is one of the chunks read, the last one read |
| Controller.ReceiveLoop | MecademicRobot/RobotController.py:172-189 | the driver's loop, with its two flags and the skipped answer scan for an empty list, ends exactly as the reference read does |
| Controller.ReceiveStopsAtHit | MecademicRobot/RobotController.py:179-188 | the chunk returned holds an awaited bracketed code or a bracketed error code, and the error flag is raised iff it holds an error code |
| Controller.ReceiveSkipsMisses | MecademicRobot/RobotController.py:179-186 | every chunk read before the returned one held neither kind of code |
| Controller.ReceiveTimesOut | MecademicRobot/RobotController.py:179-183 | the read times out iff no chunk holds an awaited or an error code |
| Controller.ReceiveNothingExpected | MecademicRobot/RobotController.py:184-186 | with nothing awaited (EOB off, a plain command), only an error code ends the read |
| Controller.FirstCode | MecademicRobot/RobotController.py:212-224 | the key chosen is the first code in list order whose digits occur; none is chosen only when no code's digits occur |
| Controller.ReplyKey | MecademicRobot/RobotController.py:212-224 | an answer key is the first awaited code, in list order, whose digits occur; an error key is the first error code, in table order, whose digits occur, chosen only when no awaited code occurs; no key iff neither occurs |
| Controller.ReplyKeyLowestError | MecademicRobot/RobotController.py:218-224 | an error key is the lowest error code whose digits occur in the reply |
| Controller.Reconnected | MecademicRobot/RobotController.py:231-235 | after the drop and reconnect a socket is held again, and all flags are unchanged |
| Controller.Answered | MecademicRobot/RobotController.py:211-235 | after a reply: the flag becomes set iff it was or the reply holds an error code; a key gives the decoded value (or the raw text without decoding); no key reconnects and returns None |
| Controller.Delivered | MecademicRobot/RobotController.py:208-229 | after a write: a timeout returns None and leaves the session as it was; otherwise the chunks read stop at the reply, and the value is the reply decoded by its key |
| Controller.Exchange | MecademicRobot/RobotController.py:191-235 | in error nothing is written and None is returned; otherwise the command and a NUL are handed to the socket when one is held; without a socket nothing is written or read, the driver reconnects and None is returned; a failed write also reconnects and returns None; EOB and EOM never change |
| Controller.ExchangeDelivers | MecademicRobot/RobotController.py:206-210 | after a write that goes through, the read awaits exactly the codes the answer table gives the command under the session's EOB and EOM |
| Controller.SendGuard | MecademicRobot/RobotController.py:140-141 | a write is attempted exactly when a socket is held and the error flag is clear |
| Controller.ExchangeErrorFlag | MecademicRobot/RobotController.py:187-188 | after an exchange the flag is set iff it was set before or the last chunk read holds an error code |
| Controller.ExchangeRawReply | MecademicRobot/RobotController.py:216-217 | an undecoded reply is exactly the last chunk read |
| Controller.HitHasKey | MecademicRobot/RobotController.py:212-224 | a chunk that ended the read always matches a key in the search that follows |
| Controller.AnsweredExchangeReturns | MecademicRobot/RobotController.py:211-235 | once a reply is read the exchange returns it: the reconnect after the key search cannot be reached from there |
| Controller.NewControllerReconnects | MecademicRobot/RobotController.py:29-33 | a new controller's first exchange writes nothing, returns None and connects, keeping error off and EOB, EOM on |
| Controller.TimeoutKeepsSession | MecademicRobot/RobotController.py:182-183 | a timeout returns None and leaves every flag as it was, after writing the command once |
| Controller.ErrorIsSticky | MecademicRobot/RobotController.py:207 | once set, the flag survives any number of exchanges, and none of them changes the session |
| Controller.ErrorReplyIsText | MecademicRobot/RobotController.py:218-224 | a reply matched only by an error code is handed back as text, never as a tuple |
| Controller.NoReplyLeavesFlagClear | MecademicRobot/RobotController.py:225-235 | an exchange started with the flag clear that returns None leaves the flag clear |
| Controller.TextOnlyReplies | MecademicRobot/RobotController.py:279-286 | a command awaiting no position or status code only ever decodes to text |
| Controller.ResetCommandAnswers | MecademicRobot/RobotController.py:331-332 | the reset command awaits 2005 or 2006, whatever EOB and EOM are |
| Controller.ResetError | MecademicRobot/RobotController.py:45-61 | the reset clears the flag, exchanges "ResetError" and keeps the exchange's traffic; the session it ends with is the exchange's, except for the error flag; a text reply is the exchange's decoded reply, and the flag ends set iff it confirms neither outcome; when the exchange gives None, the reset raises, with the flag clear |
| Controller.SetEOB | MecademicRobot/RobotController.py:405-424 | EOB becomes on iff e == 1, before `SetEOB(e)` is written; EOM is untouched; in error only EOB changes, nothing is written and None is returned |
| Controller.ExchangeIgnoresSettings | MecademicRobot/RobotController.py:206-210 | when a command awaits the same codes under two EOB/EOM settings, exchanging it under either gives the same reply, traffic and session apart from those two flags |
| Controller.SetEOBExchange | MecademicRobot/RobotController.py:418-424 | `SetEOB(e)` is exactly the exchange of the text `SetEOB(e)` from the caller's session, with EOB then set to e == 1: same reply, same traffic, same error flag and socket |
| Controller.SetEOM | MecademicRobot/RobotController.py:426-445 | EOM becomes on iff e == 1, before `SetEOM(e)` is written; EOB is untouched; in error only EOM changes, nothing is written and None is returned |
| Controller.SetEOMExchange | MecademicRobot/RobotController.py:439-445 | `SetEOM(e)` is exactly the exchange of the text `SetEOM(e)` from the caller's session, with EOM then set to e == 1: same reply, same traffic, same error flag and socket |
| Feedback.Fresh | MecademicRobot/RobotFeedback.py:19-22 | a new feedback object holds no socket and two empty tuples |
| Feedback.Cut | MecademicRobot/RobotFeedback.py:85-88 | the cut is the stretch of the chunk that starts where the slice at the marker's `find` starts, and it holds no NUL |
| Feedback.Extract | MecademicRobot/RobotFeedback.py:85-90 | the cut-out payload always yields at least one field, and no field holds a comma |
| Feedback.GetJoints | MecademicRobot/RobotFeedback.py:80-91 | joints are replaced by the extracted fields exactly when `float` accepts each, and nothing else changes |
| Feedback.GetCartesian | MecademicRobot/RobotFeedback.py:93-104 | cartesian values are replaced by the extracted fields exactly when `float` accepts each, and nothing else changes |
| Feedback.GetData | MecademicRobot/RobotFeedback.py:64-78 | without a socket or on a timeout nothing changes; a read raises exactly when `float` rejects a joints or a cartesian field; a joints failure leaves everything unchanged; joints are stored even when the cartesian conversion then fails; on success both tuples are the chunk's extracted fields |
| Feedback.ExtractFrame | MecademicRobot/RobotFeedback.py:85-90 | a chunk holding the frame `marker[f1,...,fn]` and NUL gives back exactly f1..fn, whatever follows it |
| Feedback.ExtractCutFrame | MecademicRobot/RobotFeedback.py:87-88 | a frame with no NUL after it loses its last character, as a slice up to -1 does |
| Feedback.ExtractMissingMarker | MecademicRobot/RobotFeedback.py:85-90 | a chunk without the marker yields the single empty field |
| Feedback.MissingJointsRaise | MecademicRobot/RobotFeedback.py:85-91 | a chunk without a joints frame makes `_getJoints` raise |
| Feedback.JointsOfBoth | MecademicRobot/RobotFeedback.py:85-90 | a chunk of a joints frame then a cartesian frame gives back the joints fields |
| Feedback.CartesianOfBoth | MecademicRobot/RobotFeedback.py:98-103 | the same chunk gives back the cartesian fields, when the joints frame has at least two fields |
| Feedback.CartesianAfterJoints | MecademicRobot/RobotFeedback.py:98 | after a joints frame whose payload has a comma, the first `[2103]` is the cartesian frame's |
| Feedback.GetDataBothFrames | MecademicRobot/RobotFeedback.py:64-104 | a chunk with both frames whose fields are numbers updates both tuples without raising |
| Strings.Find | MecademicRobot/RobotController.py:122 | `find` gives the first occurrence, and -1 exactly when there is none |
| Strings.RemoveAll | MecademicRobot/RobotController.py:277 | `replace(pat, "")` never lengthens the text or brings in a character, and a one-character pattern is gone afterwards |
| Strings.SliceFrom | MecademicRobot/RobotFeedback.py:86 | `s[i:]` is the suffix that starts at Python's normalised bound: a negative index counts from the end, and both kinds are clamped |
| Strings.SliceTo | MecademicRobot/RobotFeedback.py:88 | `s[:i]` is the prefix that ends at Python's normalised bound |
| Strings.Split | MecademicRobot/RobotController.py:278 | `split` gives one more piece than there are separators, and no piece holds the separator |
| Strings.SplitJoin | MecademicRobot/RobotController.py:278 | splitting joined pieces free of the separator gives the pieces back |
| Strings.JoinSplit | MecademicRobot/RobotController.py:278 | joining the pieces of a split gives the text back |

## Left out

- Sockets, timeouts and the `delay` parameter are not modelled. A read becomes the next chunk of the input sequence, and a timeout becomes the end of that sequence.
- A closed connection is not modelled. On it, `recv` returns the empty text at once, every time. The `_receive` loop then never ends, because no chunk holds a code. In the model, the chunk sequence is finite, so running out of chunks is always a timeout, and `ReceiveTimesOut` does not describe that run.
- The 1024- and 256-byte receive limits and the ASCII encoding and decoding are not modelled. Text is a sequence of characters.
- The `send` retry loop is not modelled. The loop repeats while `send` returns 0, which a real socket does not return for a non-empty buffer. It is modelled as the `sendOk` input; an exception raised inside `send` is also a failed write.
- `time.sleep(1)` on reconnect is not modelled. Neither is the robot handshake inside `Connect`, or any exception `Connect` lets escape. `Controller.Reconnected` keeps only what `Connect` always does: it stores a new socket.
- `Disconnect` of either class and `Connect` of `RobotFeedback` are socket management. They appear only as the `hasSocket` flag.
- `_receive` returning None without a socket is not modelled. `exchangeMsg` calls it only after a successful write, which needs a socket, so that path is unreachable.
- Numeric values of `float` are not modelled: a position field is kept as its text, and only whether `float` accepts it is modelled.
- Unicode digits and blanks accepted by `int` and `float` are not modelled. The model takes ASCII digits and blanks only; underscores between digits are modelled.
- `str` of a command argument is not modelled: `Commands.BuildCommand` takes the argument texts already rendered. `SetEOB` and `SetEOM` render their integer argument with `str`.
- Wrapper methods that only build a command and call `exchangeMsg` are left out: Activate, Deactivate, Home, the moves, the setters and the getters. `AnswerExamples` gives the awaited codes of the ones whose answers the table names. Also left out:
  - the status-polling loops in those wrappers;
  - FirmwareUpdate.py and setup.py (packaging and firmware upload).
- `getData` catches `TimeoutError`. In the Python versions where `socket.timeout` is that same exception, the timeout is caught; the model assumes so. In older versions the timeout escapes, and that is not modelled.
- Feedback.GetDataBothFrames: requires the joints frame to have at least two fields. With a single joints field `2103`, the joints frame `[2102][2103]` itself contains the cartesian marker. `_getCartesian` then reads the wrong frame, so the lemma does not claim that case.
- Controller.Exchange: its own contract speaks only of the session, the traffic record and the kind of reply. `ExchangeDelivers` ties a write that goes through to `Delivered` with the command's answer list. The reply in terms of the individual chunks is stated in `Delivered`, `ExchangeErrorFlag`, `ExchangeRawReply` and the `Receive` lemmas.
- Controller.ResetError: returns the outcome of the reply check instead of the reply itself. The outcome is the exchange's decoded text when there is one. A None reply (timeout or reconnect) makes `_response_contains` call `find` on None, which raises AttributeError. The model shows this as `Raised`, with the flag as the exchange left it, which is clear.
