/**
 Reply codes on the control port: scanning a reply for codes, the fixed set of
 error codes, and the codes that acknowledge each command.
 */
module Codes {
  import opened Wrappers
  import opened Strings
  import opened Decimal

  /** `_response_contains`: whether any of `codes` occurs in `response`; the scan
      stops at the first hit. */
  function ResponseContains(response: string, codes: seq<string>): (found: bool)
    ensures found <==> exists i :: 0 <= i < |codes| && Contains(response, codes[i])
    ensures |codes| == 0 ==> !found
  {
    if |codes| == 0 then false
    else if Contains(response, codes[0]) then true
    else ResponseContains(response, codes[1..])
  }

  /** The error codes the driver watches for, in the order it tries them. */
  const ErrorCodes: seq<int> := Range(FirstErrorCode, FirstErrorCode + 39) + [3001, 3003, 3005, 3009, 3014, 3026]

  /** The start of the contiguous block of error codes. */
  const FirstErrorCode: int := 1000

  /** Python's `range(lo, hi)`. */
  function Range(lo: int, hi: int): (r: seq<int>)
    requires lo <= hi
    ensures |r| == hi - lo
    ensures forall i :: 0 <= i < |r| ==> r[i] == lo + i
    decreases hi - lo
  {
    if lo == hi then [] else [lo] + Range(lo + 1, hi)
  }

  /** The error codes as a set: 1000 to 1038 and six codes of the 3000 range. */
  predicate IsErrorCode(c: int) {
    (1000 <= c <= 1038) || c == 3001 || c == 3003 || c == 3005 || c == 3009 || c == 3014 || c == 3026
  }

  /** Where each error code sits in the table. */
  lemma ErrorCodesLayout()
    ensures |ErrorCodes| == 45
    ensures forall i :: 0 <= i < 39 ==> ErrorCodes[i] == 1000 + i
    ensures ErrorCodes[39..] == [3001, 3003, 3005, 3009, 3014, 3026]
  {
    assert ErrorCodes[..39] == Range(FirstErrorCode, FirstErrorCode + 39);
  }

  lemma ErrorCodesMembers()
    ensures forall c :: c in ErrorCodes <==> IsErrorCode(c)
  {
    ErrorCodesLayout();
    var tail := [3001, 3003, 3005, 3009, 3014, 3026];
    forall i | 39 <= i < 45
      ensures ErrorCodes[i] == tail[i - 39]
    {
      assert ErrorCodes[i] == ErrorCodes[39..][i - 39];
    }
    forall c | IsErrorCode(c)
      ensures c in ErrorCodes
    {
      if c <= 1038 {
        assert ErrorCodes[c - 1000] == c;
      } else {
        assert c in tail;
      }
    }
  }

  lemma ErrorCodesAscending()
    ensures forall i, j :: 0 <= i < j < |ErrorCodes| ==> ErrorCodes[i] < ErrorCodes[j]
  {
    ErrorCodesLayout();
    var tail := [3001, 3003, 3005, 3009, 3014, 3026];
    forall i | 39 <= i < 45
      ensures ErrorCodes[i] == tail[i - 39]
    {
      assert ErrorCodes[i] == ErrorCodes[39..][i - 39];
    }
  }

  /** The table holds 45 codes, exactly the error codes, in ascending order. */
  lemma ErrorCodesTable()
    ensures |ErrorCodes| == 45
    ensures forall c :: c in ErrorCodes <==> IsErrorCode(c)
    ensures forall i, j :: 0 <= i < j < |ErrorCodes| ==> ErrorCodes[i] < ErrorCodes[j]
  {
    ErrorCodesLayout();
    ErrorCodesMembers();
    ErrorCodesAscending();
  }

  /** A code as it appears on the wire: `[code]`. */
  function Bracket(code: int): string {
    "[" + IntToString(code) + "]"
  }

  function BracketAll(codes: seq<int>): (texts: seq<string>)
    ensures |texts| == |codes|
    ensures forall i :: 0 <= i < |codes| ==> texts[i] == Bracket(codes[i])
  {
    seq(|codes|, i requires 0 <= i < |codes| => Bracket(codes[i]))
  }

  /** A bracketed code in a reply also contains the bare code. */
  lemma BracketedHasCode(response: string, code: int)
    requires Contains(response, Bracket(code))
    ensures Contains(response, IntToString(code))
  {
    BracketedHasText(response, IntToString(code));
  }

  lemma BracketedHasText(response: string, t: string)
    requires Contains(response, "[" + t + "]")
    ensures Contains(response, t)
  {
    var j := Find(response, "[" + t + "]");
    var w := response[j..j + |t| + 2];
    assert w == "[" + t + "]";
    assert forall k :: 0 <= k < |t| ==> w[k + 1] == t[k];
    var inner := response[j + 1..j + 1 + |t|];
    assert forall k :: 0 <= k < |t| ==> inner[k] == w[k + 1];
    assert inner == t;
    assert OccursAt(response, t, j + 1);
  }

  const EndOfBlock: int := 3012
  const EndOfMovement: int := 3004

  /** One branch of `_getAnswerList`: a command name, the codes acknowledging it,
      and whether end of movement is also awaited when that reply is enabled. */
  datatype Rule = Rule(name: string, codes: seq<int>, endOfMove: bool)

  /** The named commands, in the order `_getAnswerList` tests them. */
  const Rules: seq<Rule> := [
    Rule("ActivateRobot", [2000, 2001], false),
    Rule("ActivateSim", [2045], false),
    Rule("ClearMotion", [2044], false),
    Rule("DeactivateRobot", [2004], false),
    Rule("BrakesOn", [2010], false),
    Rule("BrakesOff", [2008], false),
    Rule("GetConf", [2029], false),
    Rule("GetJoints", [2026], false),
    Rule("GetStatusRobot", [2007], false),
    Rule("GetStatusGripper", [2079], false),
    Rule("GetPose", [2027], false),
    Rule("Home", [2002, 2003], false),
    Rule("PauseMotion", [2042], true),
    Rule("ResetError", [2005, 2006], false),
    Rule("ResumeMotion", [2043], false),
    Rule("SetEOB", [2054, 2055], false),
    Rule("SetEOM", [2052, 2053], false)
  ]

  /** A rule acknowledges with distinct codes, none of them end of movement, and
      at most two codes in all once end of movement is added. */
  predicate WellFormedRule(r: Rule) {
    && |r.codes| + (if r.endOfMove then 1 else 0) <= 2
    && EndOfMovement !in r.codes
    && (|r.codes| == 2 ==> r.codes[0] != r.codes[1])
  }

  lemma RulesWellFormed(k: nat)
    requires k < |Rules|
    ensures WellFormedRule(Rules[k])
  {
    var r := Rules[k];
    if k < 9 {
      assert r == Rules[..9][k];
    } else {
      assert r == Rules[9..][k - 9];
    }
  }

  /** Commands after which end of movement is awaited, when that reply is enabled. */
  const MotionNames: seq<string> :=
    ["MoveJoints", "MoveLin", "MoveLinRelTRF", "MoveLinRelWRF", "MovePose",
     "SetCartAcc", "SetJointAcc", "SetTRF", "SetWRF"]

  /** The first rule whose name occurs anywhere in `command`. */
  function FirstRule(command: string, rules: seq<Rule>): (r: Option<nat>)
    ensures r.Some? ==> r.value < |rules| && Contains(command, rules[r.value].name)
    ensures r.Some? ==> forall k :: 0 <= k < r.value ==> !Contains(command, rules[k].name)
    ensures r.None? <==> forall k :: 0 <= k < |rules| ==> !Contains(command, rules[k].name)
    decreases |rules|
  {
    if |rules| == 0 then None
    else if Contains(command, rules[0].name) then Some(0)
    else
      match FirstRule(command, rules[1..])
      case None => None
      case Some(k) => Some(k + 1)
  }

  /** The codes awaited after a command that rule `r` names. */
  function RuleAnswers(r: Rule, eom: bool): (answers: seq<int>)
    requires WellFormedRule(r)
    ensures |answers| <= 2
    ensures |answers| == 2 ==> answers[0] != answers[1]
  {
    r.codes + (if r.endOfMove && eom then [EndOfMovement] else [])
  }

  /** The codes awaited after a command that no rule names. */
  function OtherAnswers(command: string, eob: bool, eom: bool): (answers: seq<int>)
    ensures EndOfBlock in answers <==> eob
    ensures EndOfMovement in answers <==> eom && ResponseContains(command, MotionNames)
    ensures forall c :: c in answers ==> c == EndOfBlock || c == EndOfMovement
    ensures |answers| <= 2
    ensures |answers| == 2 ==> answers == [EndOfBlock, EndOfMovement]
  {
    (if eob then [EndOfBlock] else [])
    + (if eom && ResponseContains(command, MotionNames) then [EndOfMovement] else [])
  }

  /** `_getAnswerList`: the codes that acknowledge `command`, given the session's
      end-of-block and end-of-movement settings. At most two codes, never the
      same code twice. */
  function AnswerList(command: string, eob: bool, eom: bool): (answers: seq<int>)
    ensures |answers| <= 2
    ensures |answers| == 2 ==> answers[0] != answers[1]
  {
    match FirstRule(command, Rules)
    case Some(k) =>
      RulesWellFormed(k);
      RuleAnswers(Rules[k], eom)
    case None => OtherAnswers(command, eob, eom)
  }

  /** A command naming none of the rules waits for end of block exactly when that
      reply is enabled, for end of movement exactly when that reply is enabled and
      the command is a motion or frame setting, and for nothing else. */
  lemma OtherCommandAnswers(command: string, eob: bool, eom: bool)
    requires FirstRule(command, Rules).None?
    ensures EndOfBlock in AnswerList(command, eob, eom) <==> eob
    ensures (EndOfMovement in AnswerList(command, eob, eom))
              <==> (eom && ResponseContains(command, MotionNames))
    ensures forall c :: c in AnswerList(command, eob, eom) ==> c == EndOfBlock || c == EndOfMovement
    ensures |AnswerList(command, eob, eom)| == 2 ==> AnswerList(command, eob, eom) == [EndOfBlock, EndOfMovement]
  {
    assert AnswerList(command, eob, eom) == OtherAnswers(command, eob, eom);
  }

  /** When the first name that occurs in `command` is that of rule `k`, the answer
      list is that rule's codes, followed by end of movement only for a rule that
      asks for it and only when that reply is enabled. */
  lemma FirstHitWins(command: string, eob: bool, eom: bool, k: nat)
    requires k < |Rules| && Contains(command, Rules[k].name)
    requires forall i :: 0 <= i < k ==> !Contains(command, Rules[i].name)
    ensures WellFormedRule(Rules[k])
    ensures AnswerList(command, eob, eom) == RuleAnswers(Rules[k], eom)
  {
    RulesWellFormed(k);
    var r := FirstRule(command, Rules);
    assert r.Some?;
    assert r.value == k;
  }

  predicate IsLetter(c: char) {
    ('A' <= c <= 'Z') || ('a' <= c <= 'z')
  }

  lemma RuleNameEndsInLetter(i: nat)
    requires i < |Rules|
    ensures |Rules[i].name| > 0 && IsLetter(Rules[i].name[|Rules[i].name| - 1])
  {
    var r := Rules[i];
    if i < 9 {
      assert r == Rules[..9][i];
    } else {
      assert r == Rules[9..][i - 9];
    }
  }

  /** A command made of rule `k`'s name followed by argument text without letters
      (such as `(1)`) gets rule `k`'s codes, provided no earlier rule's name occurs
      in rule `k`'s name. */
  lemma NamedCommandAnswers(k: nat, args: string, eob: bool, eom: bool)
    requires k < |Rules|
    requires forall i :: 0 <= i < k ==> !Contains(Rules[k].name, Rules[i].name)
    requires NoLetters(args)
    ensures WellFormedRule(Rules[k])
    ensures AnswerList(Rules[k].name + args, eob, eom) == RuleAnswers(Rules[k], eom)
  {
    RulesWellFormed(k);
    var name := Rules[k].name;
    var command := name + args;
    forall i | 0 <= i < k
      ensures !Contains(command, Rules[i].name)
    {
      RuleNameEndsInLetter(i);
      var t := Rules[i].name;
      if Contains(command, t) {
        OccursInPrefix(name, args, t);
      }
    }
    OccursBetween("", name, args);
    assert "" + name + args == command;
    FirstHitWins(command, eob, eom, k);
  }

  /** A text without letters, such as the argument list `(1)` of a command. */
  predicate NoLetters(s: string) {
    forall c :: c in s ==> !IsLetter(c)
  }
}
