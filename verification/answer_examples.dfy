/**
 The acknowledgement codes of the commands named in the driver's answer table,
 for the bare command or the command followed by an argument list without
 letters, such as `SetEOB(1)`.
 */
module AnswerExamples {
  import opened Strings
  import opened Codes

  /** No earlier name occurs in "ActivateRobot", so a command spelled with it reaches its rule. */
  lemma ActivateRobotReached(args: string, eob: bool, eom: bool)
    requires NoLetters(args)
    ensures AnswerList(Rules[0].name + args, eob, eom) == RuleAnswers(Rules[0], eom)
  {
    NamedCommandAnswers(0, args, eob, eom);
  }

  lemma ActivateRobotAnswers(args: string, eob: bool, eom: bool)
    requires NoLetters(args)
    ensures AnswerList("ActivateRobot" + args, eob, eom) == [2000, 2001]
  {
    ActivateRobotReached(args, eob, eom);
    assert Rules[0] == Rule("ActivateRobot", [2000, 2001], false);
  }

  /** No earlier name occurs in "DeactivateRobot", so a command spelled with it reaches its rule. */
  lemma DeactivateRobotReached(args: string, eob: bool, eom: bool)
    requires NoLetters(args)
    ensures AnswerList(Rules[3].name + args, eob, eom) == RuleAnswers(Rules[3], eom)
  {
    forall i | 0 <= i < 3
      ensures !Contains(Rules[3].name, Rules[i].name)
    {
      Absent(Rules[3].name, Rules[i].name);
    }
    NamedCommandAnswers(3, args, eob, eom);
  }

  lemma DeactivateRobotAnswers(args: string, eob: bool, eom: bool)
    requires NoLetters(args)
    ensures AnswerList("DeactivateRobot" + args, eob, eom) == [2004]
  {
    DeactivateRobotReached(args, eob, eom);
    assert Rules[3] == Rule("DeactivateRobot", [2004], false);
  }

  /** No earlier name occurs in "Home", so a command spelled with it reaches its rule. */
  lemma HomeReached(args: string, eob: bool, eom: bool)
    requires NoLetters(args)
    ensures AnswerList(Rules[11].name + args, eob, eom) == RuleAnswers(Rules[11], eom)
  {
    forall i | 0 <= i < 11
      ensures !Contains(Rules[11].name, Rules[i].name)
    {
      TooLong(Rules[11].name, Rules[i].name);
    }
    NamedCommandAnswers(11, args, eob, eom);
  }

  lemma HomeAnswers(args: string, eob: bool, eom: bool)
    requires NoLetters(args)
    ensures AnswerList("Home" + args, eob, eom) == [2002, 2003]
  {
    HomeReached(args, eob, eom);
    assert Rules[11] == Rule("Home", [2002, 2003], false);
  }

  /** No earlier name occurs in "PauseMotion", so a command spelled with it reaches its rule. */
  lemma PauseMotionReached(args: string, eob: bool, eom: bool)
    requires NoLetters(args)
    ensures AnswerList(Rules[12].name + args, eob, eom) == RuleAnswers(Rules[12], eom)
  {
    forall i | 0 <= i < 12
      ensures !Contains(Rules[12].name, Rules[i].name)
    {
      Absent(Rules[12].name, Rules[i].name);
    }
    NamedCommandAnswers(12, args, eob, eom);
  }

  /** PauseMotion also waits for end of movement, exactly when that reply is on. */
  lemma PauseMotionAnswers(args: string, eob: bool, eom: bool)
    requires NoLetters(args)
    ensures AnswerList("PauseMotion" + args, eob, eom) == [2042] + (if eom then [3004] else [])
  {
    PauseMotionReached(args, eob, eom);
    assert Rules[12] == Rule("PauseMotion", [2042], true);
  }

  /** No earlier name occurs in "ResetError", so a command spelled with it reaches its rule. */
  lemma ResetErrorReached(args: string, eob: bool, eom: bool)
    requires NoLetters(args)
    ensures AnswerList(Rules[13].name + args, eob, eom) == RuleAnswers(Rules[13], eom)
  {
    forall i | 0 <= i < 13
      ensures !Contains(Rules[13].name, Rules[i].name)
    {
      Absent(Rules[13].name, Rules[i].name);
    }
    NamedCommandAnswers(13, args, eob, eom);
  }

  lemma ResetErrorAnswers(args: string, eob: bool, eom: bool)
    requires NoLetters(args)
    ensures AnswerList("ResetError" + args, eob, eom) == [2005, 2006]
  {
    ResetErrorReached(args, eob, eom);
    assert Rules[13] == Rule("ResetError", [2005, 2006], false);
  }

  /** No earlier name occurs in "SetEOB", so a command spelled with it reaches its rule. */
  lemma SetEOBReached(args: string, eob: bool, eom: bool)
    requires NoLetters(args)
    ensures AnswerList(Rules[15].name + args, eob, eom) == RuleAnswers(Rules[15], eom)
  {
    forall i | 0 <= i < 15
      ensures !Contains(Rules[15].name, Rules[i].name)
    {
      Absent(Rules[15].name, Rules[i].name);
    }
    NamedCommandAnswers(15, args, eob, eom);
  }

  lemma SetEOBAnswers(args: string, eob: bool, eom: bool)
    requires NoLetters(args)
    ensures AnswerList("SetEOB" + args, eob, eom) == [2054, 2055]
  {
    SetEOBReached(args, eob, eom);
    assert Rules[15] == Rule("SetEOB", [2054, 2055], false);
  }

  /** No earlier name occurs in "SetEOM", so a command spelled with it reaches its rule. */
  lemma SetEOMReached(args: string, eob: bool, eom: bool)
    requires NoLetters(args)
    ensures AnswerList(Rules[16].name + args, eob, eom) == RuleAnswers(Rules[16], eom)
  {
    forall i | 0 <= i < 16
      ensures !Contains(Rules[16].name, Rules[i].name)
    {
      if i == 15 {
        CharAbsent(Rules[16].name, Rules[15].name, 5);
      } else {
        Absent(Rules[16].name, Rules[i].name);
      }
    }
    NamedCommandAnswers(16, args, eob, eom);
  }

  lemma SetEOMAnswers(args: string, eob: bool, eom: bool)
    requires NoLetters(args)
    ensures AnswerList("SetEOM" + args, eob, eom) == [2052, 2053]
  {
    SetEOMReached(args, eob, eom);
    assert Rules[16] == Rule("SetEOM", [2052, 2053], false);
  }
}
