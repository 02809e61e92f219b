/**
 The text form of a command on the control port: the bare command name, or the
 name followed by its arguments in parentheses, separated by commas.
 Arguments are taken as already rendered by Python's `str`.
 */
module Commands {
  import opened Wrappers
  import opened Strings

  /** The command text for `name` and `args`, the form the robot expects. */
  function CommandText(name: string, args: seq<string>): string {
    if |args| == 0 then name else name + "(" + Join(args, ',') + ")"
  }

  /** Reads a command text back into its name and argument texts; None when an
      opening parenthesis is not matched by a closing one at the very end. */
  function ParseCommand(text: string): Option<(string, seq<string>)> {
    var open := Find(text, "(");
    if open == -1 then Some((text, []))
    else if open < |text| - 1 && text[|text| - 1] == ')' then
      Some((text[..open], Split(text[open + 1..|text| - 1], ',')))
    else None
  }

  lemma JoinAppendPiece(xs: seq<string>, x: string, sep: char)
    ensures Join(xs + [""], sep) + x + [sep] == Join(xs + [x] + [""], sep)
  {
    JoinLastPiece(xs + [x], "", sep);
    JoinLastPiece(xs, x, sep);
    assert Join(xs + [x] + [""], sep) == Join(xs + [x], sep) + [sep] + "" by {
      JoinSeparatorBeforeLast(xs + [x], sep);
    }
  }

  lemma {:induction false} JoinSeparatorBeforeLast(xs: seq<string>, sep: char)
    requires |xs| > 0
    ensures Join(xs + [""], sep) == Join(xs, sep) + [sep]
    decreases |xs|
  {
    if |xs| > 1 {
      JoinSeparatorBeforeLast(xs[1..], sep);
      assert (xs + [""])[1..] == xs[1..] + [""];
    }
  }

  /** The first `(` in `a + "(" + b` is the one after `a` when `a` has none. */
  lemma FindFirstOpen(a: string, b: string)
    requires '(' !in a
    ensures Find(a + "(" + b, "(") == |a|
  {
    var s := a + "(" + b;
    OccursBetween(a, "(", b);
    forall j | 0 <= j < |a|
      ensures !OccursAt(s, "(", j)
    {
      assert s[j] == a[j];
      assert a[j] in a;
    }
  }

  /** `_buildCommand`: the loop appends each argument but the last followed by a
      comma, then the last argument and the closing parenthesis. */
  method BuildCommand(name: string, args: seq<string>) returns (command: string)
    ensures |args| == 0 ==> command == name
    ensures |args| > 0 ==> command == name + "(" + Join(args, ',') + ")"
    ensures command == CommandText(name, args)
  {
    command := name;
    if |args| != 0 {
      command := command + "(";
      var index := 0;
      while index < |args| - 1
        invariant 0 <= index <= |args| - 1
        invariant command == name + "(" + Join(args[..index] + [""], ',')
      {
        JoinAppendPiece(args[..index], args[index], ',');
        assert args[..index + 1] == args[..index] + [args[index]];
        command := command + args[index] + ",";
        index := index + 1;
      }
      JoinLastPiece(args[..|args| - 1], args[|args| - 1], ',');
      assert args[..|args| - 1] + [args[|args| - 1]] == args;
      command := command + args[|args| - 1] + ")";
    }
  }

  /** Reading a built command back gives the name and the arguments, in order,
      provided the name has no `(` and no argument contains a comma. */
  lemma ParseBuiltCommand(name: string, args: seq<string>)
    requires '(' !in name
    requires forall i :: 0 <= i < |args| ==> ',' !in args[i]
    ensures ParseCommand(CommandText(name, args)) == Some((name, args))
  {
    var text := CommandText(name, args);
    if |args| == 0 {
      FirstCharAbsent(name, "(");
    } else {
      var inner := Join(args, ',');
      assert text == name + "(" + (inner + ")");
      FindFirstOpen(name, inner + ")");
      assert text[..|name|] == name;
      assert text[|name| + 1..|text| - 1] == inner;
      SplitJoin(args, ',');
    }
  }

  /** The argument list read back from a built command has one entry per
      argument, and the number of commas inside the parentheses is one less. */
  lemma BuiltArgumentCount(args: seq<string>)
    requires |args| > 0
    requires forall i :: 0 <= i < |args| ==> ',' !in args[i]
    ensures Count(Join(args, ','), ',') == |args| - 1
  {
    SplitJoin(args, ',');
  }
}
