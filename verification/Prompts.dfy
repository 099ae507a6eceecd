/** What is typed at the prompts of the restore tool (src/user/restore.c:155-167). */
module Prompts {
  import opened Bytes
  import opened Snapblocks
  import opened Restore
  import opened RestoreEffect

  /** How many characters `fgets` takes for a buffer of ten: a line with its end, or nine characters of it. */
  function Taken(input: string): (n: nat)
    requires input != ""
    ensures 0 < n <= |input| && n <= 9
  {
    if input[0] == '\n' || |input| == 1 then 1 else TakenFrom(input, 1)
  }

  function TakenFrom(input: string, i: nat): (n: nat)
    requires 0 < i < |input| && i <= 9
    ensures i <= n <= |input| && n <= 9
    decreases 9 - i
  {
    if i == 9 then 9
    else if input[i] == '\n' || i + 1 == |input| then i + 1
    else TakenFrom(input, i + 1)
  }

  /** One answer per prompt, as long as there is input; `strcmp` accepts exactly "yes" with its end of line. */
  function Answers(input: string): (answers: seq<bool>)
    decreases |input|
  {
    if input == "" then []
    else
      var n := Taken(input);
      [input[..n] == "yes\n"] + Answers(input[n..])
  }

  /** A line that fits the buffer, with its end. */
  ghost predicate Line(line: string) {
    0 < |line| <= 9 && line[|line| - 1] == '\n' && forall i :: 0 <= i < |line| - 1 ==> line[i] != '\n'
  }

  function Joined(lines: seq<string>): string {
    if lines == [] then "" else lines[0] + Joined(lines[1..])
  }

  lemma {:induction false} TakenLineFrom(line: string, rest: string, i: nat)
    requires Line(line) && 0 < i < |line|
    ensures i < |line + rest| && TakenFrom(line + rest, i) == |line|
    decreases |line| - i
  {
    if i + 1 < |line| {
      TakenLineFrom(line, rest, i + 1);
    }
  }

  lemma {:induction false} TakenLine(line: string, rest: string)
    requires Line(line)
    ensures Taken(line + rest) == |line| && (line + rest)[..|line|] == line && (line + rest)[|line|..] == rest
  {
    if |line| > 1 {
      TakenLineFrom(line, rest, 1);
    }
  }

  lemma {:induction false} OneLine(line: string, rest: string)
    requires Line(line)
    ensures Answers(line + rest) == [line == "yes\n"] + Answers(rest)
  {
    hide Taken;
    TakenLine(line, rest);
  }

  lemma {:induction false} NoLines()
    ensures Answers("") == []
  {
  }

  /** Of lines of at most nine characters, each answers one prompt, and exactly the line "yes" confirms. */
  lemma {:induction false} LinesAnswer(lines: seq<string>)
    requires forall i :: 0 <= i < |lines| ==> Line(lines[i])
    ensures |Answers(Joined(lines))| == |lines|
    ensures forall i :: 0 <= i < |lines| ==> Answers(Joined(lines))[i] == (lines[i] == "yes\n")
  {
    hide Answers, Line;
    if lines == [] {
      NoLines();
    } else {
      OneLine(lines[0], Joined(lines[1..]));
      LinesAnswer(lines[1..]);
    }
  }

  /** `-a` with prompts, from what is typed: record `j` is restored if and only if line `j` is "yes". */
  lemma {:induction false} TypedYesRestores(rs: seq<Record>, only: u64, lines: seq<string>) returns (js: seq<nat>)
    requires forall i :: 0 <= i < |lines| ==> Line(lines[i])
    ensures Increasing(js) && RestoreEffect.Within(js, 0, |rs|)
    ensures forall j: nat :: j in js <==> j < |rs| && j < |lines| && lines[j] == "yes\n"
    ensures Confirmed(rs, 0, Choice(true, only, true), Answers(Joined(lines)), 0) == At(rs, js)
  {
    hide Answers, Line, Increasing, At, Confirmed, YesFrom;
    var answers := Answers(Joined(lines));
    LinesAnswer(lines);
    ConfirmedByAnswer(rs, 0, only, answers);
    js := YesFrom(answers, 0, |rs|);
  }

  /** Without input nothing is confirmed. */
  lemma {:induction false} NoInputDeclines(i: nat)
    ensures !Yes(Answers(""), i)
  {
  }

  /** The rest of a longer line answers the next prompt. */
  lemma {:induction false} LongLineAnswersTwice()
    ensures Answers("not sure yes\n") == [false, true]
  {
    var input := "not sure yes\n";
    assert TakenFrom(input, 8) == 9 && TakenFrom(input, 6) == 9 && TakenFrom(input, 4) == 9 && TakenFrom(input, 2) == 9;
    assert Taken(input) == 9 && input[9..] == "yes\n";
    assert TakenFrom("yes\n", 2) == 4;
    assert Taken("yes\n") == 4 && "yes\n"[4..] == "";
    assert Answers("yes\n") == [true];
  }
}
