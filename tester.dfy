/** The bookkeeping of the evaluation harness (tester.py): the remote
    branch names git lists are normalised, and each one apart from master
    gets a row of the result table. Outside cleanup mode, a gated sequence
    of stages then sets the row's compile and test flags. The git and
    gradle processes are not part of this model; their exit codes are an
    input. */
module Tester {
  import opened Expressions

  /** One row of the result table. The flags are 0 or 1 in the source. */
  datatype Row = Row(branch: string, id: string, compile: bool, test: bool)

  /** The processes a branch's evaluation runs, in order. */
  datatype Command = GitCheckout | GitMerge | GradleAssemble | GradleTest

  /** The exit code of each command for the branch in a given row. */
  type ExitCodes = (nat, Command) -> int

  /** The table, a DataFrame that grows one row at a time and whose
      flags are set in place. */
  class ResultTable {
    var rows: seq<Row>

    constructor ()
      ensures rows == []
    {
      rows := [];
    }

    /** df.loc[position] = [branch, id, 0, 0] at position len(df.index). */
    method Append(branch: string, id: string) returns (position: nat)
      modifies this
      ensures position == |old(rows)|
      ensures rows == old(rows) + [Row(branch, id, false, false)]
    {
      position := |rows|;
      rows := rows + [Row(branch, id, false, false)];
    }

    /** df.loc[position, 'compile'] = 1 */
    method SetCompile(position: nat)
      requires position < |rows|
      modifies this
      ensures rows == old(rows)[position := old(rows)[position].(compile := true)]
    {
      rows := rows[position := rows[position].(compile := true)];
    }

    /** df.loc[position, 'test'] = 1 */
    method SetTest(position: nat)
      requires position < |rows|
      modifies this
      ensures rows == old(rows)[position := old(rows)[position].(test := true)]
    {
      rows := rows[position := rows[position].(test := true)];
    }
  }

  /** Python's str.split('\n'). */
  function Split(s: string): (r: seq<string>)
    ensures |r| >= 1
    ensures forall i :: 0 <= i < |r| ==> '\n' !in r[i]
  {
    if |s| == 0 then [""]
    else if s[0] == '\n' then [""] + Split(s[1..])
    else
      var rest := Split(s[1..]);
      [[s[0]] + rest[0]] + rest[1..]
  }

  /** Python's '\n'.join(parts). */
  function Join(parts: seq<string>): string
    requires |parts| >= 1
  {
    if |parts| == 1 then parts[0] else parts[0] + "\n" + Join(parts[1..])
  }

  /** Splitting loses nothing: joining the lines gives the output back. */
  lemma {:induction false} JoinSplit(s: string)
    ensures Join(Split(s)) == s
  {
    if |s| == 0 {
    } else if s[0] == '\n' {
      JoinSplit(s[1..]);
      assert [s[0]] + s[1..] == s;
    } else {
      var rest := Split(s[1..]);
      JoinSplit(s[1..]);
      var parts := [[s[0]] + rest[0]] + rest[1..];
      if |rest| == 1 {
        assert Join(parts) == [s[0]] + rest[0];
      } else {
        assert parts[1..] == rest[1..];
        assert Join(parts) == ([s[0]] + rest[0]) + "\n" + Join(rest[1..]);
        assert Join(rest) == rest[0] + "\n" + Join(rest[1..]);
      }
      assert [s[0]] + s[1..] == s;
    }
  }

  /** A name enclosed in single quotes loses them; a single quote alone
      becomes the empty name, as Python's source[1:-1] does. */
  function StripQuotes(s: string): (r: string)
    ensures |s| >= 2 && s[0] == '\'' && s[|s| - 1] == '\'' ==> "'" + r + "'" == s
    ensures !(|s| >= 1 && s[0] == '\'' && s[|s| - 1] == '\'') ==> r == s
    ensures |s| == 1 && s[0] == '\'' ==> r == ""
  {
    if |s| >= 1 && s[0] == '\'' && s[|s| - 1] == '\'' then
      if |s| >= 2 then s[1..|s| - 1] else ""
    else s
  }

  lemma StripQuotesOfQuoted(name: string)
    ensures StripQuotes("'" + name + "'") == name
  {
    var s := "'" + name + "'";
    assert s[1..|s| - 1] == name;
  }

  /** source.split('-')[0]: the name up to its first '-'. */
  function IdOf(name: string): (r: string)
    ensures r <= name && '-' !in r
    ensures |r| < |name| ==> name[|r|] == '-'
  {
    if |name| == 0 || name[0] == '-' then ""
    else [name[0]] + IdOf(name[1..])
  }

  /** Without a '-', the id is the whole name. */
  lemma IdOfWholeName(name: string)
    requires '-' !in name
    ensures IdOf(name) == name
  {
  }

  /** The branch a line of git's output stands for, if any: empty lines
      and master stand for none. */
  function BranchOf(line: string): Option<string>
  {
    if line == "" then None
    else
      var name := StripQuotes(line);
      if name == "master" then None else Some(name)
  }

  /** The branches of the lines, in order. */
  function Kept(lines: seq<string>): seq<string>
  {
    if |lines| == 0 then []
    else
      var b := BranchOf(lines[|lines| - 1]);
      Kept(lines[..|lines| - 1]) + (if b.Some? then [b.value] else [])
  }

  /** No kept branch is master, and there are at most as many as lines. */
  lemma {:induction false} KeptBranches(lines: seq<string>)
    ensures |Kept(lines)| <= |lines|
    ensures forall i :: 0 <= i < |Kept(lines)| ==> Kept(lines)[i] != "master"
  {
    if |lines| > 0 {
      KeptBranches(lines[..|lines| - 1]);
    }
  }

  /** Lines that are neither empty nor master each give one branch, their
      name without the enclosing quotes, in input order. */
  lemma {:induction false} KeptAllLines(lines: seq<string>)
    requires forall i :: 0 <= i < |lines| ==> lines[i] != "" && StripQuotes(lines[i]) != "master"
    ensures |Kept(lines)| == |lines|
    ensures forall i :: 0 <= i < |lines| ==> Kept(lines)[i] == StripQuotes(lines[i])
  {
    if |lines| > 0 {
      KeptAllLines(lines[..|lines| - 1]);
    }
  }

  /** build: checkout, merge and assemble all succeeded. */
  predicate Compiles(position: nat, exitCode: ExitCodes)
  {
    exitCode(position, GitCheckout) == 0 && exitCode(position, GitMerge) == 0 &&
    exitCode(position, GradleAssemble) == 0
  }

  /** test: it compiled and the tests passed. */
  predicate Passes(position: nat, exitCode: ExitCodes)
  {
    Compiles(position, exitCode) && exitCode(position, GradleTest) == 0
  }

  /** The stages of one branch: each failure skips the rest. */
  method EvaluateBranch(table: ResultTable, position: nat, exitCode: ExitCodes)
    requires position < |table.rows|
    requires !table.rows[position].compile && !table.rows[position].test
    modifies table
    ensures table.rows == old(table.rows)[position :=
      old(table.rows)[position].(compile := Compiles(position, exitCode), test := Passes(position, exitCode))]
  {
    if exitCode(position, GitCheckout) != 0 {
      return;
    }
    if exitCode(position, GitMerge) != 0 {
      return;
    }
    if exitCode(position, GradleAssemble) != 0 {
      return;
    }
    table.SetCompile(position);
    if exitCode(position, GradleTest) != 0 {
      return;
    }
    table.SetTest(position);
  }

  /** The table a run ends with. */
  function ExpectedRows(branches: seq<string>, cleanup: bool, exitCode: ExitCodes): seq<Row>
  {
    seq(|branches|, i requires 0 <= i < |branches| =>
      Row(branches[i], IdOf(branches[i]), !cleanup && Compiles(i, exitCode), !cleanup && Passes(i, exitCode)))
  }

  /** The entries the run makes under eval-logs/, as paths relative to it. */
  datatype LogDir = LogDir(dirs: set<string>, files: set<string>)

  /** The freshly made log directory holds only its .gitignore. */
  const FreshLogDir: LogDir := LogDir({}, {".gitignore"})

  /** The directories a relative path goes through: its prefixes that end
      just before a '/'. */
  function Ancestors(path: string): set<string>
  {
    set k | 0 < k < |path| && path[k] == '/' :: path[..k]
  }

  /** open(logdir + '/' + source + '.log', 'w') succeeds: the directories on
      the way exist and the log's own name is not a directory. */
  predicate CanOpenLog(d: LogDir, source: string)
  {
    Ancestors(source) <= d.dirs && source + ".log" !in d.dirs
  }

  /** shutil.copytree into logdir + '/' + source succeeds: nothing of that
      name exists yet (the directories above it do, as the log opened). */
  predicate CanCopy(d: LogDir, source: string)
  {
    source !in d.dirs && source !in d.files
  }

  /** Where the run is: the table, the branches deleted so far, the log
      directory, and whether an exception has ended the script. */
  datatype RunState = RunState(rows: seq<Row>, deleted: seq<string>, logs: LogDir, aborted: bool)

  /** One iteration of the loop over branches. The row is appended before
      the log is opened, so a branch whose log cannot be opened keeps a row
      with both flags 0, and one whose outputs cannot be copied keeps both
      flags 1. outputsExist tells whether outputs/<name> is a directory
      after the tests of the branch at a position. */
  function Step(s: RunState, source: string, cleanup: bool, exitCode: ExitCodes, outputsExist: nat -> bool): RunState
  {
    if s.aborted then s
    else
      var position := |s.rows|;
      if cleanup then
        s.(rows := s.rows + [Row(source, IdOf(source), false, false)], deleted := s.deleted + [source])
      else if !CanOpenLog(s.logs, source) then
        s.(rows := s.rows + [Row(source, IdOf(source), false, false)], aborted := true)
      else
        var logs := s.logs.(files := s.logs.files + {source + ".log"});
        var rows := s.rows + [Row(source, IdOf(source), Compiles(position, exitCode), Passes(position, exitCode))];
        if !(Passes(position, exitCode) && outputsExist(position)) then s.(rows := rows, logs := logs)
        else if CanCopy(logs, source) then s.(rows := rows, logs := logs.(dirs := logs.dirs + {source}))
        else s.(rows := rows, logs := logs, aborted := true)
  }

  /** The state after the loop has gone through the given branches. */
  function Run(branches: seq<string>, cleanup: bool, exitCode: ExitCodes, outputsExist: nat -> bool): RunState
  {
    if |branches| == 0 then RunState([], [], FreshLogDir, false)
    else Step(Run(branches[..|branches| - 1], cleanup, exitCode, outputsExist), branches[|branches| - 1], cleanup, exitCode, outputsExist)
  }

  lemma {:induction false} KeptAppend(a: seq<string>, b: seq<string>)
    ensures Kept(a + b) == Kept(a) + Kept(b)
  {
    if |b| == 0 {
      assert a + b == a;
    } else {
      assert (a + b)[..|a + b| - 1] == a + b[..|b| - 1];
      assert (a + b)[|a + b| - 1] == b[|b| - 1];
      KeptAppend(a, b[..|b| - 1]);
    }
  }

  /** Once the script has stopped, later branches change nothing. */
  lemma {:induction false} RunAborted(pre: seq<string>, post: seq<string>, cleanup: bool, exitCode: ExitCodes, outputsExist: nat -> bool)
    requires Run(pre, cleanup, exitCode, outputsExist).aborted
    ensures Run(pre + post, cleanup, exitCode, outputsExist) == Run(pre, cleanup, exitCode, outputsExist)
  {
    if |post| == 0 {
      assert pre + post == pre;
    } else {
      assert (pre + post)[..|pre + post| - 1] == pre + post[..|post| - 1];
      RunAborted(pre, post[..|post| - 1], cleanup, exitCode, outputsExist);
    }
  }

  /** One more line adds the step of its branch, if it has one. */
  lemma RunNextLine(lines: seq<string>, i: nat, cleanup: bool, exitCode: ExitCodes, outputsExist: nat -> bool)
    requires i < |lines|
    ensures Run(Kept(lines[..i + 1]), cleanup, exitCode, outputsExist) ==
      if BranchOf(lines[i]).Some?
      then Step(Run(Kept(lines[..i]), cleanup, exitCode, outputsExist), BranchOf(lines[i]).value, cleanup, exitCode, outputsExist)
      else Run(Kept(lines[..i]), cleanup, exitCode, outputsExist)
  {
    var next := lines[..i + 1];
    assert next[..|next| - 1] == lines[..i] && next[|next| - 1] == lines[i];
    var branches := Kept(lines[..i]);
    if BranchOf(lines[i]).Some? {
      var extended := branches + [BranchOf(lines[i]).value];
      assert Kept(next) == extended;
      assert extended[..|extended| - 1] == branches;
    } else {
      assert Kept(next) == branches;
    }
  }

  /** What the script produces from the output of git for-each-ref: the
      table, the branches deleted in cleanup mode, whether an exception
      ended it, and report.csv, which is written only when the script
      reaches its end outside cleanup mode. */
  method RunTester(output: string, cleanup: bool, exitCode: ExitCodes, outputsExist: nat -> bool)
    returns (table: ResultTable, deleted: seq<string>, aborted: bool, report: Option<seq<Row>>)
    ensures table.rows == Run(Kept(Split(output)), cleanup, exitCode, outputsExist).rows
    ensures deleted == Run(Kept(Split(output)), cleanup, exitCode, outputsExist).deleted
    ensures aborted == Run(Kept(Split(output)), cleanup, exitCode, outputsExist).aborted
    ensures report == (if cleanup || aborted then None else Some(table.rows))
  {
    var lines := Split(output);
    table := new ResultTable();
    deleted := [];
    aborted := false;
    var logs := FreshLogDir;
    var i := 0;
    while i < |lines| && !aborted
      invariant 0 <= i <= |lines|
      invariant RunState(table.rows, deleted, logs, aborted) == Run(Kept(lines[..i]), cleanup, exitCode, outputsExist)
    {
      RunNextLine(lines, i, cleanup, exitCode, outputsExist);
      var source := lines[i];
      if source != "" {
        source := StripQuotes(source);
        if source != "master" {
          var pid := IdOf(source);
          var position := table.Append(source, pid);
          if cleanup {
            deleted := deleted + [source];
          } else if !CanOpenLog(logs, source) {
            aborted := true;
          } else {
            logs := logs.(files := logs.files + {source + ".log"});
            EvaluateBranch(table, position, exitCode);
            if Passes(position, exitCode) && outputsExist(position) {
              if CanCopy(logs, source) {
                logs := logs.(dirs := logs.dirs + {source});
              } else {
                aborted := true;
              }
            }
          }
        }
      }
      i := i + 1;
    }
    if aborted {
      assert lines[..i] + lines[i..] == lines;
      KeptAppend(lines[..i], lines[i..]);
      RunAborted(Kept(lines[..i]), Kept(lines[i..]), cleanup, exitCode, outputsExist);
    } else {
      assert lines[..i] == lines;
    }
    report := if cleanup || aborted then None else Some(table.rows);
  }

  predicate EndsInLog(s: string)
  {
    |s| >= 4 && s[|s| - 4..] == ".log"
  }

  /** Names whose logs and copies cannot clash: no '/', not .gitignore and
      not ending in .log, and no two alike. */
  predicate PlainNames(branches: seq<string>)
  {
    (forall i :: 0 <= i < |branches| ==> '/' !in branches[i] && branches[i] != ".gitignore" && !EndsInLog(branches[i])) &&
    (forall i, j :: 0 <= i < j < |branches| ==> branches[i] != branches[j])
  }

  lemma NoAncestors(path: string)
    requires '/' !in path
    ensures Ancestors(path) == {}
  {
    assert forall k :: 0 < k < |path| ==> path[k] != '/';
  }

  lemma LogNameEndsInLog(b: string)
    ensures EndsInLog(b + ".log")
  {
    assert (b + ".log")[|b + ".log"| - 4..] == ".log";
  }

  /** The log directory of a run over plain names, or of a cleanup run:
      directories named after earlier branches, and files that are
      .gitignore or end in .log. */
  predicate LogsOf(d: LogDir, branches: seq<string>)
  {
    (forall x :: x in d.dirs ==> x in branches && !EndsInLog(x)) &&
    (forall f :: f in d.files ==> f == ".gitignore" || EndsInLog(f))
  }

  lemma ExpectedRowsSnoc(branches: seq<string>, source: string, cleanup: bool, exitCode: ExitCodes)
    ensures ExpectedRows(branches + [source], cleanup, exitCode) ==
      ExpectedRows(branches, cleanup, exitCode) +
      [Row(source, IdOf(source), !cleanup && Compiles(|branches|, exitCode), !cleanup && Passes(|branches|, exitCode))]
  {
  }

  /** The step of a new plain name does not stop the script. */
  lemma StepWithoutAbort(s: RunState, pre: seq<string>, source: string, cleanup: bool, exitCode: ExitCodes, outputsExist: nat -> bool)
    requires !s.aborted && |s.rows| == |pre| && LogsOf(s.logs, pre)
    requires !cleanup ==> '/' !in source && source != ".gitignore" && !EndsInLog(source) && source !in pre
    ensures var r := Step(s, source, cleanup, exitCode, outputsExist);
      && !r.aborted
      && r.rows == s.rows + [Row(source, IdOf(source), !cleanup && Compiles(|pre|, exitCode), !cleanup && Passes(|pre|, exitCode))]
      && r.deleted == s.deleted + (if cleanup then [source] else [])
      && LogsOf(r.logs, pre + [source])
  {
    if !cleanup {
      NoAncestors(source);
      LogNameEndsInLog(source);
    }
  }

  /** In cleanup mode, or with plain names, the script runs to its end and
      its table is ExpectedRows. */
  lemma {:induction false} RunWithoutAbort(branches: seq<string>, cleanup: bool, exitCode: ExitCodes, outputsExist: nat -> bool)
    requires cleanup || PlainNames(branches)
    ensures var s := Run(branches, cleanup, exitCode, outputsExist);
      && !s.aborted
      && s.rows == ExpectedRows(branches, cleanup, exitCode)
      && s.deleted == (if cleanup then branches else [])
      && LogsOf(s.logs, branches)
  {
    if |branches| > 0 {
      var pre := branches[..|branches| - 1];
      var source := branches[|branches| - 1];
      assert pre + [source] == branches;
      RunWithoutAbort(pre, cleanup, exitCode, outputsExist);
      StepWithoutAbort(Run(pre, cleanup, exitCode, outputsExist), pre, source, cleanup, exitCode, outputsExist);
      ExpectedRowsSnoc(pre, source, cleanup, exitCode);
    }
  }

  /** A branch name with a '/' stops the script: the log's directory
      eval-logs/feature does not exist, so the run ends without a report. */
  lemma SlashBranchAborts(exitCode: ExitCodes, outputsExist: nat -> bool)
    ensures Run(["feature/x"], false, exitCode, outputsExist) ==
      RunState([Row("feature/x", "feature/x", false, false)], [], FreshLogDir, true)
  {
    var path := "feature/x";
    assert path[7] == '/' && path[..7] == "feature";
    assert "feature" in Ancestors(path);
    IdOfWholeName(path);
  }

  /** Unless an earlier branch's copy made the directory: after branch a
      passed and had outputs copied to eval-logs/a, branch a/b logs there. */
  lemma CopiedDirectoryHoldsLog()
    ensures !Run(["a", "a/b"], false, (p, c) => 0, p => true).aborted
  {
    var path := "a/b";
    forall p | p in Ancestors(path) ensures p == "a"
    {
      var k :| 0 < k < |path| && path[k] == '/' && p == path[..k];
    }
    NoAncestors("a");
    assert ["a", "a/b"][..1] == ["a"];
  }

  /** A row whose tests passed also compiled; cleanup leaves every flag 0;
      and no row is master. */
  lemma ExpectedRowsProperties(lines: seq<string>, cleanup: bool, exitCode: ExitCodes)
    ensures var rows := ExpectedRows(Kept(lines), cleanup, exitCode);
      && |rows| <= |lines|
      && (forall i :: 0 <= i < |rows| ==> rows[i].test ==> rows[i].compile)
      && (cleanup ==> forall i :: 0 <= i < |rows| ==> !rows[i].compile && !rows[i].test)
      && (forall i :: 0 <= i < |rows| ==> rows[i].branch != "master" && rows[i].id <= rows[i].branch)
  {
    KeptBranches(lines);
  }
}
