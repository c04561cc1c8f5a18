/**
 * The text handling of the Quash shell (project1/quash.c): trimming the
 * input line, splitting it into arguments, choosing what to do with it, and
 * the `echo` and `set` builtins. The environment is a map from variable
 * names to values.
 */
module Quash {
  import opened Wrappers

  /** `isspace` in the C locale: space, and tab through carriage return. */
  predicate IsSpace(c: char)
  {
    c == ' ' || 9 <= c as int <= 13
  }

  predicate Blank(s: string)
  {
    forall k :: 0 <= k < |s| ==> IsSpace(s[k])
  }

  /** strlen: the index of the first NUL. */
  function Strlen(s: seq<char>): (n: nat)
    requires '\0' in s
    ensures n < |s| && s[n] == '\0'
    ensures forall k :: 0 <= k < n ==> s[k] != '\0'
  {
    if s[0] == '\0' then 0 else 1 + Strlen(s[1..])
  }

  /** The C string held by a buffer: the characters before its first NUL. */
  function CStr(s: seq<char>): string
    requires '\0' in s
  {
    s[..Strlen(s)]
  }

  // ---------------------------------------------------------------- trim

  /** `s` without its trailing whitespace. */
  function TrimEnd(s: string): (r: string)
    ensures |r| <= |s| && r == s[..|r|]
  {
    if s != [] && IsSpace(s[|s| - 1]) then TrimEnd(s[..|s| - 1]) else s
  }

  /** TrimEnd cuts exactly the trailing whitespace: a prefix, followed only by whitespace, ending in a non-space. */
  lemma {:induction false} TrimEndCuts(s: string)
    ensures forall k :: |TrimEnd(s)| <= k < |s| ==> IsSpace(s[k])
    ensures TrimEnd(s) == [] || !IsSpace(TrimEnd(s)[|TrimEnd(s)| - 1])
    ensures TrimEnd(s) == [] <==> Blank(s)
  {
    if s != [] && IsSpace(s[|s| - 1]) {
      var t := s[..|s| - 1];
      TrimEndCuts(t);
    }
  }

  /** Trimming twice trims nothing more. */
  lemma TrimEndIdempotent(s: string)
    ensures TrimEnd(TrimEnd(s)) == TrimEnd(s)
  {
    TrimEndCuts(s);
  }

  /** When `b` is the last non-space of `s`, TrimEnd keeps `s` up to and including `b`. */
  lemma {:induction false} TrimEndAt(s: string, b: int)
    requires 0 <= b < |s| && !IsSpace(s[b])
    requires forall k :: b < k < |s| ==> IsSpace(s[k])
    ensures TrimEnd(s) == s[..b + 1]
  {
    if b < |s| - 1 {
      var t := s[..|s| - 1];
      assert t[b] == s[b];
      TrimEndAt(t, b);
      assert t[..b + 1] == s[..b + 1];
    } else {
      assert s[..b + 1] == s;
    }
  }

  /**
   * The C string a buffer holds after `trim`: unchanged when it is blank, and
   * otherwise cut after its last non-space; leading whitespace stays.
   */
  function Trimmed(s: string): string
  {
    if Blank(s) then s else TrimEnd(s)
  }

  /**
   * trim: a pointer skips the leading whitespace, and a NUL is written after
   * the last non-space. The caller still sees the leading whitespace, and a
   * blank string is left alone.
   */
  method Trim(cmd: array<char>)
    requires '\0' in cmd[..]
    modifies cmd
    ensures Blank(CStr(old(cmd[..]))) ==> cmd[..] == old(cmd[..])
    ensures !Blank(CStr(old(cmd[..]))) ==>
      cmd[..] == old(cmd[..])[|TrimEnd(CStr(old(cmd[..])))| := '\0']
    ensures '\0' in cmd[..] && CStr(cmd[..]) == Trimmed(CStr(old(cmd[..])))
  {
    ghost var s := cmd[..];
    ghost var n := Strlen(s);
    var i := 0;
    while IsSpace(cmd[i])
      invariant 0 <= i <= n
      invariant forall k :: 0 <= k < i ==> IsSpace(cmd[k])
      decreases n - i
    {
      i := i + 1;
    }
    if cmd[i] == '\0' {
      assert i == n;
      assert CStr(s) == s[..i];
      return;
    }
    var back := FindBack(cmd, i, n);
    ghost var t := CStr(s);
    assert t[i] == s[i] && !IsSpace(t[i]);
    TrimEndAt(t, back);
    cmd[back + 1] := '\0';
    assert cmd[..][..back + 1] == t[..back + 1];
    CStrCut(cmd[..], back + 1);
  }

  /**
   * The `back` pointer of trim: from the end of the string, it moves left
   * over whitespace, stopping at the first character `i` at the latest.
   */
  method FindBack(cmd: array<char>, i: int, ghost n: int) returns (back: int)
    requires 0 <= i < n < cmd.Length && cmd[n] == '\0' && forall k :: 0 <= k < n ==> cmd[k] != '\0'
    requires !IsSpace(cmd[i])
    ensures i <= back < n && !IsSpace(cmd[back])
    ensures forall k :: back < k < n ==> IsSpace(cmd[k])
  {
    assert cmd[i..][n - i] == '\0';
    back := i + Strlen(cmd[i..]) - 1;
    while IsSpace(cmd[back]) && back > i
      invariant i <= back < n
      invariant forall k :: back < k < n ==> IsSpace(cmd[k])
    {
      back := back - 1;
    }
  }

  /** A buffer whose first NUL is at `n` holds the `n` characters before it. */
  lemma CStrCut(s: seq<char>, n: int)
    requires 0 <= n < |s| && s[n] == '\0' && forall k :: 0 <= k < n ==> s[k] != '\0'
    ensures '\0' in s && CStr(s) == s[..n]
  {
  }

  // ----------------------------------------------------------- parse_cmd

  /** The delimiters of the first `strtok` call of parse_cmd, and of the later ones. */
  const Spaces: set<char> := {' '}
  const SpacesAndEquals: set<char> := {' ', '='}

  /** A token `strtok` returns, and where its next call resumes. */
  datatype Token = Token(text: string, next: nat)

  /**
   * strtok resuming at `p`: skip delimiters; none left means NULL; otherwise
   * the token runs to the next delimiter, which is overwritten, so that the
   * next call resumes after it.
   */
  function StrTok(s: string, p: nat, delims: set<char>): (r: Option<Token>)
    requires p <= |s|
    ensures r.Some? ==> p < r.value.next <= |s| && r.value.text != []
    ensures r.Some? ==> forall k :: 0 <= k < |r.value.text| ==> r.value.text[k] !in delims
    decreases |s| - p
  {
    if p == |s| then None
    else if s[p] in delims then StrTok(s, p + 1, delims)
    else
      var e := RunEnd(s, p, delims);
      Some(Token(s[p..e], if e == |s| then e else e + 1))
  }

  /** strcspn from `b`: the first delimiter at or after `b`, or the end. */
  function RunEnd(s: string, b: nat, delims: set<char>): (e: nat)
    requires b <= |s|
    ensures b <= e <= |s| && (e < |s| ==> s[e] in delims)
    ensures forall k :: b <= k < e ==> s[k] !in delims
    decreases |s| - b
  {
    if b == |s| || s[b] in delims then b else RunEnd(s, b + 1, delims)
  }

  /**
   * Reference definition, one character at a time: the maximal runs of
   * non-delimiters in `s`, in order.
   */
  function Runs(s: string, delims: set<char>): (r: seq<string>)
    ensures s != [] && s[0] !in delims ==> r != [] && r[0] != [] && r[0][0] == s[0]
  {
    if s == [] then []
    else
      var rest := Runs(s[1..], delims);
      if s[0] in delims then rest
      else if |s| > 1 && s[1] !in delims then [[s[0]] + rest[0]] + rest[1..]
      else [[s[0]]] + rest
  }

  /** No run is empty, and none holds a delimiter. */
  lemma {:induction false} RunsShape(s: string, delims: set<char>)
    ensures forall i :: 0 <= i < |Runs(s, delims)| ==>
      Runs(s, delims)[i] != [] && forall k :: 0 <= k < |Runs(s, delims)[i]| ==> Runs(s, delims)[i][k] !in delims
  {
    if s != [] {
      RunsShape(s[1..], delims);
      var rest := Runs(s[1..], delims);
      if s[0] !in delims && |s| > 1 && s[1] !in delims {
        var w := [s[0]] + rest[0];
        assert forall k :: 1 <= k < |w| ==> w[k] == rest[0][k - 1];
      }
    }
  }

  /** Runs of a string that only has delimiters, and only those, are none. */
  lemma {:induction false} RunsEmpty(s: string, delims: set<char>)
    ensures Runs(s, delims) == [] <==> forall k :: 0 <= k < |s| ==> s[k] in delims
  {
    if s != [] {
      RunsEmpty(s[1..], delims);
      assert forall k :: 1 <= k < |s| ==> s[k] == s[1..][k - 1];
    }
  }

  /** A run starting at `b` ends at RunEnd, and the runs after it are those of the rest. */
  lemma {:induction false} RunsFrom(s: string, b: nat, delims: set<char>)
    requires b < |s| && s[b] !in delims
    ensures Runs(s[b..], delims) == [s[b..RunEnd(s, b, delims)]] + Runs(s[RunEnd(s, b, delims)..], delims)
    decreases |s| - b
  {
    var e := RunEnd(s, b, delims);
    assert s[b..][1..] == s[b + 1..];
    if b + 1 < |s| && s[b + 1] !in delims {
      RunsFrom(s, b + 1, delims);
      assert s[b..e] == [s[b]] + s[b + 1..e];
    } else {
      assert e == b + 1 && s[b..e] == [s[b]];
    }
  }

  /** One `strtok` call takes exactly the first run off what is left. */
  lemma {:induction false} StrTokRuns(s: string, p: nat, delims: set<char>)
    requires p <= |s|
    ensures StrTok(s, p, delims).None? ==> Runs(s[p..], delims) == []
    ensures StrTok(s, p, delims).Some? ==>
      Runs(s[p..], delims) == [StrTok(s, p, delims).value.text] + Runs(s[StrTok(s, p, delims).value.next..], delims)
    decreases |s| - p
  {
    if p < |s| {
      assert s[p..][1..] == s[p + 1..];
      if s[p] in delims {
        StrTokRuns(s, p + 1, delims);
      } else {
        var e := RunEnd(s, p, delims);
        RunsFrom(s, p, delims);
        if e < |s| {
          assert s[e..][1..] == s[e + 1..];
        }
      }
    }
  }

  /**
   * The arguments parse_cmd finds: the first token is delimited by spaces
   * only, every later one by spaces and '='.
   */
  function Words(cmd: string): seq<string>
  {
    match StrTok(cmd, 0, Spaces)
    case None => []
    case Some(Token(first, next)) => [first] + Runs(cmd[next..], SpacesAndEquals)
  }

  /** There are no arguments exactly when the line holds only spaces. */
  lemma WordsNone(cmd: string)
    ensures Words(cmd) == [] <==> forall k :: 0 <= k < |cmd| ==> cmd[k] == ' '
  {
    StrTokRuns(cmd, 0, Spaces);
    assert cmd[0..] == cmd;
    RunsEmpty(cmd, Spaces);
  }

  /** The first argument is the first run of non-spaces. */
  lemma FirstWord(cmd: string)
    ensures Words(cmd) != [] ==> Runs(cmd, Spaces) != [] && Words(cmd)[0] == Runs(cmd, Spaces)[0]
  {
    StrTokRuns(cmd, 0, Spaces);
    assert cmd[0..] == cmd;
  }

  /** No argument is empty or holds a space, and none after the first holds '='. */
  lemma WordsShape(cmd: string)
    ensures forall i :: 0 <= i < |Words(cmd)| ==>
      Words(cmd)[i] != [] && forall k :: 0 <= k < |Words(cmd)[i]| ==> Words(cmd)[i][k] != ' '
    ensures forall i :: 1 <= i < |Words(cmd)| ==>
      forall k :: 0 <= k < |Words(cmd)[i]| ==> Words(cmd)[i][k] != '='
  {
    var t := StrTok(cmd, 0, Spaces);
    if t.Some? {
      var w := Words(cmd);
      var r := Runs(cmd[t.value.next..], SpacesAndEquals);
      RunsShape(cmd[t.value.next..], SpacesAndEquals);
      assert w == [t.value.text] + r;
      forall i | 0 <= i < |w|
        ensures w[i] != [] && forall k :: 0 <= k < |w[i]| ==> w[i][k] != ' ' && (i >= 1 ==> w[i][k] != '=')
      {
        if i == 0 {
          assert w[0] == t.value.text;
        } else {
          assert w[i] == r[i - 1];
          assert forall k :: 0 <= k < |w[i]| ==> w[i][k] !in SpacesAndEquals;
        }
      }
    }
  }

  /**
   * parse_cmd: the tokens in order (the NULL terminator is the end of the
   * sequence); the caller's count grows by their number.
   */
  method ParseCmd(cmd: string, numCmds: int) returns (parsed: seq<string>, count: int)
    ensures parsed == Words(cmd)
    ensures count == numCmds + |parsed|
  {
    parsed := [];
    count := numCmds;
    var spaces := 0;
    var current := StrTok(cmd, 0, Spaces);
    while current.Some?
      invariant current.Some? ==> current.value.next <= |cmd|
      invariant current.Some? ==>
        parsed + [current.value.text] + Runs(cmd[current.value.next..], SpacesAndEquals) == Words(cmd)
      invariant current.None? ==> parsed == Words(cmd)
      invariant spaces == |parsed| && count == numCmds + spaces
      decreases if current.Some? then |cmd| + 1 - current.value.next else 0
    {
      spaces := spaces + 1;
      parsed := parsed + [current.value.text];
      count := count + 1;
      var save := current.value.next;
      StrTokRuns(cmd, save, SpacesAndEquals);
      current := StrTok(cmd, save, SpacesAndEquals);
    }
  }

  // ---------------------------------------------------------- handle_cmd

  /** What handle_cmd does with a command line. */
  datatype Action =
    | Nothing
    | Exit
    | BackgroundError | Background
    | IoRedirect
    | PipeError | Pipe
    | Pwd | Cd | Echo | Set | Jobs
    | KillError | Kill
    | Execute

  /** The line has arguments and is neither exit/quit nor a background job. */
  predicate PastBackground(args: seq<string>)
  {
    args != [] && args[0] != "exit" && args[0] != "quit" && args[|args| - 1] != "&"
  }

  /** The line asks for file redirection. */
  predicate HasRedirect(cmd: string)
  {
    '<' in cmd || '>' in cmd
  }

  /** Every test before the builtins has failed. */
  predicate PastPipes(cmd: string, args: seq<string>)
  {
    PastBackground(args) && !HasRedirect(cmd) && '|' !in cmd
  }

  /**
   * The dispatch chain of handle_cmd on the raw line `cmd` and its arguments
   * `args`; the first test that holds decides. Each action is chosen exactly
   * when its own test holds and every earlier test fails: exit and quit win
   * over everything, a trailing '&' over redirection and pipes, they over
   * the builtins, and a program is run only when nothing else applies.
   */
  function Classify(cmd: string, args: seq<string>): (r: Action)
    ensures r == Nothing <==> args == []
    ensures r == Exit <==> args != [] && (args[0] == "exit" || args[0] == "quit")
    ensures r == BackgroundError <==> args == ["&"]
    ensures r == Background <==>
      |args| > 1 && args[0] != "exit" && args[0] != "quit" && args[|args| - 1] == "&"
    ensures r == IoRedirect <==> PastBackground(args) && HasRedirect(cmd)
    ensures r == PipeError <==>
      PastBackground(args) && !HasRedirect(cmd) && '|' in cmd && |args| <= 2
    ensures r == Pipe <==>
      PastBackground(args) && !HasRedirect(cmd) && '|' in cmd && |args| > 2
    ensures r == Pwd <==> PastPipes(cmd, args) && args[0] == "pwd"
    ensures r == Cd <==> PastPipes(cmd, args) && args[0] == "cd"
    ensures r == Echo <==> PastPipes(cmd, args) && args[0] == "echo"
    ensures r == Set <==> PastPipes(cmd, args) && args[0] == "set"
    ensures r == Jobs <==> PastPipes(cmd, args) && args[0] == "jobs"
    ensures r == KillError <==> PastPipes(cmd, args) && args[0] == "kill" && |args| != 3
    ensures r == Kill <==> PastPipes(cmd, args) && args[0] == "kill" && |args| == 3
    ensures r == Execute <==> PastPipes(cmd, args) && !IsBuiltin(args[0])
  {
    if |args| == 0 then Nothing
    else if args[0] == "exit" || args[0] == "quit" then Exit
    else if args[|args| - 1] == "&" then (if |args| == 1 then BackgroundError else Background)
    else if '<' in cmd || '>' in cmd then IoRedirect
    else if '|' in cmd then (if |args| <= 2 then PipeError else Pipe)
    else if args[0] == "pwd" then Pwd
    else if args[0] == "cd" then Cd
    else if args[0] == "echo" then Echo
    else if args[0] == "set" then Set
    else if args[0] == "jobs" then Jobs
    else if args[0] == "kill" then (if |args| != 3 then KillError else Kill)
    else Execute
  }

  /**
   * handle_cmd parses (a copy of) the line and dispatches on it: a line of
   * spaces does nothing, the line exits exactly when its first run of
   * non-spaces is "exit" or "quit", and redirection and pipes are told by
   * the characters of the line itself.
   */
  function HandleCmd(cmd: string): (r: Action)
    ensures r == Nothing <==> forall k :: 0 <= k < |cmd| ==> cmd[k] == ' '
    ensures r == Exit <==>
      Runs(cmd, Spaces) != [] && (Runs(cmd, Spaces)[0] == "exit" || Runs(cmd, Spaces)[0] == "quit")
    ensures r == IoRedirect ==> '<' in cmd || '>' in cmd
    ensures r in {Pipe, PipeError} ==> '|' in cmd
    ensures r in {Pwd, Cd, Echo, Set, Jobs, Kill, KillError, Execute} ==>
      '<' !in cmd && '>' !in cmd && '|' !in cmd
  {
    WordsNone(cmd);
    FirstWord(cmd);
    RunsEmpty(cmd, Spaces);
    Classify(cmd, Words(cmd))
  }

  predicate IsBuiltin(name: string)
  {
    name in {"exit", "quit", "pwd", "cd", "echo", "set", "jobs", "kill"}
  }

  // ---------------------------------------------------------------- echo

  /** getenv, with the text glibc's printf gives a NULL string for an unset variable. */
  function GetEnv(env: map<string, string>, name: string): string
  {
    if name in env then env[name] else "(null)"
  }

  /** What echo prints for one argument. */
  function Substitute(arg: string, env: map<string, string>): string
  {
    if arg == "$HOME" then GetEnv(env, "HOME")
    else if arg == "$PATH" then GetEnv(env, "PATH")
    else arg
  }

  /** The arguments as echo prints them, each followed by a space. */
  function Echoed(words: seq<string>, env: map<string, string>): string
  {
    if words == [] then "" else Substitute(words[0], env) + " " + Echoed(words[1..], env)
  }

  lemma {:induction false} EchoedAppend(a: seq<string>, b: seq<string>, env: map<string, string>)
    ensures Echoed(a + b, env) == Echoed(a, env) + Echoed(b, env)
  {
    if a == [] {
      assert a + b == b;
    } else {
      var x := Substitute(a[0], env) + " ";
      assert (a + b)[0] == a[0] && (a + b)[1..] == a[1..] + b;
      calc {
        Echoed(a + b, env);
        x + Echoed(a[1..] + b, env);
        { EchoedAppend(a[1..], b, env); }
        x + (Echoed(a[1..], env) + Echoed(b, env));
        (x + Echoed(a[1..], env)) + Echoed(b, env);
        Echoed(a, env) + Echoed(b, env);
      }
    }
  }

  /** Printing one more argument appends it, substituted, and a space. */
  lemma EchoedSnoc(words: seq<string>, w: string, env: map<string, string>)
    ensures Echoed(words + [w], env) == Echoed(words, env) + Substitute(w, env) + " "
  {
    EchoedAppend(words, [w], env);
    assert [w][1..] == [];
  }

  /**
   * Each argument is printed in its place: `$HOME` and `$PATH` (exactly) as
   * the variable's value, any other argument as it is.
   */
  lemma EchoedAt(words: seq<string>, env: map<string, string>, k: int)
    requires 0 <= k < |words|
    ensures words[k] == "$HOME" && "HOME" in env ==>
      Echoed(words, env) == Echoed(words[..k], env) + env["HOME"] + " " + Echoed(words[k + 1..], env)
    ensures words[k] == "$PATH" && "PATH" in env ==>
      Echoed(words, env) == Echoed(words[..k], env) + env["PATH"] + " " + Echoed(words[k + 1..], env)
    ensures words[k] != "$HOME" && words[k] != "$PATH" ==>
      Echoed(words, env) == Echoed(words[..k], env) + words[k] + " " + Echoed(words[k + 1..], env)
  {
    var front, back := words[..k + 1], words[k + 1..];
    assert words == front + back;
    assert front == words[..k] + [words[k]];
    EchoedAppend(front, back, env);
    EchoedSnoc(words[..k], words[k], env);
  }

  /** echo: the arguments after the command name, substituted, each followed by a space, then a newline. */
  method EchoLine(args: seq<string>, env: map<string, string>) returns (out: string)
    ensures out == Echoed(if args == [] then [] else args[1..], env) + "\n"
  {
    ghost var rest := if args == [] then [] else args[1..];
    out := "";
    var i := 1;
    while i < |args|
      invariant 1 <= i && i - 1 <= |rest|
      invariant out == Echoed(rest[..i - 1], env)
    {
      var s;
      if args[i] == "$HOME" {
        s := GetEnv(env, "HOME");
      } else if args[i] == "$PATH" {
        s := GetEnv(env, "PATH");
      } else {
        s := args[i];
      }
      assert rest[..i] == rest[..i - 1] + [args[i]];
      EchoedSnoc(rest[..i - 1], args[i], env);
      out := out + s + " ";
      i := i + 1;
    }
    assert rest[..i - 1] == rest;
    out := out + "\n";
  }

  // ----------------------------------------------------------------- set

  /** The messages set prints. */
  datatype SetOutcome = TooFewArguments(count: int) | InvalidVariable(name: string) | AlreadySet | WasSet

  datatype SetResult = SetResult(outcome: SetOutcome, env: map<string, string>)

  /**
   * set NAME VALUE (written `set NAME=VALUE`, which parses the same): fewer
   * than three arguments, or a name other than PATH or HOME, is refused and
   * the environment is left alone; otherwise the variable ends up holding the
   * value, and only it changes.
   */
  function SetVariable(args: seq<string>, env: map<string, string>): (r: SetResult)
    ensures |args| < 3 ==> r == SetResult(TooFewArguments(|args|), env)
    ensures |args| >= 3 && args[1] != "PATH" && args[1] != "HOME" ==> r == SetResult(InvalidVariable(args[1]), env)
    ensures |args| >= 3 && (args[1] == "PATH" || args[1] == "HOME") ==>
      r.env == env[args[1] := args[2]] && (r.outcome == AlreadySet <==> args[1] in env && env[args[1]] == args[2])
    ensures r.env != env ==> r.outcome == WasSet
  {
    if |args| < 3 then SetResult(TooFewArguments(|args|), env)
    else
      var name := args[1];
      var value := args[2];
      if name != "PATH" && name != "HOME" then SetResult(InvalidVariable(name), env)
      else if name in env && env[name] == value then SetResult(AlreadySet, env)
      else SetResult(WasSet, env[name := value])
  }

  /** A `set HOME ...` or `set PATH ...` that is accepted makes echo print the new value for that variable. */
  lemma SetThenEcho(args: seq<string>, env: map<string, string>)
    requires |args| >= 3 && (args[1] == "PATH" || args[1] == "HOME")
    ensures Substitute("$" + args[1], SetVariable(args, env).env) == args[2]
  {
    if args[1] == "PATH" {
      assert "$" + args[1] == "$PATH";
    } else {
      assert "$" + args[1] == "$HOME";
    }
  }
}
