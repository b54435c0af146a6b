/** The command-line quoting of process/impl/windows/subprocess.h:
    `append_argument` quotes one argument so that the standard Windows
    command-line parser (the rules `CommandLineToArgvW` and the C runtime
    follow) reads it back unchanged, and `create_windows_command` joins the
    quoted arguments with spaces. */
module Quoting {
  /** The characters that force an argument into quotes. */
  predicate IsSpecial(c: char)
  {
    c == ' ' || c == '\t' || c == '\n' || c == '\U{000B}' || c == '"'
  }

  /** An argument that is appended verbatim: non-empty and free of specials. */
  predicate IsBare(arg: string)
  {
    |arg| > 0 && NoSpecial(arg)
  }

  predicate NoSpecial(s: string)
    decreases |s|
  {
    |s| == 0 || (!IsSpecial(s[0]) && NoSpecial(s[1..]))
  }

  function Backslashes(n: nat): (s: string)
    ensures |s| == n
  {
    if n == 0 then [] else ['\\'] + Backslashes(n - 1)
  }

  /** The body of a quoted argument, given `k` backslashes seen and not yet
      written: a run of backslashes is doubled before a quote (plus one to
      escape the quote) and before the closing quote, and copied as it is
      before any other character. */
  function Escape(arg: string, k: nat): (r: string)
    decreases |arg|
  {
    if |arg| == 0 then Backslashes(2 * k)
    else if arg[0] == '\\' then Escape(arg[1..], k + 1)
    else if arg[0] == '"' then Backslashes(2 * k + 1) + ['"'] + Escape(arg[1..], 0)
    else Backslashes(k) + [arg[0]] + Escape(arg[1..], 0)
  }

  /** What `append_argument` appends for `arg`. */
  function Quote(arg: string): (r: string)
  {
    if IsBare(arg) then arg else ['"'] + Escape(arg, 0) + ['"']
  }

  /** `append_argument`, loop for loop: a bare argument is appended as it
      is; any other is quoted by `AppendQuoted`. */
  method AppendArgument(arg: string, commandline: string) returns (r: string)
    ensures r == commandline + Quote(arg)
  {
    if IsBare(arg) {
      return commandline + arg;
    }
    r := AppendQuoted(arg, commandline);
  }

  /** The quoting branch of `append_argument`: an opening quote, the
      escaped body, a closing quote. */
  method AppendQuoted(arg: string, commandline: string) returns (r: string)
    ensures r == commandline + ['"'] + Escape(arg, 0) + ['"']
  {
    var body := EscapeBody(arg);
    r := commandline + ['"'] + body + ['"'];
  }

  /** The outer loop of `append_argument`: it counts each run of
      backslashes, then writes the run (doubled, and one more, before a
      quote) and the character after it; a run at the end is doubled. */
  method EscapeBody(arg: string) returns (body: string)
    ensures body == Escape(arg, 0)
  {
    body := [];
    var i := 0;
    while i < |arg|
      invariant 0 <= i <= |arg|
      invariant body + Escape(arg[i..], 0) == Escape(arg, 0)
      decreases |arg| - i
    {
      var j, slashes := SkipSlashes(arg, i);
      if j == |arg| {
        EscapeFinish(arg, i, slashes, body);
        body := body + Backslashes(slashes * 2);
        return;
      }
      var piece := if arg[j] == '"' then Backslashes(slashes * 2 + 1) + [arg[j]] else Backslashes(slashes) + [arg[j]];
      EscapeStep(arg, i, j, slashes, body);
      body := body + piece;
      i := j + 1;
    }
    EscapeEnd(arg, 0);
    assert body + [] == body;
  }

  /** One character after a run of `k` backslashes, written out. */
  function Piece(c: char, k: nat): string
  {
    if c == '"' then Backslashes(k * 2 + 1) + [c] else Backslashes(k) + [c]
  }

  lemma EscapeStep(arg: string, i: nat, j: nat, k: nat, body: string)
    requires i <= j < |arg| && arg[j] != '\\'
    requires body + Escape(arg[i..], 0) == Escape(arg, 0)
    requires Escape(arg[i..], 0) == Escape(arg[j..], k)
    ensures body + Piece(arg[j], k) + Escape(arg[j + 1..], 0) == Escape(arg, 0)
  {
    EscapeOther(arg, j, k);
    Append3(body, Piece(arg[j], k), Escape(arg[j + 1..], 0));
  }

  lemma EscapeFinish(arg: string, i: nat, k: nat, body: string)
    requires i <= |arg|
    requires body + Escape(arg[i..], 0) == Escape(arg, 0)
    requires Escape(arg[i..], 0) == Escape(arg[|arg|..], k)
    ensures body + Backslashes(k * 2) == Escape(arg, 0)
  {
    EscapeEnd(arg, k);
  }

  /** The inner loop of `append_argument`: skipping a run of backslashes
      from `i`, counting them. */
  method SkipSlashes(arg: string, i: nat) returns (j: nat, slashes: nat)
    requires i <= |arg|
    ensures i <= j <= |arg| && j == i + slashes
    ensures j < |arg| ==> arg[j] != '\\'
    ensures Escape(arg[i..], 0) == Escape(arg[j..], slashes)
  {
    j, slashes := i, 0;
    while j < |arg| && arg[j] == '\\'
      invariant i <= j <= |arg| && j == i + slashes
      invariant Escape(arg[i..], 0) == Escape(arg[j..], slashes)
      decreases |arg| - j
    {
      EscapeSlash(arg, j, slashes);
      j := j + 1;
      slashes := slashes + 1;
    }
  }

  lemma Append3(a: string, b: string, c: string)
    ensures a + b + c == a + (b + c)
  {
  }

  lemma EscapeSlash(arg: string, i: nat, k: nat)
    requires i < |arg| && arg[i] == '\\'
    ensures Escape(arg[i..], k) == Escape(arg[i + 1..], k + 1)
  {
    assert arg[i..][1..] == arg[i + 1..];
  }

  lemma EscapeEnd(arg: string, k: nat)
    ensures Escape(arg[|arg|..], k) == Backslashes(2 * k)
  {
    assert arg[|arg|..] == [];
  }

  lemma EscapeOther(arg: string, i: nat, k: nat)
    requires i < |arg| && arg[i] != '\\'
    ensures Escape(arg[i..], k) == Piece(arg[i], k) + Escape(arg[i + 1..], 0)
  {
    assert arg[i..][1..] == arg[i + 1..];
  }

  /** The command line for a non-empty argument vector: the arguments in
      order, each quoted, separated by single spaces. */
  function Command(args: seq<string>): (r: string)
    requires |args| > 0
    decreases |args|
  {
    if |args| == 1 then Quote(args[0]) else Command(args[..|args| - 1]) + [' '] + Quote(args[|args| - 1])
  }

  /** `create_windows_command`. An empty vector is not valid input: the
      source indexes its first element. */
  method CreateCommand(args: seq<string>) returns (r: string)
    requires |args| > 0
    ensures r == Command(args)
  {
    r := AppendArgument(args[0], []);
    assert args[..1] == [args[0]];
    var i := 1;
    while i < |args|
      invariant 1 <= i <= |args|
      invariant r == Command(args[..i])
    {
      CommandPrefix(args, i);
      r := AppendArgument(args[i], r + [' ']);
      i := i + 1;
    }
    assert args[..i] == args;
  }

  /** One more argument on the command line built so far. */
  lemma CommandPrefix(args: seq<string>, i: nat)
    requires 1 <= i < |args|
    ensures Command(args[..i + 1]) == Command(args[..i]) + [' '] + Quote(args[i])
  {
    var p := args[..i + 1];
    CommandLast(p);
    assert p[..|p| - 1] == args[..i];
    assert p[|p| - 1] == args[i];
  }

  lemma CommandLast(args: seq<string>)
    requires |args| > 1
    ensures Command(args) == Command(args[..|args| - 1]) + [' '] + Quote(args[|args| - 1])
  {
  }

  /** The same command line read from the front: the first argument, a
      space, and the rest. */
  lemma {:induction false} CommandFront(args: seq<string>)
    requires |args| > 1
    ensures Command(args) == Quote(args[0]) + [' '] + Command(args[1..])
    decreases |args|
  {
    var n := |args|;
    if n > 2 {
      var init := args[..n - 1];
      var last := Quote(args[n - 1]);
      CommandFront(init);
      assert init[1..] == args[1..][..n - 2];
      assert init[0] == args[0];
      assert args[1..][n - 2] == args[n - 1];
      var mid := Command(init[1..]);
      assert Command(args[1..]) == mid + [' '] + last;
      assert Command(args) == Quote(args[0]) + [' '] + mid + [' '] + last;
      Append3(Quote(args[0]) + [' '], mid + [' '], last);
      Append3(Quote(args[0]) + [' '], mid, [' ']);
    } else {
      assert args[1..] == [args[1]];
    }
  }

  // ---------------------------------------------------------------------
  // The reading side: a reference parser
  // ---------------------------------------------------------------------

  /** The number of backslashes `s` starts with. */
  function Leading(s: string): (n: nat)
    ensures n <= |s|
  {
    if |s| > 0 && s[0] == '\\' then 1 + Leading(s[1..]) else 0
  }

  /** Reading a quoted argument's body, up to its closing quote: `2n`
      backslashes before a quote are `n` backslashes and the quote closes
      the argument; `2n + 1` are `n` backslashes and a literal quote;
      backslashes before anything else are literal. Returns the argument and
      what follows the closing quote. */
  function Unescape(s: string): (r: (string, string))
    ensures |r.1| <= |s|
    decreases |s|
  {
    var n := Leading(s);
    var t := s[n..];
    if |t| == 0 then (Backslashes(n), [])
    else if t[0] == '"' then
      if n % 2 == 0 then (Backslashes(n / 2), t[1..])
      else
        var (a, rest) := Unescape(t[1..]);
        (Backslashes(n / 2) + ['"'] + a, rest)
    else
      var (a, rest) := Unescape(t[1..]);
      (Backslashes(n) + [t[0]] + a, rest)
  }

  /** The length of the unquoted word `s` starts with. */
  function WordLength(s: string): (n: nat)
    ensures n <= |s|
  {
    if |s| > 0 && s[0] != ' ' && s[0] != '\t' then 1 + WordLength(s[1..]) else 0
  }

  /** Splitting a command line into arguments: spaces and tabs separate
      them, a quote opens a quoted argument, anything else starts a bare
      word. (A quoted part is taken to end its argument, which is all this
      quoting ever produces.) */
  function ParseArgs(s: string): (args: seq<string>)
    decreases |s|
  {
    if |s| == 0 then []
    else if s[0] == ' ' || s[0] == '\t' then ParseArgs(s[1..])
    else if s[0] == '"' then
      var (a, rest) := Unescape(s[1..]);
      [a] + ParseArgs(rest)
    else
      var n := WordLength(s);
      [s[..n]] + ParseArgs(s[n..])
  }

  lemma LeadingBackslashes(n: nat, t: string)
    requires |t| == 0 || t[0] != '\\'
    ensures Leading(Backslashes(n) + t) == n
    decreases n
  {
    if n > 0 {
      assert (Backslashes(n) + t)[1..] == Backslashes(n - 1) + t;
      LeadingBackslashes(n - 1, t);
    }
  }

  /** Reading a run of `n` backslashes and the character `c` after it. */
  lemma UnescapeRun(n: nat, c: char, tail: string)
    requires c != '\\'
    ensures Leading(Backslashes(n) + [c] + tail) == n
    ensures (Backslashes(n) + [c] + tail)[n..] == [c] + tail
  {
    Append3(Backslashes(n), [c], tail);
    LeadingBackslashes(n, [c] + tail);
  }

  /** An even run before a quote: the quote closes the argument. */
  lemma UnescapeClose(k: nat, tail: string)
    ensures Unescape(Backslashes(2 * k) + ['"'] + tail) == (Backslashes(k), tail)
  {
    UnescapeRun(2 * k, '"', tail);
    assert (['"'] + tail)[1..] == tail;
  }

  /** An odd run before a quote: half the backslashes and a literal quote. */
  lemma UnescapeQuote(k: nat, tail: string)
    ensures Unescape(Backslashes(2 * k + 1) + ['"'] + tail)
      == (Backslashes(k) + ['"'] + Unescape(tail).0, Unescape(tail).1)
  {
    UnescapeRun(2 * k + 1, '"', tail);
    assert (['"'] + tail)[1..] == tail;
    assert (2 * k + 1) / 2 == k;
  }

  /** A run before any other character is copied as it is. */
  lemma UnescapePlain(n: nat, c: char, tail: string)
    requires c != '\\' && c != '"'
    ensures Unescape(Backslashes(n) + [c] + tail)
      == (Backslashes(n) + [c] + Unescape(tail).0, Unescape(tail).1)
  {
    UnescapeRun(n, c, tail);
    assert ([c] + tail)[1..] == tail;
  }

  lemma BackslashesSnoc(k: nat)
    ensures Backslashes(k + 1) == Backslashes(k) + ['\\']
    decreases k
  {
    if k > 0 {
      BackslashesSnoc(k - 1);
    }
  }

  /** Reading back an escaped body, followed by the closing quote, yields
      the `k` pending backslashes and the argument, and stops right after
      the closing quote. */
  lemma {:induction false} UnescapeEscape(arg: string, k: nat, rest: string)
    ensures Unescape(Escape(arg, k) + ['"'] + rest) == (Backslashes(k) + arg, rest)
    decreases |arg|
  {
    if |arg| == 0 {
      assert Escape(arg, k) == Backslashes(2 * k);
      UnescapeClose(k, rest);
      assert (2 * k) / 2 == k;
      assert Backslashes(k) + arg == Backslashes(k);
    } else if arg[0] == '\\' {
      UnescapeEscape(arg[1..], k + 1, rest);
      BackslashesSnoc(k);
      Append3(Backslashes(k), ['\\'], arg[1..]);
      assert [arg[0]] + arg[1..] == arg;
    } else {
      UnescapeEscape(arg[1..], 0, rest);
      assert Backslashes(0) + arg[1..] == arg[1..];
      UnescapeOther(arg, k, rest);
    }
  }

  /** The step of `UnescapeEscape` for a first character that is not a
      backslash, given the result for the rest of the argument. */
  lemma UnescapeOther(arg: string, k: nat, rest: string)
    requires |arg| > 0 && arg[0] != '\\'
    requires Unescape(Escape(arg[1..], 0) + ['"'] + rest) == (arg[1..], rest)
    ensures Unescape(Escape(arg, k) + ['"'] + rest) == (Backslashes(k) + arg, rest)
  {
    var tail := Escape(arg[1..], 0) + ['"'] + rest;
    var n := if arg[0] == '"' then 2 * k + 1 else k;
    EscapeHead(arg, k, n, rest);
    if arg[0] == '"' {
      UnescapeQuote(k, tail);
    } else {
      UnescapePlain(k, arg[0], tail);
    }
    Append3(Backslashes(k), [arg[0]], arg[1..]);
    assert [arg[0]] + arg[1..] == arg;
  }

  lemma EscapeHead(arg: string, k: nat, n: nat, rest: string)
    requires |arg| > 0 && arg[0] != '\\'
    requires n == if arg[0] == '"' then 2 * k + 1 else k
    ensures Escape(arg, k) + ['"'] + rest == Backslashes(n) + [arg[0]] + (Escape(arg[1..], 0) + ['"'] + rest)
  {
    var e := Escape(arg[1..], 0);
    assert Escape(arg, k) == Backslashes(n) + [arg[0]] + e;
    Append3(Backslashes(n) + [arg[0]], e, ['"']);
    Append3(Backslashes(n) + [arg[0]], e + ['"'], rest);
  }

  /** One quoted argument, followed by nothing or by a separator, reads
      back as itself. */
  lemma ParseQuote(arg: string, rest: string)
    requires |rest| == 0 || rest[0] == ' '
    ensures ParseArgs(Quote(arg) + rest) == [arg] + ParseArgs(rest)
  {
    if IsBare(arg) {
      ParseBare(arg, rest);
    } else {
      ParseQuoted(arg, rest);
    }
  }

  lemma ParseBare(arg: string, rest: string)
    requires IsBare(arg)
    requires |rest| == 0 || rest[0] == ' '
    ensures ParseArgs(arg + rest) == [arg] + ParseArgs(rest)
  {
    var s := arg + rest;
    assert s[0] == arg[0] && !IsSpecial(arg[0]);
    WordOfBare(arg, rest);
    assert s[..|arg|] == arg && s[|arg|..] == rest;
  }

  lemma ParseQuoted(arg: string, rest: string)
    ensures ParseArgs(['"'] + Escape(arg, 0) + ['"'] + rest) == [arg] + ParseArgs(rest)
  {
    var s := ['"'] + Escape(arg, 0) + ['"'] + rest;
    assert s[1..] == Escape(arg, 0) + ['"'] + rest;
    UnescapeEscape(arg, 0, rest);
    assert Backslashes(0) + arg == arg;
  }

  lemma WordOfBare(arg: string, rest: string)
    requires IsBare(arg)
    requires |rest| == 0 || rest[0] == ' '
    ensures WordLength(arg + rest) == |arg|
    decreases |arg|
  {
    if |arg| > 1 {
      assert (arg + rest)[1..] == arg[1..] + rest;
      WordOfBare(arg[1..], rest);
    } else {
      assert (arg + rest)[1..] == rest;
    }
  }

  /** The command line reads back as the argument vector it was built
      from. */
  lemma {:induction false} CommandRoundTrip(args: seq<string>)
    requires |args| > 0
    ensures ParseArgs(Command(args)) == args
    decreases |args|
  {
    if |args| == 1 {
      ParseQuote(args[0], []);
      assert Quote(args[0]) + [] == Quote(args[0]);
    } else {
      var tail := Command(args[1..]);
      ParseQuote(args[0], [' '] + tail);
      CommandFront(args);
      Append3(Quote(args[0]), [' '], tail);
      ParseSpace(tail);
      CommandRoundTrip(args[1..]);
      assert [args[0]] + args[1..] == args;
    }
  }

  /** A separating space is skipped. */
  lemma ParseSpace(t: string)
    ensures ParseArgs([' '] + t) == ParseArgs(t)
  {
    assert ([' '] + t)[1..] == t;
  }
}
