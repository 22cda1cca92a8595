/**
 * The in-game console: parsing a command line against the command table,
 * the console log and history, the help text and the grouping of solution
 * steps into console lines.  A line break in console text is written '&'.
 */
/** The console's command table. */
module CommandTable {
  import opened Text

  /** An entry of the command table: its description, how many positional
      arguments it takes (-1 for any number) and usage examples. */
  datatype CommandInfo = CommandInfo(description: string, numOfArgs: int, examples: seq<string>)

  /** How many positional arguments each command takes (-1 for any number). */
  function Arity(): map<string, int> {
    map["delete" := 1, "reset" := 1, "help" := -1, "change" := 2, "clear" := 0, "stats" := 1, "solution" := 1]
  }

  /** Each command's description. */
  function Description(c: string): string {
    if c == "delete" then "> deletes a game by moving & it to the bin"
    else if c == "reset" then "resets a game's progress & (erases all the previous attempts)"
    else if c == "help" then "show instruction for a command & or show a list of all & available commands"
    else if c == "change" then "changes game's note and & (optional) resets its creation & date to now"
    else if c == "clear" then "clears the console"
    else if c == "stats" then "creates a file with games' statistics in it"
    else if c == "solution" then "prints the best solution by the player &or (optional) by the algorightm"
    else ""
  }

  /** Each command's usage examples. */
  function Examples(c: string): seq<string> {
    if c == "delete" then ["delete 5 # deletes a game #5"]
    else if c == "reset" then ["reset 10 # resets a game number 10"]
    else if c == "help" then ["help delete", "help"]
    else if c == "change" then
      ["change 12 _ -newdate &# does not change the note but & resets the creation date",
       "change 12 new_note &# changes the note to 'new_note'",
       "change 12 _ # does nothing lol"]
    else if c == "clear" then ["clear"]
    else if c == "stats" then ["stats stats.txt"]
    else if c == "solution" then ["solution 14", "solution 14 -algo"]
    else []
  }

  /** The command table (a class attribute of the console): for each command
      its description, its number of arguments and its examples. */
  function Cmds(): map<string, CommandInfo> {
    map c | c in Arity() :: CommandInfo(Description(c), Arity()[c], Examples(c))
  }

  /** The table names seven commands, those of the arity map. */
  lemma TableKeys()
    ensures Cmds().Keys == Arity().Keys == {"delete", "reset", "help", "change", "clear", "stats", "solution"}
  {
  }

  /** An entry's number of arguments is the command's arity; help's is -1, any number. */
  lemma TableArity(c: string)
    requires c in Arity()
    ensures c in Cmds() && Cmds()[c].numOfArgs == Arity()[c]
  {
  }

}

module Console {
  import opened Wrappers
  import opened Text
  import opened CommandTable

  // ---------------------------------------------------------------------------
  // Parsing a command line

  /** A parsed command line: the command, its positional arguments in order and its options. */
  datatype Parsed = Parsed(command: string, params: seq<string>, options: set<string>)

  /** Why a command line is refused: it is blank (an IndexError), names no
      command, or has the wrong number of arguments (KeyErrors). */
  datatype ProcessError = NoInput | UnknownCommand(name: string) | WrongArity(name: string, needed: int, given: int)

  /** The text carried by the raised error. */
  function Message(e: ProcessError): (r: string)
    ensures !e.NoInput? ==> |r| > 8 && r[..8] == "[ERROR] "
    ensures e.UnknownCommand? ==>
      |r| == 30 + |e.name| && r[21..21 + |e.name|] == e.name && r[21 + |e.name|..] == "' command"
    ensures e.WrongArity? ==> |r| > 9 + |e.name| && r[9..9 + |e.name|] == e.name && r[9 + |e.name|] == '\''
  {
    match e
    case NoInput => "list index out of range"
    case UnknownCommand(c) =>
      Framed("[ERROR] there is no '", c, "' command");
      "[ERROR] there is no '" + c + "' command"
    case WrongArity(c, n, k) =>
      var tail := "' command expects & " + IntToString(n) + " argument, but " + IntToString(k) + " were given";
      Framed("[ERROR] '", c, tail);
      "[ERROR] '" + c + tail
  }

  /** The pieces of a three-part concatenation sit where they were put. */
  lemma Framed(p: string, x: string, q: string)
    ensures (p + x + q)[..|p|] == p
    ensures (p + x + q)[|p|..|p| + |x|] == x
    ensures (p + x + q)[|p| + |x|..] == q
  {
  }

  /** The unknown-command error names the command: different names give different texts. */
  lemma UnknownMessageNames(a: string, b: string)
    requires Message(UnknownCommand(a)) == Message(UnknownCommand(b))
    ensures a == b
  {
    var r := Message(UnknownCommand(a));
    assert |a| == |b|;
    assert a == r[21..21 + |a|];
  }

  /** A token starting with '-' is an option. */
  predicate IsOption(w: string) {
    |w| > 0 && w[0] == '-'
  }

  /** The positional arguments among the tokens, in order. */
  function Params(ws: seq<string>): (r: seq<string>)
    ensures |r| <= |ws|
    ensures forall i :: 0 <= i < |r| ==> !IsOption(r[i])
    decreases |ws|
  {
    if ws == [] then []
    else
      var w := ws[|ws| - 1];
      Params(ws[..|ws| - 1]) + (if IsOption(w) then [] else [w])
  }

  /** The options among the tokens. */
  function Options(ws: seq<string>): set<string> {
    set w | w in ws && IsOption(w)
  }

  // A re-grouping step kept as its own lemma: stated inline, the solver spends far more on it.
  lemma TakeSnoc<T>(s: seq<T>, x: T)
    ensures (s + [x])[..|s|] == s
  {
  }

  // A re-grouping step kept as its own lemma: stated inline, the solver spends far more on it.
  lemma SplitLast<T>(a: seq<T>, b: seq<T>)
    requires b != []
    ensures b == b[..|b| - 1] + [b[|b| - 1]]
    ensures a + b == (a + b[..|b| - 1]) + [b[|b| - 1]]
  {
  }

  /** One more token adds itself to the arguments or to the options. */
  lemma ParamsSnoc(ws: seq<string>, w: string)
    ensures Params(ws + [w]) == Params(ws) + (if IsOption(w) then [] else [w])
    ensures Options(ws + [w]) == Options(ws) + (if IsOption(w) then {w} else {})
  {
    TakeSnoc(ws, w);
  }

  /** Every token that is not an option is among the arguments, and every
      argument is one of the tokens. */
  lemma {:induction false} ParamsCover(ws: seq<string>)
    ensures forall w :: w in ws && !IsOption(w) ==> w in Params(ws)
    ensures forall i :: 0 <= i < |Params(ws)| ==> Params(ws)[i] in ws
    decreases |ws|
  {
    if ws != [] {
      var v, w := ws[..|ws| - 1], ws[|ws| - 1];
      ParamsCover(v);
      TakeSnoc(v, w);
      assert v + [w] == ws;
      ParamsSnoc(v, w);
    }
  }

  /** Positional arguments keep their order: the arguments of two token lists
      in a row are those of the first followed by those of the second. */
  lemma {:induction false} ParamsAppend(a: seq<string>, b: seq<string>)
    ensures Params(a + b) == Params(a) + Params(b)
    decreases |b|
  {
    if b == [] {
      assert a + b == a;
    } else {
      var c, w := b[..|b| - 1], b[|b| - 1];
      ParamsAppend(a, c);
      SplitLast(a, b);
      ParamsSnoc(a + c, w);
      ParamsSnoc(c, w);
    }
  }

  /** What processing a command line yields. */
  function Parse(inp: string, cmds: map<string, CommandInfo>): Result<Parsed, ProcessError> {
    var words := Words(inp);
    if words == [] then Err(NoInput)
    else if words[0] !in cmds then Err(UnknownCommand(words[0]))
    else
      var params := Params(words[1..]);
      var needed := cmds[words[0]].numOfArgs;
      if needed != -1 && |params| != needed then Err(WrongArity(words[0], needed, |params|))
      else Ok(Parsed(words[0], params, Options(words[1..])))
  }

  /** An accepted line names a known command with an acceptable number of
      arguments, and every later token is an argument or an option. */
  lemma ParseAccepted(inp: string, cmds: map<string, CommandInfo>)
    requires Parse(inp, cmds).Ok?
    ensures var p := Parse(inp, cmds).value;
      && Words(inp) != [] && p.command == Words(inp)[0] && p.command in cmds
      && (cmds[p.command].numOfArgs == -1 || |p.params| == cmds[p.command].numOfArgs)
      && (forall i :: 0 <= i < |p.params| ==> !IsOption(p.params[i]))
      && (forall o :: o in p.options ==> IsOption(o))
      && (forall i :: 1 <= i < |Words(inp)| ==> Words(inp)[i] in p.params || Words(inp)[i] in p.options)
  {
    var ws := Words(inp);
    ParamsCover(ws[1..]);
    forall i | 1 <= i < |ws|
      ensures ws[i] in Parse(inp, cmds).value.params || ws[i] in Parse(inp, cmds).value.options
    {
      assert ws[i] == ws[1..][i - 1];
    }
  }

  /** A command typed as its name followed by space-separated tokens parses to
      that name, the tokens' arguments and options, or fails on the arity. */
  lemma ParseTyped(cmd: string, ts: seq<string>, cmds: map<string, CommandInfo>)
    requires cmd in cmds && cmd != [] && NoSpace(cmd)
    requires forall i :: 0 <= i < |ts| ==> ts[i] != [] && NoSpace(ts[i])
    ensures var needed := cmds[cmd].numOfArgs;
      Parse(JoinWith([cmd] + ts, " "), cmds) ==
        if needed != -1 && |Params(ts)| != needed then Err(WrongArity(cmd, needed, |Params(ts)|))
        else Ok(Parsed(cmd, Params(ts), Options(ts)))
  {
    var ws := [cmd] + ts;
    WordsOfJoin(ws);
    assert ws[0] == cmd && ws[1..] == ts;
  }

  /** help accepts any number of arguments. */
  lemma HelpAnyArity(ts: seq<string>, cmds: map<string, CommandInfo>)
    requires "help" in cmds && cmds["help"].numOfArgs == -1
    requires forall i :: 0 <= i < |ts| ==> ts[i] != [] && NoSpace(ts[i])
    ensures Parse(JoinWith(["help"] + ts, " "), cmds) == Ok(Parsed("help", Params(ts), Options(ts)))
  {
    HelpWord();
    ParseTyped("help", ts, cmds);
  }

  /** Tokens none of which starts with '-' are all arguments, in order, and no option. */
  lemma {:induction false} PlainParams(ts: seq<string>)
    requires forall i :: 0 <= i < |ts| ==> !IsOption(ts[i])
    ensures Params(ts) == ts && Options(ts) == {}
    decreases |ts|
  {
    if ts != [] {
      var p, w := ts[..|ts| - 1], ts[|ts| - 1];
      PlainParams(p);
      assert p + [w] == ts;
      ParamsSnoc(p, w);
    }
  }

  /** For every command of the table, a line whose tokens are the command and
      plain arguments is refused with the table's arity exactly when the
      count differs from a fixed arity, and otherwise yields those arguments. */
  lemma TableArityParse(inp: string, c: string, ts: seq<string>)
    requires c in Arity() && Words(inp) == [c] + ts
    requires forall i :: 0 <= i < |ts| ==> !IsOption(ts[i])
    ensures var n := Arity()[c];
      Parse(inp, Cmds()) ==
        if n != -1 && |ts| != n then Err(WrongArity(c, n, |ts|)) else Ok(Parsed(c, ts, {}))
  {
    TableArity(c);
    PlainParams(ts);
    assert ([c] + ts)[1..] == ts;
  }

  lemma HelpWord()
    ensures "help" != [] && NoSpace("help")
  {
  }

  // ---------------------------------------------------------------------------
  // Help

  /** The command names, each once, in the order the listing shows them. */
  predicate ListsCommands(order: seq<string>, cmds: map<string, CommandInfo>) {
    && (forall i, j :: 0 <= i < j < |order| ==> order[i] != order[j])
    && (forall c :: c in cmds ==> c in order)
    && (forall i :: 0 <= i < |order| ==> order[i] in cmds)
  }

  /** The help text: the listing of commands without arguments, a command's
      description and examples when one is named, an error for an unknown
      name, and a fixed reply to '-yourself'.  The listing order is a
      parameter because the command set is iterated in no fixed order. */
  function Help(params: seq<string>, options: set<string>, order: seq<string>, cmds: map<string, CommandInfo>): (r: string)
    requires ListsCommands(order, cmds)
    ensures "-yourself" in options ==> r == "ok, boomer"
    ensures "-yourself" !in options && params != [] && params[0] !in cmds ==> r == Message(UnknownCommand(params[0]))
    ensures "-yourself" !in options && params != [] && params[0] in cmds ==>
      var d := cmds[params[0]].description;
      |d| <= |r| && r[..|d|] == d
  {
    if "-yourself" !in options then
      if |params| == 0 then
        "use 'help <command>' to learn more&" + "commands:&" + JoinWith(order, ",&")
      else
        var command := params[0];
        if command in cmds then
          cmds[command].description + "&----examples----&" + JoinWith(cmds[command].examples, "&")
        else
          "[ERROR] there is no '" + command + "' command"
    else
      "ok, boomer"
  }

  /** Logged, the help for a command shows its description lines, a separator
      line, then its example lines. */
  lemma HelpLines(command: string, rest: seq<string>, options: set<string>, order: seq<string>, cmds: map<string, CommandInfo>)
    requires ListsCommands(order, cmds) && command in cmds && "-yourself" !in options
    ensures var info := cmds[command];
      SplitOn(Help([command] + rest, options, order, cmds), '&') ==
        SplitOn(info.description, '&') + ["----examples----"] + SplitOn(JoinWith(info.examples, "&"), '&')
  {
    var d, e := cmds[command].description, JoinWith(cmds[command].examples, "&");
    var m := "----examples----";
    assert ([command] + rest)[0] == command;
    ExamplesText();
    Regroup(d, m, e, '&');
    SplitOnAppend(d, m + ['&'] + e, '&');
    SplitOnAppend(m, e, '&');
    SplitOnNone(m, '&');
    Assoc(SplitOn(d, '&'), [m], SplitOn(e, '&'));
  }

  /** The fixed pieces of the help text, and where their line breaks fall. */
  lemma ExamplesText()
    ensures "&----examples----&" == ['&'] + "----examples----" + ['&']
    ensures '&' !in "----examples----"
  {
  }

  lemma ListingText()
    ensures "use 'help <command>' to learn more&" == "use 'help <command>' to learn more" + ['&']
    ensures "commands:&" == "commands:" + ['&']
    ensures '&' !in "use 'help <command>' to learn more" && '&' !in "commands:"
  {
  }

  // A re-grouping step kept as its own lemma: stated inline, the solver spends far more on it.
  lemma Regroup<T>(d: seq<T>, m: seq<T>, e: seq<T>, s: T)
    ensures d + (([s] + m) + [s]) + e == d + [s] + (m + [s] + e)
  {
  }

  // A re-grouping step kept as its own lemma: stated inline, the solver spends far more on it.
  lemma Assoc<T>(a: seq<T>, b: seq<T>, c: seq<T>)
    ensures a + (b + c) == a + b + c
  {
  }

  /** Pieces separated by ",&" are, line by line, the pieces followed by ','
      except the last. */
  function Commas(ws: seq<string>): (r: seq<string>)
    ensures |r| == |ws|
    decreases |ws|
  {
    if |ws| <= 1 then ws else [ws[0] + ","] + Commas(ws[1..])
  }

  lemma {:induction false} JoinCommas(ws: seq<string>)
    ensures JoinWith(ws, ",&") == JoinWith(Commas(ws), "&")
    decreases |ws|
  {
    if |ws| > 1 {
      JoinCommas(ws[1..]);
      assert Commas(ws)[1..] == Commas(ws[1..]);
    }
  }

  /** Logged, the listing shows two header lines, then one command per line,
      each but the last followed by a comma. */
  lemma HelpListingLines(options: set<string>, order: seq<string>, cmds: map<string, CommandInfo>)
    requires ListsCommands(order, cmds) && "-yourself" !in options
    requires cmds != map[] && forall c :: c in cmds ==> '&' !in c
    ensures SplitOn(Help([], options, order, cmds), '&') ==
      ["use 'help <command>' to learn more", "commands:"] + Commas(order)
  {
    var names := JoinWith(Commas(order), "&");
    JoinCommas(order);
    assert |order| >= 1 by {
      var c :| c in cmds;
    }
    CommasNoSep(order);
    SplitOnJoin(Commas(order), '&');
    var h1, h2 := "use 'help <command>' to learn more", "commands:";
    ListingText();
    Regroup2(h1, h2, names, '&');
    assert Help([], options, order, cmds) == h1 + ['&'] + (h2 + ['&'] + names);
    SplitOnAppend(h1, h2 + ['&'] + names, '&');
    SplitOnAppend(h2, names, '&');
    SplitOnNone(h1, '&');
    SplitOnNone(h2, '&');
  }

  // A re-grouping step kept as its own lemma: stated inline, the solver spends far more on it.
  lemma Regroup2<T>(a: seq<T>, b: seq<T>, c: seq<T>, s: T)
    ensures (a + [s]) + (b + [s]) + c == a + [s] + (b + [s] + c)
  {
  }

  lemma {:induction false} CommasNoSep(ws: seq<string>)
    requires forall i :: 0 <= i < |ws| ==> '&' !in ws[i]
    ensures forall i :: 0 <= i < |Commas(ws)| ==> '&' !in Commas(ws)[i]
    decreases |ws|
  {
    if |ws| > 1 {
      CommasNoSep(ws[1..]);
      assert Commas(ws)[1..] == Commas(ws[1..]);
    }
  }

  // ---------------------------------------------------------------------------
  // Grouping actions into console lines

  /** The actions in groups of four, in order; the last group may be shorter. */
  function Groups<T>(actions: seq<T>): (r: seq<seq<T>>)
    ensures |r| >= 1
    decreases |actions|
  {
    if |actions| <= 4 then [actions] else [actions[..4]] + Groups(actions[4..])
  }

  /** Every group but the last holds four actions, the last holds one to four
      (none only when there are no actions), and together they are the actions in order. */
  lemma {:induction false} GroupsShape<T>(actions: seq<T>)
    ensures var r := Groups(actions);
      (forall k :: 0 <= k < |r| - 1 ==> |r[k]| == 4) &&
      (0 < |r[|r| - 1]| <= 4 || actions == []) &&
      Concat(r) == actions
    decreases |actions|
  {
    if |actions| <= 4 {
      assert Concat([actions]) == actions + Concat([]);
    } else {
      GroupsShape(actions[4..]);
      var rest := Groups(actions[4..]);
      assert ([actions[..4]] + rest)[1..] == rest;
      assert actions[..4] + actions[4..] == actions;
    }
  }

  function Concat<T>(gs: seq<seq<T>>): seq<T>
    decreases |gs|
  {
    if gs == [] then [] else gs[0] + Concat(gs[1..])
  }

  /** A group on one console line: each action after two spaces. */
  function Line(group: seq<string>): string
    decreases |group|
  {
    if group == [] then "" else Line(group[..|group| - 1]) + "  " + group[|group| - 1]
  }

  function Lines(gs: seq<seq<string>>): seq<string> {
    seq(|gs|, k requires 0 <= k < |gs| => Line(gs[k]))
  }

  /** The groups with x added to the last one. */
  function AddToLast<T>(gs: seq<seq<T>>, x: T): seq<seq<T>>
    requires gs != []
  {
    gs[..|gs| - 1] + [gs[|gs| - 1] + [x]]
  }

  /** A fifth, ninth, ... action opens a new group; any other joins the last group. */
  lemma {:induction false} GroupsAppend<T>(a: seq<T>, x: T)
    ensures |a| > 0 && |a| % 4 == 0 ==> Groups(a + [x]) == Groups(a) + [[x]]
    ensures !(|a| > 0 && |a| % 4 == 0) ==> Groups(a + [x]) == AddToLast(Groups(a), x)
    decreases |a|
  {
    if |a| > 4 {
      var b := a[4..];
      assert (a + [x])[..4] == a[..4];
      assert (a + [x])[4..] == b + [x];
      assert |b| % 4 == |a| % 4 by {
        assert |a| == |b| + 4;
      }
      GroupsAppend(b, x);
      var g, h := Groups(a), Groups(b);
      assert g == [a[..4]] + h;
      assert Groups(a + [x]) == [a[..4]] + Groups(b + [x]);
      if |a| % 4 == 0 {
        assert [a[..4]] + (h + [[x]]) == g + [[x]];
      } else {
        assert [a[..4]] + (h[..|h| - 1] + [h[|h| - 1] + [x]]) == g[..|g| - 1] + [g[|g| - 1] + [x]];
      }
    } else if |a| == 4 {
      assert (a + [x])[..4] == a;
      assert (a + [x])[4..] == [x];
    }
  }

  lemma SpecialStep(a: seq<string>, x: string)
    ensures JoinWith(Lines(Groups(a + [x])), "&") ==
      JoinWith(Lines(Groups(a)), "&") + (if |a| > 0 && |a| % 4 == 0 then "&  " else "  ") + x
  {
    if |a| > 0 && |a| % 4 == 0 {
      SpecialNew(a, x);
    } else {
      SpecialSame(a, x);
    }
  }

  lemma SpecialNew(a: seq<string>, x: string)
    requires |a| > 0 && |a| % 4 == 0
    ensures JoinWith(Lines(Groups(a + [x])), "&") == JoinWith(Lines(Groups(a)), "&") + "&  " + x
  {
    GroupsAppend(a, x);
    NewLine(Groups(a), x);
  }

  lemma SpecialSame(a: seq<string>, x: string)
    requires !(|a| > 0 && |a| % 4 == 0)
    ensures JoinWith(Lines(Groups(a + [x])), "&") == JoinWith(Lines(Groups(a)), "&") + "  " + x
  {
    GroupsAppend(a, x);
    SameLine(Groups(a), x);
  }

  /** A new group of one opens a new line. */
  lemma NewLine(g: seq<seq<string>>, x: string)
    requires g != []
    ensures JoinWith(Lines(g + [[x]]), "&") == JoinWith(Lines(g), "&") + "&  " + x
  {
    var ls := Lines(g);
    LinesSnoc(g, [x]);
    LineOne(x);
    JoinAppend(ls, "  " + x, "&");
    SepSpace(JoinWith(ls, "&"), x);
  }

  /** An action joining the last group extends the last line. */
  lemma SameLine(g: seq<seq<string>>, x: string)
    requires g != []
    ensures JoinWith(Lines(AddToLast(g, x)), "&") == JoinWith(Lines(g), "&") + "  " + x
  {
    var ls := Lines(g);
    LinesLast(g, g[|g| - 1] + [x]);
    LineSnoc(g[|g| - 1], x);
    JoinExtendLast(ls, "  " + x, "&");
    Space(JoinWith(ls, "&"), x);
  }

  lemma LineOne(x: string)
    ensures Line([x]) == "  " + x
  {
    assert [x][..0] == [];
  }

  // A re-grouping step kept as its own lemma: stated inline, the solver spends far more on it.
  lemma SepSpace(s: string, x: string)
    ensures s + "&" + ("  " + x) == s + "&  " + x
  {
    assert "&" + "  " == "&  ";
  }

  // A re-grouping step kept as its own lemma: stated inline, the solver spends far more on it.
  lemma Space(s: string, x: string)
    ensures s + ("  " + x) == s + "  " + x
  {
  }

  lemma LinesSnoc(gs: seq<seq<string>>, h: seq<string>)
    ensures Lines(gs + [h]) == Lines(gs) + [Line(h)]
  {
    assert (gs + [h])[..|gs|] == gs;
  }

  lemma LinesLast(gs: seq<seq<string>>, h: seq<string>)
    requires gs != []
    ensures Lines(gs[..|gs| - 1] + [h]) == Lines(gs)[..|gs| - 1] + [Line(h)]
  {
    var p := gs[..|gs| - 1];
    LinesSnoc(p, h);
    var q := Lines(p);
    assert (q + [Line(gs[|gs| - 1])])[..|p|] == q;
  }

  lemma LineSnoc(group: seq<string>, x: string)
    ensures Line(group + [x]) == Line(group) + ("  " + x)
  {
    assert (group + [x])[..|group|] == group;
  }

  /** Without '&' in the actions, a console line holds each group of four. */
  lemma SpecialJoinLines(actions: seq<string>)
    requires forall i :: 0 <= i < |actions| ==> '&' !in actions[i]
    ensures SplitOn(JoinWith(Lines(Groups(actions)), "&"), '&') == Lines(Groups(actions))
  {
    var gs := Groups(actions);
    GroupsShape(actions);
    forall k | 0 <= k < |gs|
      ensures '&' !in Lines(gs)[k]
    {
      LinesNoSep(gs, k, actions);
    }
    SplitOnJoin(Lines(gs), '&');
  }

  lemma {:induction false} LineNoSep(group: seq<string>)
    requires forall i :: 0 <= i < |group| ==> '&' !in group[i]
    ensures '&' !in Line(group)
    decreases |group|
  {
    if group != [] {
      LineNoSep(group[..|group| - 1]);
    }
  }

  lemma {:induction false} LinesNoSep(gs: seq<seq<string>>, k: int, actions: seq<string>)
    requires 0 <= k < |gs| && Concat(gs) == actions
    requires forall i :: 0 <= i < |actions| ==> '&' !in actions[i]
    ensures '&' !in Lines(gs)[k]
  {
    ConcatHas(gs, k);
    LineNoSep(gs[k]);
  }

  lemma {:induction false} ConcatHas(gs: seq<seq<string>>, k: int)
    requires 0 <= k < |gs|
    ensures forall i :: 0 <= i < |gs[k]| ==> gs[k][i] in Concat(gs)
    decreases |gs|
  {
    if k > 0 {
      ConcatHas(gs[1..], k - 1);
    }
  }

  // ---------------------------------------------------------------------------
  // The console

  /** The last command typed, or the empty string before any. */
  function Last(history: seq<string>): string {
    if history != [] then history[|history| - 1] else ""
  }

  lemma LastAfterEntry(history: seq<string>, entry: string)
    ensures Last(history + [entry]) == entry
  {
  }

  class Commands {
    /** The lines shown in the console, oldest first. */
    var consoleLog: seq<string>
    /** The command lines typed so far, oldest first. */
    var consoleHistory: seq<string>
    /** The command table. */
    const cmds: map<string, CommandInfo>

    constructor ()
      ensures consoleLog == [] && consoleHistory == [] && cmds == Cmds()
    {
      consoleLog, consoleHistory := [], [];
      cmds := Cmds();
    }

    /** Splits a command line into its command, arguments and options, and
        checks the command and its number of arguments. */
    method Process(inp: string) returns (r: Result<Parsed, ProcessError>)
      ensures r == Parse(inp, cmds)
    {
      var inpSplit := Words(inp);
      if inpSplit == [] {
        return Err(NoInput);
      }
      var thisCommand := inpSplit[0];
      if thisCommand !in cmds {
        return Err(UnknownCommand(thisCommand));
      }
      var cmdInfo := cmds[thisCommand];
      var rest := inpSplit[1..];
      var params: seq<string> := [];
      var optionalParams: set<string> := {};
      for i := 0 to |rest|
        invariant params == Params(rest[..i])
        invariant optionalParams == Options(rest[..i])
      {
        var el := rest[i];
        assert rest[..i + 1] == rest[..i] + [el];
        ParamsSnoc(rest[..i], el);
        if |el| > 0 && el[0] == '-' {
          optionalParams := optionalParams + {el};
        } else {
          params := params + [el];
        }
      }
      assert rest[..|rest|] == rest;
      var numOfArgs := |params|;
      var numOfArgsNeeded := cmdInfo.numOfArgs;
      if numOfArgsNeeded != -1 && numOfArgs != numOfArgsNeeded {
        return Err(WrongArity(thisCommand, numOfArgsNeeded, numOfArgs));
      }
      return Ok(Parsed(thisCommand, params, optionalParams));
    }

    /** Shows a message in the console, one line per '&'-separated piece. */
    method Log(message: string)
      modifies this
      ensures consoleLog == old(consoleLog) + SplitOn(message, '&')
      ensures consoleHistory == old(consoleHistory)
    {
      if '&' in message {
        var pieces := SplitOn(message, '&');
        for i := 0 to |pieces|
          invariant consoleLog == old(consoleLog) + pieces[..i]
          invariant consoleHistory == old(consoleHistory)
        {
          assert pieces[..i + 1] == pieces[..i] + [pieces[i]];
          consoleLog := consoleLog + [pieces[i]];
        }
        assert pieces[..|pieces|] == pieces;
      } else {
        SplitOnNone(message, '&');
        consoleLog := consoleLog + [message];
      }
    }

    function LastCommand(): (r: string)
      reads this
      ensures consoleHistory == [] ==> r == ""
      ensures consoleHistory != [] ==> r == consoleHistory[|consoleHistory| - 1]
    {
      Last(consoleHistory)
    }

    /** Joins actions, each after two spaces, starting a new console line
        before every fourth action after the first. */
    static method SpecialJoin(listOfAction: seq<string>) returns (res: string)
      ensures res == JoinWith(Lines(Groups(listOfAction)), "&")
    {
      res := "";
      for i := 0 to |listOfAction|
        invariant res == JoinWith(Lines(Groups(listOfAction[..i])), "&")
      {
        SpecialStep(listOfAction[..i], listOfAction[i]);
        assert listOfAction[..i + 1] == listOfAction[..i] + [listOfAction[i]];
        var symb := if i != 0 && i % 4 == 0 then "&  " else "  ";
        res := res + symb + listOfAction[i];
      }
      assert listOfAction[..|listOfAction|] == listOfAction;
    }
  }

  /** What the console shows after logging a message: the earlier lines, then
      the message's pieces, which joined back by '&' give the message. */
  lemma LogShowsMessage(log: seq<string>, message: string)
    ensures var shown := log + SplitOn(message, '&');
      && shown[..|log|] == log
      && JoinWith(shown[|log|..], "&") == message
      && |shown| == |log| + Count(message, '&') + 1
  {
    var shown := log + SplitOn(message, '&');
    assert shown[|log|..] == SplitOn(message, '&');
    JoinSplitOn(message, '&');
    SplitOnCount(message, '&');
  }
}
