/** `resolve_mcp_gateway_config`: tool overrides read from environment names, folded over the base. */
module McpGateway {
  import opened Text

  datatype Field = Title | Description

  datatype Override = Override(title: Option<string>, description: Option<string>)

  datatype Prompt = Prompt(text: string)

  datatype Config = Config(tools: map<string, Override>, prompts: seq<Prompt>)

  datatype Loaded<+T> = Success(value: T) | ConfigError

  /** One item of the environment mapping. */
  datatype Var = Var(name: string, value: string)

  /** One field of one tool: what a matching name writes to. */
  datatype Cell = Cell(tool: string, field: Field)

  const TOOL_PREFIX := "ORCHID_MCP_GATEWAY_TOOL_"
  const PROMPTS_FILE := "ORCHID_MCP_GATEWAY_PROMPTS_FILE"

  function Suffix(f: Field): string {
    match f
    case Title => "_TITLE"
    case Description => "_DESCRIPTION"
  }

  predicate IsUpperName(c: char) {
    'A' <= c <= 'Z' || '0' <= c <= '9' || c == '_'
  }

  predicate IsLowerName(c: char) {
    'a' <= c <= 'z' || '0' <= c <= '9' || c == '_'
  }

  // ---------------------------------------------------------------------------
  // The pattern `^ORCHID_MCP_GATEWAY_TOOL_([A-Z0-9_]+)_(TITLE|DESCRIPTION)$`.

  /** What the pattern accepts; its `$` also matches before one final newline. */
  ghost predicate NameMatches(name: string, tool: string, f: Field) {
    && tool != [] && (forall c :: c in tool ==> IsUpperName(c))
    && (name == TOOL_PREFIX + tool + Suffix(f) || name == TOOL_PREFIX + tool + Suffix(f) + "\n")
  }

  function Chomp(s: string): string {
    if s != [] && s[|s| - 1] == '\n' then s[..|s| - 1] else s
  }

  function ToolPart(body: string, f: Field): Option<string> {
    if !EndsWith(body, Suffix(f)) then None
    else
      var tool := body[..|body| - |Suffix(f)|];
      if tool != [] && forall c :: c in tool ==> IsUpperName(c) then Some(tool) else None
  }

  function Parse(name: string): Option<Cell> {
    var line := Chomp(name);
    if !(TOOL_PREFIX <= line) then None
    else
      var body := line[|TOOL_PREFIX|..];
      match ToolPart(body, Title)
      case Some(tool) => Some(Cell(Lower(tool), Title))
      case None =>
        match ToolPart(body, Description)
        case Some(tool) => Some(Cell(Lower(tool), Description))
        case None => None
  }

  function Upper(s: string): (r: string)
    ensures |r| == |s| && forall i :: 0 <= i < |s| ==> r[i] == ToUpper(s[i])
  {
    if s == [] then [] else [ToUpper(s[0])] + Upper(s[1..])
  }

  function EnvName(c: Cell): string {
    TOOL_PREFIX + Upper(c.tool) + Suffix(c.field)
  }

  predicate IsToolName(tool: string) {
    tool != [] && forall c :: c in tool ==> IsLowerName(c)
  }

  lemma ToolPartExact(body: string, f: Field, tool: string)
    ensures ToolPart(body, f) == Some(tool) <==>
            body == tool + Suffix(f) && tool != [] && forall c :: c in tool ==> IsUpperName(c)
  {
    if ToolPart(body, f) == Some(tool) {
      assert body == body[..|body| - |Suffix(f)|] + body[|body| - |Suffix(f)|..];
    }
    if body == tool + Suffix(f) {
      assert body[|body| - |Suffix(f)|..] == Suffix(f);
    }
  }

  lemma OneField(a: string, b: string)
    ensures a + Suffix(Title) != b + Suffix(Description)
  {
    var s, t := a + Suffix(Title), b + Suffix(Description);
    assert s[|s| - 1] == Suffix(Title)[5] == 'E';
    assert t[|t| - 1] == Suffix(Description)[11] == 'N';
  }

  lemma ChompExact(name: string, line: string)
    requires line == [] || line[|line| - 1] != '\n'
    ensures (name == line || name == line + "\n") ==> Chomp(name) == line
    ensures name == Chomp(name) || name == Chomp(name) + "\n"
  {
  }

  lemma SuffixEnd(tool: string, f: Field)
    ensures var s := TOOL_PREFIX + tool + Suffix(f); s != [] && s[|s| - 1] != '\n'
  {
    var s := TOOL_PREFIX + tool + Suffix(f);
    assert s[|s| - 1] == Suffix(f)[|Suffix(f)| - 1];
  }

  /** A name that the pattern accepts is parsed the way it matches, whichever way that is; so it matches
      in one way only. */
  lemma PatternParses(name: string, tool: string, f: Field)
    requires NameMatches(name, tool, f)
    ensures Parse(name) == Some(Cell(Lower(tool), f))
  {
    SuffixEnd(tool, f);
    ChompExact(name, TOOL_PREFIX + tool + Suffix(f));
    var line := Chomp(name);
    var body := line[|TOOL_PREFIX|..];
    assert line == TOOL_PREFIX + (tool + Suffix(f));
    assert body == tool + Suffix(f);
    hide Chomp, NameMatches, ToolPart, Suffix;
    ToolPartExact(body, f, tool);
    if f == Description && ToolPart(body, Title).Some? {
      ToolPartExact(body, Title, ToolPart(body, Title).value);
      OneField(ToolPart(body, Title).value, tool);
    }
  }

  /** A name that is parsed is one that the pattern accepts; the tool is the captured group in lower case. */
  lemma ParsedMatches(name: string)
    requires Parse(name).Some?
    ensures exists u :: NameMatches(name, u, Parse(name).value.field) && Lower(u) == Parse(name).value.tool
  {
    var line := Chomp(name);
    ChompExact(name, []);
    var body := line[|TOOL_PREFIX|..];
    assert line == TOOL_PREFIX + body;
    var f := Parse(name).value.field;
    var u := ToolPart(body, f).value;
    ToolPartExact(body, f, u);
    hide Chomp, ToolPart, Suffix, Lower, Parse;
    Regroup(TOOL_PREFIX, u, Suffix(f));
    assert NameMatches(name, u, f);
  }

  lemma Regroup(a: string, b: string, c: string)
    ensures a + (b + c) == a + b + c
  {
  }

  lemma CaseRoundTrip(tool: string)
    ensures (forall c :: c in tool ==> IsLowerName(c)) ==>
              Lower(Upper(tool)) == tool && (forall c :: c in Upper(tool) ==> IsUpperName(c))
    ensures (forall c :: c in tool ==> IsUpperName(c)) ==>
              Upper(Lower(tool)) == tool && (forall c :: c in Lower(tool) ==> IsLowerName(c))
  {
    if forall c :: c in tool ==> IsLowerName(c) {
      UpperAndBack(tool);
    }
    if forall c :: c in tool ==> IsUpperName(c) {
      LowerAndBack(tool);
    }
  }

  lemma UpperAndBack(tool: string)
    requires forall c :: c in tool ==> IsLowerName(c)
    ensures Lower(Upper(tool)) == tool && forall c :: c in Upper(tool) ==> IsUpperName(c)
  {
    forall i | 0 <= i < |tool| ensures ToLower(ToUpper(tool[i])) == tool[i] && IsUpperName(ToUpper(tool[i])) {
      assert tool[i] in tool;
    }
    hide IsLowerName, IsUpperName, ToLower, ToUpper;
  }

  lemma LowerAndBack(tool: string)
    requires forall c :: c in tool ==> IsUpperName(c)
    ensures Upper(Lower(tool)) == tool && forall c :: c in Lower(tool) ==> IsLowerName(c)
  {
    forall i | 0 <= i < |tool| ensures ToUpper(ToLower(tool[i])) == tool[i] && IsLowerName(ToLower(tool[i])) {
      assert tool[i] in tool;
    }
    hide IsLowerName, IsUpperName, ToLower, ToUpper;
  }

  /** Override-name round trip, both ways: every tool over `[a-z0-9_]` and field has its environment
      name, which parses back to it even when the tool name itself ends like a field; and every name that
      parses is the environment name of what it parses to, up to one final newline. */
  lemma NameRoundTrip(c: Cell, name: string)
    ensures IsToolName(c.tool) ==> Parse(EnvName(c)) == Some(c)
    ensures Parse(name) == Some(c) ==> IsToolName(c.tool) && (name == EnvName(c) || name == EnvName(c) + "\n")
  {
    CaseRoundTrip(c.tool);
    if IsToolName(c.tool) {
      assert Upper(c.tool)[0] in Upper(c.tool);
      PatternParses(EnvName(c), Upper(c.tool), c.field);
    }
    if Parse(name) == Some(c) {
      ParsedMatches(name);
      var u :| NameMatches(name, u, c.field) && Lower(u) == c.tool;
      CaseRoundTrip(u);
    }
  }

  // ---------------------------------------------------------------------------
  // The fold.

  function Current(tools: map<string, Override>, tool: string): Override {
    if tool in tools then tools[tool] else Override(None, None)
  }

  function WithField(o: Override, f: Field, value: string): Override {
    match f
    case Title => o.(title := Some(value))
    case Description => o.(description := Some(value))
  }

  function ApplyVar(tools: map<string, Override>, v: Var): map<string, Override> {
    match Parse(v.name)
    case None => tools
    case Some(c) => tools[c.tool := WithField(Current(tools, c.tool), c.field, v.value)]
  }

  function Overlay(tools: map<string, Override>, env: seq<Var>): map<string, Override> {
    if env == [] then tools else ApplyVar(Overlay(tools, env[..|env| - 1]), env[|env| - 1])
  }

  function Lookup(env: seq<Var>, name: string): Option<string> {
    if env == [] then None else if env[0].name == name then Some(env[0].value) else Lookup(env[1..], name)
  }

  /** The whole resolution; `load` stands for reading a prompts file. */
  function Resolve(base: Config, env: seq<Var>, load: string -> Loaded<seq<Prompt>>): Loaded<Config> {
    var tools := Overlay(base.tools, env);
    var file := Lookup(env, PROMPTS_FILE);
    if file.None? || file.value == "" then Success(Config(tools, base.prompts))
    else
      match load(file.value)
      case Success(prompts) => Success(Config(tools, prompts))
      case ConfigError => ConfigError
  }

  method ResolveMcpGatewayConfig(base: Config, env: seq<Var>, load: string -> Loaded<seq<Prompt>>)
    returns (r: Loaded<Config>)
    ensures r == Resolve(base, env, load)
  {
    hide Parse;
    var tools := base.tools;
    for i := 0 to |env|
      invariant tools == Overlay(base.tools, env[..i])
    {
      assert env[..i + 1][..i] == env[..i];
      var parsed := Parse(env[i].name);
      if parsed.Some? {
        var c := parsed.value;
        var current := if c.tool in tools then tools[c.tool] else Override(None, None);
        if c.field == Title {
          tools := tools[c.tool := current.(title := Some(env[i].value))];
        } else {
          tools := tools[c.tool := current.(description := Some(env[i].value))];
        }
      }
    }
    assert env[..|env|] == env;
    var file := Lookup(env, PROMPTS_FILE);
    var prompts := base.prompts;
    if file.Some? && file.value != "" {
      var loaded := load(file.value);
      if loaded.ConfigError? {
        return ConfigError;
      }
      prompts := loaded.value;
    }
    return Success(Config(tools, prompts));
  }

  // ---------------------------------------------------------------------------
  // What the result holds.

  function CellValue(tools: map<string, Override>, c: Cell): Option<string> {
    var o := Current(tools, c.tool);
    match c.field
    case Title => o.title
    case Description => o.description
  }

  function LastWriter(env: seq<Var>, c: Cell): Option<string> {
    if env == [] then None
    else if Parse(env[|env| - 1].name) == Some(c) then Some(env[|env| - 1].value)
    else LastWriter(env[..|env| - 1], c)
  }

  ghost predicate Names(env: seq<Var>, tool: string) {
    exists v :: v in env && Parse(v.name).Some? && Parse(v.name).value.tool == tool
  }

  lemma ApplyCell(tools: map<string, Override>, v: Var, c: Cell)
    ensures CellValue(ApplyVar(tools, v), c) ==
            if Parse(v.name) == Some(c) then Some(v.value) else CellValue(tools, c)
  {
    hide Parse;
  }

  /** Every cell of the result is the last matching variable for it, or else the base. */
  lemma {:induction false} OverlayCell(tools: map<string, Override>, env: seq<Var>, c: Cell)
    ensures CellValue(Overlay(tools, env), c) ==
            if LastWriter(env, c).Some? then LastWriter(env, c) else CellValue(tools, c)
  {
    hide Parse, ApplyVar, CellValue;
    if env != [] {
      OverlayCell(tools, env[..|env| - 1], c);
      ApplyCell(Overlay(tools, env[..|env| - 1]), env[|env| - 1], c);
    }
  }

  /** The tools are those of the base and those that some variable names. */
  lemma {:induction false} OverlayTools(tools: map<string, Override>, env: seq<Var>, t: string)
    ensures t in Overlay(tools, env) <==> t in tools || Names(env, t)
  {
    if env != [] {
      var init, v := env[..|env| - 1], env[|env| - 1];
      OverlayTools(tools, init, t);
      hide Parse;
      assert env == init + [v] && v in env;
      assert forall x :: x in env <==> x in init || x == v;
      assert Names(env, t) <==> Names(init, t) || (Parse(v.name).Some? && Parse(v.name).value.tool == t);
    }
  }

  lemma OverlayCells(tools: map<string, Override>, env: seq<Var>)
    ensures forall c :: CellValue(Overlay(tools, env), c) ==
                        if LastWriter(env, c).Some? then LastWriter(env, c) else CellValue(tools, c)
    ensures forall t :: t in Overlay(tools, env) <==> t in tools || Names(env, t)
  {
    forall c ensures CellValue(Overlay(tools, env), c) ==
                     if LastWriter(env, c).Some? then LastWriter(env, c) else CellValue(tools, c)
    {
      OverlayCell(tools, env, c);
    }
    forall t ensures t in Overlay(tools, env) <==> t in tools || Names(env, t) {
      OverlayTools(tools, env, t);
    }
  }

  lemma SameCellsSameTools(a: map<string, Override>, b: map<string, Override>)
    requires a.Keys == b.Keys && forall c :: CellValue(a, c) == CellValue(b, c)
    ensures a == b
  {
    forall t | t in a ensures a[t] == b[t] {
      assert CellValue(a, Cell(t, Title)) == CellValue(b, Cell(t, Title));
      assert CellValue(a, Cell(t, Description)) == CellValue(b, Cell(t, Description));
    }
  }

  /** Resolving a resolved configuration again, in the same environment, changes nothing. */
  lemma ResolveIdempotent(base: Config, env: seq<Var>, load: string -> Loaded<seq<Prompt>>)
    requires Resolve(base, env, load).Success?
    ensures Resolve(Resolve(base, env, load).value, env, load) == Resolve(base, env, load)
  {
    var once := Overlay(base.tools, env);
    OverlayCells(base.tools, env);
    OverlayCells(once, env);
    hide Names, Parse, Overlay, LastWriter, CellValue;
    assert once.Keys == Overlay(once, env).Keys;
    SameCellsSameTools(once, Overlay(once, env));
  }

  // ---------------------------------------------------------------------------
  // Does the order of the environment matter?

  ghost predicate DistinctNames(env: seq<Var>) {
    forall i, j :: 0 <= i < j < |env| ==> env[i].name != env[j].name
  }

  /** Two names for one cell differ by one final newline. */
  lemma SameCellTwins(a: string, b: string)
    requires Parse(a).Some? && Parse(a) == Parse(b) && a != b
    ensures a == b + "\n" || b == a + "\n"
  {
    NameRoundTrip(Parse(a).value, a);
    NameRoundTrip(Parse(a).value, b);
  }

  /** Wherever a matching name and the same name with a final newline are both set, they agree. */
  ghost predicate TwinsAgree(env: seq<Var>) {
    forall v, w :: v in env && w in env && AreTwins(v.name, w.name) ==> v.value == w.value
  }

  predicate AreTwins(a: string, b: string) {
    Parse(a).Some? && Parse(b).Some? && b == a + "\n"
  }

  ghost predicate OrderFree(tools: map<string, Override>, env: seq<Var>) {
    forall e1, e2 :: multiset(e1) == multiset(env) && multiset(e2) == multiset(env) ==>
                       Overlay(tools, e1) == Overlay(tools, e2)
  }

  lemma {:induction false} WriterInEnv(env: seq<Var>, c: Cell)
    ensures LastWriter(env, c).None? <==> forall v :: v in env ==> Parse(v.name) != Some(c)
    ensures LastWriter(env, c).Some? ==>
              exists v :: v in env && Parse(v.name) == Some(c) && v.value == LastWriter(env, c).value
  {
    hide Parse;
    if env != [] {
      var init, v := env[..|env| - 1], env[|env| - 1];
      WriterInEnv(init, c);
      assert env == init + [v];
      assert v in env;
    }
  }

  lemma SameNameSameVar(env: seq<Var>, v: Var, w: Var)
    requires DistinctNames(env) && v in env && w in env && v.name == w.name
    ensures v == w
  {
    var i :| 0 <= i < |env| && env[i] == v;
    var j :| 0 <= j < |env| && env[j] == w;
  }

  /** With agreeing twins, all the writers of a cell agree. */
  lemma WritersAgree(env: seq<Var>, v: Var, w: Var)
    requires DistinctNames(env) && TwinsAgree(env) && v in env && w in env
    requires Parse(v.name).Some? && Parse(v.name) == Parse(w.name)
    ensures v.value == w.value
  {
    if v.name == w.name {
      SameNameSameVar(env, v, w);
    } else {
      SameCellTwins(v.name, w.name);
      assert AreTwins(v.name, w.name) || AreTwins(w.name, v.name);
    }
  }

  lemma SameOverlay(tools: map<string, Override>, env: seq<Var>, e1: seq<Var>, e2: seq<Var>)
    requires DistinctNames(env) && TwinsAgree(env)
    requires multiset(e1) == multiset(env) && multiset(e2) == multiset(env)
    ensures Overlay(tools, e1) == Overlay(tools, e2)
  {
    SameMembers(e1, env);
    SameMembers(e2, env);
    OverlayCells(tools, e1);
    OverlayCells(tools, e2);
    forall c ensures LastWriter(e1, c) == LastWriter(e2, c) {
      WriterInEnv(e1, c);
      WriterInEnv(e2, c);
      if LastWriter(e1, c).Some? && LastWriter(e2, c).Some? {
        var v :| v in e1 && Parse(v.name) == Some(c) && v.value == LastWriter(e1, c).value;
        var w :| w in e2 && Parse(w.name) == Some(c) && w.value == LastWriter(e2, c).value;
        WritersAgree(env, v, w);
      }
    }
    assert forall t :: Names(e1, t) <==> Names(e2, t);
    hide Names, Parse, Overlay, LastWriter, CellValue;
    assert Overlay(tools, e1).Keys == Overlay(tools, e2).Keys;
    SameCellsSameTools(Overlay(tools, e1), Overlay(tools, e2));
  }

  lemma SameMembers(a: seq<Var>, b: seq<Var>)
    requires multiset(a) == multiset(b)
    ensures forall v :: v in a <==> v in b
  {
    forall v ensures v in a <==> v in b {
      assert v in a <==> v in multiset(a);
      assert v in b <==> v in multiset(b);
    }
  }

  /** Any variable can be listed last. */
  lemma MoveLast(env: seq<Var>, v: Var) returns (e: seq<Var>)
    requires v in env
    ensures e != [] && e[|e| - 1] == v && multiset(e) == multiset(env)
  {
    var i :| 0 <= i < |env| && env[i] == v;
    e := env[..i] + env[i + 1..] + [v];
    assert env == env[..i] + [v] + env[i + 1..];
  }

  /** Confluence, exactly: the result does not depend on the order in which the environment is listed if
      and only if no matching name is set both with and without a final newline to different values. */
  lemma OrderFreeExactly(tools: map<string, Override>, env: seq<Var>)
    requires DistinctNames(env)
    ensures OrderFree(tools, env) <==> TwinsAgree(env)
  {
    if TwinsAgree(env) {
      forall e1, e2 | multiset(e1) == multiset(env) && multiset(e2) == multiset(env)
        ensures Overlay(tools, e1) == Overlay(tools, e2)
      {
        SameOverlay(tools, env, e1, e2);
      }
    }
    if OrderFree(tools, env) {
      forall v, w | v in env && w in env && AreTwins(v.name, w.name) ensures v.value == w.value {
        LastOneWins(tools, env, v, w);
      }
    }
  }

  /** Listing either twin last gives its value. */
  lemma LastOneWins(tools: map<string, Override>, env: seq<Var>, v: Var, w: Var)
    requires OrderFree(tools, env) && v in env && w in env && AreTwins(v.name, w.name)
    ensures v.value == w.value
  {
    var c := Parse(w.name).value;
    TwinsShareCell(v.name, w.name);
    hide Parse, OrderFree;
    var e1 := MoveLast(env, v);
    var e2 := MoveLast(env, w);
    OverlayCell(tools, e1, c);
    OverlayCell(tools, e2, c);
    assert LastWriter(e1, c) == Some(v.value) && LastWriter(e2, c) == Some(w.value);
    assert Overlay(tools, e1) == Overlay(tools, e2) by { UseOrderFree(tools, env, e1, e2); }
  }

  lemma UseOrderFree(tools: map<string, Override>, env: seq<Var>, e1: seq<Var>, e2: seq<Var>)
    requires OrderFree(tools, env) && multiset(e1) == multiset(env) && multiset(e2) == multiset(env)
    ensures Overlay(tools, e1) == Overlay(tools, e2)
  {
  }

  lemma TwinsShareCell(a: string, b: string)
    requires AreTwins(a, b)
    ensures Parse(a) == Parse(b)
  {
    var c := Parse(b).value;
    NameRoundTrip(c, b);
    SuffixEnd(Upper(c.tool), c.field);
    assert b[|b| - 1] == '\n';
    assert b == EnvName(c) + "\n";
    assert a == b[..|b| - 1] == EnvName(c);
  }

  /** The value of a name does not depend on the order either. */
  lemma {:induction false} LookupMember(env: seq<Var>, name: string)
    ensures Lookup(env, name).Some? ==> Var(name, Lookup(env, name).value) in env
    ensures Lookup(env, name).None? ==> forall v :: v in env ==> v.name != name
  {
    if env != [] {
      LookupMember(env[1..], name);
      assert env == [env[0]] + env[1..];
    }
  }

  lemma LookupOrderFree(env: seq<Var>, e1: seq<Var>, e2: seq<Var>, name: string)
    requires DistinctNames(env) && multiset(e1) == multiset(env) && multiset(e2) == multiset(env)
    ensures Lookup(e1, name) == Lookup(e2, name)
  {
    LookupMember(e1, name);
    LookupMember(e2, name);
    SameMembers(e1, env);
    SameMembers(e2, env);
    hide DistinctNames, Lookup;
    if Lookup(e1, name).Some? && Lookup(e2, name).Some? {
      SameNameSameVar(env, Var(name, Lookup(e1, name).value), Var(name, Lookup(e2, name).value));
    }
  }

  /** The prompts file is set and cannot be read, so that the result is an error whatever the tools. */
  predicate PromptsFail(env: seq<Var>, load: string -> Loaded<seq<Prompt>>) {
    var file := Lookup(env, PROMPTS_FILE);
    file.Some? && file.value != "" && load(file.value).ConfigError?
  }

  ghost predicate ResultOrderFree(base: Config, env: seq<Var>, load: string -> Loaded<seq<Prompt>>) {
    forall e1, e2 :: multiset(e1) == multiset(env) && multiset(e2) == multiset(env) ==>
                       Resolve(base, e1, load) == Resolve(base, e2, load)
  }

  lemma SameResult(base: Config, env: seq<Var>, e1: seq<Var>, e2: seq<Var>, load: string -> Loaded<seq<Prompt>>)
    requires DistinctNames(env) && multiset(e1) == multiset(env) && multiset(e2) == multiset(env)
    ensures Resolve(base, e1, load) == Resolve(base, e2, load) <==>
            PromptsFail(env, load) || Overlay(base.tools, e1) == Overlay(base.tools, e2)
  {
    LookupOrderFree(env, e1, e2, PROMPTS_FILE);
    LookupOrderFree(env, env, e1, PROMPTS_FILE);
    hide Overlay, Lookup, PROMPTS_FILE;
  }

  /** Confluence of the whole resolution, exactly: the resolved configuration does not depend on the order in
      which the environment is listed if and only if the prompts file cannot be read, or no matching name is
      set both with and without a final newline to different values. */
  lemma ResultOrderFreeExactly(base: Config, env: seq<Var>, load: string -> Loaded<seq<Prompt>>)
    requires DistinctNames(env)
    ensures ResultOrderFree(base, env, load) <==> PromptsFail(env, load) || TwinsAgree(env)
  {
    OrderFreeExactly(base.tools, env);
    hide DistinctNames, TwinsAgree, Resolve, PromptsFail, Overlay;
    forall e1, e2 | multiset(e1) == multiset(env) && multiset(e2) == multiset(env)
      ensures Resolve(base, e1, load) == Resolve(base, e2, load) <==>
              PromptsFail(env, load) || Overlay(base.tools, e1) == Overlay(base.tools, e2)
    {
      SameResult(base, env, e1, e2, load);
    }
  }

  /** The order does matter: a name set to one value, and the same name with a final newline set to another,
      give the title or description that is listed last. */
  lemma OrderMatters(tools: map<string, Override>, c: Cell, v: string, w: string)
    requires IsToolName(c.tool) && v != w
    ensures var a, b := Var(EnvName(c), v), Var(EnvName(c) + "\n", w);
            && DistinctNames([a, b])
            && CellValue(Overlay(tools, [a, b]), c) == Some(w) && CellValue(Overlay(tools, [b, a]), c) == Some(v)
            && !OrderFree(tools, [a, b])
  {
    var a, b := Var(EnvName(c), v), Var(EnvName(c) + "\n", w);
    NameRoundTrip(c, a.name);
    TwinParses(c);
    hide Parse, EnvName, Overlay, CellValue, IsToolName, OrderFree, DistinctNames;
    assert |a.name| != |b.name|;
    DistinctPair(a, b);
    LastOfTwo(tools, a, b, c);
    LastOfTwo(tools, b, a, c);
    TwoListings(tools, a, b);
  }

  lemma DistinctPair(a: Var, b: Var)
    requires a.name != b.name
    ensures DistinctNames([a, b])
  {
  }

  lemma LastOfTwo(tools: map<string, Override>, a: Var, b: Var, c: Cell)
    requires Parse(b.name) == Some(c)
    ensures CellValue(Overlay(tools, [a, b]), c) == Some(b.value)
  {
    OverlayCell(tools, [a, b], c);
    hide Parse, Overlay, CellValue;
    assert [a, b][1] == b;
  }

  lemma TwoListings(tools: map<string, Override>, a: Var, b: Var)
    ensures OrderFree(tools, [a, b]) ==> Overlay(tools, [a, b]) == Overlay(tools, [b, a])
  {
    hide Overlay;
    assert multiset([a, b]) == multiset{a, b} == multiset([b, a]);
    if OrderFree(tools, [a, b]) {
      hide OrderFree;
      UseOrderFree(tools, [a, b], [a, b], [b, a]);
    }
  }

  lemma TwinParses(c: Cell)
    requires IsToolName(c.tool)
    ensures Parse(EnvName(c) + "\n") == Some(c)
  {
    CaseRoundTrip(c.tool);
    assert Upper(c.tool)[0] in Upper(c.tool);
    PatternParses(EnvName(c) + "\n", Upper(c.tool), c.field);
  }
}
