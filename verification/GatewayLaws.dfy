/** What the environment does to the gateway configuration, with its names written out. */
module GatewayLaws {
  import opened Text
  import opened TextLaws
  import opened McpGateway

  ghost predicate IsSet(env: seq<Var>, name: string) {
    exists v :: v in env && v.name == name
  }

  lemma {:induction false} LookupExactly(env: seq<Var>, name: string)
    ensures Lookup(env, name).None? <==> !IsSet(env, name)
    ensures Lookup(env, name).Some? ==> Var(name, Lookup(env, name).value) in env
  {
    if env != [] {
      LookupExactly(env[1..], name);
      assert forall v :: v in env <==> v == env[0] || v in env[1..];
    }
  }

  lemma OneValue(env: seq<Var>, v: Var, w: Var)
    requires DistinctNames(env) && v in env && w in env && v.name == w.name
    ensures v == w
  {
  }

  /** A prompts file replaces the prompts of the base, whatever they were; one that cannot be read is an
      error. */
  lemma PromptsFromFile(base: Config, env: seq<Var>, load: string -> Loaded<seq<Prompt>>, path: string)
    requires DistinctNames(env) && Var("ORCHID_MCP_GATEWAY_PROMPTS_FILE", path) in env && path != ""
    ensures load(path).ConfigError? <==> Resolve(base, env, load).ConfigError?
    ensures load(path).Success? ==> Resolve(base, env, load).value.prompts == load(path).value
  {
    var name := "ORCHID_MCP_GATEWAY_PROMPTS_FILE";
    LookupExactly(env, name);
    OneValue(env, Var(name, path), Var(name, Lookup(env, name).value));
    hide Overlay, Lookup, DistinctNames;
  }

  /** Without a prompts file, or with an empty name of one, the prompts are those of the base. */
  lemma PromptsFromBase(base: Config, env: seq<Var>, load: string -> Loaded<seq<Prompt>>)
    requires forall v :: v in env && v.name == "ORCHID_MCP_GATEWAY_PROMPTS_FILE" ==> v.value == ""
    ensures Resolve(base, env, load).Success? && Resolve(base, env, load).value.prompts == base.prompts
  {
    LookupExactly(env, "ORCHID_MCP_GATEWAY_PROMPTS_FILE");
    hide Overlay, Lookup;
  }

  // ---------------------------------------------------------------------------
  // Tools.

  /** The captured part of a name. */
  predicate IsCaptured(u: string) {
    u != "" && forall c :: c in u ==> c in UPPER_LETTERS || c in "0123456789" || c == '_'
  }

  function NameOf(u: string, f: Field): string {
    match f
    case Title => "ORCHID_MCP_GATEWAY_TOOL_" + u + "_TITLE"
    case Description => "ORCHID_MCP_GATEWAY_TOOL_" + u + "_DESCRIPTION"
  }

  function Held(tools: map<string, Override>, tool: string, f: Field): Option<string> {
    if tool !in tools then None
    else
      match f
      case Title => tools[tool].title
      case Description => tools[tool].description
  }

  lemma CapturedIsUpper(u: string)
    requires IsCaptured(u)
    ensures u != "" && forall c :: c in u ==> IsUpperName(c)
  {
    forall c | c in u ensures IsUpperName(c) {
      UpperLetterExactly(c);
      DigitExactly(c);
    }
  }

  lemma NameParses(u: string, f: Field)
    requires IsCaptured(u)
    ensures Parse(NameOf(u, f)) == Some(Cell(Lower(u), f)) && NameOf(u, f) == EnvName(Cell(Lower(u), f))
  {
    CapturedIsUpper(u);
    CaseRoundTrip(u);
    hide IsCaptured, IsUpperName, Parse, Upper, Lower;
    assert NameMatches(NameOf(u, f), u, f);
    PatternParses(NameOf(u, f), u, f);
  }

  /** A variable named for a tool and a field, exactly: it sets that field, of the tool in lower case, to its
      value, with or without a final newline in its name; and when neither is set the field is that of the
      base. (`OrderMatters` is about both at once.) */
  lemma FieldFromEnv(base: Config, env: seq<Var>, load: string -> Loaded<seq<Prompt>>, u: string, f: Field)
    requires IsCaptured(u) && DistinctNames(env) && Resolve(base, env, load).Success?
    requires !(IsSet(env, NameOf(u, f)) && IsSet(env, NameOf(u, f) + "\n"))
    ensures var tools := Resolve(base, env, load).value.tools;
            && (forall v :: v in env && (v.name == NameOf(u, f) || v.name == NameOf(u, f) + "\n") ==>
                  Held(tools, Lower(u), f) == Some(v.value))
            && (!IsSet(env, NameOf(u, f)) && !IsSet(env, NameOf(u, f) + "\n") ==>
                  Held(tools, Lower(u), f) == Held(base.tools, Lower(u), f))
  {
    var name, c := NameOf(u, f), Cell(Lower(u), f);
    var tools := Resolve(base, env, load).value.tools;
    assert tools == Overlay(base.tools, env);
    OverlayCell(base.tools, env, c);
    assert CellValue(tools, c) == Held(tools, c.tool, f) && CellValue(base.tools, c) == Held(base.tools, c.tool, f);
    hide Resolve, Overlay, CellValue, Held, NameOf, Parse, IsCaptured;
    TwinParses(u, f);
    NameParses(u, f);
    WriterInEnv(env, c);
    forall v | v in env && Parse(v.name) == Some(c) ensures v.name == name || v.name == name + "\n" {
      NameRoundTrip(c, v.name);
    }
    forall v | v in env && (v.name == name || v.name == name + "\n") ensures LastWriter(env, c) == Some(v.value) {
      var w :| w in env && Parse(w.name) == Some(c) && w.value == LastWriter(env, c).value;
      assert IsSet(env, v.name) && IsSet(env, w.name);
      OneValue(env, v, w);
    }
  }

  /** No other variable matters: the tools are those of the base, and those that a variable names. */
  lemma ToolsFromEnv(base: Config, env: seq<Var>, load: string -> Loaded<seq<Prompt>>, tool: string)
    requires Resolve(base, env, load).Success?
    ensures tool in Resolve(base, env, load).value.tools <==>
            tool in base.tools || exists u, f :: IsCaptured(u) && Lower(u) == tool
                                            && (IsSet(env, NameOf(u, f)) || IsSet(env, NameOf(u, f) + "\n"))
  {
    OverlayTools(base.tools, env, tool);
    if Names(env, tool) {
      var v :| v in env && Parse(v.name).Some? && Parse(v.name).value.tool == tool;
      CapturedFrom(v.name);
    }
    if u, f :| IsCaptured(u) && Lower(u) == tool && (IsSet(env, NameOf(u, f)) || IsSet(env, NameOf(u, f) + "\n")) {
      TwinParses(u, f);
      var v :| v in env && (v.name == NameOf(u, f) || v.name == NameOf(u, f) + "\n");
      assert Parse(v.name) == Some(Cell(tool, f));
    }
  }

  lemma CapturedFrom(name: string)
    requires Parse(name).Some?
    ensures exists u, f :: IsCaptured(u) && Lower(u) == Parse(name).value.tool
                      && (name == NameOf(u, f) || name == NameOf(u, f) + "\n")
  {
    ParsedMatches(name);
    var f := Parse(name).value.field;
    var u :| NameMatches(name, u, f) && Lower(u) == Parse(name).value.tool;
    forall c | c in u ensures c in UPPER_LETTERS || c in "0123456789" || c == '_' {
      UpperLetterExactly(c);
      DigitExactly(c);
    }
    hide Parse, UPPER_LETTERS, Lower;
    assert IsCaptured(u) && (name == NameOf(u, f) || name == NameOf(u, f) + "\n");
  }

  lemma TwinParses(u: string, f: Field)
    requires IsCaptured(u)
    ensures Parse(NameOf(u, f)) == Parse(NameOf(u, f) + "\n") == Some(Cell(Lower(u), f))
  {
    NameParses(u, f);
    CapturedIsUpper(u);
    hide IsCaptured, IsUpperName, Parse, Upper, Lower;
    assert NameMatches(NameOf(u, f) + "\n", u, f);
    PatternParses(NameOf(u, f) + "\n", u, f);
  }
}
