/**
 The body sent upstream: only allow-listed fields, the caller's model and subject, and, for
 Responses requests, tool descriptions that the upstream accepts.
 */
module UpstreamBody {
  import opened Basics
  import ManifestKey

  /** A decoded request value. Numbers are kept as they were written. */
  datatype Data =
    | Nil
    | Flag(truth: bool)
    | Number(digits: string)
    | Text(text: string)
    | List(items: seq<Data>)
    | Dict(fields: Fields)

  type Fields = map<string, Data>

  function Get(d: Fields, name: string): Data {
    if name in d then d[name] else Nil
  }

  // ----- white space -----

  predicate Blank(s: string) {
    forall c :: c in s ==> ManifestKey.IsPythonSpace(c)
  }

  function TrimLeft(s: string): string {
    if s != "" && ManifestKey.IsPythonSpace(s[0]) then TrimLeft(s[1..]) else s
  }

  function TrimRight(s: string): string {
    if s != "" && ManifestKey.IsPythonSpace(s[|s| - 1]) then TrimRight(s[..|s| - 1]) else s
  }

  function Strip(s: string): string {
    TrimRight(TrimLeft(s))
  }

  lemma {:induction false} TrimLeftKeepsText(s: string)
    ensures Blank(TrimLeft(s)) <==> Blank(s)
  {
    if s != "" && ManifestKey.IsPythonSpace(s[0]) {
      TrimLeftKeepsText(s[1..]);
      assert forall c :: c in s <==> c == s[0] || c in s[1..];
    }
  }

  lemma {:induction false} TrimRightKeepsText(s: string)
    ensures Blank(TrimRight(s)) <==> Blank(s)
  {
    if s != "" && ManifestKey.IsPythonSpace(s[|s| - 1]) {
      TrimRightKeepsText(s[..|s| - 1]);
      assert s == s[..|s| - 1] + [s[|s| - 1]];
    }
  }

  lemma StripKeepsText(s: string)
    ensures Blank(Strip(s)) <==> Blank(s)
  {
    TrimLeftKeepsText(s);
    TrimRightKeepsText(TrimLeft(s));
  }

  // ----- one tool -----

  const EMPTY_TOOL_DESCRIPTION_FALLBACK := "No description provided."

  const BUILTIN_TOOL_TYPES := {
    "web_search", "web_search_2025_08_26", "web_search_preview", "web_search_preview_2025_03_11",
    "file_search", "code_interpreter", "computer", "computer_use_preview", "image_generation", "mcp",
    "apply_patch", "shell", "local_shell", "tool_search", "programmatic_tool_calling"
  }

  predicate NonBlankText(d: Data) {
    d.Text? && !Blank(d.text)
  }

  function Fallback(tool: Fields): string {
    if NonBlankText(Get(tool, "name")) then Strip(tool["name"].text)
    else
      match Get(tool, "function")
      case Dict(inner) =>
        if NonBlankText(Get(inner, "name")) then Strip(inner["name"].text) else EMPTY_TOOL_DESCRIPTION_FALLBACK
      case _ => EMPTY_TOOL_DESCRIPTION_FALLBACK
  }

  predicate IsBuiltin(tool: Fields) {
    var kind := Get(tool, "type");
    kind.Text? && kind.text in BUILTIN_TOOL_TYPES
  }

  /** A type that no set can be asked about: looking it up raises an error. */
  predicate Unhashable(tool: Fields) {
    Get(tool, "type").List? || Get(tool, "type").Dict?
  }

  /** Tools that need a description, for a type that can be looked up. */
  predicate IsClientDefined(tool: Fields) {
    || Get(tool, "type") == Text("function")
    || Get(tool, "type") == Text("custom")
    || Get(tool, "function").Dict?
    || ("name" in tool && "parameters" in tool)
    || (NonBlankText(Get(tool, "name")) && !IsBuiltin(tool))
  }

  predicate MissingOrBlank(tool: Fields) {
    match Get(tool, "description")
    case Nil => true
    case Text(text) => Blank(text)
    case _ => false
  }

  datatype Action = Fill | Omit | Leave | Raise

  function ActionFor(tool: Fields): Action {
    if !MissingOrBlank(tool) then Leave
    else if IsBuiltin(tool) then (if "description" in tool then Omit else Leave)
    else if Unhashable(tool) then Raise
    else if IsClientDefined(tool) || "description" in tool then Fill
    else Leave
  }

  /** The tool with its description normalised, or none when the lookup raises. */
  function Apply(tool: Fields): Option<Fields> {
    match ActionFor(tool)
    case Fill => Some(tool["description" := Text(Fallback(tool))])
    case Omit => Some(tool - {"description"})
    case Leave => Some(tool)
    case Raise => None
  }

  function SanitizeTool(tool: Fields): Option<Fields> {
    match Apply(tool)
    case None => None
    case Some(sanitized) =>
      match Get(sanitized, "function")
      case Dict(inner) =>
        (match Apply(inner)
         case None => None
         case Some(normal) => Some(sanitized["function" := Dict(normal)]))
      case _ => Some(sanitized)
  }

  function SanitizeEntry(d: Data): Option<Data> {
    match d
    case Dict(tool) => (match SanitizeTool(tool) case None => None case Some(t) => Some(Dict(t)))
    case _ => Some(d)
  }

  function SanitizeItems(items: seq<Data>): Option<seq<Data>> {
    if items == [] then Some([])
    else
      match (SanitizeEntry(items[0]), SanitizeItems(items[1..]))
      case (Some(first), Some(rest)) => Some([first] + rest)
      case _ => None
  }

  function SanitizeToolList(tools: Data): Option<Data> {
    match tools
    case List(items) => (match SanitizeItems(items) case None => None case Some(clean) => Some(List(clean)))
    case _ => Some(tools)
  }

  /** A mapping with its `tools`, if it has any, sanitized. */
  function SanitizeTools(d: Fields): Option<Fields> {
    if "tools" in d then
      match SanitizeToolList(d["tools"])
      case None => None
      case Some(tools) => Some(d["tools" := tools])
    else Some(d)
  }

  function SanitizeInputItem(d: Data): Option<Data> {
    match d
    case Dict(item) => (match SanitizeTools(item) case None => None case Some(i) => Some(Dict(i)))
    case _ => Some(d)
  }

  function SanitizeInput(items: seq<Data>): Option<seq<Data>> {
    if items == [] then Some([])
    else
      match (SanitizeInputItem(items[0]), SanitizeInput(items[1..]))
      case (Some(first), Some(rest)) => Some([first] + rest)
      case _ => None
  }

  function SanitizeDescriptions(body: Fields): Option<Fields> {
    match SanitizeTools(body)
    case None => None
    case Some(result) =>
      match Get(result, "input")
      case List(items) =>
        (match SanitizeInput(items)
         case None => None
         case Some(clean) => Some(result["input" := List(clean)]))
      case _ => Some(result)
  }

  const ENCRYPTED_REASONING_INCLUDE := "reasoning.encrypted_content"

  function EnsureInclude(body: Fields): Fields {
    if "reasoning" !in body then body
    else
      match Get(body, "include")
      case List(items) =>
        if Text(ENCRYPTED_REASONING_INCLUDE) in items then body
        else body["include" := List(items + [Text(ENCRYPTED_REASONING_INCLUDE)])]
      case Nil => body["include" := List([Text(ENCRYPTED_REASONING_INCLUDE)])]
      case _ => body
  }

  // ----- the body -----

  datatype Path = ChatCompletions | Embeddings | Messages | Responses

  function Allowed(path: Path): set<string> {
    match path
    case ChatCompletions =>
      {"messages", "temperature", "top_p", "n", "stream", "stop", "max_tokens", "max_completion_tokens",
       "presence_penalty", "frequency_penalty", "logit_bias", "response_format", "seed", "tools", "tool_choice",
       "parallel_tool_calls", "functions", "function_call", "service_tier", "reasoning_effort"}
    case Embeddings => {"input", "encoding_format", "dimensions"}
    case Messages =>
      {"messages", "max_tokens", "system", "temperature", "top_p", "top_k", "stop_sequences", "tools",
       "tool_choice", "thinking", "stream"}
    case Responses =>
      {"include", "input", "instructions", "max_output_tokens", "parallel_tool_calls", "reasoning", "stream",
       "text", "tool_choice", "tools"}
  }

  function Selected(path: Path, body: Fields): Fields
    requires "model" in body
  {
    (map f | f in body && f in Allowed(path) :: body[f])["model" := body["model"]]
  }

  function Identified(path: Path, body: Fields, oid: string): Fields {
    if path.Messages? then body["metadata" := Dict(map["user_id" := Text(oid)])]
    else body["user" := Text(oid)]
  }

  /** The body sent upstream, or none when a tool's type raises an error. */
  function Upstream(path: Path, body: Fields, oid: string): Option<Fields>
    requires "model" in body
  {
    var result := Selected(path, body);
    if path.Responses? then
      match SanitizeDescriptions(result["store" := Flag(false)])
      case None => None
      case Some(clean) => Some(Identified(path, EnsureInclude(clean), oid))
    else Some(Identified(path, result, oid))
  }
}
