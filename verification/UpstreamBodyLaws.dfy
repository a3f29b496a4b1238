/**
 What the normalised body guarantees: it is a fixed point, it is a function of the allow-listed
 fields, the model and the subject alone, every description that must be there is there, and
 nothing but descriptions has changed in any tool.
 */
module UpstreamBodyLaws {
  import opened Basics
  import opened UpstreamBody
  import ManifestKey

  // ----- one mapping -----

  predicate HasInk(s: string) {
    exists i :: 0 <= i < |s| && !ManifestKey.IsPythonSpace(s[i])
  }

  /** A description that the upstream accepts: no null and no text of white space only. */
  predicate Usable(tool: Fields) {
    "description" in tool && tool["description"] != Nil
    && (tool["description"].Text? ==> HasInk(tool["description"].text))
  }

  predicate HasType(tool: Fields, name: string) {
    "type" in tool && tool["type"] == Text(name)
  }

  predicate Builtin(tool: Fields) {
    exists name :: name in BUILTIN_TOOL_TYPES && HasType(tool, name)
  }

  predicate Named(tool: Fields) {
    "name" in tool && tool["name"].Text? && HasInk(tool["name"].text)
  }

  predicate HasFunction(tool: Fields) {
    "function" in tool && tool["function"].Dict?
  }

  /** The tools that the upstream wants to see described. */
  predicate NeedsDescription(tool: Fields) {
    && !Builtin(tool)
    && (|| HasType(tool, "function")
        || HasType(tool, "custom")
        || HasFunction(tool)
        || ("name" in tool && "parameters" in tool)
        || Named(tool))
  }

  /** `t` is `s` without the white space at both ends, and something is left. */
  ghost predicate TrimmedOf(s: string, t: string) {
    && (exists l, r :: Around(s, l, t, r))
    && t != "" && !ManifestKey.IsPythonSpace(t[0]) && !ManifestKey.IsPythonSpace(t[|t| - 1])
  }

  /** What is said of a tool that does not describe itself: its name, or that of the function in it. */
  ghost predicate DescribesByName(tool: Fields, t: string) {
    if Named(tool) then TrimmedOf(tool["name"].text, t)
    else if HasFunction(tool) && Named(tool["function"].fields) then TrimmedOf(tool["function"].fields["name"].text, t)
    else t == "No description provided."
  }

  /** Nothing is left to do about the description of this tool or function. */
  predicate Normal(tool: Fields) {
    ("description" in tool ==> Usable(tool)) && (NeedsDescription(tool) ==> Usable(tool))
  }

  /**
   What becomes of a description: a usable one is kept; a built-in tool is left without one; a tool
   that needs one, or that sent a blank, is described by its name; any other tool goes without.
   */
  ghost predicate DescriptionRule(a: Fields, b: Fields) {
    if Usable(a) then "description" in b && b["description"] == a["description"]
    else if !Builtin(a) && (NeedsDescription(a) || "description" in a) then
      "description" in b && b["description"].Text? && DescribesByName(a, b["description"].text)
    else "description" !in b
  }

  ghost predicate SameBut(a: Fields, b: Fields, name: string) {
    forall f :: f != name ==> (f in a <==> f in b) && (f in a ==> a[f] == b[f])
  }

  /** Stripping takes white space off both ends and nothing else. */
  lemma StripTrims(s: string)
    ensures exists l, r :: Around(s, l, Strip(s), r)
    ensures Strip(s) != "" ==>
              !ManifestKey.IsPythonSpace(Strip(s)[0]) && !ManifestKey.IsPythonSpace(Strip(s)[|Strip(s)| - 1])
  {
    var l := TrimLeftTrims(s);
    var t := TrimLeft(s);
    var r := TrimRightTrims(t);
    assert s == l + TrimRight(t) + r;
    assert Around(s, l, Strip(s), r);
    if Strip(s) != "" {
      assert Strip(s)[0] == t[0];
    }
  }

  predicate Around(s: string, l: string, middle: string, r: string) {
    s == l + middle + r && Blank(l) && Blank(r)
  }

  lemma {:induction false} TrimLeftTrims(s: string) returns (l: string)
    ensures s == l + TrimLeft(s) && Blank(l)
    ensures TrimLeft(s) != "" ==> !ManifestKey.IsPythonSpace(TrimLeft(s)[0])
  {
    if s != "" && ManifestKey.IsPythonSpace(s[0]) {
      var rest := TrimLeftTrims(s[1..]);
      l := [s[0]] + rest;
    } else {
      l := "";
    }
  }

  lemma {:induction false} TrimRightTrims(s: string) returns (r: string)
    ensures s == TrimRight(s) + r && Blank(r)
    ensures TrimRight(s) != "" ==> !ManifestKey.IsPythonSpace(TrimRight(s)[|TrimRight(s)| - 1])
  {
    if s != "" && ManifestKey.IsPythonSpace(s[|s| - 1]) {
      var init, last := s[..|s| - 1], s[|s| - 1];
      assert s == init + [last] && TrimRight(s) == TrimRight(init);
      hide TrimRight, ManifestKey.IsPythonSpace;
      var rest := TrimRightTrims(init);
      r := rest + [last];
      assert TrimRight(init) + rest + [last] == TrimRight(init) + r;
    } else {
      r := "";
    }
  }

  lemma {:induction false} BlankExactly(s: string)
    ensures Blank(s) <==> !HasInk(s)
  {
    if !Blank(s) {
      var c :| c in s && !ManifestKey.IsPythonSpace(c);
      var i :| 0 <= i < |s| && s[i] == c;
    }
  }

  lemma UsableExactly(tool: Fields)
    ensures MissingOrBlank(tool) <==> !Usable(tool)
  {
    hide Blank, HasInk;
    if Get(tool, "description").Text? {
      BlankExactly(tool["description"].text);
    }
  }

  lemma NamedExactly(tool: Fields)
    ensures NonBlankText(Get(tool, "name")) <==> Named(tool)
  {
    hide Blank, HasInk;
    if Get(tool, "name").Text? {
      BlankExactly(tool["name"].text);
    }
  }

  lemma BuiltinExactly(tool: Fields)
    ensures IsBuiltin(tool) <==> Builtin(tool)
  {
    if IsBuiltin(tool) {
      assert HasType(tool, tool["type"].text);
    }
  }

  lemma NeedsExactly(tool: Fields)
    ensures NeedsDescription(tool) <==> !IsBuiltin(tool) && IsClientDefined(tool)
  {
    hide IsBuiltin, Builtin, Named, NonBlankText;
    NamedExactly(tool);
    BuiltinExactly(tool);
  }

  lemma StripOfName(s: string)
    requires HasInk(s)
    ensures TrimmedOf(s, Strip(s))
  {
    hide Strip, Blank;
    StripTrims(s);
    StripKeepsText(s);
    BlankExactly(s);
    BlankExactly(Strip(s));
  }

  /** The text that is filled in is the trimmed name of the tool, or of its function, or the fixed sentence. */
  lemma FallbackDescribes(tool: Fields)
    ensures DescribesByName(tool, Fallback(tool)) && HasInk(Fallback(tool))
  {
    hide Strip, Blank, HasInk, TrimmedOf, NonBlankText;
    NamedExactly(tool);
    if Named(tool) {
      StripOfName(tool["name"].text);
      TrimmedHasInk(tool["name"].text, Fallback(tool));
    } else if HasFunction(tool) && Named(tool["function"].fields) {
      var inner := tool["function"].fields;
      NamedExactly(inner);
      StripOfName(inner["name"].text);
      TrimmedHasInk(inner["name"].text, Fallback(tool));
    } else {
      if HasFunction(tool) {
        NamedExactly(tool["function"].fields);
      }
      FixedHasInk();
    }
  }

  lemma TrimmedHasInk(s: string, t: string)
    requires TrimmedOf(s, t)
    ensures HasInk(t)
  {
    assert !ManifestKey.IsPythonSpace(t[0]);
  }

  lemma FixedHasInk()
    ensures HasInk("No description provided.")
  {
    var s := "No description provided.";
    assert !ManifestKey.IsPythonSpace(s[0]);
  }

  /** Normalising one mapping changes only its description, by the rule, and leaves nothing to be done. */
  lemma ApplyNormalises(tool: Fields)
    requires Apply(tool).Some?
    ensures var u := Apply(tool).value;
      SameBut(tool, u, "description") && DescriptionRule(tool, u) && Normal(u) && Apply(u) == Some(u)
  {
    hide Fallback, MissingOrBlank, IsBuiltin, IsClientDefined, Usable, Builtin, NeedsDescription, DescribesByName,
      HasInk, Unhashable;
    var u := Apply(tool).value;
    FallbackDescribes(tool);
    UsableExactly(tool);
    BuiltinExactly(tool);
    NeedsExactly(tool);
    UsableExactly(u);
    NeedsExactly(u);
    BuiltinExactly(u);
    SameNeeds(tool, u);
    if "description" in u && u["description"] == Text(Fallback(tool)) {
      TextIsUsable(u);
    }
    SameUsable(tool, u);
    NoneIsUnusable(u);
  }

  lemma SameNeeds(a: Fields, b: Fields)
    requires SameBut(a, b, "description")
    ensures NeedsDescription(a) <==> NeedsDescription(b)
    ensures Builtin(a) <==> Builtin(b)
  {
    assert forall name :: HasType(a, name) <==> HasType(b, name);
  }

  lemma SameUsable(a: Fields, b: Fields)
    ensures "description" in a && "description" in b && a["description"] == b["description"] ==>
              (Usable(a) <==> Usable(b))
  {
  }

  lemma TextIsUsable(tool: Fields)
    requires "description" in tool && tool["description"].Text? && HasInk(tool["description"].text)
    ensures Usable(tool)
  {
  }

  lemma NoneIsUnusable(tool: Fields)
    ensures "description" !in tool ==> !Usable(tool)
  {
  }

  /** It raises exactly on a mapping without a usable description whose type cannot be looked up. */
  lemma ApplyRaises(tool: Fields)
    ensures Apply(tool).None? <==> !Usable(tool) && TypeIsContainer(tool)
  {
    hide Fallback, Blank, HasInk, IsClientDefined;
    UsableExactly(tool);
  }

  predicate TypeIsContainer(tool: Fields) {
    "type" in tool && (tool["type"].List? || tool["type"].Dict?)
  }

  // ----- one tool -----

  predicate NormalTool(tool: Fields) {
    Normal(tool) && (Get(tool, "function").Dict? ==> Normal(tool["function"].fields))
  }

  /** Only descriptions differ, by the rule: the tool's own, and that of the function inside it. */
  ghost predicate RepairedTool(a: Fields, b: Fields) {
    && DescriptionRule(a, b)
    && (forall f :: f != "description" && f != "function" ==> (f in a <==> f in b) && (f in a ==> a[f] == b[f]))
    && ("function" in a <==> "function" in b)
    && ("function" in a ==>
          if a["function"].Dict? then
            && b["function"].Dict? && SameBut(a["function"].fields, b["function"].fields, "description")
            && DescriptionRule(a["function"].fields, b["function"].fields)
          else b["function"] == a["function"])
  }

  /** A function inside a tool does not decide what the tool itself needs, only that there is one. */
  lemma ActionIgnoresFunctionBody(tool: Fields, inner: Fields)
    requires Get(tool, "function").Dict?
    ensures var u := tool["function" := Dict(inner)]; ActionFor(u) == ActionFor(tool) && (Normal(u) <==> Normal(tool))
  {
    hide Blank, HasInk, Builtin;
    var u := tool["function" := Dict(inner)];
    BuiltinExactly(u);
    BuiltinExactly(tool);
    assert Get(u, "type") == Get(tool, "type") && Get(u, "name") == Get(tool, "name");
    assert Get(u, "description") == Get(tool, "description");
  }

  lemma SanitizeToolNormalises(tool: Fields)
    requires SanitizeTool(tool).Some?
    ensures var u := SanitizeTool(tool).value;
      RepairedTool(tool, u) && NormalTool(u) && SanitizeTool(u) == Some(u)
  {
    hide ActionFor, Fallback, Normal, Usable, NeedsDescription, DescribesByName, Builtin, HasInk;
    ApplyNormalises(tool);
    var a := Apply(tool).value;
    assert Get(a, "function") == Get(tool, "function");
    if Get(a, "function").Dict? {
      var inner := a["function"].fields;
      ApplyNormalises(inner);
      var normal := Apply(inner).value;
      ActionIgnoresFunctionBody(a, normal);
      var u := a["function" := Dict(normal)];
      assert Apply(u) == Some(u) by { LeftAlone(a, u); }
      assert u["function" := Dict(normal)] == u;
    }
  }

  lemma LeftAlone(a: Fields, u: Fields)
    requires Apply(a) == Some(a) && ActionFor(u) == ActionFor(a) && ("description" in a <==> "description" in u)
    requires Get(a, "description") == Get(u, "description")
    ensures Apply(u) == Some(u)
  {
    hide Blank, Fallback, IsClientDefined, DescribesByName, HasInk;
    FallbackDescribes(a);
    BlankExactly(Fallback(a));
  }

  predicate ToolRaises(d: Data) {
    d.Dict? &&
    (|| (!Usable(d.fields) && TypeIsContainer(d.fields))
     || (HasFunction(d.fields)
         && !Usable(d.fields["function"].fields) && TypeIsContainer(d.fields["function"].fields)))
  }

  lemma SanitizeEntryRaises(d: Data)
    ensures SanitizeEntry(d).None? <==> ToolRaises(d)
  {
    hide ActionFor, Fallback, Usable, TypeIsContainer, Apply;
    if d.Dict? {
      ApplyRaises(d.fields);
      if Apply(d.fields).Some? {
        ApplyNormalises(d.fields);
        assert Get(Apply(d.fields).value, "function") == Get(d.fields, "function");
        if Get(d.fields, "function").Dict? {
          ApplyRaises(Get(d.fields, "function").fields);
        }
      }
    }
  }

  // ----- lists of tools -----

  /** One entry of a list: tools are normalised, anything else stays as it is. */
  ghost predicate CleanEntry(a: Data, b: Data) {
    if a.Dict? then b.Dict? && RepairedTool(a.fields, b.fields) && NormalTool(b.fields) else b == a
  }

  ghost predicate CleanItems(a: seq<Data>, b: seq<Data>) {
    |a| == |b| && forall i :: 0 <= i < |a| ==> CleanEntry(a[i], b[i])
  }

  ghost predicate CleanToolList(a: Data, b: Data) {
    if a.List? then b.List? && CleanItems(a.items, b.items) else b == a
  }

  lemma SanitizeEntryCleans(d: Data)
    requires SanitizeEntry(d).Some?
    ensures var u := SanitizeEntry(d).value; CleanEntry(d, u) && SanitizeEntry(u) == Some(u)
  {
    hide SanitizeTool, RepairedTool, NormalTool;
    if d.Dict? {
      SanitizeToolNormalises(d.fields);
    }
  }

  lemma {:induction false} SanitizeItemsCleans(items: seq<Data>)
    requires SanitizeItems(items).Some?
    ensures var u := SanitizeItems(items).value; CleanItems(items, u) && SanitizeItems(u) == Some(u)
  {
    hide SanitizeEntry, CleanEntry;
    if items != [] {
      var rest := SanitizeItems(items[1..]).value;
      SanitizeEntryCleans(items[0]);
      SanitizeItemsCleans(items[1..]);
      var u := SanitizeItems(items).value;
      assert u[1..] == rest;
      assert forall i :: 1 <= i < |items| ==> items[i] == items[1..][i - 1] && u[i] == rest[i - 1];
    }
  }

  lemma {:induction false} SanitizeItemsRaises(items: seq<Data>)
    ensures SanitizeItems(items).None? <==> exists d :: d in items && ToolRaises(d)
  {
    hide SanitizeEntry, ToolRaises;
    if items != [] {
      SanitizeEntryRaises(items[0]);
      SanitizeItemsRaises(items[1..]);
      assert forall d :: d in items <==> d == items[0] || d in items[1..];
    }
  }

  predicate ListRaises(tools: Data) {
    tools.List? && exists d :: d in tools.items && ToolRaises(d)
  }

  // ----- mappings that hold tools -----

  /** Only the `tools` of the mapping differ, and they are clean. */
  ghost predicate CleanHolder(a: Fields, b: Fields) {
    && SameBut(a, b, "tools") && ("tools" in a <==> "tools" in b)
    && ("tools" in a ==> CleanToolList(a["tools"], b["tools"]))
  }

  lemma SanitizeToolsCleans(d: Fields)
    requires SanitizeTools(d).Some?
    ensures var u := SanitizeTools(d).value; CleanHolder(d, u) && SanitizeTools(u) == Some(u)
  {
    hide SanitizeItems, CleanItems;
    if "tools" in d {
      var tools := d["tools"];
      if tools.List? {
        SanitizeItemsCleans(tools.items);
      }
      var u := SanitizeTools(d).value;
      assert u["tools" := u["tools"]] == u;
    }
  }

  lemma SanitizeToolsRaises(d: Fields)
    ensures SanitizeTools(d).None? <==> "tools" in d && ListRaises(d["tools"])
  {
    hide SanitizeItems, ToolRaises;
    if "tools" in d && d["tools"].List? {
      SanitizeItemsRaises(d["tools"].items);
    }
  }

  ghost predicate CleanInputItem(a: Data, b: Data) {
    if a.Dict? then b.Dict? && CleanHolder(a.fields, b.fields) else b == a
  }

  ghost predicate CleanInput(a: Data, b: Data) {
    if a.List? then
      b.List? && |a.items| == |b.items| && forall i :: 0 <= i < |a.items| ==> CleanInputItem(a.items[i], b.items[i])
    else b == a
  }

  lemma {:induction false} SanitizeInputCleans(items: seq<Data>)
    requires SanitizeInput(items).Some?
    ensures var u := SanitizeInput(items).value; CleanInput(List(items), List(u)) && SanitizeInput(u) == Some(u)
  {
    hide SanitizeTools, CleanHolder;
    if items != [] {
      var rest := SanitizeInput(items[1..]).value;
      if items[0].Dict? {
        SanitizeToolsCleans(items[0].fields);
      }
      SanitizeInputCleans(items[1..]);
      var u := SanitizeInput(items).value;
      assert u[1..] == rest;
      assert forall i :: 1 <= i < |items| ==> items[i] == items[1..][i - 1] && u[i] == rest[i - 1];
    }
  }

  predicate ItemRaises(d: Data) {
    d.Dict? && "tools" in d.fields && ListRaises(d.fields["tools"])
  }

  lemma SanitizeInputItemRaises(d: Data)
    ensures SanitizeInputItem(d).None? <==> ItemRaises(d)
  {
    hide SanitizeTools, ListRaises;
    if d.Dict? {
      SanitizeToolsRaises(d.fields);
    }
  }

  lemma {:induction false} SanitizeInputRaises(items: seq<Data>)
    ensures SanitizeInput(items).None? <==> exists d :: d in items && ItemRaises(d)
  {
    hide SanitizeInputItem, ItemRaises;
    if items != [] {
      SanitizeInputItemRaises(items[0]);
      SanitizeInputRaises(items[1..]);
      assert forall d :: d in items <==> d == items[0] || d in items[1..];
    }
  }

  // ----- the body -----

  /** Only the tools, at the root and inside input items, differ, and all of them are clean. */
  ghost predicate CleanBody(a: Fields, b: Fields) {
    && (forall f :: f != "tools" && f != "input" ==> (f in a <==> f in b) && (f in a ==> a[f] == b[f]))
    && ("tools" in a <==> "tools" in b) && ("tools" in a ==> CleanToolList(a["tools"], b["tools"]))
    && ("input" in a <==> "input" in b) && ("input" in a ==> CleanInput(a["input"], b["input"]))
  }

  lemma SanitizeDescriptionsCleans(body: Fields)
    requires SanitizeDescriptions(body).Some?
    ensures var u := SanitizeDescriptions(body).value; CleanBody(body, u) && SanitizeDescriptions(u) == Some(u)
  {
    hide SanitizeToolList, SanitizeInput, CleanToolList, CleanInputItem;
    SanitizeToolsCleans(body);
    var a := SanitizeTools(body).value;
    if Get(a, "input").List? {
      var items := a["input"].items;
      SanitizeInputCleans(items);
      var u := SanitizeDescriptions(body).value;
      assert u["tools" := Get(u, "tools")] == u || "tools" !in u;
      assert u["input" := u["input"]] == u;
      assert "tools" in a ==> a["tools" := a["tools"]] == a;
      ToolsApart(a, u);
    }
  }

  lemma ToolsApart(a: Fields, u: Fields)
    requires SanitizeTools(a) == Some(a) && ("tools" in a <==> "tools" in u) && Get(a, "tools") == Get(u, "tools")
    ensures SanitizeTools(u) == Some(u)
  {
    hide SanitizeToolList;
    if "tools" in a {
      assert a["tools" := SanitizeToolList(a["tools"]).value]["tools"] == a["tools"];
      assert u["tools" := u["tools"]] == u;
    }
  }

  /** The body raises exactly when a tool in it, or in an input item, does. */
  predicate BodyRaises(body: Fields) {
    || ("tools" in body && ListRaises(body["tools"]))
    || ("input" in body && body["input"].List? && exists d :: d in body["input"].items && ItemRaises(d))
  }

  lemma SanitizeDescriptionsRaises(body: Fields)
    ensures SanitizeDescriptions(body).None? <==> BodyRaises(body)
  {
    hide SanitizeTools, SanitizeInput, ListRaises, ItemRaises, CleanToolList;
    SanitizeToolsRaises(body);
    if SanitizeTools(body).Some? {
      SanitizeToolsCleans(body);
      assert Get(SanitizeTools(body).value, "input") == Get(body, "input");
      if Get(body, "input").List? {
        SanitizeInputRaises(body["input"].items);
      }
    }
  }

  // ----- the whole of a request -----

  lemma ModelIsNotAllowed(path: Path)
    ensures "model" !in Allowed(path)
  {
  }

  lemma StoreIsNotAllowed(path: Path)
    ensures "store" !in Allowed(path)
  {
  }

  lemma UserIsNotAllowed(path: Path)
    ensures "user" !in Allowed(path)
  {
  }

  lemma MetadataIsNotAllowed(path: Path)
    ensures "metadata" !in Allowed(path)
  {
  }

  /** The fields that the broker sets itself are not among those it copies. */
  lemma OwnFieldsAreNotAllowed(path: Path)
    ensures "model" !in Allowed(path) && "store" !in Allowed(path)
    ensures "user" !in Allowed(path) && "metadata" !in Allowed(path)
  {
    hide Allowed;
    ModelIsNotAllowed(path);
    StoreIsNotAllowed(path);
    UserIsNotAllowed(path);
    MetadataIsNotAllowed(path);
  }

  /** The upstream body is a function of the allow-listed fields, the model and the subject alone. */
  lemma DependsOnAllowedFields(path: Path, a: Fields, b: Fields, oid: string)
    requires "model" in a && "model" in b && a["model"] == b["model"]
    requires forall f :: f in Allowed(path) ==> (f in a <==> f in b) && (f in a ==> a[f] == b[f])
    ensures Upstream(path, a, oid) == Upstream(path, b, oid)
  {
    hide Allowed, SanitizeDescriptions;
    assert Selected(path, a) == Selected(path, b);
  }

  lemma IncludeApart(a: Fields, b: Fields)
    requires SameBut(a, b, "include") && SanitizeDescriptions(a) == Some(a)
    ensures SanitizeDescriptions(b) == Some(b)
  {
    hide SanitizeToolList, SanitizeInput;
    SanitizeToolsCleans(a);
    var t := SanitizeTools(a).value;
    assert t["input" := Get(t, "input")] == t || "input" !in t;
    if Get(t, "input").List? {
      var items := t["input"].items;
      assert a == t["input" := List(SanitizeInput(items).value)];
    }
    assert Get(a, "input") == Get(b, "input");
    assert SanitizeTools(a) == Some(a);
    ToolsApart(a, b);
    if Get(b, "input").List? {
      assert b["input" := b["input"]] == b;
    }
  }

  lemma EnsureIncludeOnce(body: Fields)
    ensures var u := EnsureInclude(body); SameBut(body, u, "include") && EnsureInclude(u) == u
  {
  }

  /** Normalising a normalised body changes nothing. */
  lemma UpstreamIsIdempotent(path: Path, body: Fields, oid: string)
    requires "model" in body && Upstream(path, body, oid).Some?
    ensures var out := Upstream(path, body, oid).value; "model" in out && Upstream(path, out, oid) == Some(out)
  {
    hide Allowed, SanitizeDescriptions, EnsureInclude, Selected, Identified, CleanBody, SameBut;
    var selected := Selected(path, body);
    SelectedFields(path, body);
    var out := Upstream(path, body, oid).value;
    if path.Responses? {
      var stored := selected["store" := Flag(false)];
      SanitizeDescriptionsCleans(stored);
      var clean := SanitizeDescriptions(stored).value;
      EnsureIncludeOnce(clean);
      var included := EnsureInclude(clean);
      IncludeApart(clean, included);
      ResponsesKeys(body, stored, clean, included);
      IdentifiedKeys(path, included, oid);
      SelectedIncluded(included, oid);
    } else {
      IdentifiedKeys(path, selected, oid);
      SelectedTwice(path, body, oid);
    }
  }

  lemma IdentifiedKeys(path: Path, body: Fields, oid: string)
    ensures "model" in Identified(path, body, oid) <==> "model" in body
  {
  }

  lemma SelectedTwice(path: Path, body: Fields, oid: string)
    requires "model" in body
    ensures var selected := Selected(path, body); var out := Identified(path, selected, oid);
      "model" in out && Selected(path, out) == selected
  {
    hide Allowed;
    OwnFieldsAreNotAllowed(path);
  }

  /** Selecting from an identified body drops the subject and the storage flag again. */
  lemma SelectedIncluded(included: Fields, oid: string)
    requires "model" in included && "store" in included && included["store"] == Flag(false)
    requires forall f :: f in included ==> f in Allowed(Responses) || f == "model" || f == "store"
    ensures var out := Identified(Responses, included, oid);
      "model" in out && Selected(Responses, out)["store" := Flag(false)] == included
  {
    hide Allowed;
    OwnFieldsAreNotAllowed(Responses);
  }

  lemma ResponsesKeys(body: Fields, stored: Fields, clean: Fields, included: Fields)
    requires "model" in body && stored == Selected(Responses, body)["store" := Flag(false)]
    requires CleanBody(stored, clean) && SameBut(clean, included, "include")
    ensures "model" in included && "store" in included && included["store"] == Flag(false)
    ensures forall f :: f in included ==> f in Allowed(Responses) || f == "model" || f == "store"
  {
    hide CleanToolList, CleanInput, Allowed, Selected;
    SelectedFields(Responses, body);
    ReworkedAreAllowed();
    CleanKeys(stored, clean);
    assert forall f :: f != "include" ==> (f in included <==> f in clean);
  }

  lemma CleanKeys(a: Fields, b: Fields)
    requires CleanBody(a, b)
    ensures forall f :: f in a <==> f in b
    ensures forall f :: f in a && f != "tools" && f != "input" ==> a[f] == b[f]
  {
    hide CleanToolList, CleanInput;
  }

  lemma SelectedFields(path: Path, body: Fields)
    requires "model" in body
    ensures var selected := Selected(path, body);
      && (forall f :: f in selected <==> (f in body && f in Allowed(path)) || f == "model")
      && (forall f :: f in selected ==> selected[f] == body[f])
  {
    hide Allowed;
  }

  lemma ReworkedAreAllowed()
    ensures forall f :: Reworked(Responses, f) ==> f in Allowed(Responses)
  {
  }

  /** The fields that Responses requests may have changed. */
  predicate Reworked(path: Path, field: string) {
    path.Responses? && (field == "tools" || field == "input" || field == "include")
  }

  /** Reasoning asks for its encrypted content; any other `include` stays as it is. */
  predicate AsksForReasoning(body: Fields, out: Fields) {
    if "reasoning" !in body then
      ("include" in out <==> "include" in body) && Get(out, "include") == Get(body, "include")
    else
      match Get(body, "include")
      case List(items) =>
        var asked := Text("reasoning.encrypted_content");
        Get(out, "include") == List(items + if asked in items then [] else [asked])
      case Nil => Get(out, "include") == List([Text("reasoning.encrypted_content")])
      case other => Get(out, "include") == other
  }

  /**
   What the caller asked for is what is sent: the model, the subject, and every allow-listed
   field but those that Responses requests have reworked.
   */
  lemma UpstreamKeepsTheRequest(path: Path, body: Fields, oid: string)
    requires "model" in body && Upstream(path, body, oid).Some?
    ensures var out := Upstream(path, body, oid).value;
      && "model" in out && out["model"] == body["model"]
      && (if path.Messages? then Get(out, "metadata") == Dict(map["user_id" := Text(oid)])
          else Get(out, "user") == Text(oid))
      && (forall f :: f in Allowed(path) && !Reworked(path, f) ==>
            (f in out <==> f in body) && (f in body ==> out[f] == body[f]))
      && (forall f :: f in out ==> f in Allowed(path) || f == "model" || f == "user" || f == "metadata" || f == "store")
  {
    hide SanitizeDescriptions, EnsureInclude, CleanToolList, CleanInput, Allowed, Selected;
    OwnFieldsAreNotAllowed(path);
    SelectedFields(path, body);
    if path.Responses? {
      var stored := Selected(path, body)["store" := Flag(false)];
      SanitizeDescriptionsCleans(stored);
      var clean := SanitizeDescriptions(stored).value;
      EnsureIncludeOnce(clean);
      ResponsesKeys(body, stored, clean, EnsureInclude(clean));
    }
  }

  /** Of a Responses request the tools, at the root and in input items, are clean, and nothing is stored. */
  lemma ResponsesAreClean(body: Fields, oid: string)
    requires "model" in body && Upstream(Responses, body, oid).Some?
    ensures var out := Upstream(Responses, body, oid).value;
      && Get(out, "store") == Flag(false)
      && ("tools" in body <==> "tools" in out) && ("tools" in body ==> CleanToolList(body["tools"], out["tools"]))
      && ("input" in body <==> "input" in out) && ("input" in body ==> CleanInput(body["input"], out["input"]))
      && AsksForReasoning(body, out)
  {
    hide SanitizeDescriptions, CleanToolList, CleanInput;
    assert "tools" in Allowed(Responses) && "input" in Allowed(Responses) && "include" in Allowed(Responses)
           && "reasoning" in Allowed(Responses);
    hide Allowed;
    var stored := Selected(Responses, body)["store" := Flag(false)];
    SanitizeDescriptionsCleans(stored);
    var clean := SanitizeDescriptions(stored).value;
    assert Get(clean, "include") == Get(body, "include") && ("reasoning" in clean <==> "reasoning" in body);
  }

  /** A request fails here exactly when it is a Responses request in which a tool raises. */
  lemma UpstreamRaises(path: Path, body: Fields, oid: string)
    requires "model" in body
    ensures Upstream(path, body, oid).None? <==> path.Responses? && BodyRaises(body)
  {
    hide SanitizeDescriptions, EnsureInclude, ListRaises, ItemRaises;
    if path.Responses? {
      assert "tools" in Allowed(path) && "input" in Allowed(path);
      hide Allowed;
      SanitizeDescriptionsRaises(Selected(path, body)["store" := Flag(false)]);
    }
  }

  /** A request whose only tool has a list as its type and no description. */
  function UnhashableTool(): Fields {
    map["model" := Text("model"), "tools" := List([Dict(map["type" := List([])])])]
  }

  /** Nothing can be sent upstream for it. */
  lemma UnhashableToolRaises(oid: string)
    ensures "model" in UnhashableTool() && Upstream(Responses, UnhashableTool(), oid) == None
  {
    hide Upstream;
    var tool: Fields := map["type" := List([])];
    assert !Usable(tool) && TypeIsContainer(tool);
    var items := [Dict(tool)];
    assert items[0] in items;
    UpstreamRaises(Responses, UnhashableTool(), oid);
  }
}
