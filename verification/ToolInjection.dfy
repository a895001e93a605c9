/**
 Adding hosted tools to a response request. A request is its top-level JSON fields; text normalization
 and the type a tool declares are parameters. The specification of a tool is raw text, which may fail
 to be JSON.
 */
module ToolInjection {
  import opened Prelude

  datatype Json =
    | Null
    | Text(text: string)
    | List(items: seq<Json>)
    | Object(fields: map<string, Json>)
    | Scalar(literal: string)
    | NotJson(bytes: string)

  type Request = map<string, Json>

  datatype Addition = Addition(toolType: string, spec: Json, skipPlanTypes: seq<string>, skipModelSuffixes: seq<string>)

  /** Trimming, case folding, and the declared type of a tool, which is never the empty string. */
  datatype Dialect = Dialect(
    trim: string -> string,
    lower: string -> string,
    equalFold: (string, string) -> bool,
    typeOf: Json -> Option<string>)

  const IMAGE_GENERATION := "image_generation"

  const DEFAULTS: seq<Addition> :=
    [Addition(IMAGE_GENERATION,
              Object(map["type" := Text(IMAGE_GENERATION), "output_format" := Text("png")]), ["free"], ["spark"])]

  // ---------------------------------------------------------------- which additions apply

  /** Decoding into a Go string; a JSON null leaves the empty string. */
  function AsString(j: Json): Option<string>
  {
    match j
    case Text(text) => Some(text)
    case Null => Some("")
    case _ => None
  }

  predicate CanInject(request: Request)
  {
    if "type" in request then AsString(request["type"]) == Some("response.create")
    else "tools" in request || "model" in request || "input" in request
  }

  function Model(request: Request): string
  {
    if "model" in request && AsString(request["model"]).Some? then AsString(request["model"]).value else ""
  }

  predicate SkipsPlan(a: Addition, plan: string, d: Dialect)
  {
    d.trim(plan) != "" &&
    exists i :: 0 <= i < |a.skipPlanTypes| && d.equalFold(d.trim(a.skipPlanTypes[i]), d.trim(plan))
  }

  predicate HasSuffix(s: string, suffix: string)
  {
    |suffix| <= |s| && s[|s| - |suffix|..] == suffix
  }

  predicate SkipsModel(a: Addition, model: string, d: Dialect)
  {
    var name := d.lower(d.trim(model));
    name != "" && exists i :: 0 <= i < |a.skipModelSuffixes| && HasSuffix(name, d.lower(d.trim(a.skipModelSuffixes[i])))
  }

  predicate Applies(a: Addition, request: Request, plan: string, d: Dialect)
  {
    !SkipsPlan(a, plan, d) && !SkipsModel(a, Model(request), d)
  }

  function Applicable(request: Request, additions: seq<Addition>, plan: string, d: Dialect): (r: seq<Addition>)
    ensures forall a :: a in r <==> a in additions && Applies(a, request, plan, d)
  {
    if additions == [] then []
    else
      var rest, last := Applicable(request, additions[..|additions| - 1], plan, d), additions[|additions| - 1];
      assert additions == additions[..|additions| - 1] + [last];
      if Applies(last, request, plan, d) then rest + [last] else rest
  }

  method FilterResponseToolInjections(request: Request, additions: seq<Addition>, plan: string, d: Dialect)
    returns (filtered: seq<Addition>)
    ensures filtered == Applicable(request, additions, plan, d)
  {
    filtered := [];
    for i := 0 to |additions|
      invariant filtered == Applicable(request, additions[..i], plan, d)
    {
      var addition := additions[i];
      assert additions[..i + 1][..i] == additions[..i];
      if SkipsPlan(addition, plan, d) || SkipsModel(addition, Model(request), d) {
        continue;
      }
      filtered := filtered + [addition];
    }
    assert additions[..|additions|] == additions;
  }

  // ---------------------------------------------------------------- the tool list

  function TypesOf(tools: seq<Json>, d: Dialect): set<string>
  {
    set i | 0 <= i < |tools| && d.typeOf(tools[i]).Some? :: d.typeOf(tools[i]).value
  }

  function Specs(additions: seq<Addition>): (r: seq<Json>)
    ensures |r| == |additions|
  {
    seq(|additions|, i requires 0 <= i < |additions| => additions[i].spec)
  }

  /** The additions of types not seen before, each type once. */
  function Missing(seen: set<string>, additions: seq<Addition>): seq<Addition>
    decreases additions
  {
    if additions == [] then []
    else if additions[0].toolType in seen then Missing(seen, additions[1..])
    else [additions[0]] + Missing(seen + {additions[0].toolType}, additions[1..])
  }

  method AppendMissingTools(tools: seq<Json>, additions: seq<Addition>, d: Dialect)
    returns (updated: seq<Json>, changed: bool)
    ensures updated == tools + Specs(Missing(TypesOf(tools, d), additions))
    ensures changed <==> Missing(TypesOf(tools, d), additions) != []
  {
    var seen: set<string> := {};
    for i := 0 to |tools|
      invariant seen == TypesOf(tools[..i], d)
    {
      assert tools[..i + 1] == tools[..i] + [tools[i]];
      OneMoreType(tools[..i], tools[i], d);
      var toolType := d.typeOf(tools[i]);
      if toolType.Some? {
        seen := seen + {toolType.value};
      }
    }
    assert tools[..|tools|] == tools;
    updated, changed := tools, false;
    ghost var all := Missing(seen, additions);
    ghost var added: seq<Addition> := [];
    for i := 0 to |additions|
      invariant updated == tools + Specs(added) && (changed <==> added != [])
      invariant all == added + Missing(seen, additions[i..])
    {
      var addition := additions[i];
      assert additions[i..][1..] == additions[i + 1..];
      if addition.toolType in seen {
        continue;
      }
      updated := updated + [addition.spec];
      seen := seen + {addition.toolType};
      changed := true;
      added := added + [addition];
    }
  }

  lemma OneMoreType(tools: seq<Json>, tool: Json, d: Dialect)
    ensures TypesOf(tools + [tool], d) ==
              TypesOf(tools, d) + if d.typeOf(tool).Some? then {d.typeOf(tool).value} else {}
  {
    var more := tools + [tool];
    forall t | t in TypesOf(tools, d) || d.typeOf(tool) == Some(t)
      ensures t in TypesOf(more, d)
    {
      if t in TypesOf(tools, d) {
        var i :| 0 <= i < |tools| && d.typeOf(tools[i]) == Some(t);
        assert more[i] == tools[i];
      } else {
        assert more[|tools|] == tool;
      }
    }
  }

  // ---------------------------------------------------------------- the injection

  /** The body stays as it is, or changes, or an added specification cannot be encoded. */
  datatype Injection = Unchanged | Changed(request: Request) | Unencodable

  /** The tools of a request; none if the field is absent, null, or not a list. */
  function Tools(request: Request): seq<Json>
  {
    if "tools" in request && request["tools"].List? then request["tools"].items else []
  }

  predicate HasNoTools(request: Request)
  {
    "tools" !in request || request["tools"] == Null
  }

  predicate TakesTools(request: Request)
  {
    CanInject(request) && (HasNoTools(request) || request["tools"].List?)
  }

  /** What is added: everything that applies to a request without tools, else what is missing. */
  function Added(request: Request, additions: seq<Addition>, plan: string, d: Dialect): seq<Addition>
  {
    var applicable := Applicable(request, additions, plan, d);
    if HasNoTools(request) then applicable else Missing(TypesOf(Tools(request), d), applicable)
  }

  predicate Encodable(tools: seq<Json>)
  {
    forall i :: 0 <= i < |tools| ==> !tools[i].NotJson?
  }

  function Marshal(tools: seq<Json>): Option<Json>
  {
    if Encodable(tools) then Some(List(tools)) else None
  }

  function WithTools(request: Request, tools: seq<Json>): Injection
  {
    match Marshal(tools)
    case Some(encoded) => Changed(request["tools" := encoded])
    case None => Unencodable
  }

  function Injected(request: Request, additions: seq<Addition>, plan: string, d: Dialect): Injection
  {
    var added := Added(request, additions, plan, d);
    if !TakesTools(request) || added == [] then Unchanged
    else WithTools(request, Tools(request) + Specs(added))
  }

  /** A typed request is a response creation; an untyped one has tools, a model or an input. */
  predicate AsksForResponse(request: Request)
  {
    if "type" in request then request["type"] == Text("response.create")
    else "tools" in request || "model" in request || "input" in request
  }

  /** The plan is not one the addition skips, and the model does not end in a suffix it skips. */
  ghost predicate Suits(a: Addition, request: Request, plan: string, d: Dialect)
  {
    var model := if "model" in request && request["model"].Text? then d.lower(d.trim(request["model"].text))
                 else d.lower(d.trim(""));
    && (d.trim(plan) != "" ==> forall skip :: skip in a.skipPlanTypes ==> !d.equalFold(d.trim(skip), d.trim(plan)))
    && (model != "" ==>
          forall skip :: skip in a.skipModelSuffixes ==>
            !exists front: string :: model == front + d.lower(d.trim(skip)))
  }

  lemma SuffixIsTail(s: string, suffix: string)
    ensures HasSuffix(s, suffix) <==> exists front: string :: s == front + suffix
  {
    if HasSuffix(s, suffix) {
      assert s == s[..|s| - |suffix|] + suffix;
    }
    forall front: string | s == front + suffix
      ensures HasSuffix(s, suffix)
    {
      assert s[|s| - |suffix|..] == suffix;
    }
  }

  lemma SuitsWhenApplies(a: Addition, request: Request, plan: string, d: Dialect)
    ensures Applies(a, request, plan, d) <==> Suits(a, request, plan, d)
  {
    var name := d.lower(d.trim(Model(request)));
    forall i | 0 <= i < |a.skipModelSuffixes|
      ensures HasSuffix(name, d.lower(d.trim(a.skipModelSuffixes[i])))
         <==> exists front: string :: name == front + d.lower(d.trim(a.skipModelSuffixes[i]))
    {
      SuffixIsTail(name, d.lower(d.trim(a.skipModelSuffixes[i])));
    }
  }

  /**
   Which requests change: those that ask for a response, whose tools are absent, null or a list, and for which some
   addition suits plan and model and has a type that no tool of the request declares.
   */
  lemma ChangesExactly(request: Request, additions: seq<Addition>, plan: string, d: Dialect)
    ensures Injected(request, additions, plan, d) != Unchanged <==>
              && AsksForResponse(request)
              && ("tools" in request ==> request["tools"] == Null || request["tools"].List?)
              && exists a :: a in additions && Suits(a, request, plan, d)
                   && !("tools" in request && request["tools"].List?
                        && exists tool :: tool in request["tools"].items && d.typeOf(tool) == Some(a.toolType))
  {
    UnchangedExactly(request, additions, plan, d);
    forall a | a in additions
      ensures Applies(a, request, plan, d) <==> Suits(a, request, plan, d)
      ensures a.toolType in TypesOf(Tools(request), d)
         <==> "tools" in request && request["tools"].List?
              && exists tool :: tool in request["tools"].items && d.typeOf(tool) == Some(a.toolType)
    {
      SuitsWhenApplies(a, request, plan, d);
    }
  }

  /** The body is nothing when it is empty or not a JSON object. */
  method InjectTools(body: Option<Request>, additions: seq<Addition>, plan: string, d: Dialect)
    returns (result: Injection)
    ensures result == if body.Some? then Injected(body.value, additions, plan, d) else Unchanged
  {
    if body == None || additions == [] {
      return Unchanged;
    }
    var request := body.value;
    if !CanInject(request) {
      return Unchanged;
    }
    var applicable := FilterResponseToolInjections(request, additions, plan, d);
    if |applicable| == 0 {
      return Unchanged;
    }
    if "tools" !in request || request["tools"] == Null {
      assert Tools(request) + Specs(applicable) == Specs(applicable);
      return WithTools(request, Specs(applicable));
    }
    if !request["tools"].List? {
      return Unchanged;
    }
    var tools, changed := AppendMissingTools(request["tools"].items, applicable, d);
    if !changed {
      return Unchanged;
    }
    result := WithTools(request, tools);
  }

  // ---------------------------------------------------------------- what the injection means

  /** Every specification declares the type it is listed under. */
  predicate SpecsCarryTypes(additions: seq<Addition>, d: Dialect)
  {
    forall a <- additions :: d.typeOf(a.spec) == Some(a.toolType)
  }

  predicate DistinctTypes(additions: seq<Addition>)
  {
    forall i, j :: 0 <= i < j < |additions| ==> additions[i].toolType != additions[j].toolType
  }

  /** Some addition has this type. */
  predicate Offers(additions: seq<Addition>, toolType: string)
  {
    exists a :: a in additions && a.toolType == toolType
  }

  lemma {:induction false} MissingIsExact(seen: set<string>, additions: seq<Addition>)
    ensures DistinctTypes(Missing(seen, additions))
    ensures forall a <- Missing(seen, additions) :: a in additions && a.toolType !in seen
    ensures forall a <- additions :: a.toolType in seen || Offers(Missing(seen, additions), a.toolType)
    decreases additions
  {
    if additions != [] {
      var first, rest := additions[0], additions[1..];
      assert additions == [first] + rest;
      if first.toolType in seen {
        MissingIsExact(seen, rest);
      } else {
        var n := Missing(seen + {first.toolType}, rest);
        MissingIsExact(seen + {first.toolType}, rest);
        forall a | a in additions
          ensures a.toolType in seen || Offers([first] + n, a.toolType)
        {
          if a in rest && a.toolType !in seen && a.toolType != first.toolType {
            var b :| b in n && b.toolType == a.toolType;
            assert b in [first] + n;
          } else if a.toolType == first.toolType {
            assert first in [first] + n;
          }
        }
      }
    }
  }

  lemma TypesOfConcat(a: seq<Json>, b: seq<Json>, d: Dialect)
    ensures TypesOf(a + b, d) == TypesOf(a, d) + TypesOf(b, d)
  {
    forall t | t in TypesOf(a, d)
      ensures t in TypesOf(a + b, d)
    {
      var i :| 0 <= i < |a| && d.typeOf(a[i]) == Some(t);
      assert (a + b)[i] == a[i];
    }
    forall t | t in TypesOf(b, d)
      ensures t in TypesOf(a + b, d)
    {
      var i :| 0 <= i < |b| && d.typeOf(b[i]) == Some(t);
      assert (a + b)[|a| + i] == b[i];
    }
  }

  lemma OffersTypes(additions: seq<Addition>, d: Dialect)
    requires SpecsCarryTypes(additions, d)
    ensures forall t :: t in TypesOf(Specs(additions), d) <==> Offers(additions, t)
  {
    forall t | Offers(additions, t)
      ensures t in TypesOf(Specs(additions), d)
    {
      var i :| 0 <= i < |additions| && additions[i].toolType == t;
      assert Specs(additions)[i] == additions[i].spec;
    }
  }

  lemma AddedIsExact(request: Request, additions: seq<Addition>, plan: string, d: Dialect)
    ensures forall a <- Added(request, additions, plan, d) ::
              a in additions && Applies(a, request, plan, d) && a.toolType !in TypesOf(Tools(request), d)
    ensures forall a <- additions :: Applies(a, request, plan, d) ==>
              || a.toolType in TypesOf(Tools(request), d)
              || Offers(Added(request, additions, plan, d), a.toolType)
    ensures DistinctTypes(additions) ==> DistinctTypes(Added(request, additions, plan, d))
  {
    MissingIsExact(TypesOf(Tools(request), d), Applicable(request, additions, plan, d));
    if DistinctTypes(additions) {
      ApplicableStaysDistinct(request, additions, plan, d);
    }
  }

  /** Nothing changes exactly when the request takes no tools or every applicable type is in its list. */
  lemma UnchangedExactly(request: Request, additions: seq<Addition>, plan: string, d: Dialect)
    ensures Injected(request, additions, plan, d) == Unchanged <==>
              || !TakesTools(request)
              || forall a <- additions :: Applies(a, request, plan, d) ==> a.toolType in TypesOf(Tools(request), d)
  {
    AddedIsExact(request, additions, plan, d);
    var added := Added(request, additions, plan, d);
    if added != [] {
      assert added[0] in added;
    }
  }

  lemma {:induction false} ApplicableStaysDistinct(request: Request, additions: seq<Addition>, plan: string, d: Dialect)
    requires DistinctTypes(additions)
    ensures DistinctTypes(Applicable(request, additions, plan, d))
  {
    if additions != [] {
      var n := |additions| - 1;
      ApplicableStaysDistinct(request, additions[..n], plan, d);
      var rest := Applicable(request, additions[..n], plan, d);
      forall i | 0 <= i < |rest|
        ensures rest[i].toolType != additions[n].toolType
      {
        assert rest[i] in additions[..n];
      }
    }
  }

  /**
   What a changed request looks like: all other fields are kept, the tools it had come first, the new
   ones are applicable and of types it did not have, no two alike, and every applicable type is there.
   */
  lemma InjectionAddsWhatIsMissing(request: Request, additions: seq<Addition>, plan: string, d: Dialect)
    requires Injected(request, additions, plan, d).Changed?
    requires SpecsCarryTypes(additions, d) && DistinctTypes(additions)
    ensures var r := Injected(request, additions, plan, d).request;
            && r.Keys == request.Keys + {"tools"} && (forall k :: k in request && k != "tools" ==> r[k] == request[k])
            && Tools(request) <= Tools(r)
            && (forall a <- additions :: Applies(a, request, plan, d) ==> a.toolType in TypesOf(Tools(r), d))
            && exists added :: Tools(r) == Tools(request) + Specs(added) && DistinctTypes(added)
                  && forall a <- added ::
                       a in additions && Applies(a, request, plan, d) && a.toolType !in TypesOf(Tools(request), d)
  {
    var added := Added(request, additions, plan, d);
    AddedIsExact(request, additions, plan, d);
    OffersTypes(added, d);
    TypesOfConcat(Tools(request), Specs(added), d);
    assert Tools(Injected(request, additions, plan, d).request) == Tools(request) + Specs(added);
  }

  /**
   Exactly when injecting again changes nothing: every applicable type is declared by a tool the request
   had or by a specification that was added. A type that is declared by neither is added on every pass.
   */
  lemma SettlesExactly(request: Request, additions: seq<Addition>, plan: string, d: Dialect)
    requires Injected(request, additions, plan, d).Changed?
    ensures Injected(Injected(request, additions, plan, d).request, additions, plan, d) == Unchanged <==>
              forall a <- additions :: Applies(a, request, plan, d) ==>
                a.toolType in TypesOf(Tools(request), d) + TypesOf(Specs(Added(request, additions, plan, d)), d)
  {
    var r, added := Injected(request, additions, plan, d).request, Added(request, additions, plan, d);
    assert Tools(r) == Tools(request) + Specs(added);
    TypesOfConcat(Tools(request), Specs(added), d);
    UnchangedExactly(r, additions, plan, d);
    forall a | a in additions
      ensures Applies(a, r, plan, d) == Applies(a, request, plan, d)
    {
      assert Model(r) == Model(request);
    }
  }

  /** If every specification declares its type, injecting again changes nothing. */
  lemma InjectionSettles(request: Request, additions: seq<Addition>, plan: string, d: Dialect)
    requires Injected(request, additions, plan, d).Changed? && SpecsCarryTypes(additions, d)
    ensures Injected(Injected(request, additions, plan, d).request, additions, plan, d) == Unchanged
  {
    AddedIsExact(request, additions, plan, d);
    OffersTypes(Added(request, additions, plan, d), d);
    SettlesExactly(request, additions, plan, d);
  }

  lemma OneAddition(request: Request, a: Addition, plan: string, d: Dialect)
    requires Injected(request, [a], plan, d).Changed?
    ensures Added(request, [a], plan, d) == [a] && a.toolType !in TypesOf(Tools(request), d)
    ensures Tools(Injected(request, [a], plan, d).request) == Tools(request) + [a.spec]
  {
    assert Applicable(request, [a], plan, d) == [a] by {
      assert [a][..0] == [];
    }
    UnchangedExactly(request, [a], plan, d);
    assert a.toolType !in TypesOf(Tools(request), d);
    assert Missing(TypesOf(Tools(request), d), [a]) == [a];
    assert Specs([a]) == [a.spec];
  }

  /**
   The built-in addition. A request changes exactly if it asks for a response, its tools are absent, null or a list,
   the plan is not free, the model does not end in spark, and no tool is an image generation.
   */
  lemma ImageToolExactly(request: Request, plan: string, d: Dialect)
    ensures Injected(request, DEFAULTS, plan, d) != Unchanged <==>
              && AsksForResponse(request)
              && ("tools" in request ==> request["tools"] == Null || request["tools"].List?)
              && (d.trim(plan) != "" ==> !d.equalFold(d.trim("free"), d.trim(plan)))
              && (var model := if "model" in request && request["model"].Text? then request["model"].text else "";
                  d.lower(d.trim(model)) == "" || !HasSuffix(d.lower(d.trim(model)), d.lower(d.trim("spark"))))
              && !("tools" in request && request["tools"].List?
                   && exists tool :: tool in request["tools"].items && d.typeOf(tool) == Some("image_generation"))
    ensures DEFAULTS[0].spec == Object(map["type" := Text("image_generation"), "output_format" := Text("png")])
  {
    var a := DEFAULTS[0];
    ChangesExactly(request, DEFAULTS, plan, d);
    SuitsWhenApplies(a, request, plan, d);
    assert DEFAULTS == [a] && a.skipPlanTypes == ["free"] && a.skipModelSuffixes == ["spark"];
    assert a.skipPlanTypes[0] == "free" && a.skipModelSuffixes[0] == "spark";
  }

  /** With the built-in addition a changed request has exactly one image generation tool, the last. */
  lemma ImageToolOnce(request: Request, plan: string, d: Dialect)
    requires Injected(request, DEFAULTS, plan, d).Changed? && d.typeOf(DEFAULTS[0].spec) == Some(IMAGE_GENERATION)
    ensures var tools := Tools(Injected(request, DEFAULTS, plan, d).request);
            && tools == Tools(request) + [DEFAULTS[0].spec]
            && forall i :: 0 <= i < |tools| ==> (d.typeOf(tools[i]) == Some(IMAGE_GENERATION) <==> i == |tools| - 1)
  {
    OneAddition(request, DEFAULTS[0], plan, d);
    forall i | 0 <= i < |Tools(request)|
      ensures d.typeOf(Tools(request)[i]) != Some(IMAGE_GENERATION)
    {
      assert d.typeOf(Tools(request)[i]).Some? ==> d.typeOf(Tools(request)[i]).value in TypesOf(Tools(request), d);
    }
  }
}
