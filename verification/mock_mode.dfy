/**
 * The mock-mode patch of the production dispatcher workflow: the code of the
 * first `Route to Provider` node is replaced by the mock-aware router, and
 * the first `Parse Response` node gets a mock-mode guard in front of its code
 * unless its code already mentions `mock_mode`.
 *
 * A workflow is its list of nodes.  A node keeps its `parameters` object
 * (absent in some nodes) as a map from keys to their text; every other field
 * of the node is carried along untouched.  The embedded JavaScript is opaque
 * text.  A `KeyError` the script would raise is a `Failure`, and then nothing
 * is written back.
 */
module MockMode {
  import opened Wrappers
  import PyStr

  /** One workflow node. */
  datatype Node = Node(name: string, parameters: Option<map<string, string>>, fields: map<string, string>)

  /** The `KeyError`s the patch can raise, with the index of the offending node. */
  datatype PatchError = MissingParameters(index: nat) | MissingJsCode(index: nat)

  const RouteNodeName := "Route to Provider"
  const ParseNodeName := "Parse Response"
  const JsCodeKey := "jsCode"
  const MockModeMarker := "mock_mode"

  /** The router code installed in the `Route to Provider` node, written
      around its first mention of `mock_mode`. */
  const MockModeCode: string := MockModeCodeBefore + MockModeMarker + MockModeCodeAfter
  const MockModeCodeBefore: string := @"// ============================================
// MULTI-VENDOR ROUTING WITH MOCK MODE
// Per Manifesto Section 5.2
// MOCK_MODE: Set env var MOCK_MODE=true to skip real API calls
// ============================================

const ticket = $('Create Job Tickets').first().json;
const provider = ticket.provider_priority[0];
const mockMode = $env.MOCK_MODE === 'true';

// MOCK MODE: Return fake response without calling API
if (mockMode) {
  return [{
    json: {
      ...ticket,
      selected_provider: 'mock',
      "
  const MockModeCodeAfter: string := @": true,
      api_config: null,
      mock_response: {
        id: 'mock_' + Date.now(),
        status: 'completed',
        output_url: 'https://storage.googleapis.com/gtv-videos-bucket/sample/BigBuckBunny.mp4'
      }
    }
  }];
}

// REAL MODE: Build provider-specific API request
const providerConfigs = {
  'sora': {
    url: 'https://api.openai.com/v1/videos/generations',
    method: 'POST',
    body: {
      prompt: ticket.visual_prompt,
      duration: Math.min(ticket.duration_seconds, 20),
      model: 'sora-1.0'
    },
    auth: 'openai'
  },
  'runway': {
    url: 'https://api.runwayml.com/v1/generations',
    method: 'POST',
    body: {
      prompt: ticket.visual_prompt,
      duration: ticket.duration_seconds,
      mode: 'gen3'
    },
    auth: 'runway'
  },
  'pika': {
    url: 'https://api.pika.art/v1/generate',
    method: 'POST',
    body: {
      prompt: ticket.visual_prompt,
      duration: ticket.duration_seconds
    },
    auth: 'pika'
  },
  'kling': {
    url: 'https://api.kling.ai/v1/videos',
    method: 'POST',
    body: {
      prompt: ticket.visual_prompt,
      duration: ticket.duration_seconds
    },
    auth: 'kling'
  }
};

const config = providerConfigs[provider] || providerConfigs['runway'];

return [{
  json: {
    ...ticket,
    selected_provider: provider,
    mock_mode: false,
    api_config: config
  }
}];"

  /** The guard put in front of the `Parse Response` node's code, written
      around its first mention of `mock_mode`. */
  const MockCheck: string := MockCheckBefore + MockModeMarker + MockCheckAfter
  const MockCheckBefore: string := @"// Handle mock mode response
const routeData = $('Route to Provider').first().json;
if (routeData."
  const MockCheckAfter: string := @") {
  return [{
    json: {
      success: true,
      campaign_id: routeData.campaign_id,
      script_id: routeData.script_id,
      scene_id: routeData.scene_id,
      provider: 'mock',
      provider_job_id: routeData.mock_response.id,
      status: 'completed',
      result_url: routeData.mock_response.output_url,
      prompt: routeData.visual_prompt,
      submitted_at: new Date().toISOString(),
      mock_mode: true
    }
  }];
}

"

  /** The index of the first node called `name`, if any. */
  function FirstNamed(nodes: seq<Node>, name: string): (r: Option<nat>)
    ensures r.Some? ==> r.value < |nodes| && nodes[r.value].name == name
    ensures r.Some? ==> forall j :: 0 <= j < r.value ==> nodes[j].name != name
    ensures r.None? ==> forall j :: 0 <= j < |nodes| ==> nodes[j].name != name
  {
    if |nodes| == 0 then None
    else if nodes[0].name == name then Some(0)
    else
      match FirstNamed(nodes[1..], name)
      case None => None
      case Some(i) => Some(i + 1)
  }

  /** The node's `jsCode` parameter, if it has one. */
  function JsCode(node: Node): Option<string>
  {
    if node.parameters.Some? && JsCodeKey in node.parameters.value
    then Some(node.parameters.value[JsCodeKey]) else None
  }

  /** `node['parameters']['jsCode'] = code`. */
  function SetJsCode(node: Node, code: string): Node
    requires node.parameters.Some?
  {
    node.(parameters := Some(node.parameters.value[JsCodeKey := code]))
  }

  /** The first loop: give the first `Route to Provider` node the mock-aware
      router.  It fails exactly when that node has no parameters; otherwise it
      changes that node's code and nothing else. */
  function PatchRoute(nodes: seq<Node>): (r: Result<seq<Node>, PatchError>)
    ensures var ri := FirstNamed(nodes, RouteNodeName);
            r.Failure? <==> ri.Some? && nodes[ri.value].parameters.None?
    ensures r.Failure? ==> r.error == MissingParameters(FirstNamed(nodes, RouteNodeName).value)
    ensures var ri := FirstNamed(nodes, RouteNodeName);
            r.Success? ==>
              && |r.value| == |nodes|
              && (forall i :: 0 <= i < |nodes| ==> SameButJsCode(nodes[i], r.value[i]))
              && (forall i :: 0 <= i < |nodes| && Some(i) != ri ==> r.value[i] == nodes[i])
              && (ri.Some? ==> JsCode(r.value[ri.value]) == Some(MockModeCode))
  {
    match FirstNamed(nodes, RouteNodeName)
    case None => Success(nodes)
    case Some(i) =>
      if nodes[i].parameters.None? then Failure(MissingParameters(i))
      else
        SetJsCodeOnlyCode(nodes[i], MockModeCode);
        Success(nodes[i := SetJsCode(nodes[i], MockModeCode)])
  }

  /** The second loop: guard the first `Parse Response` node unless its code
      already mentions `mock_mode`; the loop stops at that node either way.
      It fails exactly when that node has no `jsCode`; otherwise only that
      node's code can change, to the guarded code. */
  function PatchParse(nodes: seq<Node>): (r: Result<seq<Node>, PatchError>)
    ensures var pi := FirstNamed(nodes, ParseNodeName);
            r.Failure? <==> pi.Some? && JsCode(nodes[pi.value]).None?
    ensures var pi := FirstNamed(nodes, ParseNodeName);
            r.Success? ==>
              && |r.value| == |nodes|
              && (forall i :: 0 <= i < |nodes| ==> SameButJsCode(nodes[i], r.value[i]))
              && (forall i :: 0 <= i < |nodes| && Some(i) != pi ==> r.value[i] == nodes[i])
              && (pi.Some? ==> JsCode(r.value[pi.value]) == Some(GuardedCode(JsCode(nodes[pi.value]).value)))
  {
    match FirstNamed(nodes, ParseNodeName)
    case None => Success(nodes)
    case Some(j) =>
      if nodes[j].parameters.None? then Failure(MissingParameters(j))
      else if JsCodeKey !in nodes[j].parameters.value then Failure(MissingJsCode(j))
      else
        var original := nodes[j].parameters.value[JsCodeKey];
        if PyStr.Contains(original, MockModeMarker) then Success(nodes)
        else
          SetJsCodeOnlyCode(nodes[j], MockCheck + original);
          Success(nodes[j := SetJsCode(nodes[j], MockCheck + original)])
  }

  /** `patch_production_dispatcher` on the node list.  It fails exactly when
      one of the two nodes it touches lacks the keys it reads; otherwise the
      node list keeps its length and order, only the first
      `Route to Provider` and the first `Parse Response` node can change, only
      in their `jsCode`, and these get the router code and the guarded code. */
  function PatchProductionDispatcher(nodes: seq<Node>): (r: Result<seq<Node>, PatchError>)
    ensures var ri := FirstNamed(nodes, RouteNodeName);
            var pi := FirstNamed(nodes, ParseNodeName);
            r.Failure? <==>
              || (ri.Some? && nodes[ri.value].parameters.None?)
              || (pi.Some? && JsCode(nodes[pi.value]).None?)
    ensures r.Success? ==>
              && |r.value| == |nodes|
              && forall i :: 0 <= i < |nodes| ==> SameButJsCode(nodes[i], r.value[i])
    ensures var ri := FirstNamed(nodes, RouteNodeName);
            var pi := FirstNamed(nodes, ParseNodeName);
            r.Success? ==>
              forall i :: 0 <= i < |nodes| && Some(i) != ri && Some(i) != pi ==> r.value[i] == nodes[i]
    ensures var ri := FirstNamed(nodes, RouteNodeName);
            r.Success? && ri.Some? ==> JsCode(r.value[ri.value]) == Some(MockModeCode)
    ensures var pi := FirstNamed(nodes, ParseNodeName);
            r.Success? && pi.Some? ==>
              JsCode(r.value[pi.value]) == Some(GuardedCode(JsCode(nodes[pi.value]).value))
  {
    match PatchRoute(nodes)
    case Failure(e) => Failure(e)
    case Success(routed) =>
      var ri := FirstNamed(nodes, RouteNodeName);
      var pi := FirstNamed(nodes, ParseNodeName);
      FirstNamedSameNames(nodes, routed, ParseNodeName);
      assert pi.Some? ==> Some(pi.value) != ri;
      assert pi.Some? ==> routed[pi.value] == nodes[pi.value];
      var r := PatchParse(routed);
      assert r.Success? ==> forall i :: 0 <= i < |nodes| ==> SameButJsCode(nodes[i], r.value[i]);
      r
  }

  /** `b` is `a` with at most its `jsCode` parameter changed. */
  predicate SameButJsCode(a: Node, b: Node)
  {
    && a.name == b.name
    && a.fields == b.fields
    && a.parameters.Some? == b.parameters.Some?
    && (a.parameters.Some? ==> a.parameters.value - {JsCodeKey} == b.parameters.value - {JsCodeKey})
  }

  /** The new `jsCode` of the `Parse Response` node: unchanged when it
      already mentions `mock_mode`, otherwise the guard followed by the
      original code. */
  function GuardedCode(original: string): string
  {
    if PyStr.Contains(original, MockModeMarker) then original else MockCheck + original
  }

  /** Setting `jsCode` changes nothing else about a node. */
  lemma SetJsCodeOnlyCode(node: Node, code: string)
    requires node.parameters.Some?
    ensures SameButJsCode(node, SetJsCode(node, code))
    ensures JsCode(SetJsCode(node, code)) == Some(code)
  {
    var m := node.parameters.value;
    assert m[JsCodeKey := code] - {JsCodeKey} == m - {JsCodeKey};
  }

  /** Lists with the same names at every index have the same first node of a name. */
  lemma {:induction false} FirstNamedSameNames(a: seq<Node>, b: seq<Node>, name: string)
    requires |a| == |b|
    requires forall i :: 0 <= i < |a| ==> a[i].name == b[i].name
    ensures FirstNamed(a, name) == FirstNamed(b, name)
  {
    if |a| > 0 && a[0].name != name {
      FirstNamedSameNames(a[1..], b[1..], name);
    }
  }

  /** Without a node of either name the workflow comes back unchanged. */
  lemma NoTargetsUnchanged(nodes: seq<Node>)
    requires forall i :: 0 <= i < |nodes| ==> nodes[i].name != RouteNodeName && nodes[i].name != ParseNodeName
    ensures PatchProductionDispatcher(nodes) == Success(nodes)
  {
  }

  /** Both inserted texts mention `mock_mode`. */
  lemma InsertedCodeMentionsMockMode()
    ensures PyStr.Contains(MockCheck, MockModeMarker)
    ensures PyStr.Contains(MockModeCode, MockModeMarker)
  {
    MentionsMarker(MockCheckBefore, MockCheckAfter);
    MentionsMarker(MockModeCodeBefore, MockModeCodeAfter);
  }

  /** Text written around `mock_mode` mentions it. */
  lemma MentionsMarker(before: string, after: string)
    ensures PyStr.Contains(before + MockModeMarker + after, MockModeMarker)
  {
    var s := before + MockModeMarker + after;
    assert s[|before|..|before| + |MockModeMarker|] == MockModeMarker;
    PyStr.ContainsAt(s, MockModeMarker, |before|);
  }

  /** Guarding is idempotent: guarded code already mentions `mock_mode`. */
  lemma GuardedCodeIdempotent(code: string)
    ensures GuardedCode(GuardedCode(code)) == GuardedCode(code)
  {
    if !PyStr.Contains(code, MockModeMarker) {
      InsertedCodeMentionsMockMode();
      PyStr.ContainsInPrefix(MockCheck, code, MockModeMarker);
    }
  }

  /** Setting `jsCode` to the value it already has changes nothing. */
  lemma SetSameJsCode(node: Node, code: string)
    requires JsCode(node) == Some(code)
    ensures SetJsCode(node, code) == node
  {
    assert node.parameters.value[JsCodeKey := code] == node.parameters.value;
  }

  /** Applying the patch to its own result changes nothing more: the router
      code is a constant and the guarded code already mentions `mock_mode`. */
  lemma PatchIdempotent(nodes: seq<Node>)
    requires PatchProductionDispatcher(nodes).Success?
    ensures PatchProductionDispatcher(PatchProductionDispatcher(nodes).value) == PatchProductionDispatcher(nodes)
  {
    var once := PatchProductionDispatcher(nodes).value;
    var ri := FirstNamed(nodes, RouteNodeName);
    var pi := FirstNamed(nodes, ParseNodeName);
    assert forall i :: 0 <= i < |nodes| ==> nodes[i].name == once[i].name;
    FirstNamedSameNames(nodes, once, RouteNodeName);
    FirstNamedSameNames(nodes, once, ParseNodeName);
    RouteFixed(once);
    if pi.Some? {
      var code := JsCode(nodes[pi.value]).value;
      InsertedCodeMentionsMockMode();
      if !PyStr.Contains(code, MockModeMarker) {
        PyStr.ContainsInPrefix(MockCheck, code, MockModeMarker);
      }
    }
    ParseFixed(once);
  }

  /** The first loop leaves a list alone whose router already has the mock-aware code. */
  lemma RouteFixed(nodes: seq<Node>)
    requires var ri := FirstNamed(nodes, RouteNodeName);
             ri.Some? ==> JsCode(nodes[ri.value]) == Some(MockModeCode)
    ensures PatchRoute(nodes) == Success(nodes)
  {
    var ri := FirstNamed(nodes, RouteNodeName);
    if ri.Some? {
      var i := ri.value;
      SetSameJsCode(nodes[i], MockModeCode);
      assert nodes[i := nodes[i]] == nodes;
    }
  }

  /** The second loop leaves a list alone whose parser code already mentions `mock_mode`. */
  lemma ParseFixed(nodes: seq<Node>)
    requires var pi := FirstNamed(nodes, ParseNodeName);
             pi.Some? ==> JsCode(nodes[pi.value]).Some? && PyStr.Contains(JsCode(nodes[pi.value]).value, MockModeMarker)
    ensures PatchParse(nodes) == Success(nodes)
  {
  }
}
