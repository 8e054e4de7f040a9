/**
 * The peer registry (`NETWORK_NODES`): a set of peer base URLs that only ever grows.
 * Four paths add to it: the `/register-node` and `/sync-nodes` routes, the socket
 * `register-node` event and the merge of a registration reply in `registerWithNode`.
 */
module Registry {
  import opened Wrappers

  /** An element of a JSON array received by `/sync-nodes`: a string or anything else. */
  datatype JsValue = JsString(s: string) | JsOther

  /**
   * The `nodes` field of a registration answer: missing or falsy, present but not an array
   * (its `forEach` throws), or a list of URLs.
   */
  datatype NodesField = NoNodes | NotAList | NodeList(urls: seq<string>)

  /**
   * Outcome of `POST <target>/register-node`: no 2xx answer (a network failure or an error
   * status, both of which axios rejects), or a 2xx body carrying a `nodes` field.
   */
  datatype RegistrationReply = Unreachable | Replied(nodes: NodesField)

  /** The strings among the elements of a JSON array. */
  function StringsIn(xs: seq<JsValue>): set<string>
  {
    set i | 0 <= i < |xs| && xs[i].JsString? :: xs[i].s
  }

  /** The elements of a list of URLs. */
  function Elements(xs: seq<string>): set<string>
  {
    set i | 0 <= i < |xs| :: xs[i]
  }

  /** The `forEach` of `/sync-nodes`: adds each string element, skips the others. */
  function AddStrings(peers: set<string>, xs: seq<JsValue>): (r: set<string>)
    ensures r == peers + StringsIn(xs)
    decreases |xs|
  {
    if |xs| == 0 then peers
    else
      var before := AddStrings(peers, xs[..|xs| - 1]);
      var x := xs[|xs| - 1];
      assert StringsIn(xs) == StringsIn(xs[..|xs| - 1]) + (if x.JsString? then {x.s} else {}) by {
        forall y | y in StringsIn(xs) ensures y in StringsIn(xs[..|xs| - 1]) + (if x.JsString? then {x.s} else {}) {
          var i :| 0 <= i < |xs| && xs[i].JsString? && xs[i].s == y;
          if i < |xs| - 1 {
            assert xs[..|xs| - 1][i] == xs[i];
          }
        }
      }
      if x.JsString? && x.s !in before then before + {x.s} else before
  }

  /** The `forEach` of `registerWithNode`: adds each listed node not yet present. */
  function AddAll(peers: set<string>, xs: seq<string>): (r: set<string>)
    ensures r == peers + Elements(xs)
    decreases |xs|
  {
    if |xs| == 0 then peers
    else
      var before := AddAll(peers, xs[..|xs| - 1]);
      var x := xs[|xs| - 1];
      assert Elements(xs) == Elements(xs[..|xs| - 1]) + {x} by {
        forall y | y in Elements(xs) ensures y in Elements(xs[..|xs| - 1]) + {x} {
          var i :| 0 <= i < |xs| && xs[i] == y;
          if i < |xs| - 1 {
            assert xs[..|xs| - 1][i] == xs[i];
          }
        }
      }
      if x !in before then before + {x} else before
  }

  /**
   * `POST /register-node`: a missing, non-string (both `None`) or empty URL is refused with
   * the registry unchanged; otherwise the URL is added and the reply lists the whole registry.
   */
  function RegisterNode(peers: set<string>, nodeUrl: Option<string>): (r: Result<set<string>, Error>)
    ensures r.Failure? <==> nodeUrl.None? || nodeUrl.value == ""
    ensures r.Failure? ==> r.error == InvalidNodeUrl
    ensures r.Success? ==> r.value == peers + {nodeUrl.value}
  {
    if nodeUrl.None? || nodeUrl.value == "" then Failure(InvalidNodeUrl)
    else if nodeUrl.value !in peers then Success(peers + {nodeUrl.value})
    else Success(peers)
  }

  /** `POST /sync-nodes`: when the body's `nodes` is an array, every string element is added. */
  function SyncNodes(peers: set<string>, nodes: Option<seq<JsValue>>): (r: set<string>)
    ensures nodes.None? ==> r == peers
    ensures nodes.Some? ==> r == peers + StringsIn(nodes.value)
  {
    if nodes.Some? then AddStrings(peers, nodes.value) else peers
  }

  /** The socket `register-node` event: an absent or empty URL is ignored, any other is added. */
  function SocketRegister(peers: set<string>, nodeUrl: Option<string>): (r: set<string>)
    ensures nodeUrl.None? || nodeUrl.value == "" ==> r == peers
    ensures nodeUrl.Some? && nodeUrl.value != "" ==> r == peers + {nodeUrl.value}
  {
    if nodeUrl.Some? && nodeUrl.value != "" && nodeUrl.value !in peers then peers + {nodeUrl.value} else peers
  }

  /**
   * `registerWithNode`: without a 2xx answer it returns false and changes nothing. A 2xx
   * answer whose `nodes` is truthy but not an array makes `forEach` throw into the same
   * `catch`, so it too returns false with nothing added. Otherwise it returns true, and a
   * listed `nodes` array is merged by union.
   */
  function MergeRegistration(peers: set<string>, reply: RegistrationReply): (r: (set<string>, bool))
    ensures r.1 <==> reply.Replied? && !reply.nodes.NotAList?
    ensures reply.Replied? && reply.nodes.NodeList? ==> r.0 == peers + Elements(reply.nodes.urls)
    ensures !(reply.Replied? && reply.nodes.NodeList?) ==> r.0 == peers
  {
    match reply
    case Unreachable => (peers, false)
    case Replied(NoNodes) => (peers, true)
    case Replied(NotAList) => (peers, false)
    case Replied(NodeList(urls)) => (AddAll(peers, urls), true)
  }

  /** One inbound registry update, on any of the four paths. */
  datatype PeerEvent =
    | HttpRegister(url: Option<string>)
    | HttpSync(nodes: Option<seq<JsValue>>)
    | SocketAnnounce(announced: Option<string>)
    | RegistrationAnswer(reply: RegistrationReply)

  function Apply(peers: set<string>, e: PeerEvent): set<string>
  {
    match e
    case HttpRegister(url) => (match RegisterNode(peers, url) case Success(p) => p case Failure(_) => peers)
    case HttpSync(nodes) => SyncNodes(peers, nodes)
    case SocketAnnounce(url) => SocketRegister(peers, url)
    case RegistrationAnswer(reply) => MergeRegistration(peers, reply).0
  }

  /** The URLs one event can contribute. */
  function Offered(e: PeerEvent): set<string>
  {
    match e
    case HttpRegister(url) => if url.Some? then {url.value} else {}
    case HttpSync(nodes) => if nodes.Some? then StringsIn(nodes.value) else {}
    case SocketAnnounce(url) => if url.Some? then {url.value} else {}
    case RegistrationAnswer(reply) => if reply.Replied? && reply.nodes.NodeList? then Elements(reply.nodes.urls) else {}
  }

  /** Applies events in arrival order. */
  function ApplyAll(peers: set<string>, es: seq<PeerEvent>): set<string>
    decreases |es|
  {
    if |es| == 0 then peers else ApplyAll(Apply(peers, es[0]), es[1..])
  }

  /** Each path adds only what its message offered and never removes anything. */
  lemma ApplyOnlyAdds(peers: set<string>, e: PeerEvent)
    ensures peers <= Apply(peers, e) <= peers + Offered(e)
  {
  }

  /** Replaying an event has no further effect. */
  lemma ApplyIdempotent(peers: set<string>, e: PeerEvent)
    ensures Apply(Apply(peers, e), e) == Apply(peers, e)
  {
  }

  /** No sequence of registry updates removes a URL or adds one that no message carried. */
  lemma {:induction false} RegistryMonotone(peers: set<string>, es: seq<PeerEvent>)
    ensures peers <= ApplyAll(peers, es)
    ensures forall u :: u in ApplyAll(peers, es) && u !in peers ==> exists k :: 0 <= k < |es| && u in Offered(es[k])
    decreases |es|
  {
    if |es| > 0 {
      var next := Apply(peers, es[0]);
      ApplyOnlyAdds(peers, es[0]);
      RegistryMonotone(next, es[1..]);
      forall u | u in ApplyAll(peers, es) && u !in peers
        ensures exists k :: 0 <= k < |es| && u in Offered(es[k])
      {
        if u in next {
          assert u in Offered(es[0]);
        } else {
          var k :| 0 <= k < |es[1..]| && u in Offered(es[1..][k]);
          assert es[1..][k] == es[k + 1];
        }
      }
    }
  }

  /** Registering A, then B, then A again leaves exactly {A, B} added. */
  lemma RegisterTwiceIsOnce(peers: set<string>, a: string, b: string)
    requires a != "" && b != ""
    ensures ApplyAll(peers, [HttpRegister(Some(a)), HttpRegister(Some(b)), HttpRegister(Some(a))]) == peers + {a, b}
  {
    var es := [HttpRegister(Some(a)), HttpRegister(Some(b)), HttpRegister(Some(a))];
    var p1 := Apply(peers, es[0]);
    assert p1 == peers + {a};
    var p2 := Apply(p1, es[1]);
    assert p2 == peers + {a, b};
    var p3 := Apply(p2, es[2]);
    assert p3 == peers + {a, b};
    assert es[1..] == [HttpRegister(Some(b)), HttpRegister(Some(a))];
    assert es[1..][1..] == [HttpRegister(Some(a))];
    assert ApplyAll(p3, es[1..][1..][1..]) == p3;
    assert ApplyAll(p2, es[1..][1..]) == p3;
    assert ApplyAll(p1, es[1..]) == p3;
  }
}
