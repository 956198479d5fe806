/**
 * The request dispatcher of branchweb (src/branchweb/webserver.py): the
 * JSON status envelope, the query-string parser, the resolution of the
 * "real path" from the raw request path, the endpoint registry and the
 * dispatch loops of GET, POST and OPTIONS requests.
 *
 * Handlers are opaque: an endpoint names its handler by a `HandlerId`, and
 * whether the handler of the endpoint at position `i` of the list raises an
 * exception on the current request is given by `raises(i)`. The same handler
 * registered twice may thus succeed at one position and raise at the other. What a handler writes to the client itself is not
 * modelled; the model records which endpoints were invoked and which reply,
 * if any, the dispatcher itself sends.
 */
module Server {
  import opened Wrappers
  import opened Text
  import opened Dicts

  // ---------------------------------------------------------------------
  // Response envelope
  // ---------------------------------------------------------------------

  /** The `webstatus` enum. */
  datatype WebStatus = Success | MissingData | ServFailure | AuthFailure {

    /** The enum member's name, sent as the "status" field. */
    function Name(): string {
      match this
      case Success => "SUCCESS"
      case MissingData => "MISSING_DATA"
      case ServFailure => "SERV_FAILURE"
      case AuthFailure => "AUTH_FAILURE"
    }

    /** The enum member's value, sent as the "response_code" field. */
    function Code(): int {
      match this
      case Success => 200
      case MissingData => 300
      case ServFailure => 400
      case AuthFailure => 500
    }
  }

  /** Enum lookup by value, `webstatus(code)`: the member with that value, if any. */
  function StatusOfCode(code: int): (r: Option<WebStatus>)
    ensures r.Some? ==> r.value.Code() == code
    ensures forall s: WebStatus :: s.Code() == code ==> r == Some(s)
  {
    if code == 200 then Some(Success)
    else if code == 300 then Some(MissingData)
    else if code == 400 then Some(ServFailure)
    else if code == 500 then Some(AuthFailure)
    else None
  }

  /** Enum lookup by name, `webstatus[name]`: the member with that name, if any. */
  function StatusOfName(name: string): (r: Option<WebStatus>)
    ensures r.Some? ==> r.value.Name() == name
    ensures forall s: WebStatus :: s.Name() == name ==> r == Some(s)
  {
    if name == "SUCCESS" then Some(Success)
    else if name == "MISSING_DATA" then Some(MissingData)
    else if name == "SERV_FAILURE" then Some(ServFailure)
    else if name == "AUTH_FAILURE" then Some(AuthFailure)
    else None
  }

  /** A `webresponse`: the JSON envelope's three fields. */
  datatype WebResponse = WebResponse(status: string, responseCode: int, payload: string)

  /** `webresponse(wstatus, payload)`: the status is sent by name and by value. */
  function Respond(wstatus: WebStatus, payload: string): (r: WebResponse)
    ensures StatusOfName(r.status) == Some(wstatus)
    ensures StatusOfCode(r.responseCode) == Some(wstatus)
    ensures r.payload == payload
  {
    WebResponse(wstatus.Name(), wstatus.Code(), payload)
  }

  /** The dispatcher's own replies. */
  const BadRequest := Respond(ServFailure, "Bad request.")
  const InternalError := Respond(ServFailure, "Internal server error.")
  const BadPostData := Respond(ServFailure, "Could not parse post data!")
  const OptionsOk := Respond(Success, "OK")

  // ---------------------------------------------------------------------
  // Query-string parsing (parse_form_data)
  // ---------------------------------------------------------------------

  /**
   * What one `&`-separated segment adds to the form: nothing when it holds
   * no `=`, otherwise the first two `=`-separated pieces as key and value.
   */
  function SegmentField(segment: string): (f: Option<(string, string)>)
    ensures f.None? <==> '=' !in segment
    ensures f.Some? ==> '=' !in f.value.0 && '=' !in f.value.1
  {
    if '=' in segment then
      var parts := Split(segment, '=');
      Some((parts[0], parts[1]))
    else None
  }

  /** The dict built from the segments, taken left to right. */
  function FormOf(segments: seq<string>): (d: Dict<string>)
    ensures d.Valid()
  {
    if segments == [] then Empty()
    else
      var d := FormOf(segments[..|segments| - 1]);
      match SegmentField(segments[|segments| - 1])
      case None => d
      case Some(kv) => d.Put(kv.0, kv.1)
  }

  /** The dict `parse_form_data` returns for a query string. */
  function ParseForm(query: string): (d: Dict<string>)
    ensures d.Valid()
    ensures forall k :: k in d.vals ==> '=' !in k && '&' !in k
  {
    var segments := Split(query, '&');
    FormKeys(segments);
    assert forall k :: k in FormOf(segments).vals ==> '=' !in k && '&' !in k by {
      forall k | k in FormOf(segments).vals
        ensures '=' !in k && '&' !in k
      {
        var j :| 0 <= j < |segments| && SegmentField(segments[j]).Some? && SegmentField(segments[j]).value.0 == k;
        SegmentFieldInSegment(segments[j]);
      }
    }
    FormOf(segments)
  }

  /** A field's key comes from within its segment: it holds no character the segment lacks. */
  lemma SegmentFieldInSegment(segment: string)
    requires SegmentField(segment).Some?
    ensures forall c :: c in SegmentField(segment).value.0 ==> c in segment
  {
    var parts := Split(segment, '=');
    assert parts[0] <= segment;
  }

  /** `parse_form_data`: a loop over the `&`-segments filling a dict. */
  method ParseFormData(query: string) returns (d: Dict<string>)
    ensures d == ParseForm(query)
  {
    var segments := Split(query, '&');
    d := Empty();
    for i := 0 to |segments|
      invariant d == FormOf(segments[..i])
    {
      assert segments[..i + 1][..i] == segments[..i];
      var segment := segments[i];
      var parts := Split(segment, '=');
      if '=' !in segment {
        continue;
      }
      d := d.Put(parts[0], parts[1]);
    }
    assert segments[..|segments|] == segments;
  }

  /**
   * For a segment holding `=`, the key is the text before the first `=` and
   * the value the text between the first and the second; the rest is dropped.
   */
  lemma SegmentFieldPieces(key: string, value: string, tail: string)
    requires '=' !in key && '=' !in value
    requires tail == [] || tail[0] == '='
    ensures SegmentField(key + "=" + value + tail) == Some((key, value))
  {
    var segment := key + "=" + value + tail;
    assert segment == key + ['='] + (value + tail);
    SplitAtSep(key, '=', value + tail);
    if tail == [] {
      assert value + tail == value;
    } else {
      assert value + tail == value + ['='] + tail[1..];
      SplitAtSep(value, '=', tail[1..]);
    }
  }

  /** A segment without `=` is ignored. */
  lemma SegmentWithoutEqualsIgnored(segments: seq<string>, segment: string)
    requires '=' !in segment
    ensures FormOf(segments + [segment]) == FormOf(segments)
  {
    assert (segments + [segment])[..|segments|] == segments;
  }

  /**
   * A later segment with an existing key replaces the value and leaves the
   * key where it was; a segment with a new key appends it.
   */
  lemma LaterSegmentOverwrites(segments: seq<string>, segment: string, key: string, value: string)
    requires SegmentField(segment) == Some((key, value))
    ensures FormOf(segments + [segment]).vals == FormOf(segments).vals[key := value]
    ensures FormOf(segments + [segment]).keys ==
      if key in FormOf(segments).vals then FormOf(segments).keys else FormOf(segments).keys + [key]
  {
    assert (segments + [segment])[..|segments|] == segments;
  }

  /** Every key of the form is the key of some segment holding `=`, and each such key is in the form. */
  lemma {:induction false} FormKeys(segments: seq<string>)
    ensures forall k :: k in FormOf(segments).vals <==>
      exists j :: 0 <= j < |segments| && SegmentField(segments[j]).Some? && SegmentField(segments[j]).value.0 == k
  {
    if segments != [] {
      var n := |segments| - 1;
      var init := segments[..n];
      FormKeys(init);
      forall k
        ensures k in FormOf(segments).vals <==>
          exists j :: 0 <= j < |segments| && SegmentField(segments[j]).Some? && SegmentField(segments[j]).value.0 == k
      {
        if k in FormOf(segments).vals && !(SegmentField(segments[n]).Some? && SegmentField(segments[n]).value.0 == k) {
          assert k in FormOf(init).vals;
          var j :| 0 <= j < |init| && SegmentField(init[j]).Some? && SegmentField(init[j]).value.0 == k;
          assert segments[j] == init[j];
        }
        if exists j :: 0 <= j < |segments| && SegmentField(segments[j]).Some? && SegmentField(segments[j]).value.0 == k {
          var j :| 0 <= j < |segments| && SegmentField(segments[j]).Some? && SegmentField(segments[j]).value.0 == k;
          if j < n {
            assert init[j] == segments[j];
            assert k in FormOf(init).vals;
          }
        }
      }
    }
  }

  /** With no segment holding `=`, the form is empty. */
  lemma {:induction false} FormWithoutFields(segments: seq<string>)
    requires forall j :: 0 <= j < |segments| ==> '=' !in segments[j]
    ensures FormOf(segments).keys == []
  {
    if segments != [] {
      FormWithoutFields(segments[..|segments| - 1]);
    }
  }

  /** The first key of the form is the key of the first segment holding `=`. */
  lemma {:induction false} FormFirstKey(segments: seq<string>, j: nat)
    requires j < |segments| && '=' in segments[j]
    requires forall i :: 0 <= i < j ==> '=' !in segments[i]
    ensures |FormOf(segments).keys| > 0
    ensures FormOf(segments).keys[0] == SegmentField(segments[j]).value.0
  {
    var n := |segments| - 1;
    if n == j {
      FormWithoutFields(segments[..n]);
    } else {
      FormFirstKey(segments[..n], j);
    }
  }

  // ---------------------------------------------------------------------
  // Real-path resolution (fetch_real_path)
  // ---------------------------------------------------------------------

  /** What `fetch_real_path` returns: a (real path, form data) pair, or a bare `None`. */
  datatype Resolution = Resolved(realPath: string, form: Option<Dict<string>>) | NoKeys

  /** `path[1:len(path)]`: the first character is dropped, whatever it is. */
  function Stripped(path: string): (p: string)
    ensures |path| > 0 ==> [path[0]] + p == path
    ensures |path| == 0 ==> p == path
  {
    if |path| == 0 then path else path[1..]
  }

  /** The stripped path is `?` followed by at least one more character. */
  predicate IsQuery(p: string) {
    |p| > 1 && p[0] == '?'
  }

  /** The result of `fetch_real_path` on a raw request path. */
  function ResolvePath(raw: string): (r: Resolution)
    ensures r == NoKeys ==> IsQuery(Stripped(raw))
    ensures r.Resolved? && r.form.None? ==> !IsQuery(Stripped(raw)) && r.realPath == Stripped(raw)
    ensures r.Resolved? && r.form.Some? ==>
      && IsQuery(Stripped(raw))
      && r.form.value == ParseForm(Stripped(raw)[1..])
      && r.realPath in r.form.value.vals
      && r.form.value.keys[0] == r.realPath
  {
    var p := Stripped(raw);
    if IsQuery(p) then
      var form := ParseForm(p[1..]);
      if |form.keys| == 0 then NoKeys else Resolved(form.keys[0], Some(form))
    else Resolved(p, None)
  }

  /** The segments of the query part of a stripped query path. */
  function QuerySegments(raw: string): seq<string>
    requires IsQuery(Stripped(raw))
  {
    Split(Stripped(raw)[1..], '&')
  }

  /**
   * A path that is not a query resolves to itself, stripped, with no form.
   * A query resolves to the key of its first segment holding `=`, with the
   * whole parsed form; when no segment holds `=` it resolves to `None`.
   */
  lemma {:induction false} ResolvePathCases(raw: string)
    ensures !IsQuery(Stripped(raw)) ==> ResolvePath(raw) == Resolved(Stripped(raw), None)
    ensures IsQuery(Stripped(raw)) ==>
      (ResolvePath(raw) == NoKeys <==> forall j :: 0 <= j < |QuerySegments(raw)| ==> '=' !in QuerySegments(raw)[j])
    ensures IsQuery(Stripped(raw)) && ResolvePath(raw).Resolved? ==>
      ResolvePath(raw).form == Some(ParseForm(Stripped(raw)[1..])) &&
      exists j :: 0 <= j < |QuerySegments(raw)| && '=' in QuerySegments(raw)[j] &&
        (forall i :: 0 <= i < j ==> '=' !in QuerySegments(raw)[i]) &&
        ResolvePath(raw).realPath == SegmentField(QuerySegments(raw)[j]).value.0
  {
    var p := Stripped(raw);
    if IsQuery(p) {
      var segments := QuerySegments(raw);
      if forall j :: 0 <= j < |segments| ==> '=' !in segments[j] {
        FormWithoutFields(segments);
      } else {
        var j := FirstWithEquals(segments);
        FormFirstKey(segments, j);
      }
    }
  }

  /** The index of the first segment holding `=`. */
  function FirstWithEquals(segments: seq<string>): (j: nat)
    requires exists j :: 0 <= j < |segments| && '=' in segments[j]
    ensures j < |segments| && '=' in segments[j]
    ensures forall i :: 0 <= i < j ==> '=' !in segments[i]
  {
    if '=' in segments[0] then 0
    else
      assert exists j :: 0 <= j < |segments[1..]| && '=' in segments[1..][j] by {
        var j :| 0 <= j < |segments| && '=' in segments[j];
        assert segments[1..][j - 1] == segments[j];
      }
      1 + FirstWithEquals(segments[1..])
  }

  /** Paths that are not queries: the stripped path verbatim, with no form. */
  lemma ResolvePlainExamples()
    ensures ResolvePath("/health") == Resolved("health", None)
    ensures ResolvePath("/status?foo=bar") == Resolved("status?foo=bar", None)
    ensures ResolvePath("/?") == Resolved("?", None)
    ensures ResolvePath("") == Resolved("", None)
  {
    assert Stripped("/status?foo=bar") == "status?foo=bar";
  }

  /** A form made of one segment holding `=`. */
  lemma FormOfOneField(segment: string, key: string, value: string)
    requires SegmentField(segment) == Some((key, value))
    ensures FormOf([segment]) == Dict([key], map[key := value])
  {
    assert [segment][..0] == [];
  }

  /**
   * A query of one `key=value` segment resolves to `key`, whatever the first
   * character of the raw path was.
   */
  lemma ResolveOneField(first: char, key: string, value: string)
    requires '=' !in key && '=' !in value && '&' !in key && '&' !in value
    ensures ResolvePath([first] + "?" + key + "=" + value) == Resolved(key, Some(Dict([key], map[key := value])))
  {
    var raw := [first] + "?" + key + "=" + value;
    var segment := key + "=" + value;
    assert raw == [first] + ("?" + segment);
    var p := Stripped(raw);
    assert p == "?" + segment && IsQuery(p) && p[1..] == segment;
    assert '&' !in segment;
    assert segment == key + "=" + value + "";
    SegmentFieldPieces(key, value, "");
    FormOfOneField(segment, key, value);
  }

  /** `/?foo=bar` resolves to `foo` with the form `{"foo": "bar"}`. */
  lemma ResolveQueryExample()
    ensures ResolvePath("/?foo=bar") == Resolved("foo", Some(Dict(["foo"], map["foo" := "bar"])))
  {
    ResolveOneField('/', "foo", "bar");
    assert ['/'] + "?" + "foo" + "=" + "bar" == "/?foo=bar";
  }

  /** The first character is dropped even when it is not `/`. */
  lemma ResolveAnyFirstCharExample()
    ensures ResolvePath("x?a=1&b") == Resolved("a", Some(Dict(["a"], map["a" := "1"])))
  {
    var p := Stripped("x?a=1&b");
    assert p == "?a=1&b" && IsQuery(p);
    assert p[1..] == "a=1" + ['&'] + "b";
    SplitAtSep("a=1", '&', "b");
    assert Split(p[1..], '&') == ["a=1", "b"];
    assert "a" + "=" + "1" + "" == "a=1";
    SegmentFieldPieces("a", "1", "");
    FormOfOneField("a=1", "a", "1");
    SegmentWithoutEqualsIgnored(["a=1"], "b");
    assert ["a=1"] + ["b"] == ["a=1", "b"];
    assert ParseForm(p[1..]) == Dict(["a"], map["a" := "1"]);
  }

  /** A query without any `=` gives the bare `None`. */
  lemma ResolveNoKeysExample()
    ensures ResolvePath("/?foo") == NoKeys
  {
    assert Stripped("/?foo")[1..] == "foo";
    assert ["foo"][..0] == [];
  }

  // ---------------------------------------------------------------------
  // Endpoint registry and dispatch
  // ---------------------------------------------------------------------

  /** A handler, known only by name. */
  type HandlerId = nat

  /** An `endpoint`: a path and its handler. */
  datatype Endpoint = Endpoint(path: string, handler: HandlerId)

  /** The endpoints a registration dict adds, one per key, in the dict's order. */
  function EndpointsOf(handlers: Dict<HandlerId>): (eps: seq<Endpoint>)
    requires handlers.Valid()
    ensures |eps| == |handlers.keys|
    ensures forall i :: 0 <= i < |eps| ==> eps[i].path == handlers.keys[i] && eps[i].handler == handlers.vals[handlers.keys[i]]
  {
    seq(|handlers.keys|, i requires 0 <= i < |handlers.keys| => Endpoint(handlers.keys[i], handlers.vals[handlers.keys[i]]))
  }

  /**
   * The class-level lists `get_endpoints` and `post_endpoints`, shared by
   * every request handler.
   */
  class EndpointRegistry {
    var getEndpoints: seq<Endpoint>
    var postEndpoints: seq<Endpoint>

    constructor()
      ensures getEndpoints == [] && postEndpoints == []
    {
      getEndpoints, postEndpoints := [], [];
    }

    /** `register_get_endpoints`: appends one endpoint per dict entry, in order. */
    method RegisterGetEndpoints(handlers: Dict<HandlerId>)
      requires handlers.Valid()
      modifies this
      ensures getEndpoints == old(getEndpoints) + EndpointsOf(handlers)
      ensures postEndpoints == old(postEndpoints)
    {
      for i := 0 to |handlers.keys|
        invariant getEndpoints == old(getEndpoints) + EndpointsOf(handlers)[..i]
        invariant postEndpoints == old(postEndpoints)
      {
        var path := handlers.keys[i];
        getEndpoints := getEndpoints + [Endpoint(path, handlers.vals[path])];
      }
      assert EndpointsOf(handlers)[..|handlers.keys|] == EndpointsOf(handlers);
    }

    /** `register_post_endpoints`: appends one endpoint per dict entry, in order. */
    method RegisterPostEndpoints(handlers: Dict<HandlerId>)
      requires handlers.Valid()
      modifies this
      ensures postEndpoints == old(postEndpoints) + EndpointsOf(handlers)
      ensures getEndpoints == old(getEndpoints)
    {
      for i := 0 to |handlers.keys|
        invariant postEndpoints == old(postEndpoints) + EndpointsOf(handlers)[..i]
        invariant getEndpoints == old(getEndpoints)
      {
        var path := handlers.keys[i];
        postEndpoints := postEndpoints + [Endpoint(path, handlers.vals[path])];
      }
      assert EndpointsOf(handlers)[..|handlers.keys|] == EndpointsOf(handlers);
    }
  }

  /** The indices of the endpoints whose path equals `path`, in registration order. */
  function Matches(eps: seq<Endpoint>, path: string): (m: seq<nat>)
    ensures forall j :: 0 <= j < |m| ==> m[j] < |eps| && eps[m[j]].path == path
  {
    if eps == [] then []
    else
      var n := |eps| - 1;
      Matches(eps[..n], path) + (if eps[n].path == path then [n] else [])
  }

  /** Every endpoint with the path is matched, exactly once, in increasing order. */
  lemma {:induction false} MatchesExactly(eps: seq<Endpoint>, path: string)
    ensures forall i :: i in Matches(eps, path) <==> 0 <= i < |eps| && eps[i].path == path
    ensures forall a, b :: 0 <= a < b < |Matches(eps, path)| ==> Matches(eps, path)[a] < Matches(eps, path)[b]
  {
    if eps != [] {
      var n := |eps| - 1;
      MatchesExactly(eps[..n], path);
      forall i | 0 <= i < n
        ensures eps[..n][i] == eps[i]
      {
      }
    }
  }

  /** Matching a prefix of the registry gives a prefix of the matches. */
  lemma {:induction false} MatchesOfPrefix(eps: seq<Endpoint>, path: string, k: nat)
    requires k <= |eps|
    ensures Matches(eps[..k], path) <= Matches(eps, path)
    decreases |eps|
  {
    if k < |eps| {
      var n := |eps| - 1;
      assert eps[..n][..k] == eps[..k];
      MatchesOfPrefix(eps[..n], path, k);
    } else {
      assert eps[..k] == eps;
    }
  }

  /** The position in `m` of the first invoked endpoint whose handler raises; `|m|` if none does. */
  function FirstRaising(eps: seq<Endpoint>, m: seq<nat>, raises: nat -> bool): (k: nat)
    requires forall j :: 0 <= j < |m| ==> m[j] < |eps|
    ensures k <= |m|
  {
    if m == [] then 0
    else if raises(m[0]) then 0
    else 1 + FirstRaising(eps, m[1..], raises)
  }

  /** `FirstRaising` is the first position whose handler raises. */
  lemma {:induction false} FirstRaisingAt(eps: seq<Endpoint>, m: seq<nat>, raises: nat -> bool, k: nat)
    requires forall j :: 0 <= j < |m| ==> m[j] < |eps|
    requires k <= |m|
    requires forall j :: 0 <= j < k ==> !raises(m[j])
    requires k < |m| ==> raises(m[k])
    ensures FirstRaising(eps, m, raises) == k
  {
    if k > 0 {
      FirstRaisingAt(eps, m[1..], raises, k - 1);
    }
  }

  /**
   * The outcome of a dispatch loop over `eps` for `realPath`: the invoked
   * endpoints (indices into `eps`) and the reply the dispatcher sends, if any.
   * Every matching endpoint is invoked in order until one raises; a raise
   * ends the loop with an internal error, no match at all is a bad request,
   * and otherwise the handlers have answered and the dispatcher sends nothing.
   */
  function DispatchResult(eps: seq<Endpoint>, realPath: string, raises: nat -> bool): (d: (seq<nat>, Option<WebResponse>))
    ensures forall j :: 0 <= j < |d.0| ==> d.0[j] < |eps| && eps[d.0[j]].path == realPath
    ensures d.1 == None || d.1 == Some(BadRequest) || d.1 == Some(InternalError)
  {
    var m := Matches(eps, realPath);
    var k := FirstRaising(eps, m, raises);
    if k < |m| then (m[..k + 1], Some(InternalError))
    else if m == [] then ([], Some(BadRequest))
    else (m, None)
  }

  /** What a dispatch does, stated over the registry. */
  lemma {:induction false} DispatchResultMeaning(eps: seq<Endpoint>, realPath: string, raises: nat -> bool)
    ensures DispatchResult(eps, realPath, raises).0 <= Matches(eps, realPath)
    ensures DispatchResult(eps, realPath, raises).1 == Some(BadRequest) <==>
      forall i :: 0 <= i < |eps| ==> eps[i].path != realPath
    ensures DispatchResult(eps, realPath, raises).1 == Some(InternalError) <==>
      exists i :: 0 <= i < |eps| && eps[i].path == realPath && raises(i)
    ensures DispatchResult(eps, realPath, raises).1 == None <==>
      (exists i :: 0 <= i < |eps| && eps[i].path == realPath) &&
      (forall i :: 0 <= i < |eps| && eps[i].path == realPath ==> !raises(i))
    ensures DispatchResult(eps, realPath, raises).1 != Some(InternalError) ==>
      DispatchResult(eps, realPath, raises).0 == Matches(eps, realPath)
    ensures DispatchResult(eps, realPath, raises).1 == Some(InternalError) ==>
      var invoked := DispatchResult(eps, realPath, raises).0;
      && |invoked| > 0
      && invoked == Matches(eps, realPath)[..|invoked|]
      && raises(invoked[|invoked| - 1])
      && forall j :: 0 <= j < |invoked| - 1 ==> !raises(invoked[j])
  {
    var m := Matches(eps, realPath);
    var k := FirstRaising(eps, m, raises);
    MatchesExactly(eps, realPath);
    FirstRaisingBounds(eps, m, raises);
    if k < |m| {
      assert m[k] in m;
    } else {
      forall i | 0 <= i < |eps| && eps[i].path == realPath
        ensures !raises(i)
      {
        assert i in m;
        var j :| 0 <= j < |m| && m[j] == i;
      }
    }
    assert BadRequest != InternalError;
  }

  /**
   * One handler registered twice for a path: it runs at the first position
   * and raises at the second, so both are invoked and the request ends in
   * an internal error.
   */
  lemma SameHandlerTwice(h: HandlerId, raises: nat -> bool)
    requires !raises(0) && raises(1)
    ensures DispatchResult([Endpoint("p", h), Endpoint("p", h)], "p", raises) == ([0, 1], Some(InternalError))
  {
    var eps := [Endpoint("p", h), Endpoint("p", h)];
    assert eps[..1][..0] == [];
    assert Matches(eps[..1][..0], "p") == [];
    assert Matches(eps[..1], "p") == [0];
    assert Matches(eps, "p") == [0, 1];
    assert [0, 1][1..] == [1];
    assert FirstRaising(eps, [1], raises) == 0;
    assert FirstRaising(eps, [0, 1], raises) == 1;
    assert [0, 1][..2] == [0, 1];
  }

  /** No position before `FirstRaising` raises, and the one at it does. */
  lemma {:induction false} FirstRaisingBounds(eps: seq<Endpoint>, m: seq<nat>, raises: nat -> bool)
    requires forall j :: 0 <= j < |m| ==> m[j] < |eps|
    ensures forall j :: 0 <= j < FirstRaising(eps, m, raises) ==> !raises(m[j])
    ensures FirstRaising(eps, m, raises) < |m| ==> raises(m[FirstRaising(eps, m, raises)])
  {
    if m != [] && !raises(m[0]) {
      FirstRaisingBounds(eps, m[1..], raises);
    }
  }

  /** The loop's early return: the endpoint at `i` is the first matched one that raises. */
  lemma StopAtRaise(eps: seq<Endpoint>, realPath: string, raises: nat -> bool, i: nat, invoked: seq<nat>)
    requires i < |eps| && raises(i)
    requires invoked == Matches(eps[..i + 1], realPath) && invoked != [] && invoked[|invoked| - 1] == i
    requires forall j :: 0 <= j < |invoked| - 1 ==> !raises(invoked[j])
    ensures DispatchResult(eps, realPath, raises) == (invoked, Some(InternalError))
  {
    MatchesOfPrefix(eps, realPath, i + 1);
    var m := Matches(eps, realPath);
    assert m[..|invoked|] == invoked;
    FirstRaisingAt(eps, m, raises, |invoked| - 1);
  }

  /** The loop's normal end: every match was invoked and none raised. */
  lemma NoneRaised(eps: seq<Endpoint>, realPath: string, raises: nat -> bool, invoked: seq<nat>)
    requires invoked == Matches(eps[..|eps|], realPath)
    requires forall j :: 0 <= j < |invoked| ==> !raises(invoked[j])
    ensures DispatchResult(eps, realPath, raises) == (invoked, if invoked == [] then Some(BadRequest) else None)
  {
    assert eps[..|eps|] == eps;
    FirstRaisingAt(eps, invoked, raises, |invoked|);
  }

  /**
   * The loop of `do_GET` and `do_POST` after the path is resolved: every
   * endpoint is visited, a matching one is invoked, a raise ends the loop
   * with an internal error, and the `no_match` flag decides the bad request.
   */
  method Dispatch(eps: seq<Endpoint>, realPath: string, raises: nat -> bool)
    returns (invoked: seq<nat>, reply: Option<WebResponse>)
    ensures (invoked, reply) == DispatchResult(eps, realPath, raises)
  {
    invoked := [];
    var noMatch := true;
    var i := 0;
    while i < |eps|
      invariant 0 <= i <= |eps|
      invariant invoked == Matches(eps[..i], realPath)
      invariant forall j :: 0 <= j < |invoked| ==> invoked[j] < |eps| && !raises(invoked[j])
      invariant noMatch <==> invoked == []
    {
      assert eps[..i + 1][..i] == eps[..i];
      if eps[i].path == realPath {
        invoked := invoked + [i];
        if raises(i) {
          StopAtRaise(eps, realPath, raises, i, invoked);
          reply := Some(InternalError);
          return;
        }
        noMatch := false;
      }
      i := i + 1;
    }
    NoneRaised(eps, realPath, raises, invoked);
    if noMatch {
      reply := Some(BadRequest);
    } else {
      reply := None;
    }
  }

  // ---------------------------------------------------------------------
  // The request handler
  // ---------------------------------------------------------------------

  /**
   * How a request ends: the dispatcher ran (with the invoked endpoints and
   * its own reply, if any), or the tuple unpacking of `fetch_real_path`'s
   * bare `None` raised a TypeError before anything was sent.
   */
  datatype RequestOutcome = Handled(invoked: seq<nat>, reply: Option<WebResponse>) | UnpackFailure

  /** One `web_server` instance, handling one request. */
  class RequestHandler {
    var path: string
    const registry: EndpointRegistry

    constructor(path: string, registry: EndpointRegistry)
      ensures this.path == path && this.registry == registry
    {
      this.path := path;
      this.registry := registry;
    }

    /** `fetch_real_path`: strips `self.path` in place and resolves it. */
    method FetchRealPath() returns (r: Resolution)
      modifies this`path
      ensures path == Stripped(old(path))
      ensures r == ResolvePath(old(path))
    {
      path := if |path| == 0 then path else path[1..];
      if |path| > 0 {
        if path[0] == '?' && |path| > 1 {
          var form := ParseFormData(path[1..]);
          if |form.keys| == 0 {
            return NoKeys;
          }
          r := Resolved(form.keys[0], Some(form));
        } else {
          r := Resolved(path, None);
        }
      } else {
        r := Resolved(path, None);
      }
    }

    /** `do_GET`: resolve the path, then dispatch over the GET endpoints. */
    method DoGet(raises: nat -> bool) returns (outcome: RequestOutcome)
      modifies this`path
      ensures path == Stripped(old(path))
      ensures ResolvePath(old(path)) == NoKeys ==> outcome == UnpackFailure
      ensures ResolvePath(old(path)).Resolved? ==>
        var d := DispatchResult(registry.getEndpoints, ResolvePath(old(path)).realPath, raises);
        outcome == Handled(d.0, d.1)
    {
      var r := FetchRealPath();
      if r.NoKeys? {
        return UnpackFailure;
      }
      var invoked, reply := Dispatch(registry.getEndpoints, r.realPath, raises);
      outcome := Handled(invoked, reply);
    }

    /**
     * `do_POST`: resolve the path; a request without Content-Length is a bad
     * request and a body that does not parse gets its own failure, both
     * before any handler runs; then dispatch over the POST endpoints.
     */
    method DoPost(hasContentLength: bool, bodyParses: bool, raises: nat -> bool) returns (outcome: RequestOutcome)
      modifies this`path
      ensures path == Stripped(old(path))
      ensures ResolvePath(old(path)) == NoKeys ==> outcome == UnpackFailure
      ensures ResolvePath(old(path)).Resolved? && !hasContentLength ==> outcome == Handled([], Some(BadRequest))
      ensures ResolvePath(old(path)).Resolved? && hasContentLength && !bodyParses ==> outcome == Handled([], Some(BadPostData))
      ensures ResolvePath(old(path)).Resolved? && hasContentLength && bodyParses ==>
        var d := DispatchResult(registry.postEndpoints, ResolvePath(old(path)).realPath, raises);
        outcome == Handled(d.0, d.1)
    {
      var r := FetchRealPath();
      if r.NoKeys? {
        return UnpackFailure;
      }
      if !hasContentLength {
        return Handled([], Some(BadRequest));
      }
      if !bodyParses {
        return Handled([], Some(BadPostData));
      }
      var invoked, reply := Dispatch(registry.postEndpoints, r.realPath, raises);
      outcome := Handled(invoked, reply);
    }

    /** `do_OPTIONS`: always a SUCCESS envelope, no handler runs. */
    method DoOptions() returns (outcome: RequestOutcome)
      ensures outcome == Handled([], Some(OptionsOk))
      ensures outcome.Handled? && outcome.invoked == []
      ensures outcome.reply.Some? && StatusOfCode(outcome.reply.value.responseCode) == Some(Success)
      ensures outcome.reply.Some? && StatusOfName(outcome.reply.value.status) == Some(Success)
      ensures outcome.reply.Some? && outcome.reply.value.payload == "OK"
    {
      outcome := Handled([], Some(OptionsOk));
    }
  }
}
