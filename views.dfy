/** What view rendering, the not-found page, a redirect and request routing do to one
    request: its attribute store and the record of what was sent to the servlet container.
    These functions describe the new state; the methods of Controllers.Controller are proved
    to produce it. */
module Views {
  import opened Sequences
  import opened Actions

  /** Path of the layout every view is rendered through (Controller.LAYOUT_PATH). */
  const LAYOUT_PATH: string := "/views/shared/layout.jsp"
  /** The attribute the layout reads to include the main content view. */
  const PARTIAL_VIEW_MAIN: string := "partialViewMain"
  /** The view of the not-found page, and its title. */
  const NOT_FOUND_VIEW: string := "/views/shared/HttpNotFound.jsp"
  const TITLE_ATTRIBUTE: string := "title"
  const NOT_FOUND_TITLE: string := "Http Not Found"

  /** A request attribute value, a Java Object: null, a string, or some other object,
      known here only by its identity. */
  datatype Value = Null | Text(text: string) | Object(id: nat)

  /** What the controller asked of the servlet container for this request. */
  datatype Event =
    | Invoked(handler: nat)        // the declared method at this position was invoked
    | Forwarded(path: string)      // RequestDispatcher.forward to this path
    | Redirected(location: string) // HttpServletResponse.sendRedirect to this location

  /** The state one request carries through the controller. */
  datatype RequestState = RequestState(attributes: map<string, Value>, events: seq<Event>)

  /** ServletRequest.getAttribute: null for a name that is not set. */
  function Get(attributes: map<string, Value>, name: string): Value
  {
    if name in attributes then attributes[name] else Null
  }

  /** ServletRequest.setAttribute: setting null removes the attribute. */
  function Put(attributes: map<string, Value>, name: string, v: Value): (r: map<string, Value>)
    ensures Get(r, name) == v
    ensures forall k :: k != name ==> Get(r, k) == Get(attributes, k)
    ensures Null !in attributes.Values ==> Null !in r.Values
  {
    if v == Null then attributes - {name} else attributes[name := v]
  }

  /** Every entry of `data` set on the attribute store, in any order (the keys are distinct). */
  function PutAll(attributes: map<string, Value>, data: map<string, Value>): (r: map<string, Value>)
    ensures forall k :: Get(r, k) == if k in data then data[k] else Get(attributes, k)
  {
    map k | k in attributes.Keys + data.Keys && (k in data ==> data[k] != Null) ::
      if k in data then data[k] else attributes[k]
  }

  /** Setting one more entry, not yet set, extends what PutAll has set. */
  lemma PutAllOneMore(attributes: map<string, Value>, data: map<string, Value>, k: string, v: Value)
    requires k !in data
    ensures Put(PutAll(attributes, data), k, v) == PutAll(attributes, data[k := v])
  {
    var left := Put(PutAll(attributes, data), k, v);
    var right := PutAll(attributes, data[k := v]);
    forall n ensures n in left <==> n in right {
      assert Get(left, n) == Get(right, n);
    }
    assert left.Keys == right.Keys;
  }

  /** renderLayout: a forward to the layout; the attributes are left as they are. */
  function AfterRenderLayout(s: RequestState): (r: RequestState)
    ensures r.attributes == s.attributes
    ensures r.events == s.events + [Forwarded(LAYOUT_PATH)]
  {
    RequestState(s.attributes, s.events + [Forwarded(LAYOUT_PATH)])
  }

  /** view(req, res, viewPath): the main content view is recorded, then the layout forwarded to. */
  function AfterView(s: RequestState, viewPath: string): (r: RequestState)
    ensures Get(r.attributes, PARTIAL_VIEW_MAIN) == Text(viewPath)
    ensures forall k :: k != PARTIAL_VIEW_MAIN ==> Get(r.attributes, k) == Get(s.attributes, k)
    ensures r.events == s.events + [Forwarded(LAYOUT_PATH)]
  {
    AfterRenderLayout(RequestState(Put(s.attributes, PARTIAL_VIEW_MAIN, Text(viewPath)), s.events))
  }

  /** view(req, res, viewPath, viewData): every entry of the view data is set, then the main
      content view, which wins over an entry of the same name; one forward, to the layout. */
  function AfterViewWithData(s: RequestState, viewPath: string, viewData: map<string, Value>): (r: RequestState)
    ensures forall k :: k in viewData && k != PARTIAL_VIEW_MAIN ==> Get(r.attributes, k) == viewData[k]
    ensures Get(r.attributes, PARTIAL_VIEW_MAIN) == Text(viewPath)
    ensures forall k :: k !in viewData && k != PARTIAL_VIEW_MAIN ==>
      Get(r.attributes, k) == Get(s.attributes, k)
    ensures r.events == s.events + [Forwarded(LAYOUT_PATH)]
  {
    AfterView(RequestState(PutAll(s.attributes, viewData), s.events), viewPath)
  }

  /** True when the not-found page was the last thing rendered on top of `s`: its title and
      view are set, nothing else changed, and exactly one forward, to the layout, was added. */
  ghost predicate RendersNotFound(s: RequestState, r: RequestState)
  {
    Get(r.attributes, TITLE_ATTRIBUTE) == Text(NOT_FOUND_TITLE) &&
    Get(r.attributes, PARTIAL_VIEW_MAIN) == Text(NOT_FOUND_VIEW) &&
    (forall k :: k != TITLE_ATTRIBUTE && k != PARTIAL_VIEW_MAIN ==> Get(r.attributes, k) == Get(s.attributes, k)) &&
    r.events == s.events + [Forwarded(LAYOUT_PATH)]
  }

  /** httpNotFound: the view data holds only the title, and the view is the not-found page. */
  function AfterNotFound(s: RequestState): (r: RequestState)
    ensures RendersNotFound(s, r)
  {
    AfterViewWithData(s, NOT_FOUND_VIEW, map[TITLE_ATTRIBUTE := Text(NOT_FOUND_TITLE)])
  }

  /** redirectToLocal: a redirect to the context path followed by the given path. */
  function AfterRedirect(s: RequestState, contextPath: string, path: string): (r: RequestState)
    ensures r.attributes == s.attributes
    ensures |r.events| == |s.events| + 1 && r.events[..|s.events|] == s.events
    ensures var e := r.events[|s.events|];
      e.Redirected? && |e.location| == |contextPath| + |path| &&
      e.location[..|contextPath|] == contextPath && e.location[|contextPath|..] == path
  {
    RequestState(s.attributes, s.events + [Redirected(contextPath + path)])
  }

  /** The handler positions recorded as invoked, in order. */
  function Invocations(events: seq<Event>): (r: seq<nat>)
    ensures |r| <= |events|
  {
    if events == [] then []
    else
      var last := match events[|events| - 1] case Invoked(h) => [h] case _ => [];
      Invocations(events[..|events| - 1]) + last
  }

  lemma {:induction false} InvocationsAppend(a: seq<Event>, b: seq<Event>)
    ensures Invocations(a + b) == Invocations(a) + Invocations(b)
    decreases |b|
  {
    if b != [] {
      var ab := a + b;
      assert ab[..|ab| - 1] == a + b[..|b| - 1];
      InvocationsAppend(a, b[..|b| - 1]);
    } else {
      assert a + b == a;
    }
  }

  /** routeRequest: the not-found page when no handler is chosen; otherwise an invocation of
      the chosen one, followed by the not-found page when it throws. What a handler itself
      renders is not part of this model. */
  function AfterRoute(s: RequestState, declared: seq<string>, parsed: Option<Uri>, handlerThrows: bool): (r: RequestState)
    ensures |s.events| < |r.events| && r.events[..|s.events|] == s.events
  {
    match Resolve(declared, parsed)
    case NotFound => AfterNotFound(s)
    case Invoke(h) =>
      var invoked := RequestState(s.attributes, s.events + [Invoked(h)]);
      if handlerThrows then AfterNotFound(invoked) else invoked
  }

  /** The outcomes of routing: no handler chosen means the not-found page and no invocation; a
      chosen handler is the only one invoked, exactly once; the not-found page follows exactly
      when nothing was chosen or the handler threw; the log only grows. */
  lemma RouteOutcomes(s: RequestState, declared: seq<string>, parsed: Option<Uri>, handlerThrows: bool)
    ensures var r := AfterRoute(s, declared, parsed, handlerThrows);
      |s.events| < |r.events| && r.events[..|s.events|] == s.events
    ensures var r := AfterRoute(s, declared, parsed, handlerThrows);
      var added := r.events[|s.events|..];
      Invocations(added) == match Resolve(declared, parsed) case NotFound => [] case Invoke(h) => [h]
    ensures var r := AfterRoute(s, declared, parsed, handlerThrows);
      match Resolve(declared, parsed)
      case NotFound => RendersNotFound(s, r)
      case Invoke(h) =>
        var invoked := RequestState(s.attributes, s.events + [Invoked(h)]);
        if handlerThrows then RendersNotFound(invoked, r) else r == invoked
  {
    var r := AfterRoute(s, declared, parsed, handlerThrows);
    var added := r.events[|s.events|..];
    assert r.events == s.events + added;
    match Resolve(declared, parsed)
    case NotFound =>
      assert added == [Forwarded(LAYOUT_PATH)];
      assert Invocations(added) == Invocations([]) + Invocations(added);
    case Invoke(h) =>
      if handlerThrows {
        assert added == [Invoked(h)] + [Forwarded(LAYOUT_PATH)];
        InvocationsAppend([Invoked(h)], [Forwarded(LAYOUT_PATH)]);
        assert Invocations([Forwarded(LAYOUT_PATH)]) == Invocations([]) + Invocations([Forwarded(LAYOUT_PATH)]);
      } else {
        assert added == [Invoked(h)];
        assert Invocations(added) == Invocations([]) + Invocations(added);
      }
  }
}
