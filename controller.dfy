/** The servlet base class minvc.Controller: request routing, view rendering, the not-found
    page, local redirects and file-name extraction, over a request whose attribute store and
    container interactions are fields updated in place. */
module Controllers {
  import opened Sequences
  import opened JavaStrings
  import opened Actions
  import opened FileNames
  import opened Views

  /** One request/response pair as the controller sees it: the request's attribute store and
      the record of forwards, redirects and handler invocations made for it. */
  class Exchange {
    /** HttpServletRequest.getContextPath(). */
    const contextPath: string
    /** getRequestURL() as `new URI(...)` parses it; None when it does not parse. */
    const url: Option<Uri>
    var attributes: map<string, Value>
    var events: seq<Event>

    constructor (contextPath: string, url: Option<Uri>, attributes: map<string, Value>)
      ensures this.contextPath == contextPath && this.url == url
      ensures this.attributes == attributes && events == []
    {
      this.contextPath := contextPath;
      this.url := url;
      this.attributes := attributes;
      events := [];
    }

    function State(): RequestState
      reads this
    {
      RequestState(attributes, events)
    }

    /** ServletRequest.setAttribute. */
    method SetAttribute(name: string, value: Value)
      modifies this
      ensures attributes == Put(old(attributes), name, value)
      ensures events == old(events)
    {
      attributes := Put(attributes, name, value);
    }

    /** RequestDispatcher.forward, recorded. */
    method Forward(path: string)
      modifies this
      ensures attributes == old(attributes)
      ensures events == old(events) + [Forwarded(path)]
    {
      events := events + [Forwarded(path)];
    }

    /** HttpServletResponse.sendRedirect, recorded. */
    method SendRedirect(location: string)
      modifies this
      ensures attributes == old(attributes)
      ensures events == old(events) + [Redirected(location)]
    {
      events := events + [Redirected(location)];
    }

    /** Method.invoke of a handler, recorded; what the handler does is not modelled. */
    method RecordInvocation(handler: nat)
      modifies this
      ensures attributes == old(attributes)
      ensures events == old(events) + [Invoked(handler)]
    {
      events := events + [Invoked(handler)];
    }
  }

  class Controller {
    /** The names getDeclaredMethods() reports for the concrete controller, in its order. */
    const declaredMethods: seq<string>

    constructor (declaredMethods: seq<string>)
      ensures this.declaredMethods == declaredMethods
    {
      this.declaredMethods := declaredMethods;
    }

    /** doGet: routes the request. */
    method DoGet(ex: Exchange, handlerThrows: bool)
      modifies ex
      ensures ex.State() == AfterRoute(old(ex.State()), declaredMethods, ex.url, handlerThrows)
    {
      RouteRequest(ex, handlerThrows);
    }

    /** doPost: routes the request exactly as doGet does. */
    method DoPost(ex: Exchange, handlerThrows: bool)
      modifies ex
      ensures ex.State() == AfterRoute(old(ex.State()), declaredMethods, ex.url, handlerThrows)
    {
      RouteRequest(ex, handlerThrows);
    }

    /** getActionMethod: the first declared method whose name equals the action name followed
        by "Action", ignoring case; None for Java's null. */
    method GetActionMethod(actionName: JString) returns (found: Option<nat>)
      ensures found.Some? ==>
        found.value < |declaredMethods| && Handles(declaredMethods[found.value], actionName) &&
        forall j :: 0 <= j < found.value ==> !Handles(declaredMethods[j], actionName)
      ensures found.None? <==> forall j :: 0 <= j < |declaredMethods| ==> !Handles(declaredMethods[j], actionName)
      ensures found == LookUp(declaredMethods, actionName)
    {
      var target := HandlerName(actionName);
      for i := 0 to |declaredMethods|
        invariant forall j :: 0 <= j < i ==> !Handles(declaredMethods[j], actionName)
      {
        if EqualsIgnoreCase(declaredMethods[i], target) {
          FirstIndexUnique(declaredMethods, m => Handles(m, actionName), i);
          return Some(i);
        }
      }
      return None;
    }

    /** view(req, res, viewPath, viewData): sets every view-data entry as a request attribute,
        then renders the view. */
    method ViewWithData(ex: Exchange, viewPath: string, viewData: map<string, Value>)
      modifies ex
      ensures ex.State() == AfterViewWithData(old(ex.State()), viewPath, viewData)
    {
      var pending := viewData.Keys;
      ghost var done: map<string, Value> := map[];
      while pending != {}
        invariant pending !! done.Keys && pending + done.Keys == viewData.Keys
        invariant forall k :: k in done ==> done[k] == viewData[k]
        invariant ex.attributes == PutAll(old(ex.attributes), done)
        invariant ex.events == old(ex.events)
        decreases pending
      {
        var k :| k in pending;
        PutAllOneMore(old(ex.attributes), done, k, viewData[k]);
        ex.SetAttribute(k, viewData[k]);
        done := done[k := viewData[k]];
        pending := pending - {k};
      }
      assert done == viewData;
      View(ex, viewPath);
    }

    /** view(req, res, viewPath): records the main content view and renders the layout. */
    method View(ex: Exchange, viewPath: string)
      modifies ex
      ensures ex.State() == AfterView(old(ex.State()), viewPath)
    {
      ex.SetAttribute(PARTIAL_VIEW_MAIN, Text(viewPath));
      RenderLayout(ex);
    }

    /** routeRequest: extract the action, look up its handler, invoke it; the not-found page
        when there is none or when anything throws. */
    method RouteRequest(ex: Exchange, handlerThrows: bool)
      modifies ex
      ensures ex.State() == AfterRoute(old(ex.State()), declaredMethods, ex.url, handlerThrows)
    {
      var actionName := ActionOfUrl(ex.url);
      if actionName.Threw? {
        HttpNotFound(ex);
        return;
      }
      var actionMethod := GetActionMethod(actionName.value);
      if actionMethod.None? {
        HttpNotFound(ex);
        return;
      }
      ex.RecordInvocation(actionMethod.value);
      if handlerThrows {
        HttpNotFound(ex);
      }
    }

    /** httpNotFound: renders the not-found view with its title. */
    method HttpNotFound(ex: Exchange)
      modifies ex
      ensures ex.State() == AfterNotFound(old(ex.State()))
    {
      var viewData := map[TITLE_ATTRIBUTE := Text(NOT_FOUND_TITLE)];
      ViewWithData(ex, NOT_FOUND_VIEW, viewData);
    }

    /** redirectToLocal: redirects to the path under the application's context path. */
    static method RedirectToLocal(ex: Exchange, path: string)
      modifies ex
      ensures ex.State() == AfterRedirect(old(ex.State()), ex.contextPath, path)
    {
      ex.SendRedirect(ex.contextPath + path);
    }

    /** renderLayout: forwards to the shared layout. */
    method RenderLayout(ex: Exchange)
      modifies ex
      ensures ex.State() == AfterRenderLayout(old(ex.State()))
    {
      ex.Forward(LAYOUT_PATH);
    }

    /** getFileName, given the part's content-disposition header: the value of the first
        ';'-separated piece that starts with "filename" once trimmed, or null. */
    method GetFileName(contentDisposition: string) returns (name: JString)
      ensures var segs := Split(contentDisposition, ';');
        name.Null? <==> forall i :: 0 <= i < |segs| ==> !NamesFile(segs[i])
      ensures name.Str? ==> '"' !in name.value
      ensures name == FileNameOf(contentDisposition)
    {
      var segs := Split(contentDisposition, ';');
      for i := 0 to |segs|
        invariant forall j :: 0 <= j < i ==> !NamesFile(segs[j])
      {
        var cd := segs[i];
        if NamesFile(cd) {
          FirstIndexUnique(segs, NamesFile, i);
          return Str(FileNameValue(cd));
        }
      }
      return JString.Null;
    }
  }
}
