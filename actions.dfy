/** Deriving the action name from the request URL and choosing the handler method
    (Controller.getAction, both overloads, Controller.getActionMethod, and the decision
    Controller.routeRequest makes before it invokes anything). */
module Actions {
  import opened Sequences
  import opened JavaStrings

  /** What `new URI(s)` yields for a string that parses. A hierarchical URI has a path, which
      may be empty; an opaque one (such as `mailto:someone`) has none, and `getPath()` is null. */
  datatype Uri = Hierarchical(path: string) | Opaque

  /** The unchecked exceptions that can escape action-name extraction. */
  datatype Failure =
    | NullPointer        // getPath() of an opaque URI is null
    | IndexOutOfBounds   // the split path is an empty array

  /** A Java call that either returns a value or throws. */
  datatype Thrown<T> = Returned(value: T) | Threw(failure: Failure)

  /** getAction(URI): the last element of the lower-cased path split on '/'. */
  function ActionOfUri(u: Uri): (r: Thrown<string>)
    ensures u.Opaque? <==> r == Threw(NullPointer)
    ensures r.Returned? ==> '/' !in r.value
  {
    match u
    case Opaque => Threw(NullPointer)
    case Hierarchical(path) =>
      var paths := Split(Lower(path), '/');
      if |paths| == 0 then Threw(IndexOutOfBounds) else Returned(paths[|paths| - 1])
  }

  /** getAction(String). `parsed` is the outcome of `new URI(requestString)`: None stands for a
      URISyntaxException, which is caught and turns into a null action name. */
  function ActionOfUrl(parsed: Option<Uri>): (r: Thrown<JString>)
    ensures parsed.None? ==> r == Returned(Null)
    ensures parsed.Some? ==> (r.Threw? <==> ActionOfUri(parsed.value).Threw?)
    ensures parsed.Some? && ActionOfUri(parsed.value).Returned? ==> r == Returned(Str(ActionOfUri(parsed.value).value))
  {
    match parsed
    case None => Returned(Null)
    case Some(u) =>
      match ActionOfUri(u)
      case Threw(f) => Threw(f)
      case Returned(a) => Returned(Str(a))
  }

  /** Read from the end of the lower-cased path: strip the trailing slashes, then take what
      follows the last remaining slash. Only a non-empty path of slashes alone throws. */
  lemma ActionIsLastNonEmptySegment(path: string)
    ensures var t := TrimTrailing(Lower(path), '/');
      ActionOfUri(Hierarchical(path)) ==
        if path != [] && t == [] then Threw(IndexOutOfBounds) else Returned(AfterLast(t, '/'))
  {
    var low := Lower(path);
    if '/' in low {
      LastNonEmptySegment(low, '/');
    } else {
      AfterLastWithoutSeparator(low, '/');
      assert low == [] || low[|low| - 1] != '/';
    }
  }

  /** Extraction from a hierarchical URI throws exactly when its path is non-empty and made of
      slashes only (split then yields an empty array). */
  lemma ActionThrowsIff(path: string)
    ensures ActionOfUri(Hierarchical(path)).Threw? <==>
      path != [] && forall i :: 0 <= i < |path| ==> path[i] == '/'
  {
    var low := Lower(path);
    ActionIsLastNonEmptySegment(path);
    TrimTrailingEmptyIff(low, '/');
    assert forall i :: 0 <= i < |path| ==> (low[i] == '/' <==> path[i] == '/');
  }

  /** An extracted action name holds no slash, no upper-case letter, and is empty only for
      the empty path. */
  lemma ActionShape(path: string)
    requires ActionOfUri(Hierarchical(path)).Returned?
    ensures var a := ActionOfUri(Hierarchical(path)).value;
      '/' !in a && NoUpper(a) && (a == [] <==> path == [])
  {
    var low := Lower(path);
    var t := TrimTrailing(low, '/');
    var a := AfterLast(t, '/');
    ActionIsLastNonEmptySegment(path);
    AfterLastOfTrimmed(low, '/');
    assert NoUpper(a) by {
      SliceOfLower(path, |t| - |a|, |t|);
    }
  }

  /** A trailing slash does not change the action: `/a/b/` selects `b` as `/a/b` does. */
  lemma TrailingSlashIgnored(path: string)
    requires path != []
    ensures ActionOfUri(Hierarchical(path + "/")) == ActionOfUri(Hierarchical(path))
  {
    ActionIsLastNonEmptySegment(path);
    ActionIsLastNonEmptySegment(path + "/");
    LowerAppend(path, "/");
    var low := Lower(path);
    assert Lower("/") == "/";
    assert (low + "/")[..|low + "/"| - 1] == low;
  }

  /** The method name getActionMethod looks for: the action name followed by "Action". Java's
      string concatenation renders a null action name as "null". */
  function HandlerName(action: JString): (r: string)
    ensures |r| >= 6 && r[|r| - 6..] == "Action"
    ensures action.Null? ==> r == "nullAction"
    ensures action.Str? ==> |r| == |action.value| + 6 && r[..|action.value|] == action.value
  {
    (match action
     case Null => "null"
     case Str(a) => a) + "Action"
  }

  /** A declared method handles the action when its name equals HandlerName ignoring case. */
  predicate Handles(methodName: string, action: JString)
  {
    EqualsIgnoreCase(methodName, HandlerName(action))
  }

  /** What getActionMethod returns: the position, in `declared`, of the first method that
      handles the action, or None for Java's null. */
  function LookUp(declared: seq<string>, action: JString): (r: Option<nat>)
    ensures r.Some? ==> r.value < |declared| && Handles(declared[r.value], action)
    ensures r.Some? ==> forall j :: 0 <= j < r.value ==> !Handles(declared[j], action)
    ensures r.None? <==> forall j :: 0 <= j < |declared| ==> !Handles(declared[j], action)
  {
    FirstIndex(declared, m => Handles(m, action))
  }

  /** For an extracted (hence lower-case) action name, a method handles it exactly when its
      lower-cased name is the name followed by "action". */
  lemma HandlesLowerCaseAction(methodName: string, a: string)
    requires NoUpper(a)
    ensures Handles(methodName, Str(a)) <==> Lower(methodName) == a + "action"
  {
    EqualsIgnoreCaseIffLowerEqual(methodName, a + "Action");
    LowerAppend(a, "Action");
    LowerOfLowerCase(a);
    assert Lower("Action") == "action";
  }

  /** The handler routeRequest selects for a request, before anything runs. */
  datatype Dispatch = Invoke(handler: nat) | NotFound

  /** routeRequest's choice: not found when extraction throws or no declared method handles
      the action; otherwise the first declared method that does. */
  function Resolve(declared: seq<string>, parsed: Option<Uri>): (d: Dispatch)
    ensures d.NotFound? <==>
      ActionOfUrl(parsed).Threw? ||
      forall j :: 0 <= j < |declared| ==> !Handles(declared[j], ActionOfUrl(parsed).value)
    ensures d.Invoke? ==>
      d.handler < |declared| && Handles(declared[d.handler], ActionOfUrl(parsed).value) &&
      forall j :: 0 <= j < d.handler ==> !Handles(declared[j], ActionOfUrl(parsed).value)
  {
    match ActionOfUrl(parsed)
    case Threw(_) => NotFound
    case Returned(a) =>
      match LookUp(declared, a)
      case None => NotFound
      case Some(h) => Invoke(h)
  }

  /** For a URL that parses to a path, the handler invoked is the first declared method whose
      lower-cased name is the last non-empty path segment, lower-cased, followed by "action". */
  lemma ResolveByPath(declared: seq<string>, path: string, h: nat)
    requires ActionOfUri(Hierarchical(path)).Returned?
    ensures var key := ActionOfUri(Hierarchical(path)).value + "action";
      Resolve(declared, Some(Hierarchical(path))) == Invoke(h) <==>
        h < |declared| && Lower(declared[h]) == key &&
        forall j :: 0 <= j < h ==> Lower(declared[j]) != key
  {
    var a := ActionOfUri(Hierarchical(path)).value;
    ActionShape(path);
    forall j | 0 <= j < |declared| ensures Handles(declared[j], Str(a)) <==> Lower(declared[j]) == a + "action" {
      HandlesLowerCaseAction(declared[j], a);
    }
  }

  /** A URL that does not parse does not lead to not-found by itself: the null action name
      becomes a look-up of a method called "nullAction", ignoring case. */
  lemma UnparsableUrlLooksUpNullAction(declared: seq<string>)
    ensures Resolve(declared, None) == NotFound <==>
      forall j :: 0 <= j < |declared| ==> Lower(declared[j]) != "nullaction"
  {
    assert HandlerName(Null) == "nullAction";
    assert Lower("nullAction") == "nullaction";
    forall j | 0 <= j < |declared| ensures Handles(declared[j], Null) <==> Lower(declared[j]) == "nullaction" {
      EqualsIgnoreCaseIffLowerEqual(declared[j], "nullAction");
    }
  }
}
