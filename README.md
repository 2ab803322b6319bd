# minVC controller, modelled in Dafny

minVC is a minimal model-view-controller layer for Java servlets: one abstract servlet,
`minvc.Controller`. A concrete controller declares handler methods named `<action>Action`.
For each GET or POST request the base class does the following:

- it takes the last segment of the lower-cased URL path as the action name;
- it finds the first declared method whose name equals the action name followed by `Action`,
  ignoring case, and invokes it;
- it renders the shared not-found page when there is no such method, or when extracting the
  action or running the handler throws.

Handlers render views through `view`. It copies view data into request attributes, records the
main content view in the `partialViewMain` attribute, and forwards to the shared layout.
`redirectToLocal` redirects below the application's context path. `getFileName` reads the
`filename` parameter of a multipart part's `Content-Disposition` header (RFC 6266
section 4.1, read in a simplified way).

The project has six modules:

- `Sequences` (`sequences.dfy`): an `Option` type and `FirstIndex`, the meaning of a for-each
  loop that returns on its first hit.
- `JavaStrings` (`java_strings.dfy`): the `java.lang.String` operations the controller uses, on
  ASCII. These are `toLowerCase`, `equalsIgnoreCase`, `trim`, `startsWith`, `indexOf`,
  `replace` of one character by nothing, and `split` on one character. `split` drops trailing
  empty pieces and returns the whole string when the separator is absent. Java's `null` string
  is the `JString.Null` value.
- `Actions` (`actions.dfy`): both `getAction` overloads, the handler look-up, and the choice
  `routeRequest` makes before it invokes anything. URL parsing is an `Option<Uri>` input: `None`
  is a `URISyntaxException`, and `Opaque` is a URI whose `getPath()` is null.
- `FileNames` (`file_names.dfy`): what `getFileName` returns for a header.
- `Views` (`views.dfy`): state functions describing what `view`, `httpNotFound`,
  `redirectToLocal` and `routeRequest` do to one request. That state is the attribute store plus
  a log of forwards, redirects and handler invocations.
- `Controllers` (`controller.dfy`): the classes.
  - `Exchange` is one request and response. Its attribute map and event log are updated in
    place.
  - `Controller` holds the declared method names. Its methods follow the Java methods statement
    by statement, loops included, and each is proved to produce the state function's result,
    or to return the look-up function's result.

One behaviour of the code differs from the usual description of the dispatcher. A URL that
does not parse does not go straight to the not-found page. `getAction(String)` returns null,
and `null + "Action"` is `"nullAction"`, so the controller then looks up a method with that
name. The model follows the code: `Actions.UnparsableUrlLooksUpNullAction` states the
consequence.

## Model

| member | source | states |
|---|---|---|
| Sequences.FirstIndex | src/main/java/minVC/Controller.java:122-128 | returns the position of the first element satisfying the test, no earlier element satisfies it, and it returns None exactly when no element does |
| JavaStrings.Lower | src/main/java/minVC/Controller.java:71 | `toLowerCase` keeps the length and lower-cases each character |
| JavaStrings.EqualsIgnoreCaseIffLowerEqual | src/main/java/minVC/Controller.java:123 | two strings are equal ignoring case exactly when their lower-cased forms are equal |
| JavaStrings.EqualsIgnoreCase | src/main/java/minVC/Controller.java:123 | `equalsIgnoreCase`: same length and each pair of characters equal or equal upper-cased; its meaning as a comparison of lower-cased forms is `EqualsIgnoreCaseIffLowerEqual` |
| JavaStrings.TrimUntouched | src/main/java/minVC/Controller.java:259 | `trim` leaves a string alone when neither end is a character up to the space |
| JavaStrings.TrimAfterLeading | src/main/java/minVC/Controller.java:259 | a leading character up to the space does not change the trimmed result |
| JavaStrings.Trim | src/main/java/minVC/Controller.java:259 | `trim`; what it keeps is stated by `TrimShape`, `TrimUntouched` and `TrimAfterLeading` |
| JavaStrings.TrimShape | src/main/java/minVC/Controller.java:259 | the trimmed string is the slice after the leading characters up to the space and before the trailing ones, and it starts and ends with a character above the space |
| JavaStrings.StartsWith | src/main/java/minVC/Controller.java:259 | `startsWith`: the prefix is no longer than the string and equals its first characters |
| JavaStrings.IndexOf | src/main/java/minVC/Controller.java:260 | `indexOf` is -1 exactly when the character is absent; otherwise it is the first position holding it |
| JavaStrings.RemoveAll | src/main/java/minVC/Controller.java:261 | `replace("\"", "")` leaves no quote and changes nothing in a string without one |
| JavaStrings.RemoveAllCounts | src/main/java/minVC/Controller.java:261 | removing the quote keeps every other character exactly as often as before; with `RemoveAllAppend` this fixes the result completely |
| JavaStrings.RemoveAllAppend | src/main/java/minVC/Controller.java:261 | removing a character distributes over concatenation |
| JavaStrings.Segments | src/main/java/minVC/Controller.java:258 | the raw pieces between separators: at least one, and none holds the separator |
| JavaStrings.JoinSegments | src/main/java/minVC/Controller.java:258 | gluing the pieces back together with the separator gives the original string |
| JavaStrings.SegmentsOfJoin | src/main/java/minVC/Controller.java:258 | splitting separator-free pieces glued with the separator gives back exactly those pieces |
| JavaStrings.Split | src/main/java/minVC/Controller.java:71 | no element holds the separator; without a separator the result is the whole string alone; otherwise the last element, if any, is non-empty |
| JavaStrings.SplitIsSegmentsPrefix | src/main/java/minVC/Controller.java:258 | the split result is the raw pieces between separators with empty pieces dropped from the end only; with `JoinSegments` and `SegmentsOfJoin` this fixes the elements |
| JavaStrings.LastNonEmptySegment | src/main/java/minVC/Controller.java:71-72 | the raw pieces with trailing empty ones dropped are empty exactly when the string is made of separators, and otherwise their last element is the text after the last separator once trailing separators are removed |
| Actions.ActionOfUri | src/main/java/minVC/Controller.java:70-76 | `getAction(URI)`: exactly the opaque URI, whose path is null, throws a null-pointer failure, and a returned action has no '/'; what it returns and when it throws otherwise are stated by `ActionIsLastNonEmptySegment` and `ActionThrowsIff` |
| Actions.ActionOfUrl | src/main/java/minVC/Controller.java:83-91 | `getAction(String)`: a URL that does not parse gives the null action; otherwise it throws exactly when `getAction(URI)` throws and returns the same action |
| Actions.ActionIsLastNonEmptySegment | src/main/java/minVC/Controller.java:70-76 | the action is what follows the last '/' of the lower-cased path without its trailing slashes; only a non-empty all-slash path throws |
| Actions.ActionThrowsIff | src/main/java/minVC/Controller.java:71-72 | extraction from a hierarchical URI throws exactly when the path is non-empty and all slashes |
| Actions.ActionShape | src/main/java/minVC/Controller.java:70-75 | an extracted action has no '/' and no upper-case letter, and is empty exactly when the path is empty |
| Actions.TrailingSlashIgnored | src/main/java/minVC/Controller.java:71-72 | a trailing slash selects the same action as the path without it |
| Actions.LookUp | src/main/java/minVC/Controller.java:120-129 | the first declared method equal to the action name plus "Action" ignoring case; None exactly when there is none |
| Actions.HandlerName | src/main/java/minVC/Controller.java:123 | `actionName + "Action"`: the action followed by "Action", and "nullAction" for the null action |
| Actions.Handles | src/main/java/minVC/Controller.java:123 | the match test of the look-up, `equalsIgnoreCase` against `HandlerName`; stated for extracted actions by `HandlesLowerCaseAction` |
| Actions.HandlesLowerCaseAction | src/main/java/minVC/Controller.java:123 | for a lower-case action, a method matches exactly when its lower-cased name is the action followed by "action" |
| Actions.Resolve | src/main/java/minVC/Controller.java:172-194 | not found exactly when extraction throws or no declared method matches; otherwise the first matching method is chosen |
| Actions.ResolveByPath | src/main/java/minVC/Controller.java:177-189 | for a URL with a path, the invoked method is the first whose lower-cased name is the action followed by "action" |
| Actions.UnparsableUrlLooksUpNullAction | src/main/java/minVC/Controller.java:83-91 | an unparsable URL leads to not-found exactly when no declared method lower-cases to "nullaction" |
| FileNames.NamesFile | src/main/java/minVC/Controller.java:259 | the test each piece gets: once trimmed it starts with "filename"; `FileNameOfPieces`, `FirstNamingPieceWins` and `QuotedFileName` use it |
| FileNames.FileNameValue | src/main/java/minVC/Controller.java:260-261 | the value holds no quote, and a piece without '=' gives its whole trimmed text without quotes |
| FileNames.ValueAfterFirstEquals | src/main/java/minVC/Controller.java:260-261 | with an '=' present, the value is the text after the first one, trimmed and without quotes |
| FileNames.FileNameOf | src/main/java/minVC/Controller.java:257-265 | null exactly when no ';'-piece starts with "filename" once trimmed; a returned name holds no quote |
| FileNames.FirstNamingPieceWins | src/main/java/minVC/Controller.java:258-262 | the name is the value of the first piece that starts with "filename" |
| FileNames.FileNameOfPieces | src/main/java/minVC/Controller.java:257-265 | for a header made of ';'-free pieces, the last one non-empty when there are several, split gives back exactly those pieces, and the name is the value of the first piece that names a file, or null when none does |
| FileNames.QuotedFileName | src/main/java/minVC/Controller.java:257-265 | `form-data; name="f"; filename="n"` yields exactly `n`, for every field name without `;` and every file name without `;` or `"` |
| Views.Put | src/main/java/minVC/Controller.java:146 | `setAttribute` sets the one name, removes it when the value is null, and leaves every other name alone |
| Views.PutAll | src/main/java/minVC/Controller.java:145-147 | after setting every view-data entry, each key reads its view-data value and every other name is unchanged |
| Views.PutAllOneMore | src/main/java/minVC/Controller.java:145-147 | setting the entries one key at a time, in any order, builds up the same store |
| Views.AfterRenderLayout | src/main/java/minVC/Controller.java:235-241 | one forward to `/views/shared/layout.jsp` is recorded and the attributes are unchanged |
| Views.AfterView | src/main/java/minVC/Controller.java:158-165 | `partialViewMain` reads the view path, every other attribute is unchanged, and one forward to the layout is recorded |
| Views.AfterViewWithData | src/main/java/minVC/Controller.java:138-150 | every view-data key other than `partialViewMain` reads its value; `partialViewMain` reads the view path even when the data has that key; other attributes are unchanged; exactly one forward, to the layout |
| Views.AfterNotFound | src/main/java/minVC/Controller.java:202-209 | `title` reads "Http Not Found", `partialViewMain` reads `/views/shared/HttpNotFound.jsp`, nothing else changes, and one forward to the layout is recorded |
| Views.AfterRedirect | src/main/java/minVC/Controller.java:217-222 | exactly one redirect is recorded, to the context path followed by the path; the attributes are unchanged |
| Views.RouteOutcomes | src/main/java/minVC/Controller.java:172-195 | the log only grows; no handler is invoked when there is no match; a chosen handler is the only one invoked, once; not-found is rendered exactly when there is no match or the handler threw |
| Views.AfterRoute | src/main/java/minVC/Controller.java:172-195 | the effect of `routeRequest`; the log only grows; its outcomes are stated by `RouteOutcomes` |
| Controllers.Exchange.SetAttribute | src/main/java/minVC/Controller.java:146 | the attribute map becomes `Put` of the old one and the log is unchanged |
| Controllers.Exchange.Forward | src/main/java/minVC/Controller.java:239-240 | one forward to the path is appended to the log and the attributes are unchanged |
| Controllers.Exchange.SendRedirect | src/main/java/minVC/Controller.java:222 | one redirect to the location is appended to the log and the attributes are unchanged |
| Controllers.Exchange.RecordInvocation | src/main/java/minVC/Controller.java:189 | one invocation of the handler is appended to the log and the attributes are unchanged |
| Controllers.Controller.DoGet | src/main/java/minVC/Controller.java:98-102 | the new state is routing's result |
| Controllers.Controller.DoPost | src/main/java/minVC/Controller.java:109-113 | the new state is routing's result, the same as for GET |
| Controllers.Controller.GetActionMethod | src/main/java/minVC/Controller.java:120-129 | the loop returns the first matching declared method, or None exactly when none matches, which is `LookUp` |
| Controllers.Controller.ViewWithData | src/main/java/minVC/Controller.java:138-150 | the loop over the view data, followed by `View`, produces `AfterViewWithData` of the old state |
| Controllers.Controller.View | src/main/java/minVC/Controller.java:158-165 | the new state is `AfterView` of the old one |
| Controllers.Controller.RouteRequest | src/main/java/minVC/Controller.java:172-195 | extraction, look-up, invocation and the not-found fallback produce `AfterRoute` of the old state |
| Controllers.Controller.HttpNotFound | src/main/java/minVC/Controller.java:202-209 | the new state is `AfterNotFound` of the old one |
| Controllers.Controller.RedirectToLocal | src/main/java/minVC/Controller.java:217-228 | the new state is `AfterRedirect` of the old one, with the exchange's context path |
| Controllers.Controller.RenderLayout | src/main/java/minVC/Controller.java:235-249 | the new state is `AfterRenderLayout` of the old one |
| Controllers.Controller.GetFileName | src/main/java/minVC/Controller.java:257-265 | the loop returns null exactly when no piece names a file, and never a name with a quote; this is `FileNameOf` |

## Left out

- Logging (`java.util.logging`) is left out. It only reports and does not change behaviour.
- Reflection is left out. `getDeclaredMethods()` is a sequence of method names in the order
  it reports them; Java leaves that order unspecified, so the model promises only "first in
  this sequence".
- `Method.invoke` is only recorded as an `Invoked` event. What a handler does is not
  modelled (it runs code outside this class). Every way an invocation can fail is the one
  input `handlerThrows`: the handler throws, a matching method is not accessible, or its
  parameters do not fit.
- The servlet container is not modelled. `forward` and `sendRedirect` are recorded as events.
  The `ServletException` and `IOException` that `renderLayout` catches, and the `IOException`
  that `redirectToLocal` catches, are not modelled. Nor is an `IllegalStateException` from a
  response that is already committed.
- `java.net.URI` syntax checking and percent-decoding of the path are not modelled. The
  outcome of `new URI(...)` is an input.
- Only ASCII case rules are modelled for `toLowerCase` and `equalsIgnoreCase`, not full
  Unicode or locale rules.
- Controllers.Controller.GetFileName: a request part with no `content-disposition` header makes
  `split` throw a `NullPointerException`. The model takes the header as present.
- Null keys in the view data, and a null view path or context path, are not modelled. Strings
  in those places are always present.
- The constants `BODY_ATTRIBUTE`, `SCRIPTS_ATTRIBUTE` and `STYLES_ATTRIBUTE` are not modelled.
  Nothing in the class reads them.
- Concurrency is left to the servlet container. The class holds no mutable state of its own.
- Controllers.Controller.RouteRequest: the model assumes that rendering the not-found page never
  throws. In the code, `renderLayout` catches only `ServletException` and `IOException`. An
  unchecked exception, such as an `IllegalStateException` from `forward` or a null dispatcher,
  would escape it, and one thrown inside the `try` would make the `catch` render the page a
  second time. Neither case is modelled.
