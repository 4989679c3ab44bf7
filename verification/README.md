# A verified model of the zara-rpc router, bindings, codecs and run loops

zara-rpc serves RPC methods over HTTP. A path template such as
`/v1/{name=users/*}/files:list` says which requests reach a method and which message fields
the path carries. This project models the parts where that has to be exactly right, and
proves what they promise.

## The parts

* **Templates and the direct matcher.** `Template.dfy`, `Pattern.dfy`, `ResourceExpr.dfy`:
  parsing and `Pattern.Match` as the loops they are. `MatchLists.dfy` proves the index loop
  equal to a matcher on lists of path segments. `TemplateGrammar.dfy` says which strings are
  templates and what they denote, of their characters alone. `ParseResults.dfy` says what every
  parsed template is like, `TemplatePrint.dfy` that parsing undoes printing and that the other
  template scanners agree.
* **The route tree.** `RouteTree.dfy` holds the class whose nodes are rewritten in place and
  whose lookup shares one mutable parameter map. `RadixTree.dfy` carries the heap invariant
  through every insertion and node split, `TreeWalk.dfy` relates walking the nodes to
  searching the list of registered routes, and `RouteSearch.dfy` proves that this
  backtracking search is a linear scan with a stated preference. `RouteSpec.dfy` defines the
  token walk of one pattern. `RouteTable.dfy` and `RouteTokens.dfy` say what the tree stores.
  `TrailingSlash.dfy`, `OpenExprs.dfy` and `RepeatedNames.dfy` (over `SearchDown.dfy`) say
  exactly when two of the tree's promises hold: that trailing slashes are ignored, and that
  the winner's bindings are the ones returned. `MatchVsTree.dfy` says when the direct matcher
  and the tree agree, `MatchVerbs.dfy` and `SeenVerbs.dfy` when they agree on a custom verb.
* **The mux.** `Mux.dfy` against `MuxSpec.dfy`; `AllowHeader.dfy` reads the Allow header back;
  `Dispatch.dfy` follows a request from a client message to its handler.
* **Bindings.** `Substitute.dfy` and `MessageQuery.dfy` (client), `ComesBack.dfy` (which values
  survive the way through a path), `Populate.dfy` (server), `Rebuild.dfy` (a message sent is a
  message rebuilt), over the flat messages of `Message.dfy` and the decimal texts of
  `Decimal.dfy`. `SubstituteMeaning.dfy`, `PopulateMeaning.dfy` and `ScalarMeaning.dfy` say, for
  every input, when these operations fail and what they leave.
* **Wire formats.** `StatusCodec.dfy` over `Wire.dfy`; `Framing.dfy` and `Streams.dfy` for
  event streams and newline-delimited messages, `EventStream.dfy` for any other reader of such a
  stream, over the pools of `Buffers.dfy`, the encoding
  of `Base64.dfy` and the trimming of `WhiteSpace.dfy`; `Timeout.dfy`.
* **Run loops.** `Retry.dfy` and `PolicyWatch.dfy`.
* `Text.dfy`, `MapRange.dfy` and `Sorting.dfy` hold what several parts share.

A Go string is a byte sequence; one `char` stands for one byte. Handlers are opaque ids.
`nil` and empty maps are told apart only where a lookup returns them. Ranging over a Go map is
a loop over its keys in an arbitrary order.

## Where the code and its documentation differ

The model follows the code.

* `routing/mux.go:76-78` announces an error for a duplicate route. The code keeps the first
  registration without one.
* `routing/route_tree.go:283-285` says that resource children come after parameter children.
  They are appended in order of creation; only literals come first.
* `routing/route_tree.go:297-298` speaks of duplicate (verb, handler) pairs. The code compares
  verbs only.
* `routing/route_tree.go:308-309` says that trailing slashes are insignificant. That holds for
  trees whose resource expressions are closed: no `**`, and no `*` at the end behind another
  segment (`TrailingSlashes.TreeIgnoresTrailingSlash`). For a template with one resource
  segment, at its end, it holds only then (`OpenExpressions.ClosedExactly`): `/{n=**}` and
  `/{n=m/*}` take the slash into the value. The template must not have a stray brace either
  (`OpenExpressions.StrayBraceNeedsSlash`).
* `routing/route_tree.go:308-309` gives `Pattern.Match` as the reason. With a verb, Match takes no
  path with a trailing slash (`SeenVerbs.TrailingNeverMatches`); the tree does
  (`SeenVerbs.OnlyTreeTrailsVerb`).

## Model

| member | source | states |
|---|---|---|
| RouteTrees.RouteTree.Insert | routing/route_tree.go:58-82 | On any tree that can be reached, inserting appends one route and changes the table to the first-wins update at (token path, verb), through all splits, keeping the radix invariant. |
| RouteTrees.RouteTree.AddLiteralChild | routing/route_tree.go:226-268 | The node returned stands for the parent's path followed by the whole run, however many nodes had to be split; every node keeps its place. |
| RouteTrees.RouteTree.SplitChild | routing/route_tree.go:243-248 | Cutting a node hands its terminals and children to the new lower half. |
| RouteTrees.RouteTree.NewLiteralChild | routing/route_tree.go:254-267 | A new literal child goes before the first child that is not literal. |
| RouteTrees.RouteTree.AddParamChild | routing/route_tree.go:272-281 | One parameter child per name and node. |
| RouteTrees.RouteTree.AddResourceChild | routing/route_tree.go:286-295 | One resource child per name and expression and node. |
| RouteTrees.RouteTree.AddTerminal | routing/route_tree.go:299-306 | The first terminal of a verb stays. |
| RouteTrees.RouteTree.Lookup | routing/route_tree.go:87-89 | The walk over the nodes returns what the search over the registered routes returns, and its parameters. |
| RouteTrees.RouteTree.LookupAt | routing/route_tree.go:91-168 | One node's lookup, with the caller's map written and deleted from in place; a failed lookup leaves the map as the specification says. |
| RouteTrees.RouteTree.FailedLookupKeeps | routing/route_tree.go:91-168 | With names distinct and not in use, a failed lookup at any node leaves the caller's map as it was. |
| RouteTrees.MatchTerminal | routing/route_tree.go:172-184 | The first terminal that the rest of the path ends at, trailing slashes aside. |
| RouteTrees.MatchCaptureTerminal | routing/route_tree.go:188-220 | The same behind a captured value, with the value without its verb suffix. |
| RouteTrees.StripTrailingSlashes | routing/route_tree.go:310-315 | The longest prefix that does not end in a slash. |
| RouteTrees.CommonPrefixLen | routing/route_tree.go:319-330 | The common prefix is common and cannot be longer. |
| RadixTree.Grow | routing/route_tree.go:254-267 | Adding a leaf keeps the whole radix invariant. |
| RadixTree.Split | routing/route_tree.go:241-248 | Splitting a node keeps the whole radix invariant: non-empty prefixes, distinct first steps, literals first, one node per token path, and the terminals and order of the routes registered. |
| RouteTable.NodesHoldTable | routing/route_tree.go:58-82 | A terminal sits at a node if and only if the first-wins table has it under the node's token path. |
| RouteTokens.SamePlace | routing/route_tree.go:60-80 | Two templates end at the same node exactly when their merged token lists are equal. |
| TreeWalk.KidsAreBelow | routing/route_tree.go:158-168 | Visiting the children of a node one after the other is searching all routes that continue its path. |
| TreeWalk.AlongEdge | routing/route_tree.go:93-97 | Taking a literal run at once is taking it character by character. |
| RouteSearch.SearchRefinesScan | routing/route_tree.go:87-220 | Lookup finds a handler if and only if the token walk of some registered pattern accepts the path; it is the preferred one's; with distinct names the parameters are exactly that walk's bindings, and empty when nothing is found. |
| RouteSearch.PreferredOneWay | routing/route_tree.go:158-168 | Preference cannot run both ways, so the winner is unique. |
| TrailingSlashes.TrailingSlashIgnored | routing/route_tree.go:91-220 | When every resource expression is closed, or all routes through it end there with verbs it is closed for, a trailing slash changes neither the handler nor the bindings. |
| TrailingSlashes.TreeIgnoresTrailingSlash | routing/route_tree.go:308-315 | The same for every tree built from parsed templates whose resource expressions are closed, whatever the path. |
| OpenExpressions.ClosedExactly | routing/route_tree.go:131-156 | For a template whose only resource segment is its last, with a verb behind it or without: every path is looked up alike with and without a trailing slash if and only if the expression is closed (for the verb: no `**`, and a final `*` only alone or behind a literal that does not end in the verb). |
| OpenExpressions.StarStarTakesSlash | routing/route_tree.go:131-156 | `/{n=**}` binds "1" on /1 and "1/" on /1/. |
| OpenExpressions.StarAfterLiteralTakesSlash | routing/pattern.go:254-280 | `/{n=m/*}` binds "m" on /m and "m/" on /m/. |
| OpenExpressions.StrayBraceNeedsSlash | routing/pattern.go:87-114 | `/a{/` is one literal that ends in a slash: found for /a{/, not for /a{. |
| RepeatedNames.BindingLost | routing/route_tree.go:123-130 | With `/{a}/{a}/x` registered, `/{a}/{b}` is found for /1/2, but its binding of a is lost on the way back. |
| RepeatedNames.NamesMustDiffer | routing/route_tree.go:111-130 | The parameter names of a pattern without resources differ if and only if, in every tree that has it and otherwise only patterns with distinct names, the bindings returned are those of the winner's own walk. |
| Templates.ParsePattern | routing/pattern.go:46-83 | The parse, or the first error, of every template. |
| Templates.SplitTemplate | routing/pattern.go:87-114 | The parts at slashes outside braces. |
| Templates.ParseSegment | routing/pattern.go:116-143 | The segment of one part, or its error. |
| Templates.ParseResourceExpr | routing/pattern.go:147-165 | The expression's segments; an empty one is an error. |
| ParseResults.ParseGuarantees | routing/pattern.go:46-165 | Whatever the template, a parse has segments, no empty literal or expression, no literal that begins with an opening brace, and a verb without slash, opening brace or colon. |
| TemplateGrammar.ParsesExactly | routing/pattern.go:46-165 | A template parses to a pattern if and only if it denotes it: it begins with a slash, the verb is cut off at its colon, and the parts of the rest between the slashes outside braces, empty ones dropped, are the texts of the pattern's segments in order. |
| TemplateGrammar.AcceptedExactly | routing/pattern.go:46-165 | A template parses if and only if it is rooted, has a non-empty part, and every part that begins with an opening brace ends with a closing one around a name, or a name, "=" and an expression without empty pieces. |
| TemplateGrammar.RefusedFor | routing/pattern.go:46-83 | Which error comes first: the empty template, no leading slash, the first part that is not acceptable, no parts. |
| TemplateGrammar.PartRefused | routing/pattern.go:116-165 | The error of a part: no closing brace, nothing inside, an empty name or expression, an empty piece. |
| TemplateGrammar.VerbCutIs | routing/pattern.go:56-66 | There is one way to cut the verb off: what is behind a colon past the first character, if it is not empty and has no slash, opening brace or colon. |
| ParseResults.ParsedFlat | routing/pattern.go:85-114 | Without stray braces, literals are single path segments. |
| TemplatePrinting.ParseUndoesPrint | routing/pattern.go:46-165 | Parsing the print of a well-formed pattern gives it back. |
| TemplatePrinting.PathParamsFor | protoc-gen-zararpc/path.go:54-76 | The generator's scan for parameter names. |
| TemplatePrinting.ScannersAgreeOnNames | protoc-gen-zararpc/path.go:54-76 | On a printed pattern it finds exactly the pattern's parameters, in order. |
| TemplatePrinting.FindVerbColon | protoc-gen-zararpc/validate.go:79-94 | The generator's scan for the verb. |
| TemplatePrinting.ScannersAgreeOnVerb | protoc-gen-zararpc/validate.go:55-94 | On a printed pattern it finds exactly the pattern's verb, and the placement check passes. |
| TemplateGrammar.ColonExactly | protoc-gen-zararpc/validate.go:79-94 | On every path it finds the first colon that has as many opening as closing braces before it. |
| TemplateGrammar.PlacementExactly | protoc-gen-zararpc/validate.go:55-75 | A path passes if and only if what is behind that colon is a verb without closing braces; and when the verb is not final or empty. |
| Patterns.Match | routing/pattern.go:180-249 | The index loop computes the matching function, bindings included. |
| ResourceExprs.MatchResourceExpr | routing/pattern.go:254-280 | The loop's end is the recursive definition's, and the value is the text in between. |
| MatchLists.MatchIsListMatch | routing/pattern.go:198-248 | The index loop is a matcher on the list of path segments: literals equal one, parameters take one, `*` takes one or none at the end, `**` the rest. |
| MatchLists.SlashRunsIgnored | routing/pattern.go:199-202 | Without resource segments, repeated slashes change nothing. |
| MatchVsTree.MatchMeetsWalk | routing/pattern.go:180-249 | Without a verb, on rooted paths without empty segments, Match is the token walk restricted to paths with a separator after every literal run before a capture; bindings included. |
| MatchVsTree.MatchMeetsCollapsed | routing/pattern.go:199-202 | Without verb and resources, on every rooted path: Match is that restricted walk of the path with its runs of slashes made one. |
| MatchVerbs.MatchMeetsWalkVerb | routing/pattern.go:183-196 | With a verb, when the path has no trailing slash and its last segment is not just the verb: Match, restricted to paths whose end the last segment captures by more than a literal of its expression, is the walk with the separator condition; no literal of that expression may end in the verb. |
| MatchVerbs.PlainMeetsWalkVerb | routing/pattern.go:183-196 | With a literal or plain parameter at the end, Match is the walk with the separator condition, as without a verb. |
| SeenVerbs.AcceptedExactly | routing/route_tree.go:206-220 | On a path that Match accepts, a template that ends in a resource and a verb is walked to the same bindings if and only if the tree sees the verb: the value ends at no literal of the expression, and if empty follows a literal of the template; else the walk rejects. |
| SeenVerbs.MatchImpliesFound | routing/route_tree.go:87-220 | A path that a registered pattern matches is found in the tree if the tree sees its verb, whatever else is registered. |
| SeenVerbs.FoundExactly | routing/route_tree.go:87-220 | In a tree with that pattern alone, it is found if and only if the tree sees the verb. |
| SeenVerbs.LiteralHidesVerb | routing/route_tree.go:139-156 | `/{n=m}:v` matches /m:v and the tree does not find it. |
| SeenVerbs.CaptureHidesVerb | routing/route_tree.go:111-130 | `/{a}/{n=**}:v` matches /1:v and the tree does not find it. |
| SeenVerbs.OnlyTreeTakesColon | routing/route_tree.go:206-220 | A literal of the expression that ends in the verb is taken for the verb by the tree only. |
| SeenVerbs.TrailingNeverMatches | routing/pattern.go:183-196 | With a verb, Match rejects every path with a trailing slash. |
| SeenVerbs.OnlyTreeTrailsVerb | routing/route_tree.go:172-184 | A trailing slash behind a verb is accepted by the tree only. |
| SeenVerbs.OnlyMatchTakesBareVerb | routing/pattern.go:183-196 | A last segment that is just the verb is accepted by Match only. |
| MatchVsTree.OnlyTreeSkipsSeparator | routing/route_tree.go:98-104 | A parameter glued to a literal run is accepted by the tree only. |
| MatchVsTree.OnlyMatchSkipsSlashes | routing/pattern.go:200-202 | A double slash before a literal is accepted by Match only. |
| SeenVerbs.OnlyTreeBindsEmpty | routing/route_tree.go:196-198 | An empty parameter before a verb is accepted by the tree only. |
| Muxes.Mux.Register | routing/mux.go:79-122 | The operations before the first invalid path are registered in order; the error is that path's. |
| Muxes.Mux.ServeHTTP | routing/mux.go:125-157 | The reply is the right one for the routes registered so far. |
| Muxes.Mux.PathExists | routing/mux.go:161-173 | Whether any method serves the path. |
| Muxes.Mux.AllowedMethods | routing/mux.go:176-200 | The strictly sorted list of exactly the methods that serve the path, joined. |
| MuxSpec.ExactIsFirst | routing/mux.go:113-118 | The exact index holds the first route registered for a method and path. |
| MuxSpec.ServedMeaning | routing/mux.go:125-143 | A request is served if and only if an exact route equals its path or a template of its method accepts it; by the first exact route or, without one, by the accepting template preferred to all others. |
| MuxSpec.FavouredOnce | routing/mux.go:125-143 | No two routes are preferred to all others, so the one that serves is determined. |
| MuxSpec.NotAllowedMeaning | routing/mux.go:145-152 | 405 if and only if the method does not serve the path and another does; the list never holds the request's own method. |
| AllowHeader.AllowReads | routing/mux.go:176-200 | Splitting the Allow header at its commas gives exactly the methods that serve the path, ascending, at least one, and not the request's own. |
| AllowHeader.JoinedReads | routing/mux.go:190-199 | Any texts free of commas are read back from what they are joined to. |
| AllowHeader.LessExactly | routing/mux.go:190 | Ascending is by bytes: a proper prefix, or the smaller byte at the first difference. |
| AllowHeader.ServedPlain | routing/mux.go:125-157 | An exact route is served without parameters; 404 if and only if no method serves the path. |
| AllowHeader.RegisteredIsServed | routing/mux.go:79-122 | An operation of a service registered whole is served at prefix and path, under GET when bidirectional and else under its own method, if it is the first there. |
| MuxSpec.RightIsUnique | routing/mux.go:176-200 | The reply does not depend on the order of map iteration. |
| Dispatching.MatchedIsServed | routing/mux.go:125-143 | A path that a registered template matches is served, whatever else is registered. |
| Dispatching.MatchedIsServedBy | routing/mux.go:125-143 | If it is the first choice for the path (no exact route, and preferred to every other template that takes it), by that template's handler with Match's bindings. |
| Dispatching.ServedByWalk | routing/mux.go:133-143 | The first choice serves with the bindings of its own walk, whether or not Match takes the path. |
| Dispatching.RequestIsServed | runtime/substitute.go:34-92 | A path filled in from a message reaches the template's handler with the message's values, if the template is the first choice for it; without resource segments that is all that is asked. |
| Dispatching.TidyPath | runtime/substitute.go:60-91 | A path filled in with values that fit, those of resources not empty and without repeated or trailing slashes, is one on which Match and the tree cut the verb off at the same place. |
| Dispatching.RequestIsRebuilt | runtime/populate.go:34-75 | From end to end: template filling, query, dispatch and population from the mux's own reply give back the message, as far as the server can find its fields. |
| Substitution.SubstitutePathParamsBound | runtime/substitute.go:34-92 | The filled-in path and the names bound, or the error, for every template and request. |
| SubstitutionMeaning.FilledExactly | runtime/substitute.go:60-91 | For every template and message: filling in succeeds if and only if every brace is closed and every name has a field; the names bound are then all the names, in order; the first name without a field is the error, and an open brace only when there is none. |
| SubstitutionMeaning.FilledIsWoven | runtime/substitute.go:60-91 | The text filled in is the template's text outside braces, woven with the fields' texts in the order of the names. |
| SubstitutionMeaning.FieldExactly | runtime/substitute.go:98-109 | The field of a name is the first exported one with that protojson or Go name. |
| SubstitutionMeaning.NamesUnlessOpen | protoc-gen-zararpc/path.go:54-76 | The generator's scan fails if and only if the last opening brace that counts is never closed. |
| SubstitutionMeaning.NamesAreWoven | protoc-gen-zararpc/path.go:54-76 | The names it finds are those before the "=" in the braces the template is woven from. |
| SubstitutionMeaning.ValueText | runtime/substitute.go:115-128 | How each shape of value is written into a path. |
| Substitution.SubstPrinted | runtime/substitute.go:60-91 | Values go in as they are; nothing in them is scanned again. |
| Substitution.SubstituteThenMatch | runtime/substitute.go:60-91 | Matching a filled-in path gives back exactly the values put in. |
| ComingBack.ComesBackExactly | runtime/substitute.go:60-91 | For every well-formed pattern whose names differ, resource segments included: the values come back if and only if each fits its segment. |
| ComingBack.PlainComesBackExactly | routing/pattern.go:217-229 | Without resource segments the values come back if and only if each is non-empty and slash-free. |
| ComingBack.ResourceFits | routing/pattern.go:254-280 | Fitting in terms of path segments: in front of another segment the value's segments are the expression's one by one, at the end the expression takes all of them. |
| MessageQueries.MessageToQuery | runtime/substitute.go:138-198 | The query of a message without its bound fields. |
| MessageQueries.QueryIsFields | runtime/substitute.go:138-198 | The query holds exactly the unbound exported fields with something to send, each under its own name with its texts in order. |
| MessageQueries.QueryIsSent | runtime/substitute.go:138-198 | Whatever the names: under each is, in order, what the fields of that name send from the last one on that is not a slice. |
| PopulationMeaning.ProtoNameExactly | runtime/substitute.go:224-230 | A field's protojson name is its tag up to the first comma, or its Go name when that is empty or "-". |
| ScalarMeaning.ParsesExactly | runtime/populate.go:267-305 | A text parses to a number if and only if it is a numeral in the 64-bit range, signed or not as the kind is, and the number is its low bits at the kind's width; to a truth value if and only if it is one of the six texts for it. |
| ScalarMeaning.TextIs | runtime/substitute.go:115-128 | How a value is written: true or false, and numerals without leading zeros and without a plus sign. |
| Messages.ScalarRoundTrip | runtime/populate.go:267-305 | A value's text parses back to it, at every integer width. |
| Decimal.IntRoundTrip | runtime/substitute.go:119-120 | The decimal text of every int64 parses back to it. |
| Population.FieldCache.FindField | runtime/populate.go:218-264 | Whatever the cache holds, the answer is that of a scan; misses are cached too. |
| Population.Target.PopulateMessage | runtime/populate.go:34-75 | For some order of each map, the fields and the error are those of setting path parameters, body and query in that order. |
| PopulationMeaning.WholeBody | runtime/populate.go:44-54 | With body field "*" and no parameters, a body the codec reads as a message gives that message whatever the query; one it cannot read is an error. |
| PopulationMeaning.WholeBodyOver | runtime/populate.go:34-54 | With parameters, the body is decoded over what they have set; a bad parameter is the error before it is. |
| PopulationMeaning.NamedBodyKeeps | runtime/populate.go:34-75 | With a named body field, that field is what the codec reads, a query parameter of its name is ignored whatever it holds, and all other fields come from path and query, in any map order. |
| PopulationMeaning.NamedBodyFails | runtime/populate.go:55-60 | It is an error when no field has the name or when the codec cannot read the body. |
| PopulationMeaning.ParamsFail | runtime/populate.go:44-48 | Path parameters fail if and only if one of them names no field or does not parse, in any map order. |
| PopulationMeaning.QueryFails | runtime/populate.go:62-74 | The query fails if and only if some parameter that is not skipped names a field and does not parse. |
| PopulationMeaning.SkippedIgnored | runtime/populate.go:62-74 | Query parameters to be skipped have no effect at all. |
| PopulationMeaning.AnswersExactly | runtime/populate.go:241-257 | A field answers to its tag up to the first comma, or untagged to its Go name in any case; unexported fields to nothing. |
| PopulationMeaning.StoreExactly | runtime/populate.go:267-330 | Storing a text fails if and only if it is no text of the kind, or the field is a slice of other than bytes; else the field holds exactly the value meant. |
| PopulationMeaning.DottedName | runtime/populate.go:132-191 | A dotted name is an error in the path and ignored in the query, and allocates the nil pointer that its first part names. |
| Population.Target.PopulateQuery | runtime/populate.go:81-102 | The same for the query alone, past the bound fields. |
| Population.Target.SetFieldFromBody | runtime/populate.go:105-125 | A field is decoded from the body, nil pointers allocated first. |
| Population.Target.SetFieldString | runtime/populate.go:132-141 | One text put into the field of a name. |
| Population.Target.SetFieldStrings | runtime/populate.go:146-170 | All texts into a slice, the last one into any other field. |
| Population.Target.FindFieldPath | runtime/populate.go:174-191 | A dotted name finds nothing in a flat message, but allocates the nil pointer it starts with. |
| Population.Target.SetStringValue | runtime/populate.go:267-330 | What a text stores in a field, or its error; a failed parse leaves an allocated pointer behind. |
| Rebuilding.PopulateKeeps | runtime/populate.go:34-75 | Populating an empty message from the parameters and query of a message sets every field the server can find, in any map order. |
| Rebuilding.RebuiltExactly | runtime/populate.go:34-75 | Population gives back the whole message if and only if the fields the server cannot find (unexported or tagged "-") are empty, in any map order. |
| Rebuilding.PopulateQueryKeeps | runtime/populate.go:81-102 | The same when the bound fields have been set before. |
| Rebuilding.RequestRoundTrip | runtime/substitute.go:34-198 | Template filling, query, parse, match and population in sequence rebuild the message. |
| Rebuilding.DashFieldLost | runtime/substitute.go:224-229 | A field tagged "-" is sent but not found. |
| Rebuilding.ShadowedParameter | runtime/substitute.go:98-109 | When one field's Go name is another's tag, client and server take different fields. |
| StatusCodec.MarshalStatus | status/status.go:159-173 | The bytes of a status, or failure when a detail cannot be serialized. |
| StatusCodec.UnmarshalStatus | status/status.go:176-219 | The last code, the last message and all details of the wire fields, or the first error. |
| StatusCodec.RoundTrip | status/status.go:159-219 | Every status comes back, for every int32 code, message and detail list. |
| StatusCodec.Merges | status/status.go:176-219 | A concatenation merges: later code and message win, details are appended, unknown fields are skipped. |
| StatusCodec.LastStands | status/status.go:176-219 | The last code and message field stand; without one they are 0 and empty, and without details there are none. |
| StatusCodec.CodeIsLow | status/status.go:185-191 | A code is the low 32 bits of its varint, signed. |
| StatusCodec.ForeignSkipped | status/status.go:210-215 | A field of any other number or type is skipped with its value: a varint, four bytes, eight bytes, a text by its length, a group. |
| StatusCodec.ForeignRefused | status/status.go:210-215 | A fixed-width value cut short, a group end without a group and the reserved wire types are errors. |
| StatusCodec.BadDetailRefused | status/status.go:199-208 | A detail that does not parse is an error whatever follows. |
| StatusCodec.TagBytes | status/status.go:159-173 | The bytes themselves, for a short message and a small code. |
| StatusCodec.RecordsConcat | status/status.go:178-216 | The fields of a concatenation are the fields of its parts. |
| Wire.VarintRead | status/status.go:160-161 | A varint of up to 64 bits is read back, whatever follows. |
| Wire.GroupLocal | status/status.go:210-214 | Skipping a group, nested ones included, does not depend on what follows it. |
| Base64.RoundTrip | transport/sse/sse.go:65-70 | Decoding undoes encoding, for all bytes. |
| Base64.DecodesExactly | client/streams.go:265-275 | A text decodes if and only if, line breaks aside, it is padded base64. |
| Base64.QuadBits | transport/sse/sse.go:65-70 | Four characters hold the 24 bits of three bytes. |
| Buffers.BytesPool.GetN | internal/xsync/buffers.go:68-76 | A slice of the length asked for, now lent, with arbitrary contents. |
| Buffers.BytesPool.Put | internal/xsync/buffers.go:81-88 | A lent slice returns, or is dropped when too large. |
| Streams.SseServerStream.Send | transport/sse/sse.go:44-96 | Exactly one event is written; every buffer lent is back. |
| Streams.SseClientStream.Receive | client/streams.go:246-288 | The next payload and the rest of the input, or the end; every buffer lent is back, on every path. |
| Streams.NdWriteStream.Send | client/ndjson.go:67-103 | One line is written unless the server has answered; the cached answer stays. |
| Streams.NdWriteStream.TakeResult | client/ndjson.go:41-53 | The first result to arrive is kept. |
| Streams.NdWriteStream.WaitResult | client/ndjson.go:56-65 | The same when waiting for it. |
| Streams.NdClientStream.Receive | transport/ndjson/ndjson.go:38-79 | The next message, or the end at a blank or unfinished line. |
| Streams.SseSession | transport/sse/sse.go:44-96 | Sending all events and receiving to the end gives back the messages, with pools in any state and no buffer missing. |
| Streams.NdSession | transport/ndjson/ndjson.go:38-79 | The same for newline-delimited messages. |
| Framing.SseHears | client/streams.go:246-288 | One-line payload texts arrive in order, trimmed; exactly the blank ones are lost. |
| Framing.NdHears | transport/ndjson/ndjson.go:38-79 | One-line texts arrive in order, trimmed, up to the first blank one. |
| Framing.SseRoundTrip | client/streams.go:246-288 | Non-empty binary payloads, and one-line text payloads without edge white space, arrive unchanged, in envelopes or not. |
| Framing.NdRoundTrip | client/ndjson.go:76-102 | The same for newline-delimited messages, and then the stream ends. |
| Framing.SseArrives | client/streams.go:246-288 | A payload is the next one received if and only if it is sendable, whatever follows it. |
| Framing.NdArrives | transport/ndjson/ndjson.go:38-79 | The same for newline-delimited messages. |
| EventStreams.EventsRead | transport/sse/sse.go:44-96 | A reader of the event-stream format that knows nothing of the server gets one event per message sent, with its name, id, retry time and payload text, if these are of one line. |
| EventStreams.LinesRead | client/ndjson.go:67-103 | The lines of a newline-delimited stream are the texts sent. |
| EventStreams.ReceivedExactly | client/streams.go:260-287 | What becomes of a payload text: for a binary codec an error unless it is base64, then what the codec makes of it. |
| WhiteSpace.EitherEndFirst | client/streams.go:252-256 | Trimming white space, in ASCII or encoded in UTF-8, does not depend on which end is trimmed first. |
| Framing.EmptyEventLost | client/streams.go:256-259 | An empty payload vanishes from an event stream. |
| Framing.EmptyLineEnds | transport/ndjson/ndjson.go:48-51 | An empty payload ends a newline-delimited stream. |
| Timeouts.FormatGrpcTimeout | metadata/metadata.go:215-243 | The text in the first unit that fits; the fallback after the loop is never reached. |
| Timeouts.SmallestUnit | metadata/metadata.go:215-243 | The header of a positive duration is the number of units, rounded up, of the smallest unit that needs at most eight digits. |
| Timeouts.NotPositive | metadata/metadata.go:216-218 | Any other duration is sent as "0n" and read as zero. |
| Timeouts.OneOfEach | metadata/metadata.go:250-269 | One of each unit, in nanoseconds. |
| Timeouts.DecodeEncoded | metadata/metadata.go:215-269 | For every positive duration, decoding succeeds, never falls short, and overshoots by less than a unit and one part in 99999. |
| Timeouts.ReencodeSame | metadata/metadata.go:215-269 | Encoding what was decoded gives the same header. |
| Timeouts.DecodeMonotone | metadata/metadata.go:215-269 | Decoding is monotone in the duration encoded. |
| Timeouts.ParseInRange | metadata/metadata.go:250-269 | A header parses if and only if it is one to eight digits and a unit; the value is the exact product, which fits in an int64, or the largest duration when the hours exceed what fits. |
| Timeouts.ClampNeeded | metadata/metadata.go:263-267 | Beyond that many hours the product overflows and wraps, so the clamp is needed. |
| Retries.RetryPolicy.Normalize | client/retry.go:43-62 | Defaults fill what is out of range; a normal policy is unchanged. |
| Retries.Invoke | client/retry.go:67-107 | The loop makes the calls and waits of the run it is specified by. |
| Retries.RunShape | client/retry.go:77-105 | All calls but the last failed as unavailable and were retried; the last succeeded, must not be retried, was the last allowed, or was followed by the end of the context. |
| Retries.CallsExactly | client/retry.go:77-105 | The loop ends at the first success, at the first failure that is not to be retried, at the last attempt or at the end of the context, and not before; with that call's error or the context's. |
| Retries.RetryRun | client/retry.go:67-107 | Between one and MaxAttempts calls; more than one only if idempotent; the result is the last call's or the context's error. |
| Retries.PlannedWaits | client/retry.go:88-103 | Every wait is within the jitter of its backoff, and their total is bounded. |
| Retries.WaitsExactly | client/retry.go:88-103 | Every wait is its backoff times one minus the jitter plus twice the jitter times its own draw, rounded down. |
| Retries.BackoffIs | client/retry.go:99-102 | With a multiplier of at least one, the k-th backoff is the initial one times the multiplier to the k, capped, less at most what rounding down each time costs. |
| Retries.BackoffDoubles | client/retry.go:99-102 | With a whole multiplier it is exactly that. |
| Retries.FirstWaitUncapped | client/retry.go:75-103 | Without jitter the first wait is InitialBackoff even above MaxBackoff, and only later ones are capped. |
| PolicyWatching.FileWatcher.Reload | auth/rbac/rbac.go:106-124 | A valid new content replaces policy and `last` and is reported; anything else changes nothing. |
| PolicyWatching.NewFileWatcher | auth/rbac/rbac.go:65-80 | When construction succeeds, and that it then has a policy exactly if the file was not empty. |
| PolicyWatching.WatcherSafe | auth/rbac/rbac.go:88-124 | From valid first content, over every interleaving: a policy is always in force and is a parse of something read; the updates are the valid contents without adjacent duplicates; every verdict is one whole policy's. |
| PolicyWatching.DistinctIs | auth/rbac/rbac.go:112-113 | Dropping adjacent duplicates keeps every content and leaves no two equal neighbours. |
| PolicyWatching.AlwaysLoadable | auth/rbac/rbac.go:88-90 | In every state of a run a reader finds a policy. |
| PolicyWatching.ReloadInSteps | auth/rbac/rbac.go:106-124 | The steps of an undisturbed reload come to what Reload does. |
| PolicyWatching.EmptyFirstFile | auth/rbac/rbac.go:111-113 | An empty first file leaves the watcher without a policy. |

## Left out

- MatchVerbs.MatchMeetsWalkVerb: expressions at the end with a literal that ends in the verb, on paths that Match rejects; there the tree can accept (`SeenVerbs.OnlyTreeTakesColon`). Paths that Match accepts need no such condition (`SeenVerbs.AcceptedExactly`).
- RouteSearch.SearchRefinesScan: the bindings clause asks for distinct names within a pattern, because without them it fails in some tree (`RepeatedNames.NamesMustDiffer`, `RepeatedNames.BindingLost`).
- RepeatedNames.NamesMustDiffer: patterns with resource segments; that distinct names suffice is proved for them too (`RouteSearch.SearchRefinesScan`).
- OpenExpressions.ClosedExactly: templates with several resource segments; that closed expressions suffice is proved for all templates.
- TrailingSlashes.TreeIgnoresTrailingSlash: templates with a stray brace, because for some of them it fails (`OpenExpressions.StrayBraceNeedsSlash`).
- Templates.ParsePattern: invalid UTF-8, which a loop over runes replaces; templates are bytes here.
- Templates.SplitTemplate: the same.
- TemplatePrinting.ParseUndoesPrint: patterns with colons or stray braces in names, literals or expressions, which the printed form cannot tell from verbs and parameters.
- Retries.Invoke: floating-point rounding and overflow of durations; the arithmetic is over reals.
- Retries.BackoffIs: multipliers between zero and one, with which backoffs shrink.
- Retries.PlannedWaits: floating-point rounding and overflow of durations; the arithmetic is over reals.
- Population.Target.FindFieldPath: nested messages; the messages modelled are flat.
- Population.FieldCache.FindField: Unicode case folding; names are compared by ASCII case.
- Streams.SseClientStream.Receive: read errors other than the end; the HTTP connection is the input that is left.
- Streams.NdClientStream.Receive: the same.
- Streams.SseServerStream.Send: write errors and the flush; codecs are parameters.
- Streams.NdWriteStream.Send: write errors and concurrent senders; the result channel is the `arrived` parameter.
- EventStreams.EventsRead: envelope fields and text payloads with line breaks, which the server writes as they are; the reader's other line ends (CR), comments aside, and its dispatch on the last id.
- Streams.SseSession: write errors; receiving starts when sending is done.
- Streams.NdSession: the same, and an answer of the server before the stream ends.
- Substitution.SubstitutePathParamsBound: floats and nested structs; what fmt prints for a non-nil pointer (its address) is a parameter.
- MessageQueries.MessageToQuery: floats and nested structs.
- Population.Target.PopulateMessage: nested messages, floats and times.
- Population.Target.PopulateQuery: the same.
- Population.Target.SetStringValue: floats, times, protobuf timestamps and nested structs.
- StatusCodec.RoundTrip: the Any payloads, whose own serialization is a parameter, and status values built from HTTP or gRPC errors.
- Muxes.Mux.Register: preparing operations, interceptors and handlers; a handler is an id.
- HTTP serving, WebSocket and TLS transports, server lifecycle: I/O over libraries.
- URL escaping between the filled-in path and the path matched, and between query values and their text: library code.
- RBAC rule evaluation and policy JSON: opaque functions in the watcher model.
- Pattern.Specificity: no longer used by the mux.
- Code emission by the generator, struct tag patching, code tables: only easy members.
- Cost: the comment that a lookup is linear in the path is not a functional property and does not hold under backtracking.
