# Renditions of three jessie browser utilities, in Dafny

jessie is a catalogue of small, interchangeable browser "renditions". Each one
tests the host environment once, at load time, and defines its function only
when the test passes; otherwise its variable stays `undefined`. This project
models the three renditions whose behaviour is more than a single host call:

- **`createXhr` (ActiveX rendition)** — `CreateXhr`. Three factories are
  declared, one per ActiveX ProgID. They are tried once, from the last to the
  first, inside `try/catch`. Every factory whose call returns a truthy value
  overwrites `createXhr`. Each call is reduced to an `Outcome`: it throws, or
  it returns a truthy or falsy value. The host's `new global.ActiveXObject(progId)`
  is a parameter `string -> Outcome`; a browser without `ActiveXObject` is one
  where every call throws. The model proves that the reverse walk with
  overwrite selects the *lowest-index* working candidate. So `"Microsoft.XMLHTTP"`,
  the first one declared, wins whenever it works, even though the comments
  present the later ProgIDs as upgrades. The model keeps this precedence as written.
- **`getEventTargetRelated` (W3C rendition)** — `EventTargetRelated`. Nodes and
  events are immutable datatypes, so the resolver can only read them. A
  non-element related target is replaced by its `parentNode`, one step only.
- **`isInQuery` (`query` rendition)** — `InQuery`. The toolkit's `query` is a
  parameter `string -> seq<Element>`. `Element` is a class, so `==` on it is
  object identity, which is what `===` compares.

Two helper modules complete the project. `Wrappers` holds `Option`.
`Capability` holds `Export`, the value a rendition leaves in its variable
(`Undefined` or `Defined`). It also holds `HostObject`, a host object seen
through the member names for which `isHostMethod` holds.

The comment at functions/getEventTargetRelated/rendition1.js:20 says the
parent node "must be an element". The code at line 21 does not check this: the
`parentNode` of a parentless node is `null`, and `null` is returned. The model
follows the code (`GetEventTargetRelated` returns `None` there). The comment's
assumption becomes the hypothesis `ParentIsElement` of the lemmas that need it.

## Model

| member | source | states |
|---|---|---|
| CreateXhr.LowestSuccess | functions/createXhr/rendition2.js:29-36 | reference selection: the result is a working candidate at or after `lo`, every candidate before it fails, and None exactly when none in range works |
| CreateXhr.SelectFactory | functions/createXhr/rendition2.js:26-36 | the reverse try/overwrite loop starting from `undefined` selects the lowest-index working candidate, or nothing iff every candidate throws or returns falsy; it calls indices `length-1` down to `0`, each exactly once |
| CreateXhr.FailureKindIrrelevant | functions/createXhr/rendition2.js:30-35 | a candidate that throws and one that returns a falsy value have the same effect: the selection depends only on which candidates work |
| CreateXhr.AppendCandidates | functions/createXhr/rendition2.js:13-36 | adding factories at the end of the list never displaces a working earlier one; they are selected only when every earlier one fails |
| CreateXhr.LoadCreateXhr | functions/createXhr/rendition2.js:13-36 | the selected factory is an element of the declared list and works in the host; the result is `undefined` iff no ProgID works; "Microsoft.XMLHTTP" wins whenever it works, and a later ProgID is chosen only when every earlier one fails |
| EventTargetRelated.GetEventTargetRelated | functions/getEventTargetRelated/rendition1.js:16-24 | an element related target is returned as it is; a non-element one is replaced by its parent node (`null` if it has none); the result is the target itself or one parent step above it |
| EventTargetRelated.ResolvesToElement | functions/getEventTargetRelated/rendition1.js:18-21 | when a non-element's parent is an element, the result always exists and has node type 1 |
| EventTargetRelated.ResolveIdempotent | functions/getEventTargetRelated/rendition1.js:17-23 | under the same assumption, resolving an event whose related target is an earlier result gives that result again |
| EventTargetRelated.OneStepOnly | functions/getEventTargetRelated/rendition1.js:19-22 | no walk beyond one level: a non-element whose parent is also a non-element resolves to that non-element parent |
| EventTargetRelated.LoadGetEventTargetRelated | functions/getEventTargetRelated/rendition1.js:13-25 | the resolver is defined iff `html` exists and `addEventListener` is a host method of it; when defined, it accepts every event with a related target and behaves as `GetEventTargetRelated` |
| InQuery.FirstMatch | functions/isInQuery/rendition1.js:9-14 | reference definition: the first position at or after `from` holding the element, with no earlier match; None iff the element does not occur in that suffix |
| InQuery.Scan | functions/isInQuery/rendition1.js:5-16 | the early-exit scan returns true iff the element occurs in the sequence, stops at its first occurrence, and otherwise runs to the end; an empty sequence gives false |
| InQuery.IsInQuery | functions/isInQuery/rendition1.js:4-17 | the result is true iff `el` is identical to some element that `query(selector)` returns; an empty query result gives false |
| InQuery.InQueryResult | functions/isInQuery/rendition1.js:5-16 | the value the rendition returns, as a function of `query`, `el` and `selector`: true iff `el` occurs in `query(selector)` |
| InQuery.LoadIsInQuery | functions/isInQuery/rendition1.js:3-18 | the rendition is defined iff `query` is present |
| InQuery.LoadedIsInQueryIsMembership | functions/isInQuery/rendition1.js:3-18 | once defined, the exported `isInQuery(el, selector)` answers whether `el` is identical to an element that the captured `query` returns for `selector` |

## Left out

- functions/jsonRequest/rendition1.js: it replaces `options.success` and delegates to the external `ajax` and `parseJson`. Neither is visible, so there is nothing to state beyond the delegation.
- functions/attachBoundListener/rendition1.js: pure delegation to the external `bind` and `attachListener`. Clearing `thisObject` only affects memory retention and has no observable effect.
- functions/setHtml/rendition1.js: a single assignment to the host property `innerHTML`. What that assignment does depends on the browser's parser.
- ActiveX instantiation and ProgID semantics are host calls. Each candidate is represented only by the outcome of its call.
- Later calls of the selected `createXhr` factory are not modelled. Only its selection at load time is.
- The toolkit's `isHostMethod` is not part of this model. It is represented by the set of member names for which it holds.
- Load-time sensing of `global`, `html` and `query` is replaced by explicit parameters.
- InQuery.IsInQuery: how `query` finds its elements is not modelled. `query` is any function from selector to element sequence, called once per call.
- EventTargetRelated.GetEventTargetRelated: an event without a related target is excluded by a precondition. The source throws a TypeError there (it reads `nodeType` of `null`), and that error is not modelled.
