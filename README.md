# Radial-tree history stack, force-chart neighbourhoods and request registry

This project models three pieces of logic from a Vue/d3 front end and
proves properties about them.

- **The bounded undo history of the radial tree.** This is
  `src/components/RadialTree/utils/Stack.js`. A `LinkedList` of
  `LinkedListNode`s keeps `head` and `tail` pointers. It supports
  `prepend`, `delete(value)` (removes every node holding `value`),
  `deleteTail`, `deleteHead` and `toArray`. A `Stack` wraps the list with
  a capacity `maxStep`, which defaults to 10. A push that makes the list
  longer than `maxStep` evicts the tail, which is the oldest entry.
  - `linked_list.dfy` (module `LinkedLists`) models the list as a class
    over heap nodes. A ghost sequence `Nodes` and a footprint `Repr` hold
    its invariant. `head` is null exactly when `tail` is null. Following
    `next` from `head` visits `Nodes` in order without repeating a node,
    and `tail` is the last of them.
  - Every loop of the source is a `while` loop with its invariants. That
    covers both loops of `delete`, the walk to the second-to-last node in
    `deleteTail`, and the walk in `toArray`.
  - `stack.dfy` (module `HistoryStack`) models the stack as a class over
    that list. It is proved against the sequence functions `Pushed`,
    `Top`, `Popped` and `PushAll`.
- **The neighbourhood of an activated node in the force chart.** This is
  `getRelatedNodes` and `getRelatedLinks` in
  `src/components/Chart/ForceChart/mixins/activateRelationMixins.js`.
  - `relations.dfy` (module `ActivateRelation`) models both `forEach`
    loops and the linear `find` guard as methods.
  - The methods are proved equal to `RelatedNodes` and `IncidentLinks`.
  - The lemmas characterise those two functions: completeness,
    soundness, no repetition, first-occurrence order, and the exact
    positions of the kept links.
- **Query rewriting and the in-flight request registry of the HTTP
  client.** This is `src/api/request.js`. `parseQuery` moves the
  parameters of a GET request into its url. When the registry already
  holds an entry for the new request's url, the request interceptor
  removes that entry and cancels the earlier request; the new request is
  then sent without being recorded. Otherwise it records the new request.
  Both response handlers remove the first entry for the url of the
  request that settled, which need not be that request's own entry
  (`Request.StaleResponse`).
  - `request.dfy` (module `Request`) models the config as a class and the
    module-level `requests` array as a class holding a `seq`.
  - `parseQuery`'s `for...in` loop and `findIndex` are loops.
  - `encodeURIComponent` is the uninterpreted parameter `enc`.

`wrappers.dfy` holds the `Option` type. It stands for the `null` and
"absent" results of the JavaScript code.

The code was modelled as written, including two edges of `parseQuery` on
a url that already contains `?`:

- The first pair is appended with no `&` in between. The url `a?b=1` with
  the pair `k=v` becomes `a?b=1k=v`.
- With an empty parameter object, the url's own last character is
  removed.

`Request.RewrittenWithQuery` states both. Whether they are intended
cannot be told from the code alone, so they are stated rather than
corrected.

## Model

| member | source | states |
|---|---|---|
| LinkedLists.Node.constructor | src/components/RadialTree/utils/Stack.js:12-22 | a node holds the given value and successor |
| LinkedLists.LinkedList.constructor | src/components/RadialTree/utils/Stack.js:25-29 | a new list satisfies the head/tail invariant and is empty |
| LinkedLists.LinkedList.Prepend | src/components/RadialTree/utils/Stack.js:35-45 | the value becomes the first element and the old contents follow unchanged; on an empty list the new node is both head and tail, otherwise the tail is unchanged; the invariant is kept |
| LinkedLists.LinkedList.Delete | src/components/RadialTree/utils/Stack.js:52-85 | the new contents are the old ones with every element equal to `value` removed, in order; the result is null exactly when `value` did not occur, and otherwise is the last node holding `value`; a tail not holding `value` stays the tail; the invariant is kept |
| LinkedLists.LinkedList.DropLeading | src/components/RadialTree/utils/Stack.js:60-63 | the first loop of `delete` moves `head` past the leading run of matching nodes and returns the last of them |
| LinkedLists.UnlinkMatching | src/components/RadialTree/utils/Stack.js:65-77 | the second loop of `delete` leaves exactly the non-matching nodes chained from the first kept node, with `currentNode` their last, and returns the last node unlinked |
| LinkedLists.SpliceStep | src/components/RadialTree/utils/Stack.js:69-76 | one iteration of that loop either unlinks the matching successor or advances, and keeps the loop invariant |
| LinkedLists.UnlinkNext | src/components/RadialTree/utils/Stack.js:72 | bypassing the successor of a node removes exactly that successor from the chain |
| LinkedLists.FilterNodesLast | src/components/RadialTree/utils/Stack.js:80-82 | when the old tail does not match, it is still the last kept node, which is why the tail fix-up is needed only when it matches |
| LinkedLists.LastMatchingSpec | src/components/RadialTree/utils/Stack.js:57-72 | the node `delete` returns is null exactly when no node holds `value`, and otherwise holds `value` with no later node holding it |
| LinkedLists.FilterNodesValues | src/components/RadialTree/utils/Stack.js:52-85 | the values of the kept nodes are the old values with every `value` removed |
| LinkedLists.FilterNodesDistinct | src/components/RadialTree/utils/Stack.js:52-85 | the kept nodes repeat no node |
| LinkedLists.WithoutCounts | src/components/RadialTree/utils/Stack.js:52-85 | removing every `value` leaves no `value` and every other element with its multiplicity |
| LinkedLists.WithoutIdentity | src/components/RadialTree/utils/Stack.js:52-85 | `delete` changes the contents exactly when `value` occurs |
| LinkedLists.LinkedList.DeleteTail | src/components/RadialTree/utils/Stack.js:90-112 | the last element is removed and the others stay in order; an empty list stays empty; the result is the old tail, or null; the invariant is kept, so the new tail is the last remaining node |
| LinkedLists.TailCut | src/components/RadialTree/utils/Stack.js:101-109 | when the walk of `deleteTail` cuts a `next`, the node is the second-to-last and the chain without the last node is well formed |
| LinkedLists.LinkedList.DeleteHead | src/components/RadialTree/utils/Stack.js:117-132 | an empty list returns null and stays empty; otherwise exactly the first node is removed and returned; a one-element list ends with head and tail null |
| LinkedLists.LinkedList.ToArray | src/components/RadialTree/utils/Stack.js:137-148 | returns the reachable nodes in order, whose values are the contents, and changes nothing |
| HistoryStack.Stack.constructor | src/components/RadialTree/utils/Stack.js:152-155 | a new stack is empty and has the given capacity |
| HistoryStack.Stack.Default | src/components/RadialTree/utils/Stack.js:152 | with no argument the capacity is 10 |
| HistoryStack.Stack.Length | src/components/RadialTree/utils/Stack.js:157-159 | the length is the number of entries |
| HistoryStack.Stack.IsEmpty | src/components/RadialTree/utils/Stack.js:164-166 | the stack is empty exactly when the list has no head |
| HistoryStack.Stack.Peek | src/components/RadialTree/utils/Stack.js:171-178 | the top entry, or none on an empty stack, without a change |
| HistoryStack.Stack.Push | src/components/RadialTree/utils/Stack.js:180-185 | the new contents are `Pushed(old contents, value, maxStep)` |
| HistoryStack.Stack.DropOldest | src/components/RadialTree/utils/Stack.js:182-184 | the eviction forgets exactly the oldest entry |
| HistoryStack.PushedBelowCapacity | src/components/RadialTree/utils/Stack.js:180-185 | below capacity a push only puts the value in front |
| HistoryStack.PushedAtCapacity | src/components/RadialTree/utils/Stack.js:180-185 | at capacity a push puts the value in front and evicts exactly the oldest entry |
| HistoryStack.PushedBound | src/components/RadialTree/utils/Stack.js:180-185 | a history within capacity stays within it, and the new length is the old length plus one, capped |
| HistoryStack.Stack.Pop | src/components/RadialTree/utils/Stack.js:187-190 | returns the top entry (none when empty) and removes only it |
| HistoryStack.PushThenPop | src/components/RadialTree/utils/Stack.js:180-190 | with capacity at least one, the pushed value is the top, and popping it restores the old contents below capacity or the old contents less the oldest entry at capacity |
| HistoryStack.PushAllKeepsNewest | src/components/RadialTree/utils/Stack.js:180-185 | a run of pushes from a history within capacity leaves the newest `maxStep` entries, newest first |
| HistoryStack.Stack.ToArray | src/components/RadialTree/utils/Stack.js:192-194 | the values, top first, with no change |
| HistoryStack.Stack.Clear | src/components/RadialTree/utils/Stack.js:196-200 | the loop of pops terminates with an empty stack |
| ActivateRelation.Find | src/components/Chart/ForceChart/mixins/activateRelationMixins.js:12 | the linear search finds `x` exactly when it is present |
| ActivateRelation.GetRelatedNodes | src/components/Chart/ForceChart/mixins/activateRelationMixins.js:8-21 | the result is the distinct far ends of the links touching `node`, in scan order, followed by `node` |
| ActivateRelation.RelatedNodesSpec | src/components/Chart/ForceChart/mixins/activateRelationMixins.js:10-19 | the last element is `node`; an element before it is present exactly when some link touching `node` has it as far end; none repeats; they come in the order the links first show them |
| ActivateRelation.RelatedNodesComplete | src/components/Chart/ForceChart/mixins/activateRelationMixins.js:11-17 | the target of a link from `node` and the source of a link to `node` are both in the result |
| ActivateRelation.OppositesSpec | src/components/Chart/ForceChart/mixins/activateRelationMixins.js:10-18 | an endpoint is contributed exactly when some link contributes it |
| ActivateRelation.DedupElements | src/components/Chart/ForceChart/mixins/activateRelationMixins.js:12-16 | the `find` guard keeps exactly the elements it is offered |
| ActivateRelation.DedupDistinct | src/components/Chart/ForceChart/mixins/activateRelationMixins.js:12-16 | the `find` guard lets no element in twice |
| ActivateRelation.DedupOrder | src/components/Chart/ForceChart/mixins/activateRelationMixins.js:12-16 | the kept elements come in the order of their first occurrence |
| ActivateRelation.GetRelatedLinks | src/components/Chart/ForceChart/mixins/activateRelationMixins.js:27-36 | the result is `IncidentLinks(links, node)` |
| ActivateRelation.IncidentLinksSpec | src/components/Chart/ForceChart/mixins/activateRelationMixins.js:29-33 | the result is the links at exactly those positions whose link touches `node`, in increasing order |
| Request.Config.constructor | src/api/request.js:15 | a config holds the given method, url and parameters |
| Request.ParseQuery | src/api/request.js:14-29 | a GET config with parameters gets url `RewrittenUrl(url, params)` and empty parameters; any other config is unchanged |
| Request.EncodedIsJoin | src/api/request.js:22-25 | the text the loop appends is the `&`-joined pairs plus one trailing `&` |
| Request.RewrittenWithoutQuery | src/api/request.js:18-27 | on a url without `?`, the new url is url, `?` and the `&`-joined pairs in key order; with no pairs, it is the url itself |
| Request.RewrittenWithQuery | src/api/request.js:18-27 | on a url with `?`, the pairs follow the url directly; with no pairs, the url loses its last character |
| Request.IndexOfSpec | src/api/request.js:32-34 | `findIndex` gives the first entry with the url, and -1 exactly when there is none |
| Request.Registry.constructor | src/api/request.js:12 | the registry starts empty |
| Request.Registry.FindIndex | src/api/request.js:32-34 | the loop returns `IndexOf(requests, url)` |
| Request.Registry.RemoveRequest | src/api/request.js:31-40 | on a match, the first entry with the url is spliced out and returned; otherwise none is returned and nothing changes |
| Request.RemovedCounts | src/api/request.js:35-39 | a match removes exactly one entry for the url and none for any other url; no match changes nothing |
| Request.RemovedUnique | src/api/request.js:31-40 | removal keeps every url to at most one entry |
| Request.Registry.OnRequest | src/api/request.js:45-58 | rewrites the url as `parseQuery` does; the registry becomes `Toggled(old, url)`; a request is cancelled exactly when one with the same url was in flight |
| Request.ToggledUnique | src/api/request.js:47-57 | with one entry per url, the interceptor keeps it so, and the url is in flight afterwards exactly when it was not before |
| Request.RequestTwice | src/api/request.js:47-57 | a second request for a url just recorded removes that entry again |
| Request.Registry.OnSettled | src/api/request.js:70-88 | a response, successful (line 72) or failed (line 88), removes the first entry for its url, as `removeRequest` does |
| Request.StaleResponse | src/api/request.js:45-88 | the first entry for a url need not be the settling request's own: a request recorded, a second one cancelling it, a third recorded, then the second's response leaves no entry while the third is in flight |
| Request.RequestThenResponse | src/api/request.js:45-88 | a request not in flight, then its response, leaves the registry as it was |

## Left out

- The comparator parameter of `LinkedList` (Stack.js:1-7, 25-29) is not modelled. The list compares values with `==` on `T`, which stands for `defaultComparator` (`===`). The two differ on `NaN`, which `===` does not equate with itself, so the model does not capture that `delete(NaN)` removes nothing.
- The `return this` chaining of `prepend` is not modelled. It is not used by `Stack`.
- `HistoryStack.Stack.Pop` and `HistoryStack.Stack.Peek` return `None` on an empty stack and `Some(v)` otherwise, so a stored `null` is told apart from an empty stack. The source returns `null` in both cases.
- `maxStep` is any integer, as the source never checks it. `PushThenPop` needs a capacity of at least one, because with `maxStep <= 0` a push evicts the value it pushed.
- `ActivateRelation.GetRelatedNodes` models the `find` guard as membership. This is exact when nodes are truthy references, as d3 node objects are. A falsy node value would pass the guard twice.
- The DOM helpers `setAllItemStates` and `clearAllItemStates` (activateRelationMixins.js:37-60) are d3 selection and class toggling.
- `params` is the sequence of its key/value pairs in `for...in` order, with the values already strings. Property enumeration order and the string conversion of non-string values are not modelled. A falsy or absent `params` is `None`.
- `encodeURIComponent` is the uninterpreted function parameter `enc`.
- The axios instance, the interceptor registration, `CancelToken`, the `cancel` call, `Promise.reject` and `Notification` (request.js:1-11, 49-51, 60-66, 73-98) are library calls and asynchronous plumbing. A registry entry is its url only. The `CancelToken` executor is taken to run at once, so the interceptor's push happens before it returns.
- The error handler (request.js:86-88) reads `error.config`, which axios leaves undefined on some errors, such as a cancellation in some axios versions. `removeRequest(undefined)` then throws a TypeError once the registry is non-empty. The model always has a config, so it does not capture that failure.
- `parseQuery` (request.js:18-19) calls `url.indexOf`, which throws when `config.url` is not a string. The model's url is always a string.
- The response code check (request.js:73-84) only decides between rejecting and resolving a Promise. Both paths remove the entry first, as `OnSettled` does.
- `src/api/user.js`, `src/store/modules/user.js`, `src/router/index.js`, `src/main.js` and the zoom and drag mixins are not part of this model. They are HTTP wrappers, framework glue and d3 event wiring.
