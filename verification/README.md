# Amaro: a verified model

Amaro is a Go web framework. This project models the parts of it in which state builds up
over many calls, in Dafny, and proves what those parts promise:

- **The trie router.** `Add` changes a heap of nodes in place, `Find` walks it greedily
  without backtracking, `Routes` lists it. The trie is a class with a footprint, proved to
  stand for flat tables from a method and a token sequence to a route. Everything else
  about routing is proved on those tables, for parsers that are any pure functions: what
  `Find` returns, when it misses, what a handler reads, in which order `Routes` lists, that
  registration order is irrelevant, which routes can be found at all, what groups and
  mounts do.
- **The app.** Middleware layering over runs of registrations and requests, and contexts
  shared through a pool by requests in flight at the same time.
- **The OpenAPI schema generator.** A depth-first search of a graph of types that may be
  cyclic, with placeholders that are filled in later, and the exact condition under which it
  ends. What a schema means is said apart from the generator: which JSON documents it
  accepts, and for which types it accepts all the documents their values become.
- **The rate limiter.** A token bucket in exact arithmetic with its closed form, and the
  client map with its cleanup, with the exact condition under which dropping idle clients
  never changes a decision.
- **The cache, the page cache and the sessions.** The cache refines a map that never
  forgets; interleaved, what a hit guarantees and what alone can make it miss. Pages and
  sessions share one store, and each behaves as if it had the store to itself.

Files follow the program's components: `Strings`, `Handlers`, `Patterns`, `Context` hold the
small pieces; `RouteTable` is the specification of the router, `Matching`, `DeadRoutes` and
`Lookups` what it means; `TrieShape`, `Listing` and `TrieRouter` are the trie;
`Registrations`, `Mounts`, `App` and `ContextPool` build on it; `SchemaGenerator`,
`SchemaMeaning`, `TokenBucket`, `Sweeps`, `RateLimiter`, `MemoryCache`, `PageCache`,
`Sessions` and `SharedStore` are the rest.

## Conventions

- A path is a sequence of characters, each standing for one byte.
- The field that Go calls `Method` is called `verb`, since `method` is a Dafny keyword.
- A handler is a term: an endpoint, the app's dispatch, or a middleware around a handler.
  `Handlers.Interpret` reads a term in any set of actual functions.
- Clock readings, random identifiers and what a handler does to its response writer are
  inputs of the operation that uses them.
- Ghost fields (`tables`, `nodes`, `views`, `repr`, `table`, `frozen`) say what the real
  fields stand for.

## Where the code and its documentation differ

- Group middlewares are documented to apply to all routes of the group (`group.go:24-25`),
  but `Group.Add` never reads them (`group.go:30-36`, `Mounts.GroupMiddlewareExample`).
  `Mounts.Group.Add` says exactly when a request for the route enters them all the same.
- `/a/c` is not found when `/a/b` and `/:x/c` are registered (`Matching.ShadowedExample`):
  the search never backtracks. `Matching.FailsDespiteMatch` says exactly for which paths this
  happens, and `DeadRoutes.AlwaysFoundIffUnrivalled` to which routes it cannot.
- A route registered below a wildcard is accepted and never found
  (`DeadRoutes.BelowWildcardExample`); `DeadRoutes.FindableIffLive` says exactly which
  registered routes can be found.
- The schema generator recurses for ever on types such as `type T []T`
  (`SchemaGenerators.EndlessExamples`); `SchemaGenerators.EndsIffAcyclic` is the exact
  condition for it to end.
- A schema does not accept each value of its type (`SchemaMeanings.MisfitExamples`): arrays
  of bytes, pointers to pointers and nil pointers, slices and maps are described as something
  else. `SchemaMeanings.AcceptsOwnValuesIff` is the exact condition.
- A field tagged `json:",omitempty"` is described under the empty name
  (`addons/openapi/generator.go:129-133`, `SchemaMeanings.EmptyNameIff`); encoding/json uses
  the name of the field.
- A burst larger than what three minutes refill lets a client that was dropped spend it
  again early; `RateLimiters.NeverShowsIffRefilled` is the exact condition.
- A value stored in the cache can vanish before it expires (`CacheRaces.FreshValueIsLostExample`),
  exactly when a slow reader of an older value deletes the key (`CacheRaces.MissIffRace`), or,
  one operation at a time, exactly when an earlier reading of a clock that later runs
  backwards found it expired (`MemoryCaches.GetIsCurrentIff`).
- A page cache hit can differ from the reply it repeats (`PageCaches.LateStatusExample`,
  `PageCaches.LateHeaderExample`); `PageCaches.ReplayIsOriginalIffSettled` is the exact condition.
- With the session middleware around the page cache, a hit sends the cookie line of the
  request that left the page after its own (`SharedStores.SecondCookieExample`);
  `SharedStores.HitCarriesLineIff` says exactly when a hit sends a line that is not its own.
- A session deleted by its handler is saved again when the handler returns
  (`addons/sessions/middleware.go:43-47`, `SharedStores.DeletedIsSavedAgainExample`);
  `SharedStores.DeletedOpensNothingIff` says exactly when a deleted session stays away.

## Model

| member | source | states |
|---|---|---|
| `TrieRouters.TrieRouter.Add` | routers/trie.go:64-148 | on any router that stands for its tables: it succeeds exactly when no registered route of that method names the same dynamic kind differently after a shared prefix; then the tables gain exactly one entry (last write wins), with the compiled handler and normalized path; when it fails, no root, node or field has changed |
| `TrieRouters.TrieRouter.Find` | routers/trie.go:150-230 | on every path the heap walk gives what the greedy search of the flat table gives, with the error kinds told apart, and appends exactly that search's captures to the context, found or not; a nil context gives the same route |
| `TrieRouters.TrieRouter.Routes` | routers/trie.go:232-246 | lists every registered route exactly once, ascending by method and pattern order |
| `TrieRouters.TrieRouter.WalkNode` | routers/trie.go:248-271 | appends exactly the routes at and below a node, in pattern order |
| `TrieRouters.TrieRouter.Walk` | routers/trie.go:88-133 | reaches the node of the path's tokens, or a clash of names, in which case nothing was made |
| `TrieRouters.TrieRouter.Follow` | routers/trie.go:164-229 | the loop over the rest of the path is the greedy search, step by step |
| `TrieRouters.TrieRouter.TakeEnd` | routers/trie.go:169-182 | at the end of the path: the node's own route, else the wildcard with value "" |
| `TrieRouters.TrieRouter.Use` | routers/trie.go:57-62 | appends a router middleware and leaves the routes registered so far alone |
| `TrieRouters.TrieRouter.constructor` | routers/trie.go:46-55 | a new router stands for empty tables |
| `TrieShape.NodeTellsTable` | routers/trie.go:13-25 | a node's route, children and names say exactly which patterns its method's table has at and after its position |
| `TrieShape.RegisteredIsFiled` | routers/trie.go:136-145 | what `Add` stores at the node of the tokens is the registration of the flat specification |
| `RouteTable.FoundIsRegistered` | routers/trie.go:164-229 | a search only ever returns registered patterns |
| `Matching.LookupIsExact` | routers/trie.go:150-230 | a lookup returns a pattern if and only if it is registered, matches the path's segments, and nothing of higher priority is registered at any position on its way |
| `Matching.LookupDependsOnSegments` | routers/trie.go:156-196 | the route found depends on the non-empty segments alone, however the path is slashed |
| `Matching.FoundIsBest` | routers/trie.go:198-224 | the route found matches and is preferred, position by position (end, static, parameter, wildcard), to every other registered route that matches |
| `Matching.BetterIsAsymmetric` | routers/trie.go:198 | that preference is never mutual, so the maximum is unique |
| `Matching.FailsDespiteMatch` | routers/trie.go:198-227 | a lookup misses although a route matches exactly when every matching route is overtaken on its way |
| `Matching.ShadowedExample` | routers/trie.go:198-213 | a concrete table and path for which it misses |
| `Matching.UnambiguousIsComplete` | routers/trie.go:164-227 | when no registered prefix is followed by two kinds of token, a lookup succeeds exactly when some registered route matches |
| `DeadRoutes.FindableIffLive` | routers/trie.go:164-227 | in any router a registered route is found for some path if and only if it has no wildcard before its last token and, if it ends in one, has no route right above it or no parameter beside it |
| `DeadRoutes.AlwaysFoundIffUnrivalled` | routers/trie.go:164-227 | a registered route is found by every path that matches it if and only if nothing static is registered beside a parameter of it and nothing beside or right above a wildcard at its end, or it matches nothing |
| `DeadRoutes.BelowWildcardExample` | routers/trie.go:114-122 | a route registered below a wildcard is never found |
| `Matching.LookupCaptures` | routers/trie.go:156-224 | the captures carry the route's dynamic tokens in order, parameter values are single non-empty segments, and substituting them into the pattern gives back the path's segments |
| `Lookups.WildcardValue` | routers/trie.go:156-224 | a lookup that finds a route ending in a wildcard captures for it one value only: the end of the path, after at most one slash has gone from each end of the path, that begins elsewhere than at a slash and has the segments left over by the other tokens |
| `Lookups.StripOneIs` | routers/trie.go:156-162 | what those ends of a path are, one slash or two |
| `Lookups.DefaultSyntax` | router.go:27-44 | with the default parsers a segment is the parameter x exactly if it is ":x", or "{x}" with x not empty, the wildcard x exactly if it is "*x", and static otherwise |
| `Lookups.AnySyntax` | routers/trie.go:94-123 | with any parsers the parameter parser decides first, and a nil parser declines |
| `Lookups.ParamRouteWorks` | routers/trie.go:64-230 | registering prefix/:name or prefix/{name} with the default parsers below a static prefix, with nothing else there, succeeds; a request for prefix/value then gets that handler inside the router's middlewares and the route's own, and reads the value under the name |
| `Lookups.WildcardRouteWorks` | routers/trie.go:64-230 | and for prefix/*name a request for prefix/rest, with slashes inside the rest, reads exactly that rest |
| `Lookups.FindAnswers` | routers/trie.go:150-230 | on any router: "method not found" exactly if no route has that method, "route not found" exactly if one has but none wins, and otherwise the route that wins |
| `Patterns.TokensOfNormalize` | routers/trie.go:77-85 | the stored path tokenises to the same position as the path given, and normalizing again changes nothing |
| `Lookups.StoredPath` | routers/trie.go:77-83 | the path stored is the one given, with a slash in front if it had none |
| `Strings.SegmentsOfTrim` | routers/trie.go:85 | trimming all outer slashes keeps the segments |
| `Strings.SegmentsOfStripOne` | routers/trie.go:156-162 | so does dropping one slash at each end |
| `Strings.SegmentsOfSplit` | routers/trie.go:88-92 | splitting at slashes and skipping empty parts gives the segments that `Find` walks one by one |
| `Strings.LessIsByteLess` | routers/trie.go:236-240 | the order of names is that of their bytes: at the first place where they differ the lesser one has the lesser byte or ends |
| `Listings.AscendingIsUnique` | routers/trie.go:232-271 | two ascending lists with the same elements are equal |
| `Listings.ListingIsUnique` | routers/trie.go:232-271 | what `Routes` returns is determined by the tables, so equal tables list equally |
| `Lookups.ListedInByteOrder` | routers/trie.go:236-262 | methods are listed in byte order, and so are routes of a method that part at a static token |
| `Lookups.PreferredIsListedFirst` | routers/trie.go:248-271 | of two routes of a method the one that a search prefers is listed first, so a route before those below it, and static before parameter before wildcard |
| `Registrations.AcceptedIffNamesAgree` | routers/trie.go:105-122 | a list at distinct positions is accepted in full if and only if its names agree pairwise |
| `Registrations.OrderIsIrrelevant` | routers/trie.go:64-148 | the same registrations in any order are accepted alike and leave the same tables, hence the same lookups and listing |
| `Registrations.ReplayServesTheSame` | routers/trie.go:232-246 | registering what `Routes` returns, by its methods, paths and handlers, on an empty router with the same parsers is accepted and gives the same patterns, paths and handlers |
| `Registrations.SameServiceFindsTheSame` | routers/trie.go:150-230 | such routers answer every `Find` with the same handler, path and captures, or the same error |
| `Registrations.SearchSeesKeys` | routers/trie.go:164-227 | a search sees only which patterns are registered |
| `Registrations.AttemptConcat` | amaro.go:93-98 | registering two lists is registering one and, if it is accepted, the other |
| `Handlers.Compile` | amaro.go:295-300 | builds the layered handler with the first middleware outermost |
| `Handlers.CompiledOfConcat` | amaro.go:295-300 | compiling a list in two parts nests them |
| `Handlers.CompiledEvents` | amaro.go:295-300 | layers are entered in list order and left in reverse |
| `Handlers.Chain` | amaro.go:286-293 | applies the functions from the last to the first |
| `Handlers.ChainAgreesWithCompile` | amaro.go:286-300 | a chain of functions and a compiled handler read in those functions are the same |
| `Contexts.Context.Reset` | context.go:64-75 | no parameters and no keys of an earlier request remain |
| `Contexts.Context.AddParam` | context.go:140-142 | appends one parameter |
| `Contexts.Context.PathParam` | context.go:131-138 | the first parameter of the name, or "" |
| `Contexts.ParamValueIsCapture` | context.go:131-142 | each capture is read back under its name unless an earlier one has the same name |
| `Contexts.ParamValueMissing` | context.go:131-138 | a name that nothing was captured under has the empty value |
| `Mounts.Group.constructor` | group.go:16-22 | a group holds its prefix and router and no middlewares |
| `Mounts.Group.Add` | group.go:30-36 | registers prefix and path together; the route is wrapped in exactly the router's middlewares and its own, so its requests enter the group's middlewares exactly as far as they are among those or the handler enters them |
| `Mounts.EntersAllIff` | group.go:24-36 | a request enters all of a group's middlewares if and only if each is among the router's or the route's own or is entered by the handler itself |
| `Mounts.GroupMiddlewareExample` | group.go:26-36 | a group with a middleware and a route of that group whose requests do not enter it |
| `Mounts.Group.Any` | group.go:67-83 | registers for the seven methods in turn, up to the first failure |
| `Mounts.Group.Mount` | group.go:87-103 | the exact path and then the wildcard path, for the seven methods, up to the first failure |
| `Mounts.Group.SubGroup` | group.go:105-107 | prefixes are put one after the other |
| `Mounts.AnyOn` | amaro.go:83-99 | the app's loop over the methods registers what the list of the seven registrations would |
| `Mounts.SevenMethods` | amaro.go:84-92 | which the seven methods are |
| `Mounts.WildcardPathIs` | amaro.go:111-116 | the wildcard path is the path, one slash and "*filepath" |
| `Mounts.MountOn` | amaro.go:103-119 | a mount registers the fourteen routes in order, up to the first failure |
| `Patterns.TokensOfConcat` | group.go:30-36 | a prefix and a path that is empty or starts with a slash keep their tokens when put together |
| `Mounts.NestedGroupTokens` | group.go:105-107 | so do any number of nested prefixes |
| `Mounts.WildcardPathTokens` | amaro.go:111-116 | below any prefix the wildcard path has the tokens of the path and then the wildcard |
| `Mounts.MountedLookup` | amaro.go:101-119 | in any table with nothing else at or below a static path, exactly the requests whose segments extend the path find one of the two mounted routes |
| `Mounts.MountServes` | group.go:85-103 | mounting there, on the app or on a group with any prefix, always succeeds and then, for each of the seven methods, exactly those requests get the mounted handler, whatever is registered elsewhere |
| `Mounts.NestedMountServes` | group.go:85-107 | the same through any nesting of groups, the pattern being that of the prefixes and then the path |
| `Apps.App.Use` | amaro.go:47-51 | appends to the app's middlewares |
| `Apps.App.Setup` | amaro.go:267-273 | compiles the middlewares present at the first call and never again |
| `Apps.App.ServeHTTP` | amaro.go:251-284 | the request runs the frozen layers around the route found, its handler sees exactly this request's captures and no keys, and the context goes back to the pool |
| `Apps.FrozenAtFirstSetUp` | amaro.go:214-273 | over every run the layers are those used before the first set-up, by the start of the server or by a request |
| `Apps.RouteComesFromLast` | routers/trie.go:64-147 | a registered route is what the last registration at its position made of the router middlewares present then |
| `Apps.UsesInOrder` | amaro.go:47-51 | the middlewares of a run are those used in its first part and then those used in the rest |
| `Apps.Layering` | amaro.go:251-300 | over every run a matched request enters the app middlewares frozen at the first set-up, the router middlewares present when the route was added, the route's own, the handler, and leaves them in reverse |
| `Apps.LayeringUnmatched` | amaro.go:267-282 | an unmatched request enters the same app middlewares around the answer that there is no route, and leaves them in reverse |
| `ContextPools.NextKeepsSeparate` | amaro.go:257-259 | contexts in flight stay pairwise distinct and out of the pool |
| `ContextPools.RunRefinesFresh` | amaro.go:251-284 | over any interleaving each request sees what it would see on a context of its own |
| `ContextPools.RequestsAreIsolated` | amaro.go:251-284 | over any interleaving a request in flight has exactly the captures of its own lookups and the keys it has set itself since it began |
| `ContextPools.HandlerSeesOwnFind` | amaro.go:257-283 | so after the one lookup of its request a handler sees exactly the captures of its own `Find` |
| `SchemaGenerators.Generator.GenerateSchema` | addons/openapi/generator.go:51-55 | for any type and registry on which the search ends: it ends, the schema is the one whose meaning is proved below, everything it refers to is registered, exactly the reachable names were added, and the components are those of all types given so far |
| `SchemaGenerators.Generator.GenerateType` | addons/openapi/generator.go:57-110 | for a type that stops within some bound on the defined types opened in a row, and whose newly reached structs do: it ends; old components stay, each new one has its struct's own schema, no placeholder, and is reachable from the type |
| `SchemaGenerators.Generator.GenerateStruct` | addons/openapi/generator.go:112-138 | the same for the fields of a struct, later fields of the same JSON name winning |
| `SchemaGenerators.StopsIff` | addons/openapi/generator.go:57-84 | for one type on its own, with the number of defined types as bound enough |
| `SchemaGenerators.EndsIffAcyclic` | addons/openapi/generator.go:57-138 | whatever is registered, the search ends within some bound if and only if no chain of defined types, opened from the type or from the fields of a struct newly reached from it, repeats a name |
| `SchemaGenerators.VisitedKeys` | addons/openapi/generator.go:92-105 | the names a call registers are those the bounded search registers |
| `SchemaGenerators.EndlessExamples` | addons/openapi/generator.go:72-80 | on types such as `type T []T` every bound runs out |
| `SchemaGenerators.ExploredStruct` | addons/openapi/generator.go:98-104 | filling in the placeholder completes the exploration of a struct |
| `SchemaGenerators.ExploredFromRegistry` | addons/openapi/generator.go:92-105 | a call adds exactly the names reachable from its type and leaves no placeholder |
| `SchemaGenerators.SchemaResolves` | addons/openapi/generator.go:105 | every reference at any depth of a schema names a component |
| `SchemaGenerators.RegistryResolves` | addons/openapi/generator.go:98-105 | so does every reference inside the components |
| `SchemaGenerators.CallOrderIsIrrelevant` | addons/openapi/generator.go:51-55 | the components depend on which types were given, not on order or number of calls |
| `SchemaMeanings.PropertiesOf` | addons/openapi/generator.go:112-138 | a struct's schema has one property for each key that an exported field is named by (its tag up to the comma, else its name, unless the tag is "-"), with the schema of the last field of that name, and no others |
| `SchemaMeanings.EmptyNameIff` | addons/openapi/generator.go:125-133 | a tag gives the empty key exactly if it begins with a comma |
| `SchemaMeanings.AcceptsIffDescribed` | addons/openapi/generator.go:57-138 | with the components registered, the schema of a type accepts exactly the JSON documents that its kind, its elements and its fields say, at every depth and through every reference |
| `SchemaMeanings.AcceptsOwnValuesIff` | addons/openapi/generator.go:57-138 | it accepts each document that a value of the type becomes if and only if neither the type nor a struct inside it has an array of bytes, a pointer to a pointer to what is not a text, a type of no known kind or, where these may be nil, a pointer, slice or map |
| `SchemaMeanings.DescribesIff` | addons/openapi/generator.go:57-138 | the same of what a type's schema describes, whatever is registered |
| `SchemaMeanings.MisfitExamples` | addons/openapi/generator.go:58-75 | an array of bytes, a pointer to a pointer to a number and a nil pointer, whose documents are not accepted |
| `TokenBuckets.Bucket.Allow` | middlewares/limiter.go:20-40 | refills, caps and takes a token as the specification of one decision does |
| `TokenBuckets.TakeFollows` | middlewares/limiter.go:24-39 | what a bucket decides and leaves after a list of requests is the specification on that list with the new request added, so feeding it request after request follows the specification |
| `TokenBuckets.LevelIsLeastAllowance` | middlewares/limiter.go:28-39 | closed form: the level at a request is the minimum over all windows ending there of burst plus refill less admitted, and is attained |
| `TokenBuckets.DeniedIffWindowFull` | middlewares/limiter.go:34-39 | a request is denied exactly when admitting it would break the bound of some window |
| `TokenBuckets.WindowBound` | middlewares/limiter.go:20-40 | no window admits more than burst plus its refill |
| `TokenBuckets.ErasingDenied` | middlewares/limiter.go:20-40 | erasing one denied request changes no later decision |
| `TokenBuckets.KeptLevel` | middlewares/limiter.go:20-40 | and it finds the same level of tokens |
| `TokenBuckets.ErasingAllDenied` | middlewares/limiter.go:20-40 | erasing all denied requests at once: those let through are let through on their own, and a further request is decided alike |
| `TokenBuckets.NeverNegative` | middlewares/limiter.go:28-39 | the tokens never go below zero |
| `RateLimiters.RateLimiter.Handle` | middlewares/limiter.go:69-95 | one request finds or makes its client and is decided by its bucket; no other client changes |
| `RateLimiters.RateLimiter.FindClient` | middlewares/limiter.go:74-86 | a known client is kept, an unknown one starts with a full bucket |
| `RateLimiters.RateLimiter.Cleanup` | middlewares/limiter.go:58-65 | visits each client once, in some order, with a clock reading for each |
| `RateLimiters.CleanupDropsIdle` | middlewares/limiter.go:60-64 | a pass drops exactly the clients last seen more than 180 seconds before the reading at their visit |
| `Sweeps.VisitedDropsStale` | middlewares/limiter.go:60-64 | a cleanup pass, here or of the cache, drops exactly what is stale by its own reading and changes nothing else |
| `RateLimiters.RestedBucketIsFull` | middlewares/limiter.go:24-32 | a bucket as old as that is full again, as a new one is |
| `RateLimiters.RunAsNeverDropped` | middlewares/limiter.go:55-93 | over every interleaving of requests and cleanup visits the table has each client's never-dropped bucket, or nothing after a long rest |
| `RateLimiters.EvictionIsInvisible` | middlewares/limiter.go:55-93 | then every decision is that of a never-dropped bucket fed this client's requests alone |
| `RateLimiters.NeverShowsIffRefilled` | middlewares/limiter.go:55-93 | that holds for all runs if and only if the burst is at most what 180 seconds refill, or there is no burst |
| `MemoryCaches.MemoryCache.Get` | addons/cache/cache.go:42-53 | the value if it is there and unexpired; an expired one is deleted |
| `MemoryCaches.MemoryCache.Set` | addons/cache/cache.go:56-66 | stores the value; it expires after a positive time to live, otherwise never |
| `MemoryCaches.MemoryCache.Delete` | addons/cache/cache.go:69-71 | removes one key |
| `MemoryCaches.MemoryCache.Flush` | addons/cache/cache.go:74-76 | removes all |
| `MemoryCaches.MemoryCache.Cleanup` | addons/cache/cache.go:78-90 | visits each key once, in some order, with a clock reading for each |
| `MemoryCaches.RunIsLastSet` | addons/cache/cache.go:42-90 | over every run, whatever the clock does, the store has what was last set if and only if no Get or cleanup visit since found it expired |
| `MemoryCaches.GetIsCurrentIff` | addons/cache/cache.go:22-90 | a Get answers with the value last set until it expires, except exactly when an item that is unexpired by its reading was swept by an earlier one |
| `MemoryCaches.GetIsLastSet` | addons/cache/cache.go:22-90 | so with a clock that does not run backwards lazy deletion and cleanup never show: a Get answers with the value last set and not deleted or flushed since, exactly until it expires |
| `MemoryCaches.GetAnswersIff` | addons/cache/cache.go:22-90 | in numbers, whatever the clock does: a Get answers v if and only if v was set, nothing set, deleted or flushed it since, and it has no positive time to live, or its time and time to live add up to 0, or no reading of the clock for it since is past that sum |
| `MemoryCaches.GetAnswersInOrder` | addons/cache/cache.go:22-90 | with a clock that does not run backwards only the reading of this Get counts |
| `MemoryCaches.CleanupDropsExpired` | addons/cache/cache.go:82-88 | a pass drops exactly the items whose expiration is not 0 and before the reading at their visit |
| `MemoryCaches.ClockMattersExample` | addons/cache/cache.go:48-51 | with a clock that runs backwards they can show |
| `CacheRaces.HitIsLastStore` | addons/cache/cache.go:42-53 | with load, check and delete as separate steps of concurrent processes, a hit still gives the value last stored before its load, unexpired when checked |
| `CacheRaces.LastStoreIff` | addons/cache/cache.go:56-76 | the last store is the one that no store or deletion of the key and no flush follows |
| `CacheRaces.MissIffRace` | addons/cache/cache.go:42-90 | a value stored, not deleted and not expired by any check so far is missing if and only if a reader or the cleanup that had loaded an older one deleted the key after it was stored, also when a Set reads the clock long before it stores |
| `CacheRaces.MissIffRemoved` | addons/cache/cache.go:42-90 | whatever the clocks read, it is missing if and only if the key was removed since for a reader or the cleanup |
| `CacheRaces.RemovalIsStale` | addons/cache/cache.go:48-51 | and such a removal was made for an older value |
| `CacheRaces.FreshValueIsLostExample` | addons/cache/cache.go:48-51 | and that does happen |
| `PageCaches.ResponseRecorder.Act` | addons/cache/middleware.go:20-35 | passes everything on, keeping the last status and the whole body |
| `PageCaches.RunRecorded` | addons/cache/middleware.go:83-91 | a whole handler run on a recorder reaches the writer unchanged and is recorded |
| `PageCaches.Replay` | addons/cache/middleware.go:68-77 | adds the cached header values name by name, sets X-Cache, sends the cached status and body |
| `PageCaches.Serve` | addons/cache/middleware.go:53-111 | only a GET is looked up; a hit replays and runs nothing; a miss runs the handler and stores the page if it neither failed nor has a status of 400 or more |
| `PageCaches.ReplayIsOriginalIffSettled` | addons/cache/middleware.go:53-111 | a hit repeats the reply its handler gave, its header lines coming after those already on the writer and X-Cache being set, if and only if the last status written is the one that began the reply and the header lines at the end are those when it began; the body is repeated in any case |
| `PageCaches.ReplyOfHandler` | addons/cache/middleware.go:20-35 | a handler sends the status and header of when its reply began; the recorder has those of when it ended |
| `PageCaches.WellBehavedIsSettled` | context.go:91-116 | a handler that writes its header, then at most one status, then the body meets that condition |
| `PageCaches.ReplayOnBareWriter` | addons/cache/middleware.go:53-111 | on a writer without header lines that condition says exactly when the replay differs in X-Cache alone |
| `PageCaches.LateStatusExample` | addons/cache/middleware.go:27-100 | a status written late is replayed though it was not sent |
| `PageCaches.LateHeaderExample` | addons/cache/middleware.go:93-98 | and so is a header line added late |
| `Sessions.Manager.Get` | addons/sessions/sessions.go:107-126 | the data stored under the identifier, or a new empty session when there is none or it is not session data |
| `Sessions.Manager.Save` | addons/sessions/sessions.go:129-133 | stores the session's data under its identifier |
| `Sessions.Manager.Delete` | addons/sessions/sessions.go:136-139 | removes it |
| `Sessions.Manager.NewSession` | addons/sessions/sessions.go:141-149 | a new session has the random identifier and the zero data |
| `Sessions.Manager.Start` | addons/sessions/middleware.go:15-50 | the cookie line names the session opened and goes onto the writer before the handler runs; what the handler made of the data is stored under that identifier, also when the handler deleted the session; nothing else changes but that an expired item under the cookie's value is dropped |
| `SharedStores.StoreIsSeparate` | addons/sessions/sessions.go:107-149 | whatever the cookies and the clock, every reachable store has pages under page keys only and session data under identifiers generated for a session only |
| `SharedStores.PagesAreAlone` | addons/cache/middleware.go:53-111 | in a mixed run the page cache answers as in the run of its own steps alone |
| `SharedStores.SessionsAreAlone` | addons/sessions/middleware.go:15-50 | and sessions open as in the run of theirs, for every cookie value |
| `SharedStores.HitIsEarlierMiss` | addons/cache/middleware.go:53-111 | every hit shows the page left by an earlier GET of the same address that missed and then, with no other miss or end of that request in between, ended without an error and with a status below 400, not longer ago than the time to live |
| `SharedStores.LeavesIff` | addons/cache/middleware.go:83-108 | an end of a request leaves a page exactly if the request was waiting with its miss and ended without an error and with a status below 400 |
| `SharedStores.PageIsLastLeft` | addons/cache/middleware.go:53-111 | a GET finds a page if and only if it is the one last left for the address and its time to live, if it has one, has not passed: a page that was kept is hit until then, and nothing else ever is |
| `SharedStores.HitRepeatsReply` | addons/cache/middleware.go:53-111 | a hit repeats that request's reply if and only if its handler's actions met the condition above |
| `SharedStores.HitCarriesLineIff` | addons/cache/middleware.go:67-98 | under any header name a hit sends the values on its own writer and then those of the request that left the page, so it sends a line that is not its own if and only if that request had it when it ended |
| `SharedStores.SecondCookieExample` | addons/addons_test.go:29-68 | with the session middleware around the page cache, a hit sends the cookie line of the request that left the page after its own |
| `SharedStores.SessionIsLastSaved` | addons/sessions/middleware.go:15-50 | a cookie opens the data last saved under it exactly if the session was not deleted since and the time to live, if there is one, has not passed; any other cookie opens an empty session under a new identifier |
| `SharedStores.DeletedOpensNothingIff` | addons/sessions/middleware.go:43-47 | a deleted session opens nothing if and only if no save after its last deletion is still unexpired |
| `SharedStores.DeletedIsSavedAgainExample` | addons/sessions/middleware.go:43-47 | a session its handler deleted is there again when the middleware has saved it |
| `SharedStores.ServeIsItsSteps` | addons/cache/middleware.go:53-111 | the two steps of a page request in a run do to the store what the middleware does |
| `SharedStores.StartIsItsSteps` | addons/sessions/middleware.go:15-50 | and those of a session request what the session middleware does |

## Left out

- Nil handlers, also as the result of a middleware: handlers are taken to be there, so a
  node has a route exactly when one was registered at it.
- `TrieRouters.TrieRouter.Find`: the code returns a pointer into the node, the model the
  route's value, so a caller that changes the route through the pointer is not modelled.
- Slices that share memory (the middlewares passed to `Add`, the context's parameters and
  their capacity) are sequences.
- `Mounts.Group.Use`: keeps the group's middlewares as the code does; nothing reads them.
- Nothing bounds memory or integers: nanosecond clock arithmetic does not wrap around.
- `TokenBuckets.Bucket.Allow`: floats are reals, so rounding is not modelled.
- `RateLimiters.RateLimiter.Handle`: a request reads the clock once, and finding the client
  and deciding are one step; a cleanup pass between the two is not modelled.
- `MemoryCaches.MemoryCache.Cleanup`: a pass of the cache's cleanup is not interleaved with
  other operations here; in `SharedStores` its visits are, in `CacheRaces` also their steps.
- `MemoryCaches.MemoryCache.Flush`: flushing while another process uses the map is a data
  race in Go; it is one step here.
- Pages: gob encoding is taken to lose nothing, so the store holds the page itself; what
  net/http does with special statuses, trailers and content lengths is not modelled, nor is
  the recorder staying in the context after the handler returns.
- Pages: header names are taken as canonical already; Go makes them so in `Add` and `Set`.
- Pages: `SharedStores` uses the default key; `PageCaches` holds for any key.
- Sessions: random identifiers are inputs in an alphabet without a colon; that no two are
  the same is not needed and not assumed. Session data is a value: data shared by reference
  between a session and the store (maps, pointers) is not modelled, nor are `Session.Get`
  and `Session.Set` on maps. The session type is not a byte slice.
- `Sessions.Manager.Start`: the text of a cookie line is any function of the identifier and
  the expiry, and the expiry is counted from the reading of the lookup.
- Sessions: `Manager.Delete` is called with the request's own session identifier.
- `SchemaMeanings.AcceptsOwnValuesIff`: a document of a value may leave members of a struct
  out (as omitempty does), and lists and maps have any length; the string option of a tag,
  embedded structs, types with a marshaller of their own, and the rules of encoding/json for
  empty and repeated names are not modelled: a member has the name the generator gives it,
  and the last field of a name decides.
- Generator: struct names are taken to be unique across packages, defined types are known by
  names of their own, and a nil map of properties is an empty one.
- App: error handling and what a middleware does besides calling next once; keys that
  middlewares set on the context before the handler runs.
- Static files, timeouts, recovery, logging, compression, authentication, CORS, streaming,
  binding and validation, server start and shutdown: input and output, or short branches
  without state that lasts.
