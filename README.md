# rpc-magic-proxy, modelled in Dafny

rpc-magic-proxy lets two JavaScript endpoints call each other's functions
over a message channel. The arguments, the receiver and the result cross the
channel as object graphs flattened into a tagged wire form. Functions become
remote handles, and side effects on the arguments are carried back to the
caller. This project models the core of that library and proves its
properties:

- **The object graph** (`model.dfy`). The heap is a sequence of nodes, and
  an address is a position in it. A value is a primitive or a reference.
  A node is one of:
  - a record with ordered fields;
  - an array, held as an index-keyed map plus a `length`, so holes can be
    expressed;
  - a `Map` (ordered entries) or a `Set` (ordered elements);
  - a function carrying the library's two markers, "simple" and "proxy",
    and a third that records a memory view attached by `deserialize`;
  - a symbol, interned in the global `Symbol.for` registry or not.

  Allocation appends, and nothing is ever freed. An interned symbol cannot
  be held weakly (section 9.13 of ECMA-262), so an arena that would hold
  one, as a `WeakMap` key, throws the engine's `TypeError`. Such a symbol
  therefore never crosses the channel: `serialize` of a value that reaches
  one throws, and `inflate` that produces one throws on the receiving side.
- **The walker and the arena** (`util.dfy`, `memview.dfy`):
  - `Util.Walk` is `$traverse`. `Util.TraverseFrom` is its loop, proved
    against it.
  - `MemView.MemoryView` is the arena class: `slots` is the sequence of
    referents and `refs` the identity-to-index map. `register` and `items`
    are methods that change them.
- **The codec** (`deflate.dfy`, `revive.dfy`, `inflate.dfy`, `wire.dfy`):
  - `deflate` turns an arena into wire elements, one per slot.
  - The revive rules (`Generic`, `Array`, `Map`, `Set`) are functions on
    values, each with the loop that performs it in the source, proved
    against it.
  - `inflate` is two passes. `Pass1` allocates the shells and registers the
    fill callbacks. `ApplyJobs` runs the callbacks against the whole view.
    An override arena lets it patch live objects in place.
- **The round trip** (`roundtrip.dfy`). Inflating a deflated arena rebuilds,
  slot by slot, an isomorphic copy of the sender's graph. Shared children
  stay shared and cycles stay cycles. Local functions come back as proxies
  for the service id they were registered under.
- **Function handles** (`handles.dfy`): `deflateFn`, `createProxyFn` and
  `inflateFn`, over a registry value holding `services`, `srvIdMap` and
  `serviceCounter`.
- **The RPC context** (`rpc.dfy`). `Rpc.RPCContext` is a class with these
  fields:
  - the options;
  - the bound counterparts and their listeners;
  - the service registry;
  - the pending requests and the request counter;
  - an `outbox` of posted messages;
  - a `settled` log of resolved and rejected promises.

  `bind`, `reset`, `serialize`, `deserialize`, `initiateRequest`,
  `handleRequest` and `handleResponse` are its methods. Each method ties
  the new state to functions of the old state, and lemmas state what the
  source promises about those functions.

The heap is a parameter of every operation rather than global state. A
counterpart (channel) is an opaque number. The user's service function is
outside the model. `HandleRequest` runs up to the call and returns a `Call`
record. `CompleteRequest` takes the outcome of the call as a parameter and
posts the response.

Three places in the source do something other than what is evidently intended.
All three are listed under "## Findings". The model keeps an as-written version of
each, with a lemma that exhibits the problem. The rest of the model builds on
the corrected version. One of them is `reset`. In the source it clears
`services` (src/rpc-context.ts:101) but never `srvIdMap`
(src/rpc-context.ts:120). Since `deflateFn` looks a function up in
`srvIdMap` before it registers anything (src/rpc-context.ts:130-136), a
function sent before a reset is sent again under its old `<id`, and that id
no longer names a service (`Rpc.StaleHandleAfterReset`). `RPCContext.Reset`
therefore clears both directions of the registry.

## Model

| member | source | states |
|---|---|---|
| Radix.DigitValue | src/revive.ts:13 | a digit's value is below the base; both letter cases are accepted, as `parseInt` does |
| Radix.DigitChar | src/deflate.ts:31 | the lower-case digit printed for `d` reads back as `d` |
| Radix.ToRadix | src/deflate.ts:31 | `n.toString(base)` is a non-empty digit string with no leading zero |
| Radix.DigitPrefix | src/revive.ts:13 | the longest digit prefix: it is all digits, and the next character is not a digit |
| Radix.ParseInt | src/revive.ts:13 | `parseInt(s, base)` is NaN exactly when `s` does not start with a digit |
| Radix.FromToRadix | src/deflate.ts:31 | the digits `toString` prints denote the number printed |
| Radix.ParseToRadix | src/revive.ts:13 | `parseInt(n.toString(16), 16) == n`: a back-reference index reads back as the index written |
| Radix.ToRadixInjective | src/rpc-context.ts:131 | two numbers print the same iff they are equal: ids drawn from a counter never collide |
| Radix.Hex | src/deflate.ts:31 | `toString(16)` is a non-empty hex-digit string |
| Radix.Decimal | src/util.ts:55 | `BigInt.prototype.toString()` is an optional minus sign and then decimal digits |
| Radix.DecimalRoundTrip | src/util.ts:54-56 | the decimal rendering of a big integer reads back to the same integer |
| Model.PresentValues | src/util.ts:74 | `Object.values` of an array holds exactly the values at populated indices below `length` |
| Model.FindInterned | src/deflate.ts:19 | `Symbol.for` lookup finds an interned symbol of that name, or proves there is none |
| Util.IsPrimitive | src/util.ts:25-32 | `isPrimitive` holds exactly for the primitives and never for objects, functions or symbols |
| Util.Escape | src/util.ts:34-40 | `escape(s)` starts with `#` and `unescape(escape(s)) == s` |
| Util.BigIntToStr | src/util.ts:54-56 | a big integer becomes `"n"` followed by decimal digits that read back to it; every other value is unchanged |
| Util.Walk | src/util.ts:58-77 | the walk terminates on cycles and only ever grows the visited set |
| Util.WalkFacts | src/util.ts:58-77 | the walk yields no primitive and no value twice, yields exactly what it newly marks, leaves every yielded value's children marked, and yields an unvisited first reference first |
| Util.WalkSound | src/util.ts:62-76 | everything yielded lies in every child-closed set that contains the roots |
| Util.TraverseYieldsReachable | src/util.ts:79-81 | `traverse(...roots)` yields every reachable non-primitive value exactly once and nothing else, the first root first |
| Util.ReachableChild | src/util.ts:68-75 | reachability follows a Map's keys and values, a Set's elements and any other object's `Object.values` |
| Util.RootReachable | src/util.ts:79-81 | every reference root is reachable |
| Util.TraverseFrom | src/util.ts:58-77 | the generator's loop over its values, sharing one visited set across the recursion, yields exactly what `Walk` specifies |
| MemView.MemoryView.constructor | src/mem-view.ts:17-34 | the arena of values that can all be held weakly (the check is `MemView.NewView`): one slot per value in order; only references get a `refs` entry, at their own index when the values are unique; the root is the first value or `undefined` |
| MemView.NewView | src/mem-view.ts:17-34 | `new MemoryView(...values)` throws the `TypeError` exactly when some value cannot be held weakly (a `Symbol.for` symbol); otherwise it is a fresh arena with one slot per value, each reference indexed at its own slot when the values are unique, rooted at the first value |
| MemView.MemoryView.RefIndex | src/mem-view.ts:46-48 | a primitive has no index; an index found is a slot holding that value; a reference not found is in no slot |
| MemView.MemoryView.Register | src/mem-view.ts:36-44 | a known identity keeps its index and nothing changes; a new identity that cannot be held weakly is the `TypeError` (`refs.has` is false and `refs.set` throws) and nothing changes; any other new one is appended at index = old length and registered there |
| MemView.MemoryView.RegisterAll | src/mem-view.ts:63 | the loop of `items` registers each walked value in turn and stops at the first that throws, keeping what it registered before |
| MemView.MemoryView.Items | src/mem-view.ts:61-66 | `items()` throws exactly when the walk meets an unregistered identity that cannot be held weakly, keeping the registrations made before it; otherwise old slots keep their indices, the new slots are the walk's unregistered values in walk order, everything reachable from the root is registered, and one item is returned per slot, in index order |
| MemView.RegisterEachFacts | src/mem-view.ts:61-66 | registering a walk without repeats keeps the arena consistent and keeps old indices; it completes exactly when every walked identity is registered or can be held weakly, and then it registers exactly the walked identities and appends the new ones in order |
| MemView.RegisterOneValid | src/mem-view.ts:37-41 | appending one new identity at the end keeps the arena consistent |
| MemView.RegisterEachValid | src/mem-view.ts:63 | registration keeps every registered identity at its own slot |
| MemView.RegisterEachOk | src/mem-view.ts:37-40 | the registration loop completes exactly when every walked identity is registered already or can be held weakly |
| MemView.RegisterEachSlots | src/mem-view.ts:63 | a registration that completes appends exactly the walk's unregistered identities, in walk order |
| MemView.RegisterEachKeys | src/mem-view.ts:63 | registration never re-indexes an identity and registers exactly the walked ones |
| MemView.RegisterEachIndexed | src/mem-view.ts:63 | every reference slot sits at the index registered for it, before and after registration |
| MemView.RegisterEachFrom | src/mem-view.ts:63 | registration, complete or not, adds only references to walked identities |
| MemView.UnregisteredFrom | src/mem-view.ts:37 | the appended slots are references to walked identities that were not registered before |
| Handles.DeflateFn | src/rpc-context.ts:124-137 | simple functions travel as `=source` before any other check; a proxy sent back to its origin travels as `>id` with nothing registered; any other function gets `<id[:name]`, a new function getting `hex(serviceCounter)`, recorded both ways, with the counter incremented |
| Handles.RegisterValid | src/rpc-context.ts:130-134 | registration keeps `services` and `srvIdMap` inverse, makes every id a fresh hex numeral, and never moves an existing entry |
| Handles.DeflateFnValid | src/rpc-context.ts:124-137 | `deflateFn` keeps the registry consistent |
| Handles.DeflateFnGrows | src/rpc-context.ts:124-137 | `deflateFn` only adds to the registry, and a local function is registered afterwards |
| Handles.DeflateFnIdempotent | src/rpc-context.ts:130-136 | encoding the same function again gives the same string and registers nothing more; its id names that function |
| Handles.DistinctIds | src/rpc-context.ts:130-134 | two different functions never share an id |
| Handles.Split | src/rpc-context.ts:243 | `split(":")` always gives at least one piece |
| Handles.SplitJoin | src/rpc-context.ts:243 | splitting loses nothing: the pieces rejoined with `:` are the string, and no piece holds a colon |
| Handles.SplitAtColon | src/rpc-context.ts:243 | splitting `x:y` with a colon-free `x` gives `x` followed by the pieces of `y` |
| Handles.RemoteHandleDecodes | src/rpc-context.ts:242-251 | a remote handle decodes to a proxy for the id it names, carrying the function's name up to its first colon, or the default name |
| Handles.HexHasNoColon | src/rpc-context.ts:131 | a service id never contains a colon, so a handle splits back into its id |
| Handles.Reflection | src/rpc-context.ts:126-129 | a proxy sent back over its own channel registers nothing and decodes, at home, to the very service it stands for |
| Handles.HandleRoundTrip | src/rpc-context.ts:130-136 | a local function's handle decodes, on the other side, to a proxy tagged with the id under which the function is registered |
| Revive.ResolveEscaped | src/revive.ts:12 | `ref("#s") == s` |
| Revive.ResolveBackRef | src/revive.ts:13 | `ref("*" + hex(k))` is view slot `k`, or `undefined` past the end |
| Revive.ResolveOther | src/revive.ts:15 | a non-string slug resolves to itself |
| Revive.Assign | src/revive.ts:26 | `obj[k] = v`: `k` holds `v`, other keys are unchanged, an existing key keeps its position, a new array-index key goes before the string keys in ascending numeric order and a new string key goes last, and keys stay distinct |
| Revive.AssignEachFacts | src/revive.ts:24-27 | after the assignment loop every key holds the value written to it last, or its old value; no key appears twice; the own-key order (array indices ascending, then insertion order) is kept |
| Revive.AssignEachKeepsOrder | src/revive.ts:24-27 | re-assigning keys that are already present keeps the key order |
| Revive.AssignEachFresh | src/revive.ts:24-27 | assigning distinct keys, already in own-key order, to an empty object lists them in that order |
| Revive.KeepKeys | src/revive.ts:28 | deletion leaves exactly the kept keys that were present, and deletes nothing when all keys are kept |
| Revive.KeepKeysGet | src/revive.ts:28 | after deleting, a kept key reads as before and a deleted key reads as absent |
| Revive.KeepKeysOrder | src/revive.ts:28 | deleting keys keeps the remaining keys in own-key order |
| Revive.GenericReviveFacts | src/revive.ts:20-30 | after a `Generic` revive the own keys are exactly the data's keys, each holding `ref` of its last slug; every stale key is deleted; own-key order is kept |
| Revive.GenericReviveIdempotent | src/revive.ts:22-29 | running the same `Generic` revive twice leaves the subject as the first run left it |
| Revive.GenericReviveFresh | src/revive.ts:20-29 | reviving the default `{}` from duplicate-free data in own-key order gives exactly the resolved pairs, in that order |
| Revive.AssignIndexKeyFirst | src/revive.ts:26 | a concrete case of own-key order: assigning `"5"` to `{a}` lists `"5"` before `"a"` |
| Revive.DeleteKeys | src/revive.ts:28 | the deletion loop removes exactly the given keys |
| Revive.ReviveGeneric | src/revive.ts:22-29 | the loop over the data, followed by the deletion of the stale keys, computes the `Generic` revive |
| Revive.ArrayRevive | src/revive.ts:37-47 | index `i < data.length` holds `ref(data[i])`, every other index is deleted, and `length` grows to fit but is never reduced |
| Revive.ArrayReviveIdempotent | src/revive.ts:39-46 | running the same `Array` revive twice leaves the array as the first run left it |
| Revive.ReviveArray | src/revive.ts:39-46 | the index loop (which extends `length` past the end), followed by deletion, computes the `Array` revive |
| Revive.MapReviveFacts | src/revive.ts:49-55 | after `clear` and the `set` loop the keys are the resolved keys, a later duplicate overwrites an earlier one, and insertion order is kept |
| Revive.ReviveMap | src/revive.ts:51-54 | the loop computes the `Map` revive, whatever the map held before |
| Revive.Add | src/revive.ts:61 | `set.add(v)` adds `v` once and keeps the elements distinct |
| Revive.AddEachFacts | src/revive.ts:61 | adding each value to an empty set holds each value once, in first-insertion order |
| Revive.SetReviveFacts | src/revive.ts:57-63 | after `clear` and the `add` loop the elements are exactly the resolved slugs, each once |
| Revive.ReviveSet | src/revive.ts:59-62 | the loop computes the `Set` revive, whatever the set held before |
| Inflate.SymbolFor | src/inflate.ts:24 | `Symbol.for(name)` returns the registered symbol of that name, or registers a new one |
| Inflate.SymbolForShared | src/inflate.ts:24 | asking again for the same name gives the same symbol, and nothing more is allocated |
| Inflate.InflateMagic | src/inflate.ts:16-38 | tag dispatch: `<>=` go to the function decoder and `@` to `Symbol.for`; `$` gives a fresh symbol; `AOMS` give a shell of their kind; any other tag is the `TypeError`; a non-nullish override always wins |
| Inflate.InflateFnMagic | src/inflate.ts:19-22 | the function decoder runs only without an override; its errors are its own |
| Inflate.PrimSlugs | src/revive.ts:41 | the slug list of an array or set decodes exactly when all its items are primitives |
| Inflate.PairSlugs | src/revive.ts:53 | the entries of a map element decode exactly when each one is a pair of primitives |
| Inflate.EntrySlugs | src/revive.ts:24 | the own entries of a function decode exactly when each is a key string and a primitive slug |
| Inflate.FieldSlugs | src/inflate.ts:65 | `Object.entries` of a wire record decodes exactly when every value is a primitive slug |
| Inflate.Element | src/inflate.ts:51-73 | one first-pass step only allocates, a non-nullish override is returned as is, and the callback it registers is for the value it returns |
| Inflate.Pass1 | src/inflate.ts:51-73 | one value and one callback slot per element; a non-nullish override is slot `i`; each callback's subject is its slot's value |
| Inflate.ReviveNode | src/revive.ts:18-64 | a callback fills records and functions (`Generic`), arrays, maps or sets, and nothing else |
| Inflate.ApplyJobs | src/inflate.ts:75 | the second pass allocates nothing and fails only with `Mismatch` |
| Inflate.ApplyJobsDistinct | src/inflate.ts:75 | with distinct subjects the second pass succeeds; each subject ends as its own callback leaves it and every other object is untouched, whatever the order |
| Inflate.ApplyJobsFrame | src/inflate.ts:75 | objects that are no callback's subject are untouched by the second pass |
| Inflate.ApplyJobsRevived | src/inflate.ts:75 | each subject ends as its own callback leaves it |
| Inflate.InflateSpec | src/inflate.ts:47-77 | the view has one value per input element and the heap only grows; without an override arena, `new MemoryView(...view)` throws the `TypeError` exactly when the view holds a value that cannot be held weakly |
| Inflate.Pass1Stops | src/inflate.ts:51-73 | an element that throws ends the first pass with its error |
| Inflate.ApplyJobsStops | src/inflate.ts:75 | a callback that fails fails the second pass |
| Inflate.InflateUndefined | src/inflate.ts:48-77 | `inflate(undefined)` leaves the heap unchanged and gives the view `[undefined]` |
| Inflate.Pass1Reflected | src/rpc-context.ts:269-272 | the first pass over `[">" + id]` gives back the live service `id`, allocates nothing and schedules no callback |
| Inflate.InflateReflected | src/inflate.ts:47-77 | a list holding one back-reference to a registered service inflates to that very function, with the heap unchanged |
| Inflate.InflatePass1 | src/inflate.ts:51-73 | the `argv.map` loop, pushing callbacks as it goes, computes `Pass1` |
| Inflate.ReviveJob | src/inflate.ts:75 | one callback, running the revive loops on its subject, computes `ApplyJob` |
| Inflate.RevivePass | src/inflate.ts:75 | `callbacks.forEach` computes `ApplyJobs` |
| Inflate.InflateArena | src/inflate.ts:47-75 | both passes compute `InflateSpec` |
| Inflate.InflateView | src/inflate.ts:47-77 | with an override arena the same arena is returned; without one, a new arena holds the view, rooted at its first value, unless the view holds a value that cannot be held weakly and the arena throws |
| Deflate.ChildSlugs | src/deflate.ts:12-16 | the child handler succeeds on a list exactly when every object in it is registered |
| Deflate.DeflateItem | src/deflate.ts:43-62 | one slot fails exactly when one of its children is not registered; only a function slot changes the registry, through `deflateFn` |
| Deflate.ChildrenOfItem | src/deflate.ts:47-51 | the children `deflate` writes for an array or a map are those the walker visits |
| Deflate.DeflateSlots | src/deflate.ts:37-65 | one element per slot, in slot order; `deflate` succeeds exactly when every child of every slot is registered |
| Deflate.DeflateArena | src/deflate.ts:43-64 | the loop over the items computes `DeflateSlots` |
| Deflate.DeflateView | src/deflate.ts:37-65 | `items()` registers what is reachable from the root, keeping old indices; if it throws, `deflate` throws the same `TypeError`; otherwise everything reachable is registered and the slots are deflated |
| Deflate.ReachableArenaRegistered | src/deflate.ts:28-30 | the `ReferenceError` cannot happen after `items()` when every object slot is reachable from the root |
| Deflate.DeflateNew | src/rpc-context.ts:139-145 | a new arena for `x` throws exactly when something reachable from `x` cannot be held weakly; otherwise it has `x` in slot 0 and the walk's objects after it, each at its own index, and deflating it succeeds |
| Deflate.InternedNotSerializable | src/mem-view.ts:25 | a `Symbol.for` symbol cannot be serialized |
| Deflate.DeflateSlotsRegistry | src/deflate.ts:57-58 | deflating an arena keeps the registry consistent, only adds to it, and registers every local function in it |
| Deflate.DeflateItemStable | src/deflate.ts:57-61 | a slot's element does not change when the registry grows after the slot's function was registered |
| Deflate.DeflateItemAgain | src/deflate.ts:57-61 | deflating a slot again against the registry it produced gives the same element |
| Deflate.DeflateSlotsAt | src/deflate.ts:43-64 | element `i` of the output is what slot `i` deflates to against the final registry |
| RoundTrip.SlugResolves | src/revive.ts:10-16 | `ref` of the slug written for a child is the receiver's image of that child |
| RoundTrip.ElementRecord | src/inflate.ts:63-66 | a record travels as a wire record and lands in a new `{}` with its fill callback |
| RoundTrip.DeflateSymbolWire | src/deflate.ts:18-22 | a symbol travels as `@name` when interned and as `$name` otherwise |
| RoundTrip.SymbolWireLands | src/inflate.ts:23-26 | `@name` lands as the registered symbol of that name and `$name` as a new one, with no callback |
| RoundTrip.ElementSymbol | src/inflate.ts:68-70 | a symbol slot lands as the same kind of symbol of the same name |
| RoundTrip.MagicListElement | src/inflate.ts:53-58 | a tagged list for an array, map or set lands in a new default shell with the callback its data decodes to |
| RoundTrip.DeflateArrayWire | src/deflate.ts:48-49 | an empty array travels as `[]`, any other as `["A", ...slugs]` |
| RoundTrip.ArraySlugs | src/deflate.ts:49 | an array's slugs are one per index below `length`, holes as `undefined` |
| RoundTrip.ArrayWireLands | src/inflate.ts:53-58 | `["A", ...slugs]` lands in a new `[]` with the callback that refills it |
| RoundTrip.EmptyArrayLands | src/inflate.ts:59-61 | `[]` is not tag-dispatched and lands in a new `[]` |
| RoundTrip.ElementArray | src/inflate.ts:53-61 | an array slot lands in a new `[]` with its fill callback |
| RoundTrip.PairsDecode | src/deflate.ts:51 | the `[k, v]` entries written for a map decode to the slugs of its keys and values |
| RoundTrip.DeflateMapWire | src/deflate.ts:50-51 | a map travels as `["M", [k, v]...]` in insertion order |
| RoundTrip.MapWireLands | src/inflate.ts:53-58 | `["M", ...]` lands in a new `Map` with the callback that refills it |
| RoundTrip.ElementMap | src/inflate.ts:53-58 | a map slot lands in a new `Map` with its fill callback |
| RoundTrip.DeflateSetWire | src/deflate.ts:52 | a set travels as `["S", ...slugs]` |
| RoundTrip.SetWireLands | src/inflate.ts:53-58 | `["S", ...]` lands in a new `Set` with the callback that refills it |
| RoundTrip.ElementSet | src/inflate.ts:53-58 | a set slot lands in a new `Set` with its fill callback |
| RoundTrip.FnMagicDecodes | src/rpc-context.ts:263-278 | a simple function's `=source` and a local function's `<id[:name]` decode to the function shell the receiver should hold |
| RoundTrip.ElementFunc | src/deflate.ts:57-61 | a function travels as its magic string, or as `[magic, [k, slug]...]` when it has own entries, and lands as the decoded function |
| RoundTrip.ElementPrim | src/deflate.ts:44-45 | a primitive slot travels escaped or as itself and comes back unchanged, with no callback |
| RoundTrip.ElementOfSlot | src/inflate.ts:51-73 | every sendable object slot lands in its shell with the callback that refills it |
| RoundTrip.ResolveSlugFields | src/revive.ts:22-29 | resolving a record's slugs into `{}` gives its entries with the images of their values |
| RoundTrip.ReviveRecord | src/revive.ts:20-30 | a record shell, once filled, is the record's image |
| RoundTrip.ReviveFunc | src/revive.ts:20-30 | a function shell, once filled, carries the images of the function's own entries |
| RoundTrip.ReviveArrayShell | src/revive.ts:37-47 | an array shell, once filled, is the array's image, `length` included |
| RoundTrip.ReviveMapShell | src/revive.ts:49-55 | a map shell, once filled, is the map's image, in entry order |
| RoundTrip.ReviveSetShell | src/revive.ts:57-63 | a set shell, once filled, is the set's image, in insertion order |
| RoundTrip.ReviveShell | src/revive.ts:18-64 | every shell, once its callback has run (if it has one), is the image of the sender's object |
| RoundTrip.LandedPrim | src/inflate.ts:72 | a primitive slot adds itself and no callback |
| RoundTrip.LandedRef | src/inflate.ts:51-73 | an object slot adds a shell that no other slot shares, even for an interned symbol |
| RoundTrip.Pass1Lands | src/inflate.ts:51-73 | the first pass over a deflated arena succeeds: every object slot has its own shell and callback, and all shells exist before any callback runs |
| RoundTrip.Pass1Fresh | src/inflate.ts:51-73 | with no `Symbol.for` symbol among the slots, the first pass puts every object slot on a shell past the end of the heap it started from |
| RoundTrip.ArenaNew | src/inflate.ts:51-77 | the second pass writes only the new shells, so after both passes the receiver's earlier heap is unchanged and every object slot is past its end |
| RoundTrip.LandedInjective | src/inflate.ts:51-73 | after the first pass, different identities have different shells |
| RoundTrip.ShellsRevive | src/inflate.ts:75 | each object slot's shell, filled by its callback against the whole view, is its image; forward references and self-references included |
| RoundTrip.ApplyLanded | src/inflate.ts:75 | the second pass over a landed arena succeeds and leaves every object slot holding its image |
| RoundTrip.ReceivedHeldWeakly | src/inflate.ts:77 | the copy of an arena whose values can be held weakly can be held weakly too, so the receiving arena does not throw |
| RoundTrip.InflateDeflated | src/inflate.ts:47-77 | inflating a deflated arena with no `Symbol.for` symbol in it rebuilds the sender's graph slot by slot, as distinct objects, with shared children shared and cycles kept; every object of the copy is new (`NewObjects`: the receiver's earlier heap is untouched and each object slot lands past its end) |
| RoundTrip.DeflateInflate | src/deflate.ts:37-65 | a consistent arena with no `Symbol.for` symbol and no proxy sent back to its origin deflates without error and inflates, on the other side, to an isomorphic copy, with local functions replaced by proxies for their registered ids; the copy is made of new objects and leaves the receiver's earlier heap untouched |
| Rpc.StaleHandleAfterReset | src/rpc-context.ts:130-136 | after that reset, a function seen before is sent with its old id, which names no service, and the registry is no longer consistent |
| Rpc.StaleHandleExample | src/rpc-context.ts:100-105 | a concrete case: function 7 is sent as `<0` both before and after the reset, with no service `0` after it |
| Rpc.HandleLiveAfterReset | src/rpc-context.ts:130-136 | after the corrected reset the registry is consistent, and a function sent again gets a fresh id that a request can reach |
| Rpc.SymbolNotDeserialized | src/rpc-context.ts:284 | a symbol root, interned or not, cannot be deserialized as written |
| Rpc.Attach | src/util.ts:42-52 | defining the memory view changes only the root, and only its `viewed` marker when it is a function; no walk sees the change |
| Rpc.AttachAsWritten | src/util.ts:42-52 | `define` as written throws exactly on a symbol root and on a function that already carries a view (the property is a non-configurable accessor); otherwise it attaches |
| Rpc.CarriesView | src/rpc-context.ts:283-286 | corrected: the arena is attached exactly to object and function roots; wherever the attach as written does not throw, the two agree |
| Rpc.AttachTwice | src/rpc-context.ts:284 | corrected: attaching a second time is the same as attaching once |
| Rpc.DeserializeAsWritten | src/rpc-context.ts:280-287 | as written, `deserialize` agrees with the corrected one whenever it returns, and fails only when inflate fails or `define` throws |
| Rpc.ReflectedTwiceAsWritten | src/rpc-context.ts:268-272 | as written, a service function reflected back twice deserializes the first time, with its marker set, and the second time throws the `TypeError` of redefining the property |
| Rpc.ReflectedResultResolves | src/rpc-context.ts:319-320 | corrected: a response whose value is a reflected service function resolves the promise with that function, whether or not it already carries a view |
| Rpc.ResponseSpec | src/rpc-context.ts:312-323 | the carrybacks run first and a throw in them stops the handler; a present error rejects with the raw error; otherwise the value is deserialized, with the corrected attach, and the promise resolves |
| Rpc.ThrownRegistrySymbolResolves | src/rpc-context.ts:188-195 | a service that throws a `Symbol.for` symbol makes the error field absent, and the caller's promise then resolves with `undefined` instead of rejecting |
| Rpc.CarryBackOntoSender | src/rpc-context.ts:313-317 | after a carryback onto live objects, the inflated view is the caller's own arena |
| Rpc.ResolvedWithCopy | src/rpc-context.ts:319-320 | a successful response whose result holds no `Symbol.for` symbol and no reflected proxy resolves the promise with the root of an isomorphic copy of the remote result, made of new objects, with the receiver's earlier heap untouched |
| Rpc.NextCaller | src/rpc-context.ts:230-231 | the next correlation id is not pending, and ids stay below the incremented counter |
| Rpc.RPCContext.constructor | src/rpc-context.ts:66-75 | the default options, each replaced by an own key of the options given, an explicit `undefined` included; nothing bound, registered or pending |
| Rpc.AssignOptionsTwice | src/rpc-context.ts:74 | assigning the same options again changes nothing |
| Rpc.UndefinedCarryThis | src/rpc-context.ts:207-213 | with `{carryThis: undefined}` every receiver is dropped, and the other flags keep their defaults |
| Rpc.UndefinedCarrySideEffect | src/rpc-context.ts:226 | with `{carrySideEffect: undefined}` side effects are not carried, and the other flags keep their defaults |
| Rpc.RPCContext.Bind | src/rpc-context.ts:79-98 | the counterpart and its listener are appended; with none bound before, it becomes the implicit counterpart |
| Rpc.RPCContext.Reset | src/rpc-context.ts:100-105 | registry and pending requests cleared (corrected registry reset); counterparts dropped; each listener detaches its counterpart, front first; nothing is settled |
| Rpc.RPCContext.GetCounterpart | src/rpc-context.ts:107-117 | an explicit counterpart is used as is; otherwise exactly one must be bound, and zero or several is the error naming the count |
| Rpc.RPCContext.NormalizeThis | src/rpc-context.ts:207-213 | `thisArg` is dropped iff it is the context itself, `carryThis` is falsy, or it is `global` and `carryGlobalThis` is falsy; otherwise it is unchanged |
| Rpc.RPCContext.Serialize | src/rpc-context.ts:139-145 | `serialize` throws the `TypeError` exactly when the value reaches something that cannot be held weakly, and then registers nothing; otherwise a new arena for the value is deflated towards the target, the registry only grows, and the rest of the context is unchanged |
| Rpc.RPCContext.SerializeCaught | src/rpc-context.ts:184 | `serialize(x).catch(console.error)` gives an absent field and no arena exactly when `serialize` throws; otherwise the deflated list and its arena |
| Rpc.RPCContext.Deserialize | src/rpc-context.ts:280-287 | the counterpart is chosen first; the heap and the result are `DeserializeSpec`'s (the corrected attach sets a function root's marker), and the result comes with a new arena of the inflated view exactly when it carries one |
| Rpc.RPCContext.InitiateRequest | src/rpc-context.ts:215-240 | the receiver is normalized and serialized with no counterpart and the arguments towards `cp`, each field absent and its arena missing exactly when that serialization throws; the id `hex(reqCounter++)` was not pending and is stored (with the arenas when side effects are carried) before the request is posted |
| Rpc.RPCContext.Enqueue | src/rpc-context.ts:230-231 | the next correlation id, not pending before, is pending now, and the counter is incremented |
| Rpc.RPCContext.SerializeRequest | src/rpc-context.ts:223-225 | the two caught serializations of a request, threading the registry; a field is absent exactly when its value cannot be serialized |
| Rpc.RPCContext.HandleRequest | src/rpc-context.ts:147-180 | an unknown service gets the not-found response; otherwise receiver and arguments are deserialized (a failure posts nothing) and the call is set up, with separate arenas when side effects are carried |
| Rpc.RPCContext.CompleteRequest | src/rpc-context.ts:180-196 | the result, or the error, is serialized towards the caller, and the field is absent exactly when that throws; then the argument and receiver arenas are deflated again (absent when `items` or `deflate` throws); and exactly one response is posted |
| Rpc.RPCContext.DeflateAgain | src/rpc-context.ts:185-186 | an arena that is present is deflated again (its walk now registers what the service attached); an absent arena, or a walk that meets something that cannot be held weakly, gives an absent field and leaves the registry alone |
| Rpc.RPCContext.CarryBackInto | src/rpc-context.ts:313-317 | one carryback computes `CarryBack` |
| Rpc.RPCContext.HandleResponse | src/rpc-context.ts:289-325 | a response for no pending request is ignored; otherwise the carrybacks run and the outcome is recorded, and the request stops being pending; a throw leaves it pending, and the deserialize of the value uses the corrected attach |
| Rpc.RPCContext.Record | src/rpc-context.ts:319-324 | settling records the outcome and removes the pending entry; a throw changes nothing |
| Rpc.RPCContext.Settlement | src/rpc-context.ts:312-323 | the carrybacks and the settlement compute `ResponseSpec` |

## Definitions

These functions define the model's vocabulary. Their contracts spell out
their own cases, so the properties they take part in are stated by the
members named here.

- `Model.FieldValues`, `Model.FieldKeys`: the values and the keys of an entry list, in order (`Object.values`, a Map's `keys()`).
- `Wire.AsString`: `typeof v === "string"` on a wire element.
- `Handles.NameSuffix`, `Handles.CreateProxyFn`, `Handles.InflateFn`: the `:name` suffix, `createProxyFn` and `inflateFn`. What travels through them is stated by `Handles.RemoteHandleDecodes`, `Handles.Reflection`, `Handles.HandleRoundTrip` and `RoundTrip.FnMagicDecodes`.
- `Inflate.Override`, `Inflate.OrElse`, `Inflate.DefaultShell`, `Inflate.Shell`, `Inflate.MakeJob`, `Inflate.ApplyJob`, `Inflate.Elements`: `mx?.[i]?.deref()`, `o ?? v`, the default subjects, a rule's subject, a fill callback, one callback run, and the arena of an input. Their use is stated by `Inflate.Element`, `Inflate.Pass1`, `Inflate.ApplyJobsDistinct` and `RoundTrip.ElementOfSlot`.
- `Deflate.ChildSlug`, `Deflate.ArrayItems`: the child handler and array iteration. What they produce is stated by `RoundTrip.SlugResolves` and `RoundTrip.ArraySlugs`.
- `Rpc.AssignOptions`, `Rpc.NotFoundResponse`: `Object.assign` of the options and the not-found response, used by `Rpc.RPCContext.constructor` and `Rpc.RPCContext.HandleRequest`. What the options then do is stated by `Rpc.UndefinedCarryThis` and `Rpc.UndefinedCarrySideEffect`.
- `Rpc.IsTruthy`: how a flag is read.
- `Rpc.ResetAsWritten`, `Rpc.ResetRegistry`: the registry after `reset` as written and as corrected, whose consequences are `Rpc.StaleHandleAfterReset` and `Rpc.HandleLiveAfterReset`.
- `Rpc.RootOf`, `Rpc.CarryBack`, `Rpc.DeserializeSpec`, `Rpc.DeflateEcho`: `mx.value`, one carryback, `deserialize` and `deflate(...).catch(console.error)` on values, used by `Rpc.ResponseSpec`, `Rpc.RPCContext.Deserialize` and `Rpc.RPCContext.CompleteRequest`.

## Left out

- Transport and events:
  - the channel, `postMessage` and the `message`/`close` handlers are not modelled;
  - posting appends to `outbox`;
  - a listener is recorded by its counterpart, and detaching it appends to `detached`;
  - dispatch of incoming payloads by their type key is not modelled.
- Promises and `await`:
  - `deferPromise` and the async handlers run synchronously;
  - resolving or rejecting a promise appends to `settled`;
  - promises anywhere in the graph are not modelled. `$traverse` awaits every value it visits (src/util.ts:62-63), so the arena holds what a nested promise settles to, not the promise. The parent still holds the promise itself, which has no id in the arena, so the source's `deflate` throws `ReferenceError` (src/deflate.ts:27-30).
- Garbage collection: `WeakMap` and `WeakRef` hold their keys strongly, and nothing is ever freed. Only their refusal of a key that cannot be held weakly is modelled.
- `define` and `Object.defineProperty`:
  - the simple and proxy markers are fields of a function node;
  - the memory view that `deserialize` defines on a function root is recorded by the function's `viewed` marker. An object root of `deserialize` other than a function is always a shell that the same `inflate` allocated, so no later `define` can meet it, and no marker is kept for it;
  - the memory-view property that `serialize` and `deserialize` attach is returned alongside the value.
- `markSimpleFn` only sets the `simple` field. It is not a separate operation. Its `define` throws the same `TypeError` when a function is marked twice, and that is not modelled.
- Code as data:
  - `fn.toString()` is the function's stored `source`;
  - compiling `=source` gives a new simple function with that source;
  - the function's name would come from evaluating its source, so the model leaves the name empty;
  - the proxy's `toString` is a fixed string.
- Numbers are integers that only pass through. NaN, `-0` and fractions are not modelled.
- `parseInt` is modelled only as far as `*`-references need: the longest hex-digit prefix. Leading whitespace, signs and `0x` are not modelled.
- Exact JavaScript error messages:
  - `Wire.Error.Thrown` gives each error's class and message;
  - the `ReferenceError` raised by `deflate` omits the stringified item.
- Wire shapes that `deflate` never emits are reported as `Malformed`. Examples are a list at a child position and a map entry that is not a pair. JavaScript would store such raw values.
- An override arena whose slot kind does not fit the incoming element is reported as `Mismatch`. JavaScript would misbehave or write stray properties.
- `inflate` and `deflate` errors return no partial heap or registry:
  - JavaScript keeps the shells allocated before a throw;
  - it keeps functions registered before a failing slot.
- Catch-and-log paths (`console.error`) are modelled only by their effect: an absent field, or nothing posted.
- The user's service runs outside the model:
  - `HandleRequest` stops at the call;
  - `CompleteRequest` takes the heap the service left and its result or thrown value as parameters.
- Util.TraverseYieldsReachable: only the first root's position in the walk is stated. That each value is yielded before its children is not stated.
- RoundTrip.DeflateInflate: requires that no function slot is a proxy going back to its origin. Such a proxy travels as `>id` and decodes, at home, to the service itself (tests/02.reflect.test.js). That case is proved for one function by `Handles.Reflection`, not for an arena that contains one.
- RoundTrip.InflateDeflated: requires every function slot to be simple or local (the `Sendable` predicate), so a reflected proxy is outside it for the same reason.
- Rpc.RPCContext.Deserialize, Rpc.DeserializeSpec, Rpc.ResponseSpec, Rpc.RPCContext.HandleResponse, Rpc.RPCContext.HandleRequest: use the corrected attach of the third Findings row. As written, a root that already carries a memory view (a reflected service function deserialized before) makes `deserialize` throw: `Rpc.DeserializeAsWritten` and `Rpc.ReflectedTwiceAsWritten` state that, and through `handleResponse` the request then stays pending.
- Rpc.ResolvedWithCopy: requires `RoundTrip.NoReflection`, so a result that contains a reflected proxy is outside it for the same reason.
- Array named properties: an array node holds only its indices and `length`. `deflate` sends only the indices of an array (src/deflate.ts:49), and the `Array` revive deletes every other own key of the receiving array (src/revive.ts:39-45). The loss of named properties on a carried-back array is therefore not modelled.
- Own-key order covers string keys only. Array-index keys come first in ascending order, then the other keys in insertion order. Symbol-keyed properties are not modelled.
- Symbols are only interned through `Symbol.for`; the process-wide registry is found by searching the heap. A description-less symbol is not modelled.

## Findings

| source | as written | input that shows it | evidently intended | confidence | as-written member | corrected member |
|---|---|---|---|---|---|---|
| src/rpc-context.ts:100-105 | `reset` clears `services` but not `srvIdMap` (line 101), so `deflateFn` (lines 130-136) sends an id that is no longer registered | function 7 is sent as `<0`; after `reset` it is sent again as `<0`, and a request for `0` is answered "RPC handler not found: 0" | `reset` forgets both directions of the registry, so a function sent after a reset is registered again under a fresh id | not executed | Rpc.StaleHandleAfterReset | Rpc.HandleLiveAfterReset |
| src/rpc-context.ts:283-286 | `deserialize` calls `define` (`Object.defineProperty`) on every non-primitive root, symbols included, which throws `TypeError` | a `Symbol()` symbol sent as an argument list element is fine, but one sent as the receiver or as a return value makes `deserialize` throw | the memory view is attached only to objects and functions, and a symbol root is returned bare | not executed | Rpc.SymbolNotDeserialized | Rpc.CarriesView |
| src/util.ts:42-52 | `define` makes a non-configurable accessor, so the second `deserialize` whose root is the same object throws `TypeError` inside `handleResponse`, before `resolve` and `requests.delete` (src/rpc-context.ts:319-324) | A sends its function `f`; B registers it and its service `cb => cb` is called twice with `f`. Each result is `[">0"]`, which A decodes to the live `f` (src/rpc-context.ts:269-272). The first call resolves, and the second promise never settles | the memory view of the new result replaces the old one, so every such call resolves with `f` | not executed | Rpc.ReflectedTwiceAsWritten | Rpc.ReflectedResultResolves |
