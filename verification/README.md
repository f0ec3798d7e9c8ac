# GLU32 lazy binding cache, modelled in Dafny

`GLU32` is a set of thin bindings to the 52 exports of `glu32.dll` for the
Bun FFI runtime. Its only logic is a lazy, memoizing binding cache:

- `Load(m)` answers an export that is already bound from the class itself;
  otherwise it calls the native loader `dlopen` with the one-entry request
  `{m: Symbols[m]}`, installs the returned symbol on the class for good, and
  returns it.
- `Preload(ms?)` takes the requested names (all declared names when `ms` is
  omitted), drops those already bound, calls `dlopen` once on the rest, and
  installs every returned symbol.
- `Symbols` is the declared table: for every export, its argument kinds in
  order and its return kind.

The model has four modules:

- `Ffi` (`ffi.dfy`): the value kinds (`ptr, u8, u32, i32, f32, f64, void`),
  signatures, bound symbols, load errors, and the loader. `dlopen` belongs to
  the runtime, not to this system. It is a stand-in `Dlopen` over a `Library`
  value, whose assumptions are listed under "Left out".
- `SymbolTable` (`symbols.dfy`): the `Symbols` table, entry for entry.
- `Binding` (`binding.dfy`): the cache as a value (`Cache`: the bindings, plus
  a log of every loader request), one step function per operation, and the
  lemmas that relate several calls. The table is a parameter here.
- `Glu32` (`glu32.dfy`): the class `GLU32`. Its constant `Symbols` is the
  table, as the class's static read-only member is in the code. Its `bound`
  map is the set of installed exports; its ghost `requests` field logs every
  loader call. Its methods `Load` and `Preload` mutate that state. Each is
  proved to take exactly one step of the matching `Binding` function.

The host library is a parameter of every call. A library that is missing at
one call may therefore be present at the next.

Three points of the code's behaviour shape the model:

- The code does not keep a library handle. Every unbound `Load` and every
  `Preload` calls `dlopen` again, so the model records one loader request per
  such call.
- A `Preload` calls `dlopen` even when every requested name is already bound,
  with an empty request. Whether that call succeeds is up to the loader, so
  the model leaves it to the `Library` parameter (`acceptsEmpty`, and whether
  the library opens). Either way such a `Preload` changes no binding.
- An undeclared name is ruled out only by the TypeScript parameter type
  (`keyof typeof GLU32.Symbols`). There is no runtime error for it, so the
  model makes "declared" a precondition.

## Model

| member | source | states |
|---|---|---|
| `Binding.Load` | structs/GLU32.ts:34-47 | a bound name is returned from the cache with no loader request and no state change; an unbound name costs exactly one request `{m: table[m]}`, succeeds exactly when the library opens and exports `m`, and then leaves `m` bound to the returned symbol; no existing binding is changed; at most `m` is added; a failure adds nothing; well-formedness of the bindings is kept |
| `Binding.Preload` | structs/GLU32.ts:57-69 | exactly one loader request, holding precisely the requested names not yet bound, each with its table signature; success exactly when the loader serves that batch (it opens the library, finds every name, and accepts the batch if it is empty), after which every requested name is bound; names outside the request keep their state; a failure binds nothing (all-or-nothing); no existing binding is changed |
| `Binding.RunLoads` | structs/GLU32.ts:34-47 | a run of `Load` calls never changes or removes a binding, keeps the bindings well formed, and only appends to the request log |
| `Binding.LoadTwice` | structs/GLU32.ts:35-46 | after a successful `Load(m)`, a second `Load(m)` returns the same symbol, changes nothing and makes no loader request, whatever the library is then |
| `Binding.LoadsRequestOnce` | structs/GLU32.ts:35-46 | in any run of `Load`s against a library exporting `m`, the loader is asked for `m` exactly once if `m` was unbound and is called for, and never if `m` was already bound |
| `Binding.LoadsRequestCount` | structs/GLU32.ts:35-46 | a successful run of `Load`s makes one loader request per distinct listed name that was unbound; `Preload` makes one request in all |
| `Binding.PreloadDefault` | structs/GLU32.ts:58 | `Preload` with no argument behaves exactly as `Preload` of a list of every declared name |
| `Binding.PreloadTwice` | structs/GLU32.ts:58-66 | repeating a successful `Preload` sends an empty request and leaves every binding unchanged |
| `Binding.PreloadBindsMissing` | structs/GLU32.ts:60-66 | against a library that exports every listed name, a `Preload` binds each listed, unbound name to the library's export for it and keeps every earlier binding; it succeeds unless nothing was left to bind and the loader refuses an empty request |
| `Binding.PreloadAgreesWithLoads` | structs/GLU32.ts:34-69 | when the library exports all the names, one `Preload` of them leaves exactly the bindings that calling `Load` on each in turn would; the `Preload` succeeds unless nothing was left to bind and the loader refuses an empty request |
| `Glu32.GLU32.constructor` | structs/GLU32.ts:24-130 | the class starts with its `Symbols` constant equal to the declared table, no export bound and no loader request made |
| `Glu32.GLU32.Load` | structs/GLU32.ts:34-47 | the method takes exactly one `Binding.Load` step on the class state: the cached symbol is returned when bound; otherwise one request `{m: Symbols[m]}` is made and the result installed; bindings are never replaced; every bound symbol carries its declared signature |
| `Glu32.GLU32.Preload` | structs/GLU32.ts:57-69 | the method takes exactly one `Binding.Preload` step on the class state: one request for the unbound requested names; on success they are all bound, on failure none |

## Left out

- The native functions of `glu32.dll` and the runtime's `dlopen` are foreign code. The loader is the stand-in `Ffi.Dlopen` over a `Library` parameter, and symbols are plain values (name, signature, address). What the model assumes of the loader: it succeeds exactly when the request is acceptable (non-empty, or `acceptsEmpty` holds), the library opens, and it exports every requested name; it then returns one symbol per requested name, bound under that name with its requested signature and independent of the rest of the batch. Which error a failure reports is not promised, and the loader's error messages are not modelled.
- Whether the runtime's `dlopen` accepts a request with no names is not settled by this model: the `acceptsEmpty` field of `Library` stands for the loader's answer. A `Preload` with nothing left to bind therefore fails or succeeds according to that field, and changes no binding either way.
- The 52 forwarding wrappers (`gluBeginCurve` … `gluUnProject`, structs/GLU32.ts:133-390) are not modelled. Each only calls `Load` with its own name and passes its arguments to the native function. The method `Glu32.Client` shows the calling pattern a wrapper relies on, for `gluUnProject`: the first call binds the export with its declared signature, and a second call is served from the cache with no new loader request.
- Property descriptors (`Object.defineProperty`, `configurable: false`) are modelled as membership in the `bound` map. `Load` and `Preload` never redefine a property they have made non-configurable. The installed properties stay writable, though, and an assignment from outside `Load` and `Preload` (such as `GLU32.gluSphere = f`) would replace what `Load` returns; such writes are not modelled.
- `Object.keys` order and the ordering of the request entries are not modelled. The request is a map, so order does not affect the result.
- Binding.LoadsRequestOnce, Binding.LoadsRequestCount and Binding.PreloadAgreesWithLoads: these hold for a run against one fixed library. A library that changes between the calls of a run is covered only by the single-call contracts.
- The type definitions in types/GLU32.ts are enum constants and pointer aliases with no behaviour. The example programs are console demos built on timing and C-string reads. Neither is part of this model.
- Concurrency is not modelled: the code is single-threaded JavaScript with no locking.
