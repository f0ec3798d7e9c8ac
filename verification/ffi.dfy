/**
 * The foreign-function boundary the binding cache sits on: the value kinds of
 * a native signature, the symbols a loader hands back, and the loader itself.
 *
 * The native loader (`dlopen` of the FFI runtime) is not code of this system.
 * It is modelled as a pure oracle over a `Library` value that describes the
 * host at the moment of the call: whether the shared library can be opened at
 * all, and which exports it has at which entry address.
 */
module Ffi {

  /** The native calling-convention kinds the symbol table uses. */
  datatype TypeKind = Ptr | U8 | U32 | I32 | F32 | F64 | Void

  /** An ordered list of argument kinds and one return kind. */
  datatype Signature = Signature(args: seq<TypeKind>, result: TypeKind)

  type Name = string

  /**
   * A bound native entry point: the export it was looked up under, the
   * signature it was bound with, and the entry address the loader found.
   */
  datatype Sym = Sym(name: Name, signature: Signature, address: nat)

  datatype LoadError =
    | NoSymbols                                // the loader refuses a request naming no symbol
    | LibraryNotFound                          // the shared library cannot be opened
    | SymbolsNotFound(missing: set<Name>)      // requested names the library does not export

  datatype Option<T> = None | Some(value: T)

  datatype Result<T> = Ok(value: T) | Err(error: LoadError)

  /**
   * The host as seen by one call of the loader: whether the shared library can
   * be opened, which exports it has at which entry address, and whether the
   * loader accepts a request that names no symbol at all.
   */
  datatype Library = Library(present: bool, exports: map<Name, nat>, acceptsEmpty: bool)

  /**
   * The loader: open the library and bind every requested name with the
   * signature it is requested with. It succeeds exactly when the request is
   * acceptable (non-empty, or the loader takes empty ones), the library opens
   * and it exports every requested name. It then returns one symbol per
   * requested name and nothing else, and each symbol depends only on its own
   * name, its own signature and the library, never on the rest of the batch.
   * Which error a failure reports is left unspecified.
   */
  function Dlopen(lib: Library, request: map<Name, Signature>): (r: Result<map<Name, Sym>>)
    ensures r.Ok? <==> (request != map[] || lib.acceptsEmpty) && lib.present && request.Keys <= lib.exports.Keys
    ensures r.Ok? ==> r.value.Keys == request.Keys
    ensures r.Ok? ==> forall n :: n in r.value ==> r.value[n] == Sym(n, request[n], lib.exports[n])
  {
    if request == map[] && !lib.acceptsEmpty then
      Err(NoSymbols)
    else if !lib.present then
      Err(LibraryNotFound)
    else if !(request.Keys <= lib.exports.Keys) then
      Err(SymbolsNotFound(request.Keys - lib.exports.Keys))
    else
      Ok(map n | n in request :: Sym(n, request[n], lib.exports[n]))
  }
}
