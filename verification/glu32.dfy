/**
 * The `GLU32` binder: a lazy, memoizing cache of the glu32.dll exports.
 *
 * `bound` is the set of exports already installed on the class, each with the
 * symbol it was installed with; `Load` and `Preload` never replace or remove
 * an installed export. `requests` is ghost instrumentation: every request handed to the
 * native loader, in call order. The library is passed to each call because
 * the host may change between calls (a library installed after a failure).
 */
module Glu32 {
  import opened Ffi
  import SymbolTable
  import Binding

  class GLU32 {
    /** The declared exports and their signatures; fixed when the class is set up. */
    const Symbols: map<Name, Signature>
    var bound: map<Name, Sym>
    ghost var requests: seq<map<Name, Signature>>

    /** The cache as a value, for the `Binding` specification. */
    ghost function Cache(): Binding.Cache
      reads this
    {
      Binding.Cache(bound, requests)
    }

    /** Only declared exports are installed, each under its own name and declared signature. */
    ghost predicate Valid()
      reads this
    {
      Binding.WellBound(Symbols, bound)
    }

    constructor ()
      ensures Valid()
      ensures Symbols == SymbolTable.Symbols
      ensures bound == map[] && requests == []
    {
      Symbols := SymbolTable.Symbols;
      bound := map[];
      requests := [];
    }

    /**
     * Binds `m` on first use and answers every later call from the cache:
     * exactly one step of `Binding.Load`.
     */
    method Load(lib: Library, m: Name) returns (r: Result<Sym>)
      requires Valid() && m in Symbols
      modifies this
      ensures Valid()
      ensures Binding.Step(Cache(), r) == Binding.Load(Symbols, old(Cache()), lib, m)
      ensures Binding.Extends(old(bound), bound)
      ensures m in old(bound) ==> r == Ok(old(bound)[m]) && bound == old(bound) && requests == old(requests)
      ensures m !in old(bound) ==> requests == old(requests) + [map[m := Symbols[m]]]
      ensures r.Ok? ==> m in bound && bound[m] == r.value && r.value.signature == Symbols[m]
      ensures r.Err? ==> bound == old(bound)
    {
      if m in bound {
        return Ok(bound[m]);
      }
      var request := map[m := Symbols[m]];
      requests := requests + [request];
      var library := Dlopen(lib, request);
      match library {
        case Ok(symbols) =>
          bound := bound[m := symbols[m]];
          r := Ok(symbols[m]);
        case Err(e) =>
          r := Err(e);
      }
    }

    /**
     * Binds every requested export not yet bound with one loader call, or
     * none of them if that call fails: exactly one step of `Binding.Preload`.
     */
    method Preload(lib: Library, names: Option<seq<Name>>) returns (r: Result<()>)
      requires Valid() && Binding.Declared(Symbols, names)
      modifies this
      ensures Valid()
      ensures Binding.Step(Cache(), r) == Binding.Preload(Symbols, old(Cache()), lib, names)
      ensures Binding.Extends(old(bound), bound)
      ensures requests == old(requests) + [Binding.Pending(Symbols, old(bound), names)]
      ensures r.Ok? ==> bound.Keys == old(bound).Keys + Binding.Requested(Symbols, names)
      ensures r.Err? ==> bound == old(bound)
    {
      var request := Binding.Pending(Symbols, bound, names);
      requests := requests + [request];
      var library := Dlopen(lib, request);
      match library {
        case Ok(symbols) =>
          bound := bound + symbols;
          r := Ok(());
        case Err(e) =>
          r := Err(e);
      }
    }
  }

  /**
   * A client: the first call of an export binds it with its declared
   * signature, and a second call is answered from the cache.
   */
  method Client(lib: Library)
    requires lib.present && "gluUnProject" in lib.exports
  {
    var glu := new GLU32();
    var first := glu.Load(lib, "gluUnProject");
    assert first.Ok? && first.value.signature == Signature([F64, F64, F64, Ptr, Ptr, Ptr, Ptr, Ptr, Ptr], I32);
    var second := glu.Load(lib, "gluUnProject");
    assert second == first && |glu.requests| == 1;
  }
}
