/**
 * The binding cache as values: what a call of `Load` or `Preload` does to the
 * set of bound exports, and what it asks of the native loader.
 *
 * A `Cache` holds the bindings made so far and, as instrumentation, the list
 * of every request handed to the loader, in call order. The functions here are
 * the specification the `GLU32` class is proved against; the lemmas relate
 * several calls (idempotence, at-most-one request per name, and the agreement
 * of one batch `Preload` with a run of `Load`s).
 *
 * The symbol table is a parameter `table`; the class passes `SymbolTable.Symbols`.
 */
module Binding {
  import opened Ffi

  datatype Cache = Cache(bound: map<Name, Sym>, requests: seq<map<Name, Signature>>)

  /** The cache after a call, and what the call returned or failed with. */
  datatype Step<T> = Step(cache: Cache, result: Result<T>)

  /** Every bound name is declared, and was bound under its own name with the table's signature. */
  predicate WellBound(table: map<Name, Signature>, bound: map<Name, Sym>)
  {
    forall n :: n in bound ==> n in table && bound[n].name == n && bound[n].signature == table[n]
  }

  /** `after` still holds every binding of `before`, to the same symbol. */
  predicate Extends(before: map<Name, Sym>, after: map<Name, Sym>)
  {
    forall n :: n in before ==> n in after && after[n] == before[n]
  }

  /**
   * `Load(m)`: a bound name is answered from the cache with no loader call;
   * an unbound one costs one loader request for exactly `{m: table[m]}`, and
   * on success the returned symbol is recorded for good.
   */
  function Load(table: map<Name, Signature>, c: Cache, lib: Library, m: Name): (r: Step<Sym>)
    requires m in table
    ensures Extends(c.bound, r.cache.bound)
    ensures r.cache.bound.Keys <= c.bound.Keys + {m}
    ensures WellBound(table, c.bound) ==> WellBound(table, r.cache.bound)
    ensures r.result.Ok? ==> m in r.cache.bound && r.cache.bound[m] == r.result.value
    ensures r.result.Err? ==> r.cache.bound == c.bound
    ensures m in c.bound ==> r.cache == c && r.result == Ok(c.bound[m])
    ensures m !in c.bound ==> r.cache.requests == c.requests + [map[m := table[m]]]
    ensures m !in c.bound ==> (r.result.Ok? <==> lib.present && m in lib.exports)
  {
    if m in c.bound then
      Step(c, Ok(c.bound[m]))
    else
      var request := map[m := table[m]];
      assert m in request;
      var requests := c.requests + [request];
      match Dlopen(lib, request)
      case Ok(symbols) => Step(Cache(c.bound[m := symbols[m]], requests), Ok(symbols[m]))
      case Err(e) => Step(Cache(c.bound, requests), Err(e))
  }

  /** Every name a `Preload` argument lists is declared in the table. */
  predicate Declared(table: map<Name, Signature>, names: Option<seq<Name>>)
  {
    match names
    case None => true
    case Some(ns) => forall n :: n in ns ==> n in table
  }

  /** The names a `Preload` call asks for: the given list, or every declared name when it is omitted. */
  function Requested(table: map<Name, Signature>, names: Option<seq<Name>>): set<Name>
  {
    match names
    case None => table.Keys
    case Some(ns) => set n | n in ns
  }

  /** The batch `Preload` hands to the loader: the requested names not yet bound, each with its declared signature. */
  function Pending(table: map<Name, Signature>, bound: map<Name, Sym>, names: Option<seq<Name>>): (request: map<Name, Signature>)
    requires Declared(table, names)
  {
    map n | n in Requested(table, names) && n !in bound :: table[n]
  }

  /**
   * `Preload(names?)`: one loader call for the pending batch (even an empty
   * one); on success every returned symbol is recorded, on failure nothing is.
   */
  function Preload(table: map<Name, Signature>, c: Cache, lib: Library, names: Option<seq<Name>>): (r: Step<()>)
    requires Declared(table, names)
    ensures Extends(c.bound, r.cache.bound)
    ensures WellBound(table, c.bound) ==> WellBound(table, r.cache.bound)
    ensures |r.cache.requests| == |c.requests| + 1 && r.cache.requests[..|c.requests|] == c.requests
    ensures var request := r.cache.requests[|c.requests|];
      && request.Keys == Requested(table, names) - c.bound.Keys
      && forall n :: n in request ==> request[n] == table[n]
    ensures r.result.Ok? ==> r.cache.bound.Keys == c.bound.Keys + Requested(table, names)
    ensures r.cache.bound.Keys <= c.bound.Keys + Requested(table, names)
    ensures r.result.Err? ==> r.cache.bound == c.bound
    ensures r.result.Ok? <==>
      && (Requested(table, names) - c.bound.Keys != {} || lib.acceptsEmpty)
      && lib.present
      && Requested(table, names) - c.bound.Keys <= lib.exports.Keys
  {
    var request := Pending(table, c.bound, names);
    assert request.Keys == Requested(table, names) - c.bound.Keys;
    assert request == map[] <==> request.Keys == {};
    var requests := c.requests + [request];
    match Dlopen(lib, request)
    case Ok(symbols) => Step(Cache(c.bound + symbols, requests), Ok(()))
    case Err(e) => Step(Cache(c.bound, requests), Err(e))
  }

  /** The cache after calling `Load` on each of `names` in turn, against one library. */
  function RunLoads(table: map<Name, Signature>, c: Cache, lib: Library, names: seq<Name>): (r: Cache)
    requires forall n :: n in names ==> n in table
    ensures Extends(c.bound, r.bound)
    ensures WellBound(table, c.bound) ==> WellBound(table, r.bound)
    ensures |c.requests| <= |r.requests| && r.requests[..|c.requests|] == c.requests
    decreases |names|
  {
    if names == [] then c
    else RunLoads(table, Load(table, c, lib, names[0]).cache, lib, names[1..])
  }

  /** How many of the loader requests in `requests` ask for `m`. */
  function Mentions(requests: seq<map<Name, Signature>>, m: Name): nat
  {
    if requests == [] then 0
    else Mentions(requests[..|requests| - 1], m) + (if m in requests[|requests| - 1] then 1 else 0)
  }

  /** A second `Load` of a name the first one bound returns the same symbol, touches nothing and asks the loader for nothing. */
  lemma LoadTwice(table: map<Name, Signature>, c: Cache, lib: Library, lib': Library, m: Name)
    requires m in table
    requires Load(table, c, lib, m).result.Ok?
    ensures Load(table, Load(table, c, lib, m).cache, lib', m) == Load(table, c, lib, m)
  {
  }

  /**
   * In any run of `Load`s against a library that exports `m`, the loader is
   * asked for `m` once if `m` was unbound and listed, and never otherwise.
   */
  lemma {:induction false} LoadsRequestOnce(table: map<Name, Signature>, c: Cache, lib: Library, names: seq<Name>, m: Name)
    requires forall n :: n in names ==> n in table
    requires m in c.bound || (lib.present && m in lib.exports)
    ensures Mentions(RunLoads(table, c, lib, names).requests, m)
         == Mentions(c.requests, m) + (if m !in c.bound && m in names then 1 else 0)
    decreases |names|
  {
    if names != [] {
      var n := names[0];
      var c1 := Load(table, c, lib, n).cache;
      if n !in c.bound {
        var request := map[n := table[n]];
        assert c1.requests == c.requests + [request];
        assert c1.requests[..|c1.requests| - 1] == c.requests;
        assert Mentions(c1.requests, m) == Mentions(c.requests, m) + (if m == n then 1 else 0);
      }
      assert m in names <==> m == n || m in names[1..];
      LoadsRequestOnce(table, c1, lib, names[1..], m);
    }
  }

  /** Omitting the argument of `Preload` is the same as listing every declared name. */
  lemma PreloadDefault(table: map<Name, Signature>, c: Cache, lib: Library, names: seq<Name>)
    requires (set n | n in names) == table.Keys
    ensures Declared(table, Some(names))
    ensures Preload(table, c, lib, None) == Preload(table, c, lib, Some(names))
  {
    assert Requested(table, None) == Requested(table, Some(names));
  }

  /** Repeating a successful `Preload` sends an empty batch and leaves every binding as it was. */
  lemma PreloadTwice(table: map<Name, Signature>, c: Cache, lib: Library, lib': Library, names: Option<seq<Name>>)
    requires Declared(table, names)
    requires Preload(table, c, lib, names).result.Ok?
    ensures var c1 := Preload(table, c, lib, names).cache;
      var c2 := Preload(table, c1, lib', names).cache;
      c2.bound == c1.bound && c2.requests == c1.requests + [map[]]
  {
    var c1 := Preload(table, c, lib, names).cache;
    assert Requested(table, names) <= c1.bound.Keys;
    var pending := Pending(table, c1.bound, names);
    assert pending.Keys == {};
    assert pending == map[];
  }

  /** The bindings after binding every name of `names` that `bound` lacks to the export `lib` has for it. */
  function BindMissing(table: map<Name, Signature>, lib: Library, bound: map<Name, Sym>, names: set<Name>): map<Name, Sym>
    requires names <= table.Keys && names <= lib.exports.Keys
  {
    map k | k in bound.Keys + names :: if k in bound then bound[k] else Sym(k, table[k], lib.exports[k])
  }

  /** Binding one missing name first and then the rest binds the same as binding them together. */
  lemma BindMissingFirst(table: map<Name, Signature>, lib: Library, bound: map<Name, Sym>, n: Name, rest: set<Name>)
    requires n in table && n in lib.exports && rest <= table.Keys && rest <= lib.exports.Keys
    ensures var first := if n in bound then bound else bound[n := Sym(n, table[n], lib.exports[n])];
      BindMissing(table, lib, bound, {n} + rest) == BindMissing(table, lib, first, rest)
  {
  }

  /**
   * Against a library that exports every listed name, a `Preload` binds each
   * missing listed name to its export; it succeeds unless nothing is missing
   * and the loader refuses an empty request, and then it binds nothing.
   */
  lemma PreloadBindsMissing(table: map<Name, Signature>, c: Cache, lib: Library, names: seq<Name>)
    requires forall n :: n in names ==> n in table
    requires lib.present && forall n :: n in names ==> n in lib.exports
    ensures Preload(table, c, lib, Some(names)).result.Ok?
        <==> Requested(table, Some(names)) - c.bound.Keys != {} || lib.acceptsEmpty
    ensures Preload(table, c, lib, Some(names)).cache.bound == BindMissing(table, lib, c.bound, Requested(table, Some(names)))
  {
  }

  /**
   * One `Preload` of `names` binds exactly what calling `Load` on each of them
   * would, when the library opens and exports them all. The `Preload` then
   * succeeds unless nothing was left to bind and the loader refuses an empty
   * request, while every one of the `Load`s succeeds.
   */
  lemma {:induction false} PreloadAgreesWithLoads(table: map<Name, Signature>, c: Cache, lib: Library, names: seq<Name>)
    requires forall n :: n in names ==> n in table
    requires lib.present && forall n :: n in names ==> n in lib.exports
    ensures Preload(table, c, lib, Some(names)).result.Ok?
        <==> Requested(table, Some(names)) - c.bound.Keys != {} || lib.acceptsEmpty
    ensures Preload(table, c, lib, Some(names)).cache.bound == RunLoads(table, c, lib, names).bound
    decreases |names|
  {
    PreloadBindsMissing(table, c, lib, names);
    if names != [] {
      var n := names[0];
      var c1 := Load(table, c, lib, n).cache;
      PreloadAgreesWithLoads(table, c1, lib, names[1..]);
      PreloadBindsMissing(table, c1, lib, names[1..]);
      RequestedCons(table, names);
      LoadBindsExport(table, c, lib, n);
      BindMissingFirst(table, lib, c.bound, n, Requested(table, Some(names[1..])));
    }
  }

  /** The names requested by a non-empty list: its first name and those of the rest. */
  lemma RequestedCons(table: map<Name, Signature>, names: seq<Name>)
    requires names != []
    ensures Requested(table, Some(names)) == {names[0]} + Requested(table, Some(names[1..]))
  {
    assert forall k :: k in names <==> k == names[0] || k in names[1..];
  }

  /** A `Load` of an exported name leaves it bound, and asks the loader once exactly when it was unbound. */
  lemma LoadExported(table: map<Name, Signature>, c: Cache, lib: Library, n: Name)
    requires n in table && lib.present && n in lib.exports
    ensures var c1 := Load(table, c, lib, n).cache;
      && c1.bound.Keys == c.bound.Keys + {n}
      && |c1.requests| == |c.requests| + (if n in c.bound then 0 else 1)
  {
  }

  /** A `Load` of an exported name binds it, if unbound, to the library's export for it. */
  lemma LoadBindsExport(table: map<Name, Signature>, c: Cache, lib: Library, n: Name)
    requires n in table && lib.present && n in lib.exports
    ensures Load(table, c, lib, n).cache.bound
         == if n in c.bound then c.bound else c.bound[n := Sym(n, table[n], lib.exports[n])]
  {
  }

  /** Binding a listed name removes it, and nothing else, from the names still to bind. */
  lemma PendingStep(listed: set<Name>, rest: set<Name>, bound: set<Name>, bound': set<Name>, n: Name)
    requires listed == {n} + rest && bound' == bound + {n}
    ensures |listed - bound| == |rest - bound'| + (if n in bound then 0 else 1)
  {
    if n in bound {
      assert listed - bound == rest - bound';
    } else {
      assert listed - bound == (rest - bound') + {n};
    }
  }

  /**
   * Against a library that exports every listed name, a run of `Load`s asks
   * the loader once per distinct listed name that was unbound; a `Preload` of
   * the same names asks it once in all.
   */
  lemma {:induction false} LoadsRequestCount(table: map<Name, Signature>, c: Cache, lib: Library, names: seq<Name>)
    requires forall n :: n in names ==> n in table
    requires lib.present && forall n :: n in names ==> n in lib.exports
    ensures |RunLoads(table, c, lib, names).requests|
         == |c.requests| + |Requested(table, Some(names)) - c.bound.Keys|
    ensures |Preload(table, c, lib, Some(names)).cache.requests| == |c.requests| + 1
    decreases |names|
  {
    if names == [] {
      assert Requested(table, Some(names)) - c.bound.Keys == {};
    } else {
      var n := names[0];
      var c1 := Load(table, c, lib, n).cache;
      LoadExported(table, c, lib, n);
      RequestedCons(table, names);
      LoadsRequestCount(table, c1, lib, names[1..]);
      PendingStep(Requested(table, Some(names)), Requested(table, Some(names[1..])), c.bound.Keys, c1.bound.Keys, n);
    }
  }
}
