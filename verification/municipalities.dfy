/**
 * Looking a municipality up by name in the IBGE registry (`buscar_id_por_nome`,
 * written identically in the soil-workability and the frost scrapers).
 *
 * The registry is the list of `{id, nome}` records the IBGE service returns, in
 * the order it returns them. "Not found" is `None`.
 */
module Municipalities {
  import opened Wrappers
  import opened Normalization

  datatype City = City(id: int, name: string)

  /** `name` refers to `city` once both are normalised. */
  predicate NameMatches(city: City, name: string) {
    Normalize(city.name) == Normalize(name)
  }

  /** Entry `i` is the first entry of `registry` whose name matches `name`. */
  predicate IsFirstMatch(registry: seq<City>, name: string, i: int) {
    && 0 <= i < |registry|
    && NameMatches(registry[i], name)
    && forall j :: 0 <= j < i ==> !NameMatches(registry[j], name)
  }

  /** Position of the first entry matching `name`, scanning in list order. */
  function FirstMatch(registry: seq<City>, name: string): (r: Option<nat>)
    ensures r.Some? ==> IsFirstMatch(registry, name, r.value)
    ensures r.None? <==> forall j :: 0 <= j < |registry| ==> !NameMatches(registry[j], name)
    decreases |registry|
  {
    if registry == [] then None
    else if NameMatches(registry[0], name) then Some(0)
    else
      match FirstMatch(registry[1..], name)
      case None => None
      case Some(k) =>
        assert forall j :: 1 <= j <= k ==> registry[j] == registry[1..][j - 1];
        Some(k + 1)
  }

  /**
   * `buscar_id_por_nome(cidades, nome)`: the id of the first registry entry
   * whose normalised name equals the normalised query, or None.
   */
  function FindIdByName(registry: seq<City>, name: string): (r: Option<int>)
    ensures r.None? <==> forall j :: 0 <= j < |registry| ==> !NameMatches(registry[j], name)
    ensures r.Some? ==> exists i :: IsFirstMatch(registry, name, i) && r.value == registry[i].id
  {
    match FirstMatch(registry, name)
    case None => None
    case Some(i) => Some(registry[i].id)
  }

  /** Only one entry can be the first match. */
  lemma FirstMatchUnique(registry: seq<City>, name: string, i: int, k: int)
    requires IsFirstMatch(registry, name, i) && IsFirstMatch(registry, name, k)
    ensures i == k
  {
  }

  /** The lookup answers with entry `i`'s id exactly when `i` is the first match. */
  lemma FindIdByNameFirst(registry: seq<City>, name: string, i: int)
    requires IsFirstMatch(registry, name, i)
    ensures FindIdByName(registry, name) == Some(registry[i].id)
  {
    var r := FirstMatch(registry, name);
    assert r.Some?;
    FirstMatchUnique(registry, name, i, r.value);
  }

  /**
   * Round trip: an entry's own name finds that entry's id, provided no earlier
   * entry has the same normalised name.
   */
  lemma FindOwnName(registry: seq<City>, i: int)
    requires 0 <= i < |registry|
    requires forall j :: 0 <= j < i ==> Normalize(registry[j].name) != Normalize(registry[i].name)
    ensures FindIdByName(registry, registry[i].name) == Some(registry[i].id)
  {
    FindIdByNameFirst(registry, registry[i].name, i);
  }

  /** Queries with the same normal form get the same answer: case and accents do not matter. */
  lemma FindIgnoresSpelling(registry: seq<City>, a: string, b: string)
    requires Normalize(a) == Normalize(b)
    ensures FindIdByName(registry, a) == FindIdByName(registry, b)
  {
    assert forall c :: NameMatches(c, a) <==> NameMatches(c, b);
    if FindIdByName(registry, a).Some? {
      var i :| IsFirstMatch(registry, a, i) && FindIdByName(registry, a).value == registry[i].id;
      FindIdByNameFirst(registry, b, i);
    }
  }

  /** An empty registry (the IBGE request returned an empty list) resolves nothing. */
  lemma FindInEmptyRegistry(name: string)
    ensures FindIdByName([], name) == None
  {
  }
}
