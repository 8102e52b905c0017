/** Lookups in a subject catalogue through a JavaScript `Map` built from
    `[id, name]` pairs: when an id occurs more than once, the last pair wins. */
module Catalogue {
  import opened Types

  /** `new Map(catalogue.map(s => [s.id, s.name])).get(id)`. */
  function NameOf(catalogue: seq<Subject>, id: int): (r: Option<string>)
    ensures r.None? <==> forall i :: 0 <= i < |catalogue| ==> catalogue[i].id != id
    ensures r.Some? ==> exists i :: (0 <= i < |catalogue| && catalogue[i].id == id && catalogue[i].name == r.value
                                     && forall j :: i < j < |catalogue| ==> catalogue[j].id != id)
  {
    if catalogue == [] then None
    else if catalogue[|catalogue| - 1].id == id then Some(catalogue[|catalogue| - 1].name)
    else NameOf(catalogue[..|catalogue| - 1], id)
  }

  /** With distinct ids, the name found is the name of the one entry with that id. */
  lemma NameOfUnique(catalogue: seq<Subject>, i: nat)
    requires i < |catalogue|
    requires forall a, b :: 0 <= a < b < |catalogue| ==> catalogue[a].id != catalogue[b].id
    ensures NameOf(catalogue, catalogue[i].id) == Some(catalogue[i].name)
  {
    var r := NameOf(catalogue, catalogue[i].id);
    var k :| 0 <= k < |catalogue| && catalogue[k].id == catalogue[i].id && catalogue[k].name == r.value;
    assert k == i;
  }

  /** A catalogue name that counts as present in the source: found and not "". */
  predicate Named(catalogue: seq<Subject>, id: int)
  {
    NameOf(catalogue, id).Some? && NameOf(catalogue, id).value != ""
  }
}
