/** The city service: projection of a city onto its view model, and the city search. */
module CityService {
  import opened Wrappers
  import opened Text
  import opened Domain
  import opened Dtos

  /** convertToCityDto: null stays null; otherwise the name, and the region's name when there is a region. */
  function ConvertToCityDto(city: Option<City>): (r: Option<CityDto>)
    ensures r.None? <==> city.None?
    ensures r.Some? ==> r.value.name == city.value.name
    ensures r.Some? && city.value.region.Some? ==> r.value.regionName == city.value.region.value.name
    ensures r.Some? && city.value.region.None? ==> r.value.regionName.None?
  {
    if city.None? then None
    else
      var c := city.value;
      Some(CityDto(c.name, if c.region.Some? then c.region.value.name else None))
  }

  /** What the repository's findByNameContainsIgnoreCase promises of a city it returns. */
  predicate NameContainsIgnoreCase(c: City, name: string) {
    c.name.Some? && Contains(LowerStr(c.name.value), LowerStr(name))
  }

  /**
   * findCityByName: the cities the repository found, each converted, one to
   * one and in order. The repository query is not part of this model; its
   * results are the `found` parameter.
   */
  function FindCityByName(name: string, found: seq<City>): (r: seq<CityDto>)
    ensures |r| == |found|
    ensures forall i :: 0 <= i < |found| ==> Some(r[i]) == ConvertToCityDto(Some(found[i]))
  {
    seq(|found|, i requires 0 <= i < |found| => ConvertToCityDto(Some(found[i])).value)
  }

  /** When the repository keeps its promise, every city returned has a name containing the search string, ignoring case. */
  lemma FoundCitiesMatch(name: string, found: seq<City>)
    requires forall c :: c in found ==> NameContainsIgnoreCase(c, name)
    ensures forall d :: d in FindCityByName(name, found) ==>
      d.name.Some? && Contains(LowerStr(d.name.value), LowerStr(name))
  {
    var r := FindCityByName(name, found);
    forall d | d in r ensures d.name.Some? && Contains(LowerStr(d.name.value), LowerStr(name)) {
      var i :| 0 <= i < |r| && r[i] == d;
      assert found[i] in found;
    }
  }
}
