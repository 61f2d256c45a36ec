/**
 * The hobby list both hobby screens derive from their route parameters. The timer
 * and the tracker each carry an identical copy of `getHobbiesFromParams`; it is
 * defined once here.
 */
module Hobbies {
  import opened Wrappers

  /** A hobby as the screens list it: a numeric id, its name and its priority rank. */
  datatype Hobby = Hobby(id: nat, name: string, priority: nat)

  /** The list shown when the route carries no usable hobby list. */
  const FallbackHobbies: seq<Hobby> :=
    [Hobby(1, "Reading", 1), Hobby(2, "Painting", 2), Hobby(3, "Crafting", 3)]

  /**
   * `getHobbiesFromParams`. `parsed` is what `JSON.parse(params.hobbies)` yields:
   * `Some(names)` for an array of names, `None` when the parameter is absent or
   * does not parse to an array. Each name becomes a record numbered by its
   * position, counting from 1, for both id and priority.
   */
  function HobbiesFromParams(parsed: Option<seq<string>>): (r: seq<Hobby>)
    ensures parsed.None? ==> r == FallbackHobbies
    ensures parsed.Some? ==> |r| == |parsed.value|
    ensures parsed.Some? ==> forall i :: 0 <= i < |r| ==>
      r[i].name == parsed.value[i] && r[i].id == i + 1 && r[i].priority == i + 1
  {
    match parsed
    case None => FallbackHobbies
    case Some(names) => seq(|names|, i requires 0 <= i < |names| => Hobby(i + 1, names[i], i + 1))
  }

  /** The names of a hobby list, in order. */
  function Names(hobbies: seq<Hobby>): (r: seq<string>)
    ensures |r| == |hobbies| && forall i :: 0 <= i < |r| ==> r[i] == hobbies[i].name
  {
    seq(|hobbies|, i requires 0 <= i < |hobbies| => hobbies[i].name)
  }

  /** Ids number the list from 1 in order, so no two hobbies share an id. */
  predicate NumberedFromOne(hobbies: seq<Hobby>) {
    forall i :: 0 <= i < |hobbies| ==> hobbies[i].id == i + 1
  }

  predicate DistinctIds(hobbies: seq<Hobby>) {
    forall i, j :: 0 <= i < j < |hobbies| ==> hobbies[i].id != hobbies[j].id
  }

  /**
   * Whatever the parameters, the hobby list is numbered 1, 2, 3, ... (so ids are
   * distinct), and a parsed list of names is recovered unchanged from it.
   */
  lemma HobbiesFromParamsNumbered(parsed: Option<seq<string>>)
    ensures NumberedFromOne(HobbiesFromParams(parsed))
    ensures DistinctIds(HobbiesFromParams(parsed))
    ensures parsed.Some? ==> Names(HobbiesFromParams(parsed)) == parsed.value
    ensures parsed.None? ==> Names(HobbiesFromParams(parsed)) == ["Reading", "Painting", "Crafting"]
  {
  }

  /** The set of ids of a hobby list. */
  function HobbyIds(hobbies: seq<Hobby>): (ids: set<nat>)
    ensures forall i :: 0 <= i < |hobbies| ==> hobbies[i].id in ids
    ensures forall id :: id in ids ==> exists i :: 0 <= i < |hobbies| && hobbies[i].id == id
  {
    set h | h in hobbies :: h.id
  }
}
