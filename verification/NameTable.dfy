/** The immutable table of name-value pairs (ElDorito/Source/Utils/NameValueTable.hpp:13-101). */
module NameTable {
  import opened Text

  type Pair = (string, int)

  /** The value of the first pair with exactly a name: the map is filled by insertion, which keeps what is there. */
  function ValueOf(pairs: seq<Pair>, name: string): Option<int> {
    if pairs == [] then None
    else
      var n := |pairs| - 1;
      var earlier := ValueOf(pairs[..n], name);
      if earlier.None? && pairs[n].0 == name then Some(pairs[n].1) else earlier
  }

  /** The value of the last pair with a name, ignoring case: later pairs overwrite earlier ones. */
  function ValueIgnoringCase(pairs: seq<Pair>, name: string): Option<int> {
    if pairs == [] then None
    else if Lower(pairs[|pairs| - 1].0) == Lower(name) then Some(pairs[|pairs| - 1].1)
    else ValueIgnoringCase(pairs[..|pairs| - 1], name)
  }

  /** The name of the last pair with a value. */
  function NameOf(pairs: seq<Pair>, value: int): Option<string> {
    if pairs == [] then None
    else if pairs[|pairs| - 1].1 == value then Some(pairs[|pairs| - 1].0)
    else NameOf(pairs[..|pairs| - 1], value)
  }

  /** No two pairs share a name, ignoring case, or a value. */
  ghost predicate OneToOne(pairs: seq<Pair>) {
    forall i, j :: 0 <= i < j < |pairs| ==> Lower(pairs[i].0) != Lower(pairs[j].0) && pairs[i].1 != pairs[j].1
  }

  lemma {:induction false} NameOfIsThere(pairs: seq<Pair>, value: int)
    ensures match NameOf(pairs, value)
            case Some(name) => (name, value) in pairs
            case None => forall p <- pairs :: p.1 != value
  {
    if pairs != [] && pairs[|pairs| - 1].1 != value {
      NameOfIsThere(pairs[..|pairs| - 1], value);
      assert pairs == pairs[..|pairs| - 1] + [pairs[|pairs| - 1]];
    }
  }

  lemma {:induction false} ValueOfIsThere(pairs: seq<Pair>, name: string)
    ensures ValueOf(pairs, name).Some? ==> exists k :: 0 <= k < |pairs| && pairs[k].0 == name
  {
    if pairs != [] {
      ValueOfIsThere(pairs[..|pairs| - 1], name);
    }
  }

  /** The first pair with exactly a name, and the last ones with a name in any case and with a value. */
  ghost predicate FirstNamed(pairs: seq<Pair>, name: string, k: nat) {
    k < |pairs| && pairs[k].0 == name && forall j :: 0 <= j < k ==> pairs[j].0 != name
  }

  ghost predicate LastNamed(pairs: seq<Pair>, name: string, k: nat) {
    k < |pairs| && Lower(pairs[k].0) == Lower(name) && forall j :: k < j < |pairs| ==> Lower(pairs[j].0) != Lower(name)
  }

  ghost predicate LastValued(pairs: seq<Pair>, value: int, k: nat) {
    k < |pairs| && pairs[k].1 == value && forall j :: k < j < |pairs| ==> pairs[j].1 != value
  }

  /** Which of several pairs a lookup finds; and it finds one if there is one. */
  lemma FirstAndLastWin(pairs: seq<Pair>, name: string, value: int)
    ensures forall k: nat :: FirstNamed(pairs, name, k) ==> ValueOf(pairs, name) == Some(pairs[k].1)
    ensures ValueOf(pairs, name).None? <==> forall k :: 0 <= k < |pairs| ==> pairs[k].0 != name
    ensures forall k: nat :: LastNamed(pairs, name, k) ==> ValueIgnoringCase(pairs, name) == Some(pairs[k].1)
    ensures ValueIgnoringCase(pairs, name).None? <==> forall k :: 0 <= k < |pairs| ==> Lower(pairs[k].0) != Lower(name)
    ensures forall k: nat :: LastValued(pairs, value, k) ==> NameOf(pairs, value) == Some(pairs[k].0)
    ensures NameOf(pairs, value).None? <==> forall k :: 0 <= k < |pairs| ==> pairs[k].1 != value
  {
    FirstWins(pairs, name);
    LastNameWins(pairs, name);
    LastValueWins(pairs, value);
    hide ValueOf, ValueIgnoringCase, NameOf, Lower, FirstNamed, LastNamed, LastValued;
  }

  lemma {:induction false} FirstWins(pairs: seq<Pair>, name: string)
    ensures forall k: nat :: FirstNamed(pairs, name, k) ==> ValueOf(pairs, name) == Some(pairs[k].1)
    ensures ValueOf(pairs, name).None? <==> forall k :: 0 <= k < |pairs| ==> pairs[k].0 != name
  {
    if pairs != [] {
      var front := pairs[..|pairs| - 1];
      FirstWins(front, name);
      forall k: nat | FirstNamed(pairs, name, k) && k < |front| ensures FirstNamed(front, name, k) {
      }
    }
  }

  lemma {:induction false} LastNameWins(pairs: seq<Pair>, name: string)
    ensures forall k: nat :: LastNamed(pairs, name, k) ==> ValueIgnoringCase(pairs, name) == Some(pairs[k].1)
    ensures ValueIgnoringCase(pairs, name).None? <==> forall k :: 0 <= k < |pairs| ==> Lower(pairs[k].0) != Lower(name)
  {
    hide Lower;
    if pairs != [] {
      var front := pairs[..|pairs| - 1];
      LastNameWins(front, name);
      forall k: nat | LastNamed(pairs, name, k) && k < |front| ensures LastNamed(front, name, k) {
      }
    }
  }

  lemma {:induction false} LastValueWins(pairs: seq<Pair>, value: int)
    ensures forall k: nat :: LastValued(pairs, value, k) ==> NameOf(pairs, value) == Some(pairs[k].0)
    ensures NameOf(pairs, value).None? <==> forall k :: 0 <= k < |pairs| ==> pairs[k].1 != value
  {
    if pairs != [] {
      var front := pairs[..|pairs| - 1];
      LastValueWins(front, value);
      forall k: nat | LastValued(pairs, value, k) && k < |front| ensures LastValued(front, value, k) {
      }
    }
  }

  /** In a one-to-one table every lookup finds every pair. */
  lemma {:induction false} OneToOneLookups(pairs: seq<Pair>, k: nat)
    requires OneToOne(pairs) && k < |pairs|
    ensures ValueOf(pairs, pairs[k].0) == ValueIgnoringCase(pairs, pairs[k].0) == Some(pairs[k].1)
    ensures NameOf(pairs, pairs[k].1) == Some(pairs[k].0)
  {
    var last := |pairs| - 1;
    if k != last {
      assert pairs[..last][k] == pairs[k];
      OneToOneLookups(pairs[..last], k);
    } else {
      ValueOfIsThere(pairs[..last], pairs[last].0);
    }
  }

  /** Printing a value and reading the name gives the value back. */
  lemma NameReadsBack(pairs: seq<Pair>, value: int)
    requires OneToOne(pairs) && NameOf(pairs, value).Some?
    ensures ValueIgnoringCase(pairs, NameOf(pairs, value).value) == Some(value)
  {
    NameOfIsThere(pairs, value);
    var k :| 0 <= k < |pairs| && pairs[k] == (NameOf(pairs, value).value, value);
    OneToOneLookups(pairs, k);
  }

  lemma {:induction false} UnknownName(pairs: seq<Pair>, name: string)
    requires forall p <- pairs :: Lower(p.0) != Lower(name)
    ensures ValueIgnoringCase(pairs, name) == None
  {
    if pairs != [] {
      assert pairs[|pairs| - 1] in pairs && forall p <- pairs[..|pairs| - 1] :: p in pairs;
      UnknownName(pairs[..|pairs| - 1], name);
    }
  }

  /** The table as an object. Its maps are filled in one pass over the pairs. */
  class NameValueTable {
    const valuesInOrder: seq<Pair>
    const valuesByName: map<string, int>
    const valuesByLowercaseName: map<string, int>
    const valueNames: map<int, string>

    ghost predicate Valid() {
      && (forall name :: ByName(name) == ValueOf(valuesInOrder, name))
      && (forall name :: ByLowercaseName(name) == ValueIgnoringCase(valuesInOrder, name))
      && (forall value :: ByValue(value) == NameOf(valuesInOrder, value))
    }

    ghost function ByName(name: string): Option<int> {
      if name in valuesByName then Some(valuesByName[name]) else None
    }

    ghost function ByLowercaseName(name: string): Option<int> {
      if Lower(name) in valuesByLowercaseName then Some(valuesByLowercaseName[Lower(name)]) else None
    }

    ghost function ByValue(value: int): Option<string> {
      if value in valueNames then Some(valueNames[value]) else None
    }

    constructor (pairs: seq<Pair>)
      ensures Valid() && valuesInOrder == pairs
    {
      valuesInOrder := pairs;
      var byName, byLowercaseName, names := map[], map[], map[];
      for i := 0 to |pairs|
        invariant forall name: string ::
          (if name in byName then Some(byName[name]) else None) == ValueOf(pairs[..i], name)
        invariant forall name: string ::
          (if Lower(name) in byLowercaseName then Some(byLowercaseName[Lower(name)]) else None)
          == ValueIgnoringCase(pairs[..i], name)
        invariant forall value ::
          (if value in names then Some(names[value]) else None) == NameOf(pairs[..i], value)
      {
        assert pairs[..i + 1][..i] == pairs[..i] && pairs[..i + 1][i] == pairs[i];
        if pairs[i].0 !in byName {
          byName := byName[pairs[i].0 := pairs[i].1];
        }
        byLowercaseName := byLowercaseName[Lower(pairs[i].0) := pairs[i].1];
        names := names[pairs[i].1 := pairs[i].0];
      }
      assert pairs[..|pairs|] == pairs;
      valuesByName, valuesByLowercaseName, valueNames := byName, byLowercaseName, names;
    }

    method FindValue(name: string) returns (r: Option<int>)
      requires Valid()
      ensures r == ValueOf(valuesInOrder, name)
    {
      assert ByName(name) == ValueOf(valuesInOrder, name);
      if name !in valuesByName {
        return None;
      }
      return Some(valuesByName[name]);
    }

    method FindValueIgnoreCase(name: string) returns (r: Option<int>)
      requires Valid()
      ensures r == ValueIgnoringCase(valuesInOrder, name)
    {
      assert ByLowercaseName(name) == ValueIgnoringCase(valuesInOrder, name);
      if Lower(name) !in valuesByLowercaseName {
        return None;
      }
      return Some(valuesByLowercaseName[Lower(name)]);
    }

    method FindName(value: int) returns (r: Option<string>)
      requires Valid()
      ensures r == NameOf(valuesInOrder, value)
    {
      assert ByValue(value) == NameOf(valuesInOrder, value);
      if value !in valueNames {
        return None;
      }
      return Some(valueNames[value]);
    }
  }
}
