/** The per-relation catalog record of named indexes (`IndexScheme`): a map from index
    name to the description of the index sub-block, with name lookups, lookups of an
    equivalent description, and registration that refuses a name already in use. */
module Catalog {
  import opened ByteSort

  /** An `IndexSubBlockDescription` message: the kind of index sub-block (an enum value
      of the message) and the ids of the attributes it indexes. `indexedAttributeIds`
      documents the shape of the message; nothing here reads it, because every comparison
      goes through the opaque serializer. */
  datatype IndexDescription = IndexDescription(subBlockType: int, indexedAttributeIds: seq<int>)

  class IndexScheme {
    /** The protocol-buffer serialization of a description (`SerializeToString`). Its byte
        format is generated code outside this model, so the scheme is given it when it is
        built and every contract below holds whatever bytes it produces. */
    const serialize: IndexDescription -> seq<Byte>

    /** `index_map_`: each index name of the relation and its description. */
    var indexMap: map<string, IndexDescription>

    /** An empty scheme: no index is defined yet. */
    constructor (serialize: IndexDescription -> seq<Byte>)
      ensures this.serialize == serialize
      ensures indexMap == map[]
      ensures NumIndices() == 0
    {
      this.serialize := serialize;
      indexMap := map[];
    }

    /** The number of indices defined for the relation. */
    function NumIndices(): (n: nat)
      reads this
      ensures n == |indexMap.Keys|
      ensures n == 0 <==> indexMap.Keys == {}
    {
      |indexMap|
    }

    /** Whether an index called `name` is defined. */
    function HasIndexWithName(name: string): (b: bool)
      reads this
      ensures b <==> exists entry :: entry in indexMap.Items && entry.0 == name
    {
      assert name in indexMap ==> (name, indexMap[name]) in indexMap.Items;
      name in indexMap
    }

    /** What the code treats as "the same description": the same sub-block type, and
        serializations that hold the same bytes as often once each is sorted. */
    ghost predicate SameDescription(expected: IndexDescription, checked: IndexDescription) {
      && expected.subBlockType == checked.subBlockType
      && multiset(serialize(expected)) == multiset(serialize(checked))
    }

    /** Some stored description is the same as `d`. */
    ghost predicate HasEquivalent(d: IndexDescription)
      reads this
    {
      exists name :: name in indexMap && SameDescription(indexMap[name], d)
    }

    /** Compares two descriptions by their type, then by their serializations with the
        bytes of each sorted in place. */
    method AreIndexDescriptionsSame(expected: IndexDescription, checked: IndexDescription)
      returns (same: bool)
      ensures same <==> SameDescription(expected, checked)
      ensures expected.subBlockType != checked.subBlockType ==> !same
    {
      if expected.subBlockType != checked.subBlockType {
        return false;
      }
      var e, c := serialize(expected), serialize(checked);
      var sortedExpected := new Byte[|e|](i requires 0 <= i < |e| => e[i]);
      var sortedChecked := new Byte[|c|](i requires 0 <= i < |c| => c[i]);
      assert sortedExpected[..] == e && sortedChecked[..] == c;
      SortInPlace(sortedExpected);
      SortInPlace(sortedChecked);
      same := sortedExpected[..] == sortedChecked[..];
      SortedEqualIffSameMultiset(sortedExpected[..], sortedChecked[..]);
    }

    /** Walks the stored descriptions in whatever order the map yields them and stops at
        the first one that is the same as `d`; the answer does not depend on that order. */
    method HasIndexWithDescription(d: IndexDescription) returns (found: bool)
      ensures found <==> HasEquivalent(d)
    {
      var remaining := indexMap.Keys;
      while remaining != {}
        invariant remaining <= indexMap.Keys
        invariant forall name :: name in indexMap && name !in remaining ==> !SameDescription(indexMap[name], d)
        decreases remaining
      {
        var name :| name in remaining;
        var same := AreIndexDescriptionsSame(indexMap[name], d);
        if same {
          return true;
        }
        remaining := remaining - {name};
      }
      return false;
    }

    /** Registers `d` under `name` unless that name is taken; an equivalent description
        under another name is accepted. The caller holds the relation's locks. */
    method AddIndexMapEntry(name: string, d: IndexDescription) returns (added: bool)
      modifies this
      ensures added <==> !old(HasIndexWithName(name))
      ensures !added ==> indexMap == old(indexMap)
      ensures added ==> name in indexMap && indexMap[name] == d
      ensures added ==> NumIndices() == old(NumIndices()) + 1
      ensures forall other :: other != name ==>
                (other in indexMap <==> other in old(indexMap)) &&
                (other in indexMap ==> indexMap[other] == old(indexMap)[other])
      ensures HasIndexWithName(name)
      ensures added ==> HasEquivalent(d)
      ensures forall x :: old(HasEquivalent(x)) ==> HasEquivalent(x)
    {
      if name in indexMap {
        return false;
      }
      indexMap := indexMap[name := d];
      assert SameDescription(indexMap[name], d);
      return true;
    }
  }

  /** Same-description is an equivalence: reflexive, symmetric and transitive. */
  lemma SameDescriptionIsEquivalence(scheme: IndexScheme, a: IndexDescription, b: IndexDescription, c: IndexDescription)
    ensures scheme.SameDescription(a, a)
    ensures scheme.SameDescription(a, b) ==> scheme.SameDescription(b, a)
    ensures scheme.SameDescription(a, b) && scheme.SameDescription(b, c) ==> scheme.SameDescription(a, c)
  {
  }
}
