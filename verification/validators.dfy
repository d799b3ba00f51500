/** The generic request-body check of moninag/utils/validators.py. */
module Validators {

  /** `validate_dict`: valid when the symmetric difference between the required
      keys and the keys present is empty, i.e. exactly the required keys appear. */
  function ValidateDict<K, V>(dictionary: map<K, V>, requirements: set<K>): (valid: bool)
    ensures valid <==> dictionary.Keys == requirements
  {
    var symmetricDifference := (requirements - dictionary.Keys) + (dictionary.Keys - requirements);
    symmetricDifference == {}
  }

  /** Every required key plus an extra one is still rejected. */
  lemma ExtraKeyRejected<K, V>(dictionary: map<K, V>, requirements: set<K>, extra: K)
    requires requirements <= dictionary.Keys
    requires extra in dictionary && extra !in requirements
    ensures !ValidateDict(dictionary, requirements)
  {
  }

  /** A missing required key is rejected whatever else is present. */
  lemma MissingKeyRejected<K, V>(dictionary: map<K, V>, requirements: set<K>, missing: K)
    requires missing in requirements && missing !in dictionary
    ensures !ValidateDict(dictionary, requirements)
  {
  }

  /** The verdict depends on the keys only, never on the values. */
  lemma KeysDecide<K, V>(d1: map<K, V>, d2: map<K, V>, requirements: set<K>)
    requires d1.Keys == d2.Keys
    ensures ValidateDict(d1, requirements) == ValidateDict(d2, requirements)
  {
  }

  /** With nothing required, only the empty dictionary is valid. */
  lemma EmptyRequirements<K, V>(dictionary: map<K, V>)
    ensures ValidateDict(dictionary, {}) <==> dictionary == map[]
  {
    if ValidateDict(dictionary, {}) {
      assert dictionary.Keys == {};
    }
  }
}
