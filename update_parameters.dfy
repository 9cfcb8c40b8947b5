/** `updateUrlParameters`: new parameters are written into the targeted
    component's record and removed from the other one. */
module UpdateParameters {
  import opened ParameterRecord

  /** The records `updateUrlParameters` returns. */
  datatype UpdatedParameters = UpdatedParameters(search: Record, hash: Record)

  /** The target is the hash record when applyToHash holds and the search
      record otherwise; the opposing record loses every key that
      newParameters has, and newParameters is written into the target. */
  function UpdateUrlParameters(newParameters: Record, applyToHash: bool,
                               hashParameters: Record, searchParameters: Record): (u: UpdatedParameters)
    ensures forall k :: k in Keys(newParameters) ==>
      && k in Keys(Target(u, applyToHash))
      && Get(Target(u, applyToHash), k) == Last(newParameters, k)
      && k !in Keys(Opposing(u, applyToHash))
  {
    var target := if applyToHash then hashParameters else searchParameters;
    var opposing := if applyToHash then searchParameters else hashParameters;
    var opposingWithoutConflicts := RemoveKeys(opposing, Keys(newParameters));
    var updatedTarget := PutAll(target, newParameters);
    PutAllNewKeys(target, newParameters);
    if applyToHash then UpdatedParameters(opposingWithoutConflicts, updatedTarget)
    else UpdatedParameters(updatedTarget, opposingWithoutConflicts)
  }

  /** Every key written by the fold is there with its last written value. */
  lemma PutAllNewKeys(t: Record, n: Record)
    ensures forall k :: k in Keys(n) ==> k in Keys(PutAll(t, n)) && Get(PutAll(t, n), k) == Last(n, k)
  {
    forall k | k in Keys(n) ensures k in Keys(PutAll(t, n)) && Get(PutAll(t, n), k) == Last(n, k) {
      PutAllGet(t, n, k);
    }
  }

  function Target(u: UpdatedParameters, applyToHash: bool): Record
  {
    if applyToHash then u.hash else u.search
  }

  function Opposing(u: UpdatedParameters, applyToHash: bool): Record
  {
    if applyToHash then u.search else u.hash
  }

  /** The updated target: every new key holds its new value; the target's
      other keys keep their values; the target's keys keep their order and
      the new keys follow in the order newParameters lists them. */
  lemma UpdatedTarget(newParameters: Record, applyToHash: bool, hashParameters: Record, searchParameters: Record)
    requires UniqueKeys(newParameters) && UniqueKeys(hashParameters) && UniqueKeys(searchParameters)
    ensures var target := if applyToHash then hashParameters else searchParameters;
      var updated := Target(UpdateUrlParameters(newParameters, applyToHash, hashParameters, searchParameters), applyToHash);
      && UniqueKeys(updated)
      && updated == Overridden(target, newParameters) + RemoveKeys(newParameters, Keys(target))
      && Keys(updated) == Keys(target) + Keys(RemoveKeys(newParameters, Keys(target)))
      && (forall k :: k in Keys(newParameters) ==> k in Keys(updated) && Get(updated, k) == Get(newParameters, k))
      && (forall k :: k in Keys(target) && k !in Keys(newParameters) ==> k in Keys(updated) && Get(updated, k) == Get(target, k))
      && (forall k :: k in Keys(updated) <==> k in Keys(target) || k in Keys(newParameters))
  {
    var target := if applyToHash then hashParameters else searchParameters;
    var updated := PutAll(target, newParameters);
    PutAllKeys(target, newParameters);
    PutAllClosedForm(target, newParameters);
    KeysConcat(Overridden(target, newParameters), RemoveKeys(newParameters, Keys(target)));
    forall k | k in Keys(target) || k in Keys(newParameters)
      ensures k in Keys(updated)
      ensures k in Keys(newParameters) ==> Get(updated, k) == Get(newParameters, k)
      ensures k !in Keys(newParameters) ==> Get(updated, k) == Get(target, k)
    {
      PutAllGet(target, newParameters, k);
      if k in Keys(newParameters) { LastOfUnique(newParameters, k); }
    }
    forall k ensures k in Keys(updated) <==> k in Keys(target) || k in Keys(newParameters) {
      PutAllMembers(target, newParameters, k);
    }
  }

  /** The updated opposing record: the opposing entries whose keys
      newParameters lacks, in their order, and nothing else. */
  lemma UpdatedOpposing(newParameters: Record, applyToHash: bool, hashParameters: Record, searchParameters: Record)
    requires UniqueKeys(hashParameters) && UniqueKeys(searchParameters)
    ensures var opposing := if applyToHash then searchParameters else hashParameters;
      var updated := Opposing(UpdateUrlParameters(newParameters, applyToHash, hashParameters, searchParameters), applyToHash);
      && UniqueKeys(updated)
      && OrderedWithin(updated, opposing)
      && (forall e :: e in updated <==> e in opposing && e.0 !in Keys(newParameters))
      && (forall k :: k in Keys(newParameters) ==> k !in Keys(updated))
      && ((forall k :: k in Keys(newParameters) ==> k !in Keys(opposing)) ==> updated == opposing)
  {
    var opposing := if applyToHash then searchParameters else hashParameters;
    RemoveKeysOrdered(opposing, Keys(newParameters));
    if forall k :: k in Keys(newParameters) ==> k !in Keys(opposing) {
      RemoveAbsentKeys(opposing, Keys(newParameters));
    }
  }

  /** Both updated records have unique keys when the inputs have. */
  lemma UpdatedRecordsUnique(newParameters: Record, applyToHash: bool, hashParameters: Record, searchParameters: Record)
    requires UniqueKeys(hashParameters) && UniqueKeys(searchParameters)
    ensures var updated := UpdateUrlParameters(newParameters, applyToHash, hashParameters, searchParameters);
      UniqueKeys(updated.search) && UniqueKeys(updated.hash)
  {
    PutAllKeys(if applyToHash then hashParameters else searchParameters, newParameters);
    RemoveKeysOrdered(if applyToHash then searchParameters else hashParameters, Keys(newParameters));
  }

  /** The flag only chooses which record is the target. */
  lemma FlagChoosesTarget(newParameters: Record, first: Record, second: Record)
    ensures var toHash := UpdateUrlParameters(newParameters, true, first, second);
      var toSearch := UpdateUrlParameters(newParameters, false, second, first);
      toHash.hash == toSearch.search && toHash.search == toSearch.hash
  {
  }
}
