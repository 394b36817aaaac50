/** Votes and the entities that cast them. */
module Votes {

  datatype EntityType = User | Agent

  datatype EntityRef = EntityRef(entityType: EntityType, entityId: string)

  datatype Ballot = Approve(groups: seq<string>) | Veto | Withdraw

  datatype Vote = Vote(id: string, voter: EntityRef, castedAt: int, ballot: Ballot)

  function EntityTag(t: EntityType): string {
    match t
    case User => "user"
    case Agent => "agent"
  }

  // The key under which an entity is filed, in the replay of votes and in group memberships alike.
  function NormalizedId(e: EntityRef): string {
    EntityTag(e.entityType) + ":" + e.entityId
  }

  // A user and an agent that happen to carry the same identifier never share a key.
  lemma NormalizedIdInjective(a: EntityRef, b: EntityRef)
    ensures NormalizedId(a) == NormalizedId(b) <==> a == b
  {
    var ka, kb := NormalizedId(a), NormalizedId(b);
    assert ka[0] == EntityTag(a.entityType)[0] && kb[0] == EntityTag(b.entityType)[0];
    assert ka[|EntityTag(a.entityType)| + 1..] == a.entityId;
    assert kb[|EntityTag(b.entityType)| + 1..] == b.entityId;
  }

  function Key(v: Vote): string {
    NormalizedId(v.voter)
  }

  predicate ApprovesGroup(b: Ballot, g: string) {
    b.Approve? && g in b.groups
  }
}
