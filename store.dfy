/**
 * The cache as the browser holds it: one object whose four fields are the four
 * persisted maps, updated in place by each exported operation. Every operation
 * is proved to leave the store in exactly the state the value model in Storage
 * prescribes, and to keep the store's consistency.
 */
module BrowserStore {
  import opened Wrappers
  import opened Sequences
  import opened OrderedMaps
  import opened Recency
  import opened Storage
  import Queries

  /** `ids.forEach((id) => { delete codes[id]; })`: every listed key is gone, nothing else is. */
  method DeleteEach(codes: OrderedMap<string, string>, ids: seq<string>) returns (r: OrderedMap<string, string>)
    ensures r == codes.RemoveAll(Elements(ids))
  {
    r := codes;
    codes.RemoveNone();
    assert Elements(ids[..0]) == {};
    var i := 0;
    while i < |ids|
      invariant 0 <= i <= |ids|
      invariant r == codes.RemoveAll(Elements(ids[..i]))
    {
      var id := ids[i];
      assert ids[..i + 1] == ids[..i] + [id];
      ElementsAppend(ids[..i], id);
      codes.RemoveAllRemoveAll(Elements(ids[..i]), {id});
      r := r.Remove(id);
      i := i + 1;
    }
    assert ids[..i] == ids;
  }

  /**
   * The inner loop of `getRememberedParticipantLinks`: walk one group's ids in list
   * order and push a row for every id that has an access code.
   */
  method CollectGroupLinks(c: Cache, joinCode: string, participantIds: seq<string>)
    returns (rows: seq<Queries.ParticipantLink>)
    ensures rows == Queries.GroupLinks(c, joinCode, participantIds)
  {
    rows := [];
    var k := 0;
    while k < |participantIds|
      invariant 0 <= k <= |participantIds|
      invariant rows == Queries.GroupLinks(c, joinCode, participantIds[..k])
    {
      var participantId := participantIds[k];
      assert participantIds[..k + 1][..k] == participantIds[..k];
      var accessCode := c.participantCodes.GetOr(participantId, "");
      if accessCode != "" {
        rows := rows + [Queries.LinkOf(c, joinCode, participantId, accessCode)];
      }
      k := k + 1;
    }
    assert participantIds[..k] == participantIds;
  }

  class Store {
    var adminCodes: OrderedMap<string, string>
    var participantCodes: OrderedMap<string, string>
    var groupParticipants: OrderedMap<string, seq<string>>
    var groupProfiles: OrderedMap<string, GroupProfile>

    /** The four maps as a value. */
    function Snapshot(): Cache
      reads this
    {
      Cache(adminCodes, participantCodes, groupParticipants, groupProfiles)
    }

    ghost predicate Valid()
      reads this
    {
      Storage.Valid(Snapshot())
    }

    /** A browser with nothing stored yet: every map reads as `{}`. */
    constructor()
      ensures Snapshot() == EmptyCache
      ensures Valid()
    {
      adminCodes := OrderedMap(map[], []);
      participantCodes := OrderedMap(map[], []);
      groupParticipants := OrderedMap(map[], []);
      groupProfiles := OrderedMap(map[], []);
      EmptyCacheValid();
    }

    /** `rememberGroupProfile`. */
    method RememberGroupProfile(joinCode: string, name: string, now: nat)
      modifies this
      ensures Snapshot() == Storage.RememberGroupProfile(old(Snapshot()), joinCode, name, now)
      ensures old(Valid()) ==> Valid()
    {
      RememberGroupProfileValid(Snapshot(), joinCode, name, now);
      if joinCode == "" {
        return;
      }
      var normalized := NormalizeCode(joinCode);
      var profile := EnsureProfile(groupProfiles, normalized);
      if name != "" {
        profile := profile.(name := name);
      }
      profile := profile.(lastViewedAt := Some(now));
      groupProfiles := groupProfiles.Put(normalized, profile);
    }

    /** `rememberParticipantProfile`. */
    method RememberParticipantProfile(joinCode: string, participant: Participant, now: nat)
      modifies this
      ensures Snapshot() == Storage.RememberParticipantProfile(old(Snapshot()), joinCode, participant, now)
      ensures old(Valid()) ==> Valid()
    {
      RememberParticipantProfileValid(Snapshot(), joinCode, participant, now);
      if joinCode == "" || participant.id == "" {
        return;
      }
      var normalized := NormalizeCode(joinCode);
      var profile := EnsureProfile(groupProfiles, normalized);
      var entry := ParticipantProfile(
        participant.id,
        if participant.name != "" then participant.name else DefaultParticipantName,
        now);
      profile := profile.(participants := profile.participants[participant.id := entry]);
      if participant.isOwner {
        profile := profile.(ownerParticipantId := Some(participant.id));
      }
      groupProfiles := groupProfiles.Put(normalized, profile);
    }

    /** `rememberAdminCode`: write the admin map, then touch the profile. */
    method RememberAdminCode(joinCode: string, adminCode: string, name: string, now: nat)
      modifies this
      ensures Snapshot() == Storage.RememberAdminCode(old(Snapshot()), joinCode, adminCode, name, now)
      ensures old(Valid()) ==> Valid()
    {
      if old(Valid()) {
        RememberAdminCodeValid(Snapshot(), joinCode, adminCode, name, now);
      }
      if joinCode == "" || adminCode == "" {
        return;
      }
      var normalized := NormalizeCode(joinCode);
      adminCodes := adminCodes.Put(normalized, NormalizeCode(adminCode));
      RememberGroupProfile(normalized, name, now);
    }

    /** `rememberParticipantAccess`. */
    method RememberParticipantAccess(participantId: string, accessCode: string)
      modifies this
      ensures Snapshot() == Storage.RememberParticipantAccess(old(Snapshot()), participantId, accessCode)
      ensures old(Valid()) ==> Valid()
    {
      if old(Valid()) {
        RememberParticipantAccessValid(Snapshot(), participantId, accessCode);
      }
      if participantId == "" || accessCode == "" {
        return;
      }
      participantCodes := participantCodes.Put(participantId, NormalizeCode(accessCode));
    }

    /**
     * `rememberParticipantForGroup`: add the id to the group's list, forward a full
     * record to the profile cache, then touch the group's profile.
     */
    method RememberParticipantForGroup(joinCode: string, participant: ParticipantRef, now: nat)
      modifies this
      ensures Snapshot() == Storage.RememberParticipantForGroup(old(Snapshot()), joinCode, participant, now)
      ensures old(Valid()) ==> Valid()
    {
      if old(Valid()) {
        RememberParticipantForGroupValid(Snapshot(), joinCode, participant, now);
      }
      if joinCode == "" {
        return;
      }
      var normalized := NormalizeCode(joinCode);
      var participantId := participant.Id();
      if participantId == "" {
        return;
      }
      var current := groupParticipants.GetOr(normalized, []);
      groupParticipants := groupParticipants.Put(normalized, Dedup(current + [participantId]));
      ghost var added := Snapshot();
      assert added == old(Snapshot()).(groupParticipants := old(Snapshot()).groupParticipants.Put(normalized, Dedup(current + [participantId])));
      if participant.ByRecord? {
        RememberParticipantProfile(normalized, participant.participant, now);
      }
      assert Snapshot() == if participant.ByRecord? then Storage.RememberParticipantProfile(added, normalized, participant.participant, now) else added;
      RememberGroupProfile(normalized, "", now);
    }

    /**
     * `forgetGroup`: delete the admin code and the member list, then the access code
     * of each listed id one by one, then the profile.
     */
    method ForgetGroup(joinCode: string)
      modifies this
      ensures Snapshot() == Storage.ForgetGroup(old(Snapshot()), joinCode)
      ensures old(Valid()) ==> Valid()
    {
      if old(Valid()) {
        ForgetGroupValid(Snapshot(), joinCode);
      }
      if joinCode == "" {
        return;
      }
      var normalized := NormalizeCode(joinCode);
      adminCodes := adminCodes.Remove(normalized);
      var participantIds := groupParticipants.GetOr(normalized, []);
      groupParticipants := groupParticipants.Remove(normalized);
      if |participantIds| > 0 {
        participantCodes := DeleteEach(participantCodes, participantIds);
      }
      groupProfiles := groupProfiles.Remove(normalized);
    }

    /**
     * `getRememberedParticipantLinks`: walk the groups in key order and each group's
     * ids in list order, push a row for every id with an access code, then sort
     * most recent first.
     */
    method RememberedParticipantLinks() returns (links: seq<Queries.ParticipantLink>)
      ensures links == Queries.RememberedParticipantLinks(Snapshot())
    {
      var c := Snapshot();
      var groups := c.groupParticipants.order;
      var entries: seq<Queries.ParticipantLink> := [];
      var g := 0;
      while g < |groups|
        invariant 0 <= g <= |groups|
        invariant entries == Queries.LinkEntries(c, groups[..g])
      {
        var joinCode := groups[g];
        var rows := CollectGroupLinks(c, joinCode, c.groupParticipants.GetOr(joinCode, []));
        assert groups[..g + 1][..g] == groups[..g];
        entries := entries + rows;
        g := g + 1;
      }
      assert groups[..g] == groups;
      links := SortByRecency(entries, Queries.LinkRecency);
    }
  }
}
