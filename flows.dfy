/**
 * The fixed sequences in which the pages call the cache, replayed on the model:
 * creating a group (owner) and joining one (guest).
 */
module Flows {
  import opened Wrappers
  import opened Recency
  import opened Storage
  import opened Queries

  /** Creating a group: admin code, the host's access code, then the host as owning member. */
  function AfterCreate(c: Cache, joinCode: string, adminCode: string, groupName: string,
                       host: Participant, hostAccessCode: string, now: nat): Cache
  {
    var withAdmin := RememberAdminCode(c, joinCode, adminCode, groupName, now);
    var withAccess := RememberParticipantAccess(withAdmin, host.id, hostAccessCode);
    RememberParticipantForGroup(withAccess, joinCode, ByRecord(host.(isOwner := true)), now)
  }

  /** Joining a group: the guest's access code, then the guest as member. */
  function AfterJoin(c: Cache, joinCode: string, guest: Participant, accessCode: string, now: nat): Cache {
    var withAccess := RememberParticipantAccess(c, guest.id, accessCode);
    RememberParticipantForGroup(withAccess, joinCode, ByRecord(guest), now)
  }

  /** The admin step of the create sequence. */
  lemma AdminStep(c: Cache, joinCode: string, adminCode: string, groupName: string, now: nat)
    requires Valid(c)
    requires joinCode != "" && adminCode != ""
    ensures var w := RememberAdminCode(c, joinCode, adminCode, groupName, now);
      var n := NormalizeCode(joinCode);
      && Valid(w)
      && n in w.adminCodes.entries && w.adminCodes.entries[n] == NormalizeCode(adminCode)
      && n in w.groupProfiles.entries
      && (groupName != "" ==> w.groupProfiles.entries[n].name == groupName)
  {
    RememberAdminCodeValid(c, joinCode, adminCode, groupName, now);
    RememberAdminCodeTouchesProfile(c, joinCode, adminCode, groupName, now);
    AdminCodeRoundTrip(c, joinCode, adminCode, groupName, now, joinCode);
  }

  /** The membership step shared by both sequences, for a member whose access code is stored. */
  lemma MemberStep(w: Cache, joinCode: string, p: Participant, now: nat)
    requires Valid(w)
    requires joinCode != "" && p.id != ""
    ensures var r := RememberParticipantForGroup(w, joinCode, ByRecord(p), now);
      var n := NormalizeCode(joinCode);
      && Valid(r)
      && n in r.groupParticipants.entries && p.id in r.groupParticipants.entries[n]
      && n in r.groupProfiles.entries
      && r.groupProfiles.entries[n] == MembershipTouch(EnsureProfile(w.groupProfiles, n), ByRecord(p), now)
      && r.adminCodes == w.adminCodes && r.participantCodes == w.participantCodes
      && p.id in r.groupProfiles.entries[n].participants
      && r.groupProfiles.entries[n].participants[p.id]
           == ParticipantProfile(p.id, if p.name != "" then p.name else DefaultParticipantName, now)
      && (StoredAccess(w, p.id).Some? ==> Linkable(r, n, p.id))
  {
    RememberParticipantForGroupValid(w, joinCode, ByRecord(p), now);
    RememberParticipantForGroupEffect(w, joinCode, ByRecord(p), now);
    MembershipProfiles(w, joinCode, ByRecord(p), now);
  }

  /** The access step shared by both sequences. */
  lemma AccessStep(c: Cache, participantId: string, accessCode: string)
    requires Valid(c)
    requires participantId != "" && accessCode != ""
    ensures var w := RememberParticipantAccess(c, participantId, accessCode);
      && Valid(w)
      && StoredAccess(w, participantId) == Some(NormalizeCode(accessCode))
  {
    RememberParticipantAccessValid(c, participantId, accessCode);
  }

  /** What the create sequence leaves in the four maps for the new group. */
  lemma CreateState(c: Cache, joinCode: string, adminCode: string, groupName: string,
                    host: Participant, hostAccessCode: string, now: nat)
    requires Valid(c)
    requires joinCode != "" && adminCode != "" && host.id != "" && hostAccessCode != ""
    ensures var r := AfterCreate(c, joinCode, adminCode, groupName, host, hostAccessCode, now);
      var n := NormalizeCode(joinCode);
      && Valid(r)
      && n in r.adminCodes.entries && r.adminCodes.entries[n] == NormalizeCode(adminCode)
      && n in r.groupProfiles.entries
      && r.groupProfiles.entries[n].ownerParticipantId == Some(host.id)
      && host.id in r.groupProfiles.entries[n].participants
      && r.groupProfiles.entries[n].participants[host.id].name
           == (if host.name != "" then host.name else DefaultParticipantName)
      && r.groupProfiles.entries[n].lastViewedAt == Some(now)
      && (groupName != "" ==> r.groupProfiles.entries[n].name == groupName)
      && StoredAccess(r, host.id) == Some(NormalizeCode(hostAccessCode))
      && Linkable(r, n, host.id)
  {
    var n := NormalizeCode(joinCode);
    var owner := host.(isOwner := true);
    var withAdmin := RememberAdminCode(c, joinCode, adminCode, groupName, now);
    var withAccess := RememberParticipantAccess(withAdmin, host.id, hostAccessCode);
    AdminStep(c, joinCode, adminCode, groupName, now);
    AccessStep(withAdmin, host.id, hostAccessCode);
    MemberStep(withAccess, joinCode, owner, now);
  }

  /**
   * Owner resolution: after the create sequence the admin list holds the group with
   * the host as owner, the host's access code, the host's name and the current time,
   * and the host's saved link is listed too.
   */
  lemma CreatedGroupIsListed(c: Cache, joinCode: string, adminCode: string, groupName: string,
                             host: Participant, hostAccessCode: string, now: nat)
    requires Valid(c)
    requires joinCode != "" && adminCode != "" && host.id != "" && hostAccessCode != ""
    ensures var r := AfterCreate(c, joinCode, adminCode, groupName, host, hostAccessCode, now);
      var n := NormalizeCode(joinCode);
      var g := AdminGroupOf(r, n, NormalizeCode(adminCode));
      && g in RememberedAdminGroups(r)
      && g.ownerParticipantId == Some(host.id)
      && g.ownerParticipantName == Some(if host.name != "" then host.name else DefaultParticipantName)
      && g.ownerAccessCode == Some(NormalizeCode(hostAccessCode))
      && g.lastViewedAt == Some(now)
      && (groupName != "" ==> g.name == groupName)
      && LinkOf(r, n, host.id, NormalizeCode(hostAccessCode)) in RememberedParticipantLinks(r)
  {
    var r := AfterCreate(c, joinCode, adminCode, groupName, host, hostAccessCode, now);
    CreateState(c, joinCode, adminCode, groupName, host, hostAccessCode, now);
    AdminGroupsExact(r);
    ParticipantLinksExact(r);
  }

  /** What the join sequence leaves in the four maps for the guest. */
  lemma JoinState(c: Cache, joinCode: string, guest: Participant, accessCode: string, now: nat)
    requires Valid(c)
    requires joinCode != "" && guest.id != "" && accessCode != ""
    ensures var r := AfterJoin(c, joinCode, guest, accessCode, now);
      var n := NormalizeCode(joinCode);
      && Valid(r)
      && Linkable(r, n, guest.id)
      && StoredAccess(r, guest.id) == Some(NormalizeCode(accessCode))
      && n in r.groupProfiles.entries
      && guest.id in r.groupProfiles.entries[n].participants
      && r.groupProfiles.entries[n].participants[guest.id]
           == ParticipantProfile(guest.id, if guest.name != "" then guest.name else DefaultParticipantName, now)
  {
    var withAccess := RememberParticipantAccess(c, guest.id, accessCode);
    AccessStep(c, guest.id, accessCode);
    MemberStep(withAccess, joinCode, guest, now);
  }

  /**
   * After the join sequence the guest's saved link is listed, under its own name
   * (or `Participante`) and stamped with the current time.
   */
  lemma JoinedGroupIsLinked(c: Cache, joinCode: string, guest: Participant, accessCode: string, now: nat)
    requires Valid(c)
    requires joinCode != "" && guest.id != "" && accessCode != ""
    ensures var r := AfterJoin(c, joinCode, guest, accessCode, now);
      var l := LinkOf(r, NormalizeCode(joinCode), guest.id, NormalizeCode(accessCode));
      && l in RememberedParticipantLinks(r)
      && l.participantName == (if guest.name != "" then guest.name else DefaultParticipantName)
      && l.lastViewedAt == Some(now)
  {
    var r := AfterJoin(c, joinCode, guest, accessCode, now);
    JoinState(c, joinCode, guest, accessCode, now);
    ParticipantLinksExact(r);
  }
}
