/**
 * The two read-only views that join the four maps into recency-sorted lists:
 * the groups this browser administers, and its saved participant links.
 */
module Queries {
  import opened Wrappers
  import opened Sequences
  import opened OrderedMaps
  import opened Recency
  import opened Storage

  /** One row of `getRememberedAdminGroups`. */
  datatype AdminGroup = AdminGroup(
    joinCode: string,
    adminCode: string,
    name: string,
    lastViewedAt: Option<nat>,
    ownerParticipantId: Option<string>,
    ownerParticipantName: Option<string>,
    ownerAccessCode: Option<string>)

  /** One row of `getRememberedParticipantLinks`. */
  datatype ParticipantLink = ParticipantLink(
    joinCode: string,
    participantId: string,
    accessCode: string,
    groupName: string,
    participantName: string,
    lastViewedAt: Option<nat>)

  function AdminRecency(g: AdminGroup): nat {
    Timestamp(g.lastViewedAt)
  }

  function LinkRecency(l: ParticipantLink): nat {
    Timestamp(l.lastViewedAt)
  }

  /** The group's profile name, or `Grupo <joinCode>` when it has none. */
  function GroupName(profile: Option<GroupProfile>, joinCode: string): string {
    if profile.Some? && profile.value.name != "" then profile.value.name else DefaultGroupName(joinCode)
  }

  // ---------------------------------------------------------------- groups I administer

  /** The row for one admin-map entry, joined with its profile and the owner's access code. */
  function AdminGroupOf(c: Cache, joinCode: string, adminCode: string): (r: AdminGroup)
    ensures r.joinCode == joinCode && r.adminCode == adminCode && r.name != ""
    ensures r.ownerParticipantName.Some? ==> r.ownerParticipantId.Some?
    ensures r.ownerAccessCode.Some? ==>
      r.ownerParticipantId.Some? && r.ownerAccessCode == GetParticipantAccess(c, r.ownerParticipantId.value)
  {
    var profile := ProfileOf(c, joinCode);
    var owner := if profile.Some? then profile.value.ownerParticipantId else None;
    var participants := if profile.Some? then profile.value.participants else map[];
    var hasOwner := owner.Some? && owner.value != "";
    AdminGroup(
      joinCode,
      adminCode,
      GroupName(profile, joinCode),
      if profile.Some? then profile.value.lastViewedAt else None,
      owner,
      if hasOwner && owner.value in participants then Some(participants[owner.value].name) else None,
      if hasOwner then GetParticipantAccess(c, owner.value) else None)
  }

  /** `Object.entries(adminMap).map(...)`, before sorting. */
  function AdminEntries(c: Cache): seq<AdminGroup> {
    var items := c.adminCodes.Items();
    seq(|items|, i requires 0 <= i < |items| => AdminGroupOf(c, items[i].0, items[i].1))
  }

  /** `getRememberedAdminGroups`. */
  function RememberedAdminGroups(c: Cache): (r: seq<AdminGroup>)
    ensures NonIncreasing(r, AdminRecency)
    ensures multiset(r) == multiset(AdminEntries(c))
  {
    SortByRecency(AdminEntries(c), AdminRecency)
  }

  /** Before sorting, the rows are those of the admin-map keys, one each, in key order. */
  lemma AdminEntriesExact(c: Cache)
    requires c.adminCodes.Valid()
    ensures var e := AdminEntries(c);
      && |e| == |c.adminCodes.order| == |c.adminCodes.entries|
      && (forall i :: 0 <= i < |e| ==>
            e[i] == AdminGroupOf(c, c.adminCodes.order[i], c.adminCodes.entries[c.adminCodes.order[i]]))
      && Distinct(e)
  {
    c.adminCodes.ItemsExact();
    var e := AdminEntries(c);
    forall i, k | 0 <= i < k < |e| ensures e[i] != e[k] {
      assert e[i].joinCode == c.adminCodes.order[i];
      assert e[k].joinCode == c.adminCodes.order[k];
    }
  }

  /** Every row of the admin list is the row of a stored admin code. */
  lemma AdminGroupsSound(c: Cache)
    requires c.adminCodes.Valid()
    ensures var r := RememberedAdminGroups(c);
      forall g :: g in r ==>
        g.joinCode in c.adminCodes.entries && g == AdminGroupOf(c, g.joinCode, c.adminCodes.entries[g.joinCode])
  {
    var e := AdminEntries(c);
    var r := RememberedAdminGroups(c);
    AdminEntriesExact(c);
    PermutationSameElements(e, r);
    forall g | g in r
      ensures g.joinCode in c.adminCodes.entries
      ensures g == AdminGroupOf(c, g.joinCode, c.adminCodes.entries[g.joinCode])
    {
      var i :| 0 <= i < |e| && e[i] == g;
    }
  }

  /** Every stored admin code has its row in the admin list. */
  lemma AdminGroupsComplete(c: Cache)
    requires c.adminCodes.Valid()
    ensures var r := RememberedAdminGroups(c);
      forall j :: j in c.adminCodes.entries ==> AdminGroupOf(c, j, c.adminCodes.entries[j]) in r
  {
    var order, entries := c.adminCodes.order, c.adminCodes.entries;
    var e := AdminEntries(c);
    var r := RememberedAdminGroups(c);
    AdminEntriesExact(c);
    PermutationSameElements(e, r);
    forall j | j in entries ensures AdminGroupOf(c, j, entries[j]) in r {
      var i :| 0 <= i < |order| && order[i] == j;
      assert e[i] in r;
    }
  }

  /**
   * The admin list has exactly one row per stored admin code, each joined from that
   * entry, and is sorted most recent first.
   */
  lemma AdminGroupsExact(c: Cache)
    requires c.adminCodes.Valid()
    ensures var r := RememberedAdminGroups(c);
      && |r| == |c.adminCodes.entries|
      && (forall g :: g in r ==>
            g.joinCode in c.adminCodes.entries && g == AdminGroupOf(c, g.joinCode, c.adminCodes.entries[g.joinCode]))
      && (forall j :: j in c.adminCodes.entries ==> AdminGroupOf(c, j, c.adminCodes.entries[j]) in r)
      && (forall i, k :: 0 <= i < k < |r| ==> r[i].joinCode != r[k].joinCode)
      && NonIncreasing(r, AdminRecency)
  {
    var e := AdminEntries(c);
    var r := RememberedAdminGroups(c);
    AdminEntriesExact(c);
    PermutationSameElements(e, r);
    PermutationKeepsDistinct(e, r);
    AdminGroupsSound(c);
    AdminGroupsComplete(c);
    forall i, k | 0 <= i < k < |r| ensures r[i].joinCode != r[k].joinCode {
      assert r[i] in r && r[k] in r;
    }
  }

  /**
   * In a consistent cache an administered group always has its profile: the row
   * carries the profile's name (or `Grupo <joinCode>`) and timestamp, and a recorded
   * owner resolves to its participant name and its access code.
   */
  lemma AdminGroupResolvesOwner(c: Cache, joinCode: string)
    requires Valid(c)
    requires joinCode in c.adminCodes.entries
    ensures var g := AdminGroupOf(c, joinCode, c.adminCodes.entries[joinCode]);
      var p := c.groupProfiles.entries[joinCode];
      && joinCode in c.groupProfiles.entries
      && g.name == (if p.name != "" then p.name else DefaultGroupName(joinCode))
      && g.lastViewedAt == p.lastViewedAt
      && g.ownerParticipantId == p.ownerParticipantId
      && (p.ownerParticipantId.Some? ==>
            && g.ownerParticipantName == Some(p.participants[p.ownerParticipantId.value].name)
            && g.ownerAccessCode == GetParticipantAccess(c, p.ownerParticipantId.value))
  {
    assert joinCode in c.groupProfiles.entries;
    assert ProfileValid(joinCode, c.groupProfiles.entries[joinCode]);
  }

  // ---------------------------------------------------------------- my participant links

  /** The row for one (group, member) pair, joined with the group's and the member's profile. */
  function LinkOf(c: Cache, joinCode: string, participantId: string, accessCode: string): (r: ParticipantLink)
    ensures r.joinCode == joinCode && r.participantId == participantId && r.accessCode == accessCode
    ensures r.groupName != "" && r.participantName != ""
  {
    var profile := ProfileOf(c, joinCode);
    var participants := if profile.Some? then profile.value.participants else map[];
    var entry := if participantId in participants then Some(participants[participantId]) else None;
    ParticipantLink(
      joinCode,
      participantId,
      accessCode,
      GroupName(profile, joinCode),
      if entry.Some? && entry.value.name != "" then entry.value.name else DefaultParticipantName,
      if entry.Some? then Some(entry.value.lastViewedAt)
      else if profile.Some? then profile.value.lastViewedAt
      else None)
  }

  /** The rows pushed for one id of a group: one when it has an access code, none otherwise. */
  function LinkFor(c: Cache, joinCode: string, participantId: string): seq<ParticipantLink> {
    match StoredAccess(c, participantId)
    case Some(code) => [LinkOf(c, joinCode, participantId, code)]
    case None => []
  }

  /** The rows pushed while walking the ids of one group, in list order. */
  function GroupLinks(c: Cache, joinCode: string, ids: seq<string>): seq<ParticipantLink> {
    if ids == [] then []
    else GroupLinks(c, joinCode, ids[..|ids| - 1]) + LinkFor(c, joinCode, ids[|ids| - 1])
  }

  /** The rows pushed while walking the groups `keys` of the membership map, in that order. */
  function LinkEntries(c: Cache, keys: seq<string>): seq<ParticipantLink> {
    if keys == [] then []
    else
      var j := keys[|keys| - 1];
      LinkEntries(c, keys[..|keys| - 1]) + GroupLinks(c, j, c.groupParticipants.GetOr(j, []))
  }

  /** `getRememberedParticipantLinks`. */
  function RememberedParticipantLinks(c: Cache): (r: seq<ParticipantLink>)
    ensures NonIncreasing(r, LinkRecency)
    ensures multiset(r) == multiset(LinkEntries(c, c.groupParticipants.order))
  {
    SortByRecency(LinkEntries(c, c.groupParticipants.order), LinkRecency)
  }

  /** The pair deserves a saved link: the id is a recorded member of the group and has an access code. */
  ghost predicate Linkable(c: Cache, joinCode: string, participantId: string) {
    && joinCode in c.groupParticipants.entries
    && participantId in c.groupParticipants.entries[joinCode]
    && StoredAccess(c, participantId).Some?
  }

  /**
   * A link row takes the group's profile name (or `Grupo <joinCode>`), the member's
   * profile name (or `Participante`), and the member's own timestamp, falling back to
   * the group's and then to none; in a consistent cache a linkable pair's group always
   * has its profile.
   */
  lemma LinkResolves(c: Cache, joinCode: string, participantId: string, accessCode: string)
    ensures var l := LinkOf(c, joinCode, participantId, accessCode);
      var profile := ProfileOf(c, joinCode);
      && l.groupName == (if profile.Some? && profile.value.name != "" then profile.value.name else DefaultGroupName(joinCode))
      && (profile.Some? && participantId in profile.value.participants ==>
            var entry := profile.value.participants[participantId];
            && l.participantName == (if entry.name != "" then entry.name else DefaultParticipantName)
            && l.lastViewedAt == Some(entry.lastViewedAt))
      && (profile.Some? && participantId !in profile.value.participants ==>
            l.participantName == DefaultParticipantName && l.lastViewedAt == profile.value.lastViewedAt)
      && (profile.None? ==> l.participantName == DefaultParticipantName && l.lastViewedAt == None)
    ensures Valid(c) && Linkable(c, joinCode, participantId) ==> ProfileOf(c, joinCode).Some?
  {
    if Valid(c) && Linkable(c, joinCode, participantId) {
      assert joinCode in c.groupProfiles.entries;
    }
  }

  /** The row a linkable pair is expected to produce. */
  ghost predicate IsLinkRow(c: Cache, l: ParticipantLink) {
    && Linkable(c, l.joinCode, l.participantId)
    && l == LinkOf(c, l.joinCode, l.participantId, StoredAccess(c, l.participantId).value)
  }

  /** Walking a group's ids pushes only rows of linkable pairs of that group, for those ids. */
  lemma {:induction false} GroupLinksSound(c: Cache, joinCode: string, ids: seq<string>)
    requires joinCode in c.groupParticipants.entries
    requires forall id :: id in ids ==> id in c.groupParticipants.entries[joinCode]
    ensures forall l :: l in GroupLinks(c, joinCode, ids) ==> IsLinkRow(c, l) && l.joinCode == joinCode && l.participantId in ids
  {
    if ids != [] {
      var prefix, last := ids[..|ids| - 1], ids[|ids| - 1];
      assert ids == prefix + [last];
      GroupLinksSound(c, joinCode, prefix);
    }
  }

  /** Walking a group's ids pushes a row for every id that has an access code. */
  lemma {:induction false} GroupLinksComplete(c: Cache, joinCode: string, ids: seq<string>)
    ensures forall id :: id in ids && StoredAccess(c, id).Some? ==>
      LinkOf(c, joinCode, id, StoredAccess(c, id).value) in GroupLinks(c, joinCode, ids)
  {
    if ids != [] {
      var prefix, last := ids[..|ids| - 1], ids[|ids| - 1];
      assert ids == prefix + [last];
      GroupLinksComplete(c, joinCode, prefix);
    }
  }

  /** Distinct ids give distinct rows. */
  lemma {:induction false} GroupLinksDistinct(c: Cache, joinCode: string, ids: seq<string>)
    requires Distinct(ids)
    ensures Distinct(GroupLinks(c, joinCode, ids))
    ensures forall l :: l in GroupLinks(c, joinCode, ids) ==> l.participantId in ids
  {
    if ids != [] {
      var prefix, last := ids[..|ids| - 1], ids[|ids| - 1];
      assert ids == prefix + [last];
      GroupLinksDistinct(c, joinCode, prefix);
      var before := GroupLinks(c, joinCode, prefix);
      var after := LinkFor(c, joinCode, last);
      assert last !in prefix;
      assert forall i :: 0 <= i < |before| ==> before[i].participantId in prefix;
      DistinctConcat(before, after);
    }
  }

  lemma {:induction false} LinkEntriesExact(c: Cache, keys: seq<string>)
    requires forall j :: j in keys ==> j in c.groupParticipants.entries
    requires StoresValid(c)
    ensures forall l :: l in LinkEntries(c, keys) ==> IsLinkRow(c, l) && l.joinCode in keys
    ensures forall j, id :: j in keys && Linkable(c, j, id) ==>
      LinkOf(c, j, id, StoredAccess(c, id).value) in LinkEntries(c, keys)
    ensures Distinct(keys) ==> Distinct(LinkEntries(c, keys))
  {
    if keys != [] {
      var prefix, j := keys[..|keys| - 1], keys[|keys| - 1];
      assert keys == prefix + [j];
      LinkEntriesExact(c, prefix);
      var ids := c.groupParticipants.entries[j];
      GroupLinksSound(c, j, ids);
      GroupLinksComplete(c, j, ids);
      GroupLinksDistinct(c, j, ids);
      var before := LinkEntries(c, prefix);
      var after := GroupLinks(c, j, ids);
      if Distinct(keys) {
        assert j !in prefix;
        forall i, k | 0 <= i < k < |before + after| ensures (before + after)[i] != (before + after)[k] {
          if k >= |before| && i < |before| {
            assert (before + after)[i] in before;
            assert (before + after)[k] in after;
          }
        }
      }
    }
  }

  /**
   * The links list has exactly one row per (group, member) pair whose member has an
   * access code, each joined from the profiles, and is sorted most recent first.
   */
  lemma ParticipantLinksExact(c: Cache)
    requires Valid(c)
    ensures var r := RememberedParticipantLinks(c);
      && (forall l :: l in r ==> IsLinkRow(c, l))
      && (forall j, id :: Linkable(c, j, id) ==> LinkOf(c, j, id, StoredAccess(c, id).value) in r)
      && (forall i, k :: 0 <= i < k < |r| ==>
            r[i].joinCode != r[k].joinCode || r[i].participantId != r[k].participantId)
      && NonIncreasing(r, LinkRecency)
  {
    var keys := c.groupParticipants.order;
    var entries := LinkEntries(c, keys);
    var r := RememberedParticipantLinks(c);
    LinkEntriesExact(c, keys);
    PermutationKeepsDistinct(entries, r);
    forall l | l in r ensures IsLinkRow(c, l) {
      assert l in multiset(entries);
    }
    forall j, id | Linkable(c, j, id) ensures LinkOf(c, j, id, StoredAccess(c, id).value) in r {
      assert j in keys;
      assert LinkOf(c, j, id, StoredAccess(c, id).value) in multiset(entries);
    }
    forall i, k | 0 <= i < k < |r|
      ensures r[i].joinCode != r[k].joinCode || r[i].participantId != r[k].participantId
    {
      assert IsLinkRow(c, r[i]) && IsLinkRow(c, r[k]);
    }
  }

  /** A member id that was never given an access code never appears among the links. */
  lemma NoLinkWithoutAccess(c: Cache, participantId: string)
    requires Valid(c)
    requires StoredAccess(c, participantId) == None
    ensures forall l :: l in RememberedParticipantLinks(c) ==> l.participantId != participantId
  {
    ParticipantLinksExact(c);
  }
}
