/**
 * The browser-side credential and membership cache, as values: the four persisted
 * maps (admin codes, participant access codes, group memberships, group profiles),
 * one pure transition per exported operation, the lookups, and the invariant the
 * operations keep. The mutable store in BrowserStore is proved against these.
 *
 * JavaScript's falsy inputs (`''`, `null`, `undefined`) are the empty string here.
 */
module Storage {
  import opened Wrappers
  import opened Ascii
  import opened Sequences
  import opened OrderedMaps

  const DefaultParticipantName := "Participante"

  /** `Grupo ${joinCode}`: the name shown for a group whose profile has none. */
  function DefaultGroupName(joinCode: string): string {
    "Grupo " + joinCode
  }

  /** What a profile remembers about one participant identity of the group. */
  datatype ParticipantProfile = ParticipantProfile(id: string, name: string, lastViewedAt: nat)

  /** The display profile of a group; an empty `name` is an absent one. */
  datatype GroupProfile = GroupProfile(
    joinCode: string,
    name: string,
    lastViewedAt: Option<nat>,
    ownerParticipantId: Option<string>,
    participants: map<string, ParticipantProfile>)

  /** A participant record as the groups API returns it. */
  datatype Participant = Participant(id: string, name: string, isOwner: bool)

  /** The second argument of `rememberParticipantForGroup`: a bare id or a participant record. */
  datatype ParticipantRef = ById(id: string) | ByRecord(participant: Participant) {
    function Id(): string {
      match this
      case ById(id) => id
      case ByRecord(p) => p.id
    }
  }

  /** The four persisted maps. */
  datatype Cache = Cache(
    adminCodes: OrderedMap<string, string>,
    participantCodes: OrderedMap<string, string>,
    groupParticipants: OrderedMap<string, seq<string>>,
    groupProfiles: OrderedMap<string, GroupProfile>)

  const EmptyCache := Cache(OrderedMap(map[], []), OrderedMap(map[], []), OrderedMap(map[], []), OrderedMap(map[], []))

  /** `normalizeCode`: join codes and secret codes are compared upper-cased. */
  function NormalizeCode(code: string): (r: string)
    ensures IsUpperCase(r)
    ensures r == "" <==> code == ""
    ensures IsUpperCase(code) ==> r == code
  {
    Upper(code)
  }

  /** Two codes name the same entry exactly when they differ at most in ASCII letter case. */
  lemma NormalizeCodeIgnoresCase(a: string, b: string)
    ensures NormalizeCode(a) == NormalizeCode(b) <==> EqualIgnoringCase(a, b)
  {
    UpperIgnoresCase(a, b);
  }

  /** A stored code: present and upper-case. */
  predicate IsCode(s: string) {
    s != "" && IsUpperCase(s)
  }

  // ---------------------------------------------------------------- invariant

  ghost predicate ProfileValid(joinCode: string, p: GroupProfile) {
    && p.joinCode == joinCode
    && (p.ownerParticipantId.Some? ==> p.ownerParticipantId.value in p.participants)
    && forall id :: id in p.participants ==>
         id != "" && p.participants[id].id == id && p.participants[id].name != ""
  }

  /** Every administered group has a profile. */
  ghost predicate AdminHasProfile(c: Cache) {
    c.adminCodes.entries.Keys <= c.groupProfiles.entries.Keys
  }

  /** Every group with recorded members has a profile. */
  ghost predicate MembershipHasProfile(c: Cache) {
    c.groupParticipants.entries.Keys <= c.groupProfiles.entries.Keys
  }

  /** Each map on its own: key order, upper-case join codes, present codes, repetition-free member lists, well-formed profiles. */
  ghost predicate StoresValid(c: Cache) {
    && c.adminCodes.Valid() && c.participantCodes.Valid()
    && c.groupParticipants.Valid() && c.groupProfiles.Valid()
    && (forall j :: j in c.adminCodes.entries ==> IsCode(j) && IsCode(c.adminCodes.entries[j]))
    && (forall id :: id in c.participantCodes.entries ==> id != "" && IsCode(c.participantCodes.entries[id]))
    && (forall j :: j in c.groupParticipants.entries ==>
          IsCode(j) && Distinct(c.groupParticipants.entries[j]) && "" !in c.groupParticipants.entries[j])
    && (forall j :: j in c.groupProfiles.entries ==> IsCode(j) && ProfileValid(j, c.groupProfiles.entries[j]))
  }

  /** The consistency the cache keeps across all four maps. */
  ghost predicate Valid(c: Cache) {
    StoresValid(c) && AdminHasProfile(c) && MembershipHasProfile(c)
  }

  lemma EmptyCacheValid()
    ensures Valid(EmptyCache)
  {
  }

  // ---------------------------------------------------------------- lookups

  /** `getAdminCode`. */
  function GetAdminCode(c: Cache, joinCode: string): (r: Option<string>)
    ensures r.Some? <==>
      joinCode != "" && NormalizeCode(joinCode) in c.adminCodes.entries
      && c.adminCodes.entries[NormalizeCode(joinCode)] != ""
    ensures r.Some? ==> r.value == c.adminCodes.entries[NormalizeCode(joinCode)]
  {
    if joinCode == "" then None
    else
      match c.adminCodes.Get(NormalizeCode(joinCode))
      case Some(code) => if code != "" then Some(code) else None
      case None => None
  }

  /** The stored access code of an id, if it has a non-empty one (read without checking the id). */
  function StoredAccess(c: Cache, participantId: string): (r: Option<string>)
    ensures r.Some? <==> participantId in c.participantCodes.entries && c.participantCodes.entries[participantId] != ""
    ensures r.Some? ==> r.value == c.participantCodes.entries[participantId]
  {
    match c.participantCodes.Get(participantId)
    case Some(code) => if code != "" then Some(code) else None
    case None => None
  }

  /** `getParticipantAccess`: participant ids are used as given, without normalisation. */
  function GetParticipantAccess(c: Cache, participantId: string): (r: Option<string>)
    ensures r.Some? <==>
      participantId != "" && participantId in c.participantCodes.entries
      && c.participantCodes.entries[participantId] != ""
    ensures r.Some? ==> r.value == c.participantCodes.entries[participantId]
  {
    if participantId == "" then None else StoredAccess(c, participantId)
  }

  /** `getKnownParticipantsForGroup`. */
  function GetKnownParticipantsForGroup(c: Cache, joinCode: string): (r: seq<string>)
    ensures joinCode != "" && NormalizeCode(joinCode) in c.groupParticipants.entries ==>
      r == c.groupParticipants.entries[NormalizeCode(joinCode)]
    ensures joinCode == "" || NormalizeCode(joinCode) !in c.groupParticipants.entries ==> r == []
  {
    if joinCode == "" then [] else c.groupParticipants.GetOr(NormalizeCode(joinCode), [])
  }

  /**
   * In a consistent cache the lookups return present, upper-case codes and
   * repetition-free lists without empty ids, and a join code is looked up the same
   * way in any casing.
   */
  lemma LookupsAgree(c: Cache, joinCode: string, otherCasing: string, participantId: string)
    requires Valid(c)
    requires NormalizeCode(otherCasing) == NormalizeCode(joinCode)
    ensures GetAdminCode(c, joinCode).Some? ==> IsCode(GetAdminCode(c, joinCode).value)
    ensures GetParticipantAccess(c, participantId).Some? ==> IsCode(GetParticipantAccess(c, participantId).value)
    ensures Distinct(GetKnownParticipantsForGroup(c, joinCode)) && "" !in GetKnownParticipantsForGroup(c, joinCode)
    ensures GetAdminCode(c, otherCasing) == GetAdminCode(c, joinCode)
    ensures GetKnownParticipantsForGroup(c, otherCasing) == GetKnownParticipantsForGroup(c, joinCode)
  {
    assert otherCasing == "" <==> joinCode == "";
  }

  /** The stored profile of a normalised join code, if any. */
  function ProfileOf(c: Cache, normalized: string): Option<GroupProfile> {
    c.groupProfiles.Get(normalized)
  }

  /** The name a profile has before an operation touches it (empty when there is no profile yet). */
  function NameBefore(c: Cache, normalized: string): string {
    match ProfileOf(c, normalized)
    case Some(p) => p.name
    case None => ""
  }

  // ---------------------------------------------------------------- profile cache

  /** `ensureProfile`: the stored profile, or a new one with no participants. */
  function EnsureProfile(profiles: OrderedMap<string, GroupProfile>, normalized: string): (p: GroupProfile)
    ensures normalized in profiles.entries ==> p == profiles.entries[normalized]
    ensures normalized !in profiles.entries ==>
      p.joinCode == normalized && p.name == "" && p.lastViewedAt == None
      && p.ownerParticipantId == None && p.participants == map[]
  {
    if normalized in profiles.entries then profiles.entries[normalized]
    else GroupProfile(normalized, "", None, None, map[])
  }

  /** A profile after a visit: renamed only when a name is given, stamped `now`. */
  function Touch(profile: GroupProfile, name: string, now: nat): GroupProfile {
    profile.(name := if name != "" then name else profile.name, lastViewedAt := Some(now))
  }

  /** A profile after recording a participant: its entry replaced, and its ownership taken over when the record says so. */
  function RecordParticipant(profile: GroupProfile, p: Participant, now: nat): GroupProfile {
    var entry := ParticipantProfile(p.id, if p.name != "" then p.name else DefaultParticipantName, now);
    profile.(participants := profile.participants[p.id := entry],
             ownerParticipantId := if p.isOwner then Some(p.id) else profile.ownerParticipantId)
  }

  lemma EnsureProfileValid(profiles: OrderedMap<string, GroupProfile>, normalized: string)
    requires normalized in profiles.entries ==> ProfileValid(normalized, profiles.entries[normalized])
    ensures ProfileValid(normalized, EnsureProfile(profiles, normalized))
  {
  }

  /** Recording a participant with an id keeps a profile well-formed: the owner stays one of the participants. */
  lemma RecordParticipantValid(joinCode: string, profile: GroupProfile, p: Participant, now: nat)
    requires ProfileValid(joinCode, profile) && p.id != ""
    ensures ProfileValid(joinCode, RecordParticipant(profile, p, now))
  {
  }

  /** Storing a well-formed profile under a code keeps the maps well-formed and adds exactly that key. */
  lemma PutProfile(c: Cache, normalized: string, profile: GroupProfile)
    requires StoresValid(c) && IsCode(normalized) && ProfileValid(normalized, profile)
    ensures var r := c.(groupProfiles := c.groupProfiles.Put(normalized, profile));
      && StoresValid(r)
      && r.groupProfiles.entries.Keys == c.groupProfiles.entries.Keys + {normalized}
  {
  }

  /**
   * `rememberGroupProfile`: ensure the profile, set its name when one is given,
   * and stamp it with the current time.
   */
  function RememberGroupProfile(c: Cache, joinCode: string, name: string, now: nat): (r: Cache)
    ensures joinCode == "" ==> r == c
    ensures r.adminCodes == c.adminCodes && r.participantCodes == c.participantCodes
    ensures r.groupParticipants == c.groupParticipants
    ensures joinCode != "" ==> r.groupProfiles.entries.Keys == c.groupProfiles.entries.Keys + {NormalizeCode(joinCode)}
  {
    if joinCode == "" then c
    else
      var n := NormalizeCode(joinCode);
      c.(groupProfiles := c.groupProfiles.Put(n, Touch(EnsureProfile(c.groupProfiles, n), name, now)))
  }

  /**
   * After a touch the group has a profile stamped `now`, renamed only when a name
   * was given, with its participants and owner as they were; no other profile changes.
   */
  lemma RememberGroupProfileEffect(c: Cache, joinCode: string, name: string, now: nat)
    requires joinCode != ""
    ensures var n := NormalizeCode(joinCode);
      var r := RememberGroupProfile(c, joinCode, name, now);
      && n in r.groupProfiles.entries
      && r.groupProfiles.entries[n].lastViewedAt == Some(now)
      && r.groupProfiles.entries[n].name == (if name != "" then name else NameBefore(c, n))
      && r.groupProfiles.entries[n].participants == EnsureProfile(c.groupProfiles, n).participants
      && r.groupProfiles.entries[n].ownerParticipantId == EnsureProfile(c.groupProfiles, n).ownerParticipantId
      && forall j :: j != n ==> r.groupProfiles.Get(j) == c.groupProfiles.Get(j)
  {
  }

  lemma RememberGroupProfileValid(c: Cache, joinCode: string, name: string, now: nat)
    ensures StoresValid(c) ==> StoresValid(RememberGroupProfile(c, joinCode, name, now))
    ensures Valid(c) ==> Valid(RememberGroupProfile(c, joinCode, name, now))
  {
    if joinCode != "" && StoresValid(c) {
      var n := NormalizeCode(joinCode);
      var p := EnsureProfile(c.groupProfiles, n);
      EnsureProfileValid(c.groupProfiles, n);
      PutProfile(c, n, Touch(p, name, now));
    }
  }

  /**
   * `rememberParticipantProfile`: record the participant's name (`Participante`
   * when it has none) and the current time under its id, and make it the owner when
   * the record says so.
   */
  function RememberParticipantProfile(c: Cache, joinCode: string, p: Participant, now: nat): (r: Cache)
    ensures joinCode == "" || p.id == "" ==> r == c
    ensures r.adminCodes == c.adminCodes && r.participantCodes == c.participantCodes
    ensures r.groupParticipants == c.groupParticipants
    ensures joinCode != "" && p.id != "" ==>
      r.groupProfiles.entries.Keys == c.groupProfiles.entries.Keys + {NormalizeCode(joinCode)}
  {
    if joinCode == "" || p.id == "" then c
    else
      var n := NormalizeCode(joinCode);
      c.(groupProfiles := c.groupProfiles.Put(n, RecordParticipant(EnsureProfile(c.groupProfiles, n), p, now)))
  }

  /**
   * The participant's entry is replaced by its name (or `Participante`) and `now`;
   * an owner record becomes the group's owner; the group's own name and timestamp
   * are untouched, and so is every other profile.
   */
  lemma RememberParticipantProfileEffect(c: Cache, joinCode: string, p: Participant, now: nat)
    requires joinCode != "" && p.id != ""
    ensures var n := NormalizeCode(joinCode);
      var r := RememberParticipantProfile(c, joinCode, p, now);
      var before := EnsureProfile(c.groupProfiles, n);
      && n in r.groupProfiles.entries
      && r.groupProfiles.entries[n].participants == before.participants[p.id :=
           ParticipantProfile(p.id, if p.name != "" then p.name else DefaultParticipantName, now)]
      && r.groupProfiles.entries[n].ownerParticipantId == (if p.isOwner then Some(p.id) else before.ownerParticipantId)
      && r.groupProfiles.entries[n].name == NameBefore(c, n)
      && r.groupProfiles.entries[n].lastViewedAt == before.lastViewedAt
      && forall j :: j != n ==> r.groupProfiles.Get(j) == c.groupProfiles.Get(j)
  {
  }

  /** The owner a profile names is always one of its participants. */
  lemma RememberParticipantProfileValid(c: Cache, joinCode: string, p: Participant, now: nat)
    ensures StoresValid(c) ==> StoresValid(RememberParticipantProfile(c, joinCode, p, now))
    ensures Valid(c) ==> Valid(RememberParticipantProfile(c, joinCode, p, now))
  {
    if joinCode != "" && p.id != "" && StoresValid(c) {
      var n := NormalizeCode(joinCode);
      var before := EnsureProfile(c.groupProfiles, n);
      EnsureProfileValid(c.groupProfiles, n);
      RecordParticipantValid(n, before, p, now);
      PutProfile(c, n, RecordParticipant(before, p, now));
    }
  }

  // ---------------------------------------------------------------- credential store

  /**
   * `rememberAdminCode`: store the upper-cased admin code under the upper-cased
   * join code and touch the group's profile; a missing code of either kind is a no-op.
   */
  function RememberAdminCode(c: Cache, joinCode: string, adminCode: string, name: string, now: nat): (r: Cache)
    ensures joinCode == "" || adminCode == "" ==> r == c
    ensures r.participantCodes == c.participantCodes && r.groupParticipants == c.groupParticipants
  {
    if joinCode == "" || adminCode == "" then c
    else
      var n := NormalizeCode(joinCode);
      var stored := c.(adminCodes := c.adminCodes.Put(n, NormalizeCode(adminCode)));
      RememberGroupProfile(stored, n, name, now)
  }

  /**
   * Round trip: after remembering an admin code, the join code in any casing looks
   * up the upper-cased admin code; other join codes look up what they did before.
   * A new join code is enumerated after the existing ones; a known one keeps its place.
   */
  lemma AdminCodeRoundTrip(c: Cache, joinCode: string, adminCode: string, name: string, now: nat, lookup: string)
    requires joinCode != "" && adminCode != ""
    ensures var r := RememberAdminCode(c, joinCode, adminCode, name, now);
      var n := NormalizeCode(joinCode);
      && GetAdminCode(r, lookup) ==
           (if NormalizeCode(lookup) == n then Some(NormalizeCode(adminCode)) else GetAdminCode(c, lookup))
      && r.adminCodes.order == if n in c.adminCodes.entries then c.adminCodes.order else c.adminCodes.order + [n]
  {
  }

  /**
   * Remembering an admin code stamps the group's profile with `now` and keeps its name
   * unless one is given; its participants and owner stay as they were, and no other
   * profile changes.
   */
  lemma RememberAdminCodeTouchesProfile(c: Cache, joinCode: string, adminCode: string, name: string, now: nat)
    requires joinCode != "" && adminCode != ""
    ensures var n := NormalizeCode(joinCode);
      var r := RememberAdminCode(c, joinCode, adminCode, name, now);
      && n in r.groupProfiles.entries
      && r.groupProfiles.entries[n].lastViewedAt == Some(now)
      && r.groupProfiles.entries[n].name == (if name != "" then name else NameBefore(c, n))
      && r.groupProfiles.entries[n].participants == EnsureProfile(c.groupProfiles, n).participants
      && r.groupProfiles.entries[n].ownerParticipantId == EnsureProfile(c.groupProfiles, n).ownerParticipantId
      && forall j :: j != n ==> r.groupProfiles.Get(j) == c.groupProfiles.Get(j)
  {
    var n := NormalizeCode(joinCode);
    var stored := c.(adminCodes := c.adminCodes.Put(n, NormalizeCode(adminCode)));
    RememberGroupProfileEffect(stored, n, name, now);
  }

  lemma RememberAdminCodeValid(c: Cache, joinCode: string, adminCode: string, name: string, now: nat)
    requires Valid(c)
    ensures Valid(RememberAdminCode(c, joinCode, adminCode, name, now))
  {
    if joinCode != "" && adminCode != "" {
      var n := NormalizeCode(joinCode);
      var stored := c.(adminCodes := c.adminCodes.Put(n, NormalizeCode(adminCode)));
      assert StoresValid(stored);
      RememberGroupProfileValid(stored, n, name, now);
      RememberGroupProfileEffect(stored, n, name, now);
    }
  }

  /**
   * `rememberParticipantAccess`: store the upper-cased access code under the id as
   * given, replacing any earlier code; a missing id or code is a no-op.
   */
  function RememberParticipantAccess(c: Cache, participantId: string, accessCode: string): (r: Cache)
    ensures participantId == "" || accessCode == "" ==> r == c
    ensures r.adminCodes == c.adminCodes && r.groupParticipants == c.groupParticipants
    ensures r.groupProfiles == c.groupProfiles
  {
    if participantId == "" || accessCode == "" then c
    else c.(participantCodes := c.participantCodes.Put(participantId, NormalizeCode(accessCode)))
  }

  /** Round trip: the id looks up the upper-cased code just stored; every other id is unaffected. */
  lemma AccessCodeRoundTrip(c: Cache, participantId: string, accessCode: string, lookup: string)
    requires participantId != "" && accessCode != ""
    ensures var r := RememberParticipantAccess(c, participantId, accessCode);
      GetParticipantAccess(r, lookup) ==
        if lookup == participantId then Some(NormalizeCode(accessCode)) else GetParticipantAccess(c, lookup)
  {
  }

  lemma RememberParticipantAccessValid(c: Cache, participantId: string, accessCode: string)
    requires Valid(c)
    ensures Valid(RememberParticipantAccess(c, participantId, accessCode))
  {
  }

  // ---------------------------------------------------------------- membership index

  /**
   * `rememberParticipantForGroup`: add the id to the group's list with set
   * semantics, forward a full record to the profile cache, and touch the group.
   */
  function RememberParticipantForGroup(c: Cache, joinCode: string, participant: ParticipantRef, now: nat): (r: Cache)
    ensures joinCode == "" || participant.Id() == "" ==> r == c
    ensures r.adminCodes == c.adminCodes && r.participantCodes == c.participantCodes
    ensures joinCode != "" && participant.Id() != "" ==>
      && r.groupParticipants.entries.Keys == c.groupParticipants.entries.Keys + {NormalizeCode(joinCode)}
      && r.groupProfiles.entries.Keys == c.groupProfiles.entries.Keys + {NormalizeCode(joinCode)}
  {
    if joinCode == "" || participant.Id() == "" then c
    else
      var n := NormalizeCode(joinCode);
      var current := c.groupParticipants.GetOr(n, []);
      var added := c.(groupParticipants := c.groupParticipants.Put(n, Dedup(current + [participant.Id()])));
      var profiled := if participant.ByRecord? then RememberParticipantProfile(added, n, participant.participant, now) else added;
      RememberGroupProfile(profiled, n, "", now)
  }

  /** What `rememberParticipantForGroup` does to the group's profile, in one step. */
  function MembershipTouch(p: GroupProfile, participant: ParticipantRef, now: nat): GroupProfile {
    match participant
    case ById(_) => Touch(p, "", now)
    case ByRecord(q) => Touch(RecordParticipant(p, q, now), "", now)
  }

  /** The member lists change only in the group's entry, which gains the id with set semantics. */
  lemma MembershipLists(c: Cache, joinCode: string, participant: ParticipantRef, now: nat)
    requires joinCode != "" && participant.Id() != ""
    ensures var n := NormalizeCode(joinCode);
      RememberParticipantForGroup(c, joinCode, participant, now).groupParticipants
        == c.groupParticipants.Put(n, Dedup(c.groupParticipants.GetOr(n, []) + [participant.Id()]))
  {
  }

  /** The profiles change only in the group's entry, which is ensured and then touched once. */
  lemma MembershipProfiles(c: Cache, joinCode: string, participant: ParticipantRef, now: nat)
    requires joinCode != "" && participant.Id() != ""
    ensures var n := NormalizeCode(joinCode);
      RememberParticipantForGroup(c, joinCode, participant, now).groupProfiles
        == c.groupProfiles.Put(n, MembershipTouch(EnsureProfile(c.groupProfiles, n), participant, now))
  {
    var n := NormalizeCode(joinCode);
    var p := EnsureProfile(c.groupProfiles, n);
    match participant
    case ById(_) =>
    case ByRecord(q) =>
      c.groupProfiles.PutPut(n, RecordParticipant(p, q, now), Touch(RecordParticipant(p, q, now), "", now));
  }

  /**
   * The id joins the group's list with set semantics (no repetition, earlier members
   * first, in their order), and no other group's list changes.
   */
  lemma RememberParticipantForGroupEffect(c: Cache, joinCode: string, participant: ParticipantRef, now: nat)
    requires joinCode != "" && participant.Id() != ""
    ensures var n := NormalizeCode(joinCode);
      var r := RememberParticipantForGroup(c, joinCode, participant, now);
      var before := GetKnownParticipantsForGroup(c, joinCode);
      var after := GetKnownParticipantsForGroup(r, joinCode);
      && n in r.groupParticipants.entries
      && after == Dedup(before + [participant.Id()])
      && participant.Id() in after
      && Distinct(after)
      && (Distinct(before) ==> after == if participant.Id() in before then before else before + [participant.Id()])
      && (forall j :: j != n ==> r.groupParticipants.Get(j) == c.groupParticipants.Get(j))
  {
    var n := NormalizeCode(joinCode);
    var id := participant.Id();
    var r := RememberParticipantForGroup(c, joinCode, participant, now);
    var before := GetKnownParticipantsForGroup(c, joinCode);
    MembershipLists(c, joinCode, participant, now);
    assert before == c.groupParticipants.GetOr(n, []);
    assert r.groupParticipants.entries[n] == Dedup(before + [id]);
    assert (before + [id])[|before|] == id;
    DedupAppend(before, id);
  }

  /** Remembering a membership stamps the group's profile with `now` and keeps its name. */
  lemma RememberParticipantForGroupTouchesProfile(c: Cache, joinCode: string, participant: ParticipantRef, now: nat)
    requires joinCode != "" && participant.Id() != ""
    ensures var n := NormalizeCode(joinCode);
      var r := RememberParticipantForGroup(c, joinCode, participant, now);
      && n in r.groupProfiles.entries
      && r.groupProfiles.entries[n].lastViewedAt == Some(now)
      && r.groupProfiles.entries[n].name == NameBefore(c, n)
  {
    MembershipProfiles(c, joinCode, participant, now);
  }

  /** Adding an id to a group's list keeps the maps well-formed. */
  lemma AddMemberValid(c: Cache, normalized: string, id: string)
    requires StoresValid(c) && IsCode(normalized) && id != ""
    ensures StoresValid(c.(groupParticipants :=
      c.groupParticipants.Put(normalized, Dedup(c.groupParticipants.GetOr(normalized, []) + [id]))))
  {
    var current := c.groupParticipants.GetOr(normalized, []);
    assert "" !in current + [id];
  }

  lemma RememberParticipantForGroupValid(c: Cache, joinCode: string, participant: ParticipantRef, now: nat)
    requires Valid(c)
    ensures Valid(RememberParticipantForGroup(c, joinCode, participant, now))
  {
    if joinCode != "" && participant.Id() != "" {
      var n := NormalizeCode(joinCode);
      var current := c.groupParticipants.GetOr(n, []);
      var added := c.(groupParticipants := c.groupParticipants.Put(n, Dedup(current + [participant.Id()])));
      AddMemberValid(c, n, participant.Id());
      var profiled := if participant.ByRecord? then RememberParticipantProfile(added, n, participant.participant, now) else added;
      if participant.ByRecord? {
        RememberParticipantProfileValid(added, n, participant.participant, now);
      }
      RememberGroupProfileValid(profiled, n, "", now);
    }
  }

  lemma MembershipTouchTwice(p: GroupProfile, participant: ParticipantRef, t1: nat, t2: nat)
    ensures MembershipTouch(MembershipTouch(p, participant, t1), participant, t2) == MembershipTouch(p, participant, t2)
  {
    match participant
    case ById(_) =>
    case ByRecord(q) =>
      var name := if q.name != "" then q.name else DefaultParticipantName;
      assert p.participants[q.id := ParticipantProfile(q.id, name, t1)][q.id := ParticipantProfile(q.id, name, t2)]
          == p.participants[q.id := ParticipantProfile(q.id, name, t2)];
  }

  /** Remembering the same membership twice is the same as remembering it once, at the later time. */
  lemma RememberParticipantForGroupIdempotent(c: Cache, joinCode: string, participant: ParticipantRef, t1: nat, t2: nat)
    ensures RememberParticipantForGroup(RememberParticipantForGroup(c, joinCode, participant, t1), joinCode, participant, t2)
         == RememberParticipantForGroup(c, joinCode, participant, t2)
  {
    if joinCode != "" && participant.Id() != "" {
      var n := NormalizeCode(joinCode);
      var id := participant.Id();
      var once := RememberParticipantForGroup(c, joinCode, participant, t1);
      var twice := RememberParticipantForGroup(once, joinCode, participant, t2);
      var direct := RememberParticipantForGroup(c, joinCode, participant, t2);
      // the member list
      var list := Dedup(c.groupParticipants.GetOr(n, []) + [id]);
      MembershipLists(c, joinCode, participant, t1);
      MembershipLists(once, joinCode, participant, t2);
      MembershipLists(c, joinCode, participant, t2);
      assert once.groupParticipants.entries[n] == list;
      DedupAppend(list, id);
      assert once.groupParticipants.GetOr(n, []) + [id] == list + [id];
      once.groupParticipants.PutSame(n);
      c.groupParticipants.PutPut(n, list, list);
      assert twice.groupParticipants == direct.groupParticipants;
      // the profile
      var p := EnsureProfile(c.groupProfiles, n);
      MembershipProfiles(c, joinCode, participant, t1);
      MembershipProfiles(once, joinCode, participant, t2);
      MembershipProfiles(c, joinCode, participant, t2);
      assert EnsureProfile(once.groupProfiles, n) == MembershipTouch(p, participant, t1);
      MembershipTouchTwice(p, participant, t1, t2);
      c.groupProfiles.PutPut(n, MembershipTouch(p, participant, t1), MembershipTouch(p, participant, t2));
      assert twice.groupProfiles == direct.groupProfiles;
    }
  }

  // ---------------------------------------------------------------- cascade delete

  /** The ids of a group's members, whose access codes go when the group is forgotten. */
  function MemberIds(c: Cache, normalized: string): set<string> {
    Elements(c.groupParticipants.GetOr(normalized, []))
  }

  /**
   * `forgetGroup`: remove the group's admin code, its member list, the access code
   * of every id in that list, and its profile.
   */
  function ForgetGroup(c: Cache, joinCode: string): (r: Cache)
    ensures joinCode == "" ==> r == c
  {
    if joinCode == "" then c
    else
      var n := NormalizeCode(joinCode);
      var ids := c.groupParticipants.GetOr(n, []);
      Cache(
        c.adminCodes.Remove(n),
        if |ids| > 0 then c.participantCodes.RemoveAll(MemberIds(c, n)) else c.participantCodes,
        c.groupParticipants.Remove(n),
        c.groupProfiles.Remove(n))
  }

  /**
   * Cascade completeness: afterwards the join code has no admin code, no member list
   * and no profile, and none of the group's member ids has an access code.
   */
  lemma ForgetGroupComplete(c: Cache, joinCode: string)
    requires joinCode != ""
    ensures var n := NormalizeCode(joinCode);
      var r := ForgetGroup(c, joinCode);
      && GetAdminCode(r, joinCode) == None
      && GetKnownParticipantsForGroup(r, joinCode) == []
      && n !in r.adminCodes.entries && n !in r.groupParticipants.entries && n !in r.groupProfiles.entries
      && forall id :: id in GetKnownParticipantsForGroup(c, joinCode) ==> GetParticipantAccess(r, id) == None
  {
  }

  /**
   * Cascade frame: other join codes keep their admin code, member list and profile,
   * and ids outside the group's list keep their access code.
   */
  lemma ForgetGroupFrame(c: Cache, joinCode: string)
    requires joinCode != ""
    ensures var n := NormalizeCode(joinCode);
      var r := ForgetGroup(c, joinCode);
      && (forall j :: j != n ==> r.adminCodes.Get(j) == c.adminCodes.Get(j))
      && (forall j :: j != n ==> r.groupParticipants.Get(j) == c.groupParticipants.Get(j))
      && (forall j :: j != n ==> r.groupProfiles.Get(j) == c.groupProfiles.Get(j))
      && (forall id :: id !in GetKnownParticipantsForGroup(c, joinCode) ==>
            GetParticipantAccess(r, id) == GetParticipantAccess(c, id))
      && r.adminCodes.order == Without(c.adminCodes.order, {n})
      && r.groupParticipants.order == Without(c.groupParticipants.order, {n})
      && r.groupProfiles.order == Without(c.groupProfiles.order, {n})
  {
  }

  lemma ForgetGroupValid(c: Cache, joinCode: string)
    requires Valid(c)
    ensures Valid(ForgetGroup(c, joinCode))
  {
  }

  /** A second cascade delete of the same group changes nothing. */
  lemma ForgetGroupIdempotent(c: Cache, joinCode: string)
    ensures ForgetGroup(ForgetGroup(c, joinCode), joinCode) == ForgetGroup(c, joinCode)
  {
    if joinCode != "" {
      var n := NormalizeCode(joinCode);
      var once := ForgetGroup(c, joinCode);
      assert once.groupParticipants.GetOr(n, []) == [];
      c.adminCodes.RemoveTwice(n);
      c.groupParticipants.RemoveTwice(n);
      c.groupProfiles.RemoveTwice(n);
    }
  }

  /** Forgetting a group the cache has never heard of changes nothing. */
  lemma ForgetUnknownGroup(c: Cache, joinCode: string)
    requires Valid(c)
    requires var n := NormalizeCode(joinCode);
      n !in c.adminCodes.entries && n !in c.groupParticipants.entries && n !in c.groupProfiles.entries
    ensures ForgetGroup(c, joinCode) == c
  {
    if joinCode != "" {
      var n := NormalizeCode(joinCode);
      assert c.groupParticipants.GetOr(n, []) == [];
      c.adminCodes.RemoveAbsent(n);
      c.groupParticipants.RemoveAbsent(n);
      c.groupProfiles.RemoveAbsent(n);
    }
  }
}
