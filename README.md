# Secret-santa browser cache and product-link helpers, in Dafny

This project models two client-side utilities of the secret-santa web app.

**The credential and membership cache** (`client/src/utils/storage.js`). The browser
remembers four string-keyed maps:

- join code → admin code;
- participant id → access code;
- join code → the ids of this browser's identities in that group;
- join code → a group profile (name, last viewed time, owner, and a per-participant
  name and last viewed time).

The upsert operations upper-case join codes and secret codes, keep each member list
free of repetition, and create and time-stamp profiles on demand. `forgetGroup`
deletes a group from all four maps in one cascade. Two queries join the maps into
lists sorted most recent first: the groups this browser administers, and its saved
participant links.

The model has three layers:

- `Storage` states every operation as a pure transition on a value `Cache` of the four
  maps. Each map is an `OrderedMaps.OrderedMap`, which pairs a `map` with the
  insertion order that `Object.entries` enumerates. `Storage.Valid` is the invariant
  the operations keep:
  - stored join codes and codes are upper case and non-empty;
  - member lists have no repetitions and no empty ids;
  - a profile's owner is one of its participants;
  - every administered group and every group with members has a profile.
- `BrowserStore.Store` is the mutable object. Its four fields are updated in place by
  one method per operation. Each method is proved to reach exactly the state the
  transition function prescribes, and to keep `Valid`.
  - `forgetGroup`'s `forEach` delete loop and the nested push loops of
    `getRememberedParticipantLinks` are `while` loops with invariants.
- `Queries` defines the two read-only views. Lemmas prove that each view has exactly
  one row per stored entry (or linkable pair), sorted most recent first.
  `Recency.SortByRecency` is proved sorted, a permutation and stable.
  `Flows` replays the create and join sequences of the landing page on the model.

**The Amazon helpers** (`client/src/utils/amazon.js`), in module `Amazon`:

- `ExtractAsin` writes the case-insensitive regular expression out as a leftmost scan
  over start positions, trying its three alternatives in order.
- `BuildAmazonImageFromAsin` builds the image link.
- `BuildAmazonSearchUrl` trims the query with ECMAScript's exact white-space set and
  appends the encoded query to the search URL.

Conventions:

- JavaScript's falsy inputs (`''`, `null`, `undefined`) are the empty string.
- Optional stored values are `Option`.
- Time is an explicit `now: nat` argument. A missing timestamp counts as `0`, as
  `Date.parse(...) || 0` does.

## Model

| member | source | states |
|---|---|---|
| Storage.NormalizeCode | client/src/utils/storage.js:20 | the result is upper case; it is empty exactly when the input is; an upper-case input comes back unchanged |
| Ascii.UpperIgnoresCase | client/src/utils/storage.js:20 | two texts upper-case alike exactly when they have the same length and differ at most in the case of ASCII letters |
| Storage.NormalizeCodeIgnoresCase | client/src/utils/storage.js:20 | two codes normalise to the same stored key exactly when they differ at most in ASCII letter case |
| Ascii.Upper | client/src/utils/storage.js:20 | `toUpperCase` on ASCII: same length, each letter a–z mapped to A–Z, every other character kept, result upper case, idempotent on upper-case text |
| Storage.GetAdminCode | client/src/utils/storage.js:66-70 | `getAdminCode` finds a code exactly when the join code is non-empty and its upper-cased form holds a non-empty admin code, which it returns; `LookupsAgree` and `AdminCodeRoundTrip` relate it to the writes |
| Storage.StoredAccess | client/src/utils/storage.js:172-174 | the access-code read of the links walk: a code exactly when the id, used as given, holds a non-empty one, which it returns |
| Storage.GetParticipantAccess | client/src/utils/storage.js:79-83 | `getParticipantAccess` finds a code exactly when the id is non-empty and holds a non-empty code, which it returns; `AccessCodeRoundTrip` relates it to the write |
| Storage.GetKnownParticipantsForGroup | client/src/utils/storage.js:101-105 | the stored list of the upper-cased join code, or the empty list for an empty or unknown code; `LookupsAgree` and `RememberParticipantForGroupEffect` relate it to the writes |
| Storage.LookupsAgree | client/src/utils/storage.js:66-105 | in a consistent cache `getAdminCode`, `getParticipantAccess` and `getKnownParticipantsForGroup` return present upper-case codes and repetition-free lists without empty ids, and a join code finds the same entry in any casing |
| Storage.EnsureProfile | client/src/utils/storage.js:22-27 | returns the stored profile when there is one, otherwise a fresh profile for the code with no name, no timestamp, no owner and no participants |
| Storage.RememberGroupProfile | client/src/utils/storage.js:29-39 | an empty join code changes nothing; only the profile map changes |
| Storage.RememberGroupProfileEffect | client/src/utils/storage.js:29-39 | the group gains or keeps a profile stamped `now`, renamed only when a non-empty name is given, with its participants and owner unchanged; no other profile changes |
| Storage.RememberGroupProfileValid | client/src/utils/storage.js:29-39 | touching a profile keeps the cache invariant |
| Storage.RememberParticipantProfile | client/src/utils/storage.js:41-55 | an empty join code or id changes nothing; only the profile map changes |
| Storage.RememberParticipantProfileEffect | client/src/utils/storage.js:41-55 | the participant's entry becomes its name (or `Participante`) and `now`; an owner record becomes the owner; the group's own name and timestamp and every other profile are untouched |
| Storage.RecordParticipantValid | client/src/utils/storage.js:46-53 | recording a participant with an id keeps a profile well-formed: its owner stays one of its participants |
| Storage.RememberParticipantProfileValid | client/src/utils/storage.js:46-53 | the invariant is kept; in particular the recorded owner is always a key of the participants map |
| Storage.RememberAdminCode | client/src/utils/storage.js:57-64 | a missing join or admin code changes nothing; participant codes and member lists are untouched |
| Storage.AdminCodeRoundTrip | client/src/utils/storage.js:57-70 | afterwards a lookup with the join code in any casing yields the upper-cased admin code; other join codes yield what they did before; a new join code is enumerated after the existing ones, a known one keeps its place |
| Storage.RememberAdminCodeTouchesProfile | client/src/utils/storage.js:57-64 | the group's profile exists, is stamped `now`, keeps its name unless a non-empty one is given, and keeps its participants and owner; no other profile changes |
| Storage.RememberAdminCodeValid | client/src/utils/storage.js:57-64 | the invariant is kept, including "every administered group has a profile" |
| Storage.RememberParticipantAccess | client/src/utils/storage.js:72-77 | a missing id or code changes nothing; only the participant-code map changes |
| Storage.AccessCodeRoundTrip | client/src/utils/storage.js:72-83 | afterwards the id, used as given, looks up the upper-cased code, replacing any earlier one; every other id is unaffected |
| Storage.RememberParticipantAccessValid | client/src/utils/storage.js:72-77 | the invariant is kept |
| Sequences.Dedup | client/src/utils/storage.js:91-93 | `Array.from(new Set(..))`: no repetitions, exactly the input's elements, and a repetition-free input comes back unchanged |
| Sequences.DedupAppend | client/src/utils/storage.js:91-93 | adding an id to a set-backed list appends it exactly when it is new |
| Storage.RememberParticipantForGroup | client/src/utils/storage.js:85-99 | a missing join code or id changes nothing; admin and participant codes are untouched; otherwise the member-list and profile maps gain exactly the group's code as a key |
| Storage.RememberParticipantForGroupEffect | client/src/utils/storage.js:85-105 | the group's known list becomes the old list with the id appended only if absent, order kept, no repetitions; other groups' lists are unchanged |
| Storage.RememberParticipantForGroupTouchesProfile | client/src/utils/storage.js:85-99 | the group has a profile afterwards, stamped `now`, keeping the name it had |
| Storage.RememberParticipantForGroupValid | client/src/utils/storage.js:85-99 | the invariant is kept, including "every group with members has a profile" |
| Storage.RememberParticipantForGroupIdempotent | client/src/utils/storage.js:85-99 | remembering the same membership twice equals remembering it once at the later time |
| Storage.ForgetGroup | client/src/utils/storage.js:107-131 | an empty join code changes nothing |
| Storage.ForgetGroupComplete | client/src/utils/storage.js:107-131 | afterwards the group has no admin code, no member list and no profile, and none of its listed ids has an access code |
| Storage.ForgetGroupFrame | client/src/utils/storage.js:107-131 | other join codes keep their admin code, list and profile, and their enumeration order; ids outside the group's list keep their access codes |
| OrderedMaps.OrderedMap.Remove | client/src/utils/storage.js:112 | `delete obj[k]`: the key is gone, every other key keeps its value, the remaining keys keep their order, and a well-formed map stays well-formed |
| Storage.ForgetGroupValid | client/src/utils/storage.js:107-131 | the cascade delete keeps the invariant |
| Storage.ForgetGroupIdempotent | client/src/utils/storage.js:107-131 | a second `forgetGroup` of the same code changes nothing |
| Storage.ForgetUnknownGroup | client/src/utils/storage.js:107-131 | forgetting a code the cache has never stored changes nothing |
| Storage.EmptyCacheValid | client/src/utils/storage.js:6-14 | a browser with nothing stored satisfies the invariant |
| Recency.Timestamp | client/src/utils/storage.js:134-135 | the stored time when there is one, otherwise `0` |
| Recency.Insert | client/src/utils/storage.js:133-137 | inserting into a list sorted most recent first keeps it sorted and adds exactly the one element |
| Recency.SortByRecency | client/src/utils/storage.js:133-137 | `sort(byRecency)`: the result is sorted most recent first (missing time = 0) and is a permutation of the input |
| Recency.InsertKeepsTies | client/src/utils/storage.js:133-137 | an inserted element lands before the elements with the same timestamp |
| Recency.SortIsStable | client/src/utils/storage.js:133-137 | elements with equal timestamps keep their relative order |
| Queries.AdminGroupOf | client/src/utils/storage.js:145-157 | a row keeps its join and admin code and always has a non-empty name; an owner name or owner access code appears only with an owner id, the code being that owner's `getParticipantAccess`; `AdminGroupResolvesOwner` states the fallbacks |
| Queries.RememberedAdminGroups | client/src/utils/storage.js:139-160 | the rows of the admin map, reordered most recent first; `AdminGroupsExact` and `SortIsStable` state the contents and the order of ties |
| Queries.AdminEntriesExact | client/src/utils/storage.js:141-158 | before sorting, the rows are those of the admin-map keys, one per key, in key order, with no repetition |
| Queries.AdminGroupsSound | client/src/utils/storage.js:139-160 | every row of the admin list is the joined row of a stored admin code |
| Queries.AdminGroupsComplete | client/src/utils/storage.js:139-160 | every stored admin code has its joined row in the admin list |
| Queries.AdminGroupsExact | client/src/utils/storage.js:139-160 | the admin list has exactly one row per stored admin code, each joined from that entry, with no repeated join code, sorted most recent first |
| Queries.AdminGroupResolvesOwner | client/src/utils/storage.js:139-160 | in a consistent cache a row carries its profile's name (or `Grupo <code>`) and timestamp, and a recorded owner resolves to its participant name and access code |
| Queries.LinkOf | client/src/utils/storage.js:170-183 | a row keeps its join code, id and access code, and always has a non-empty group name and participant name |
| Queries.LinkResolves | client/src/utils/storage.js:170-183 | a row's group name is the profile's or `Grupo <joinCode>`, its participant name the member's or `Participante`, and its time the member's, else the group's, else none; a linkable pair of a consistent cache always has its group's profile |
| Queries.RememberedParticipantLinks | client/src/utils/storage.js:162-188 | the rows pushed by the walk, reordered most recent first; `ParticipantLinksExact` states which rows these are |
| Queries.GroupLinksSound | client/src/utils/storage.js:172-183 | walking a group's recorded ids pushes only rows of linkable pairs of that group, each joined from the profiles, for ids of the list |
| Queries.GroupLinksComplete | client/src/utils/storage.js:172-183 | walking a group's ids pushes a row for every id that has an access code |
| Queries.GroupLinksDistinct | client/src/utils/storage.js:172-183 | a repetition-free id list gives repetition-free rows, all for ids of the list |
| Queries.LinkEntriesExact | client/src/utils/storage.js:169-185 | walking the groups pushes exactly the rows of the linkable (group, id) pairs |
| Queries.ParticipantLinksExact | client/src/utils/storage.js:162-188 | the links list has exactly one row per (join code, member id) pair that has an access code, each row as joined from the profiles, sorted most recent first |
| Queries.NoLinkWithoutAccess | client/src/utils/storage.js:172-174 | an id without an access code has no link |
| BrowserStore.Store.constructor | client/src/utils/storage.js:6-14 | a browser with nothing stored: every map is empty and the invariant holds |
| BrowserStore.Store.RememberGroupProfile | client/src/utils/storage.js:29-39 | the store becomes `Storage.RememberGroupProfile` of its old state and keeps the invariant |
| BrowserStore.Store.RememberParticipantProfile | client/src/utils/storage.js:41-55 | the store becomes `Storage.RememberParticipantProfile` of its old state and keeps the invariant |
| BrowserStore.Store.RememberAdminCode | client/src/utils/storage.js:57-64 | writing the admin map and then touching the profile reaches `Storage.RememberAdminCode` of the old state and keeps the invariant |
| BrowserStore.Store.RememberParticipantAccess | client/src/utils/storage.js:72-77 | the store becomes `Storage.RememberParticipantAccess` of its old state and keeps the invariant |
| BrowserStore.Store.RememberParticipantForGroup | client/src/utils/storage.js:85-99 | the list update, the forwarded profile record and the touch together reach `Storage.RememberParticipantForGroup` of the old state and keep the invariant |
| BrowserStore.DeleteEach | client/src/utils/storage.js:121-124 | deleting each listed id in turn removes exactly the listed keys, in order-preserving fashion |
| BrowserStore.Store.ForgetGroup | client/src/utils/storage.js:107-131 | the four deletions, with the access-code loop run only for a non-empty list, reach `Storage.ForgetGroup` of the old state and keep the invariant |
| BrowserStore.CollectGroupLinks | client/src/utils/storage.js:172-183 | the inner loop over one group's ids returns exactly `Queries.GroupLinks` of those ids |
| BrowserStore.Store.RememberedParticipantLinks | client/src/utils/storage.js:162-188 | the nested walk over groups and ids followed by the sort returns exactly `Queries.RememberedParticipantLinks` of the store |
| Flows.CreateState | client/src/pages/LandingPage.jsx:86-92 | after the create sequence the group has the admin code, a profile owned by the host with the host's name, stamped `now`, the host's access code, and the host is linkable |
| Flows.CreatedGroupIsListed | client/src/pages/LandingPage.jsx:86-92 | after the create sequence the admin list shows the group with the host as owner, the host's name and access code, the current time, and the host's link is listed |
| Flows.JoinState | client/src/pages/LandingPage.jsx:116-117 | after the join sequence the guest is a linkable member with its access code and a participant entry stamped `now` |
| Flows.JoinedGroupIsLinked | client/src/pages/LandingPage.jsx:116-117 | after the join sequence the guest's link is listed under its name (or `Participante`) with the current time |
| Amazon.FirstAlternative | client/src/utils/amazon.js:1 | an alternation matches at a position exactly when one alternative followed by ten word characters stands there; the capture is ten word characters |
| Amazon.AlternativesExclusive | client/src/utils/amazon.js:1 | `dp/`, `gp/product/` and `ASIN/` start with different letters, so at most one of them matches at a position |
| Amazon.MatchAtExact | client/src/utils/amazon.js:1 | when an alternative matches at a position, the capture is the ten characters after it, whatever the order of the alternatives |
| Amazon.Search | client/src/utils/amazon.js:1-5 | the scan from a position finds nothing exactly when no later position matches, and otherwise returns the capture of the first matching position |
| Amazon.ExtractAsin | client/src/utils/amazon.js:1-6 | null exactly when no position matches; otherwise ten word characters captured at the leftmost matching position |
| Amazon.LeadingMarker | client/src/utils/amazon.js:1-5 | a url starting with a marker in any casing yields the ten characters after it whatever follows, so a longer run of word characters is cut to its first ten |
| Amazon.BuildAmazonImageFromAsin | client/src/utils/amazon.js:10-13 | no image exactly when the ASIN is missing |
| Amazon.ImageRoundTrip | client/src/utils/amazon.js:10-13 | the ASIN can be read back out of the image link |
| Amazon.ImageInjective | client/src/utils/amazon.js:10-13 | any two different ASINs, empty or not, give different results |
| Amazon.TextStart | client/src/utils/amazon.js:16 | the first index that is not white space: everything before it is white space |
| Amazon.TextEnd | client/src/utils/amazon.js:16 | the index just past the last character that is not white space: everything from it on is white space |
| Amazon.Trim | client/src/utils/amazon.js:16 | `trim`: the result is a contiguous piece of the input with no white space at either end, and everything cut off is white space |
| Amazon.TrimUnique | client/src/utils/amazon.js:16 | any cut that strips only white space and leaves none at either end gives exactly `trim`'s result |
| Amazon.TrimIdempotent | client/src/utils/amazon.js:16 | trimming twice is trimming once |
| Amazon.TrimPadding | client/src/utils/amazon.js:16 | white space added on either side is stripped |
| Amazon.BuildAmazonSearchUrl | client/src/utils/amazon.js:15-19 | every result starts with `https://www.amazon.com/`, and it is exactly that page when, and only when, the query trims to nothing |
| Amazon.SearchRoundTrip | client/src/utils/amazon.js:15-19 | for a query that is not blank the link is `https://www.amazon.com/s?k=` followed by the encoded trimmed query, which reads back out of it; a blank query's link has no search term |
| Amazon.SearchIgnoresPadding | client/src/utils/amazon.js:15-19 | a query and its trimmed form give the same search link |
| Amazon.SearchPadded | client/src/utils/amazon.js:15-19 | padding a query with white space on either side gives the same search link |

## Left out

- `readMap` / `writeMap`: `localStorage` access and JSON (de)serialisation are browser I/O. The four maps are fields of `BrowserStore.Store`, and each method changes them directly.
- The reset of one map to `{}` when `localStorage` holds unreadable JSON is not modelled. It would empty one map while the others stay, so the "membership implies profile" invariant would no longer hold.
- `new Date().toISOString()` and `Date.parse`: time is a `nat` argument, and timestamps are stored as numbers. An unparsable stored timestamp cannot arise, so `Date.parse(..) || 0` only covers the missing case, which is `0`.
- Storage.NormalizeCode: upper-cases ASCII letters only, because full Unicode case mapping (such as `ß` to `SS`, which changes the length) is a library table, not logic of this code.
- `Object.entries` lists integer-like keys first in ascending order; the model enumerates every key in insertion order.
- `ensureProfile` also repairs a stored profile that lacks a `participants` object; in the model every profile has a participants map, so there is nothing to repair.
- Storage.RememberParticipantForGroup: takes a bare id or a participant record as a datatype; JavaScript values of other types (numbers, arrays) are not modelled.
- The methods of `BrowserStore.Store` keep the invariant when they start from a consistent store (`old(Valid()) ==> Valid()`); they do not require one, since the source has no precondition.
- Amazon.ExtractAsin: takes a string; calling `extractAsin` with `null` or a non-string throws in the source and is not modelled.
- Amazon.BuildAmazonSearchUrl: `encodeURIComponent` (the percent-encoding of section 2.1 of RFC 3986) is the function parameter `encode`, so the link is proved to be the search page followed by whatever that encoding returns for the trimmed query.
- JavaScript strings are UTF-16 code units, while Dafny characters are Unicode scalar values. Every character the pattern and `trim` test for is a single code unit, so matches and trimming agree; only positions inside text with astral characters would be numbered differently.
- The `console.log` at client/src/utils/amazon.js:8 is a side effect only.
- The realtime subscription (client/src/hooks/useRealtimeGroup.js, client/src/services/socket.js), the pages' UI and API calls, the `Intl` formatters, and the presentation components have no logic of the cache or the helpers.
- Of the pages, only the create and join sequences of LandingPage.jsx are replayed, as the `Flows` lemmas.
  - The load sequence of GroupHostPage.jsx:89-96 uses the same operations in the same order, minus the access code.
  - The `group:deleted` handling is `forgetGroup` itself.
