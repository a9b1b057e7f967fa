# connection-group in Dafny

A model of `ConnectionGroup`, the in-memory registry of live connections of
reactphp-x/connection-group, with proofs about it. The registry does four
jobs, and the model keeps them apart:

- **Connection registry.** Registered handles with their opaque data, and
  the map from connection id (`_id`) to handle (`Connections.ConnectionGroup`,
  fields `connections` and `connectionById`).
- **Group index.** Group id to member handles and connection id to group
  ids, with a bucket pruned as soon as it is empty (fields `groups` and
  `groupsOfConnection`; the value-level facts live in `GroupIndex` and
  `BiMultimap`).
- **Identity binder.** Identity to its bound connection ids (one to many)
  and connection id to its one identity (fields `connectionsOfIdentity` and
  `identityOfConnection`; the value-level facts live in `Binding`).
- **Fan-out router.** Every message leaves through `send`, modelled in
  `Transport` as an entry `Delivery(handle, channel, message)` of a log. A
  handle with neither `write` nor `send` raises the exception, modelled as
  `failed`, which ends the fan-out with the deliveries made so far.

`ConnectionGroup.Valid()` is the class invariant: every registered handle has
an id and the id map is its exact inverse; group membership is recorded in
both directions, with no empty bucket and only registered members; identity
bindings agree in both directions, no identity is kept without connections,
and every bound id is registered. Every mutator requires and ensures it and
states its whole new state; the status codes are stated as functions of the
old state.

Files: `wrappers.dfy` (Option), `bimultimap.dfy` (maps to non-empty sets),
`strings.dfy` (`explode(',')` and PHP truthiness), `status.dfy` (leave codes
and the running minimum), `binding.dfy` (identity binding as values),
`transport.dfy` (handles, `send`, the fan-out loop), `group_index.dfy` (the
group index as values and the per-group send loops), `connection_group.dfy`
(the class).

Three behaviours of the source that the model keeps:

- A closed handle keeps its `_id`, and adding it again reuses that id
  (src/ConnectionGroup.php:41-43).
- `sendDataToConnection` filters by the connection ids that `get_Ids`
  returns (src/ConnectionGroup.php:474-481).
- `_isInGroup` returns the group id stored as the value of the index
  (src/ConnectionGroup.php:165, 209), and its callers test that value for
  truth. So a group named "0" or "" never counts for `isInGroupById`
  (`IsInGroupByIdentity`), and `_sendMessageToGroupBy_Id` sends nothing
  for such a group (`SendToGroupsOfConnection`, `SendToGroupsOfIdentity`,
  through `GroupIndex.SentGroups`).

## Model

| member | source | states |
|---|---|---|
| BiMultimap.Insert | src/ConnectionGroup.php:153-167 | Adding a value to a key's bucket creates the bucket lazily, changes no other bucket and keeps every bucket non-empty |
| BiMultimap.Remove | src/ConnectionGroup.php:131-142 | Taking a value out of a bucket changes no other bucket, and the key goes exactly when its bucket becomes empty |
| Strings.Explode | src/ConnectionGroup.php:329 | `explode(',')` yields at least one piece and no piece holds a comma |
| Strings.ImplodeExplode | src/ConnectionGroup.php:329 | Joining the pieces of a group list with commas gives the list back |
| Strings.ExplodeImplode | src/ConnectionGroup.php:329 | Exploding comma-free names joined by commas gives the names back |
| Strings.Truthy | src/ConnectionGroup.php:70 | PHP reads a string as false exactly when it is "" or "0", so every string of two or more characters is true |
| Status.Code | src/ConnectionGroup.php:125-151 | `_leaveGroup` yields 0 exactly when the handle left, 1 exactly for a missing group, 2 exactly for a null handle, and no code (null) exactly when the handle is not a member of an existing group |
| Status.LeaveStep | src/ConnectionGroup.php:361-364 | One step of the intended running minimum yields the state or the outcome's code, whichever is lower (an outcome without a code leaves the state), so it reaches 0 exactly when the state was 0 or the leave succeeded |
| Status.PhpLess | src/ConnectionGroup.php:362 | PHP's `<` with null: no value is below null, null is below every non-zero code, and two codes compare as numbers |
| Status.LeaveStepAsWritten | src/ConnectionGroup.php:361-364 | The step as written agrees with the intended step whenever the outcome has a code; a non-member outcome turns any state but 0 into null |
| Status.LeaveFoldAsWritten | src/ConnectionGroup.php:352-369 | The aggregate as written equals the intended one whenever no pair reports a non-member |
| Status.LeaveFoldZero | src/ConnectionGroup.php:352-369 | The intended aggregate of `leaveGroupById` is 0 exactly when some single leave succeeded |
| Status.LeaveFoldBound | src/ConnectionGroup.php:352-369 | The aggregate never rises above its starting value 2 |
| Status.LeaveFoldAsWrittenNullSticks | src/ConnectionGroup.php:361-364 | With PHP's comparison against null, once the running state is null no code replaces it |
| Status.LeaveAsWrittenMasksSuccess | src/ConnectionGroup.php:352-369 | As written, a first non-member pair makes the result null even when a later pair leaves; the intended aggregate is 0 |
| Binding.BindConsistent | src/ConnectionGroup.php:260-264 | Binding an unbound connection keeps the two binding maps in agreement and free of empty sets |
| Binding.ReleaseBinding | src/ConnectionGroup.php:68-76 | Releasing drops the connection from the connection-to-identity map and from its identity's set only |
| Binding.ReleaseBindingConsistent | src/ConnectionGroup.php:68-76 | Releasing keeps the binding maps consistent and leaves the connection in no identity's set |
| Binding.ReleaseBindingAsWritten | src/ConnectionGroup.php:69-76 | The cleanup as written agrees with the intended release exactly when the connection is unbound or bound to a truthy identity |
| Binding.ReleaseAsWrittenKeepsFalsyBinding | src/ConnectionGroup.php:68-76 | As written (`if ($id)`), a connection bound to identity "0" or "" stays bound after close; the intended release unbinds it |
| Transport.ChannelOf | src/ConnectionGroup.php:226-230 | `send` uses `write` exactly when the handle has it, and `send` only for a handle that has `send` and no `write` |
| Transport.Send | src/ConnectionGroup.php:223-236 | `send` does nothing for null, raises for a handle with neither method, and otherwise delivers the message unchanged through `write` exactly when the handle has it |
| Transport.EmptyData | src/ConnectionGroup.php:486 | PHP's `empty()` on the payload's `data` field: absent, or a string PHP reads as false |
| Transport.Enrich | src/ConnectionGroup.php:486-488 | The relayed payload keeps body and tag, and takes the connection's stored data exactly when its own `data` field is empty |
| Transport.SendEach | src/ConnectionGroup.php:172-181 | A fan-out fails exactly when some target cannot deliver; it delivers the message at most once per target and only to targets, and to every target when it does not fail |
| GroupIndex.GroupsInvJoin | src/ConnectionGroup.php:153-167 | Recording a join in both directions keeps the group index invariant |
| GroupIndex.GroupsInvLeave | src/ConnectionGroup.php:131-142 | Recording a leave in both directions, with pruning, keeps the group index invariant |
| GroupIndex.GroupsInvRegister | src/ConnectionGroup.php:45-48 | Registering a new handle under an unused id keeps the group index invariant |
| GroupIndex.GroupsInvUnregister | src/ConnectionGroup.php:60-63 | Unregistering a handle that is in no group keeps the group index invariant |
| GroupIndex.LeaveAllStep | src/ConnectionGroup.php:119-121 | Each group `_leaveAllGroup` leaves removes exactly that membership of the handle and nothing else |
| GroupIndex.JoinEachStep | src/ConnectionGroup.php:332-337 | One pair of `joinGroupById` adds exactly that pair, and it joins exactly when the pair was not recorded before |
| GroupIndex.LeaveEachStep | src/ConnectionGroup.php:360-365 | One pair of `leaveGroupById` removes exactly that pair, and it leaves exactly when the pair was recorded before |
| GroupIndex.JoinRound | src/ConnectionGroup.php:331-338 | After each group of the list, the recorded pairs are the old ones plus every pair of the groups done so far |
| GroupIndex.LeaveRound | src/ConnectionGroup.php:359-366 | After each group of the list, the recorded pairs are the old ones minus every pair of the groups done so far |
| GroupIndex.SentGroups | src/ConnectionGroup.php:188 | The groups `_isInGroup` reads as true are exactly those whose id is truthy |
| GroupIndex.SendPerGroup | src/ConnectionGroup.php:194-200 | One connection receives one copy per group it is in whose id is truthy; a connection without a delivery method raises before any delivery, and only if such a group exists |
| GroupIndex.SendPerConnection | src/ConnectionGroup.php:443-449 | The log is the per-group copies of each non-excluded id in some group with a truthy id, each id once; it fails exactly when such an id cannot deliver, and covers every such id when it does not fail |
| GroupIndex.ScopedStep | src/ConnectionGroup.php:443-449 | Each visited id adds exactly its own copies to the log and itself to the ids done |
| Connections.ConnectionGroup.RegistryInjective | src/ConnectionGroup.php:45-48 | No two connection ids name the same handle |
| Connections.ConnectionGroup.constructor | src/ConnectionGroup.php:29-37 | A new registry is empty and valid |
| Connections.ConnectionGroup.AddConnection | src/ConnectionGroup.php:39-51 | A handle keeps an existing `_id` and otherwise gets the fresh one; re-adding changes nothing and the first data stays; a new handle adds exactly one entry, is found by its id, and `getConnectionData` reads back the data it was added with |
| Connections.ConnectionGroup.Attach | src/ConnectionGroup.php:45-48 | Attaching adds the handle with its data and its id, and keeps the invariant |
| Connections.ConnectionGroup.ConnectionById | src/ConnectionGroup.php:218-221 | The lookup finds the registered handle with that id, and misses only when no registered handle has it |
| Connections.ConnectionGroup.HandleOrNull | src/ConnectionGroup.php:218-221 | `ConnectionById` with null for a miss: null exactly for an unregistered id; otherwise the registered handle with that id |
| Connections.ConnectionGroup.ConnectionData | src/ConnectionGroup.php:97-103 | Null for an unregistered handle; the data stored for a registered one. What it reads after `addConnection` and `closeConnection` is stated by `AddConnection` and `CloseConnection` |
| Connections.ConnectionGroup.LeaveGroup | src/ConnectionGroup.php:125-151 | Code 2 for null, 1 for a missing group, no code for a non-member, each without change; 0 after removing the membership in both directions with pruning |
| Connections.ConnectionGroup.Unlink | src/ConnectionGroup.php:131-142 | Removing a known membership in both directions keeps the invariant |
| Connections.ConnectionGroup.JoinGroup | src/ConnectionGroup.php:153-167 | 1 without change for a member; otherwise 0 and the membership is added in both directions, the group created lazily |
| Connections.ConnectionGroup.MembershipListed | src/ConnectionGroup.php:18-19 | A handle is in a group exactly when its id lists that group |
| Connections.ConnectionGroup.UnregisteredListsNoGroup | src/ConnectionGroup.php:202-205 | An unregistered id lists no group |
| Connections.ConnectionGroup.LeaveAllGroups | src/ConnectionGroup.php:116-123 | The handle is in no group afterwards, every other membership stays, and nothing happens for null |
| Connections.ConnectionGroup.CloseConnection | src/ConnectionGroup.php:54-85 | True exactly for a registered handle: it leaves the registry and id map, every group (pruned) and its binding (the identity dropped when emptied); false with no change otherwise; afterwards `getConnectionData` reads null for the handle |
| Connections.ConnectionGroup.Release | src/ConnectionGroup.php:68-76 | The close cleanup of the binding is `ReleaseBinding` and keeps the invariant |
| Connections.ConnectionGroup.Unregister | src/ConnectionGroup.php:60-63 | Detaching a handle with no group and no binding removes it and its id and keeps the invariant |
| Connections.ConnectionGroup.BindHandle | src/ConnectionGroup.php:256-273 | 2 for null; 1 without change when already bound to any identity; otherwise 0 with both directions added |
| Connections.ConnectionGroup.BindIdentity | src/ConnectionGroup.php:250-254 | 2 for an unregistered id, 1 for a bound one (binding kept), 0 with the binding added in both directions |
| Connections.ConnectionGroup.UnbindPair | src/ConnectionGroup.php:304-316 | 0 exactly when the pair existed, removing it and the identity once emptied; 1 without change otherwise |
| Connections.ConnectionGroup.UnbindConnection | src/ConnectionGroup.php:288-292 | The id ends unbound; 0 exactly when it was bound |
| Connections.ConnectionGroup.UnbindIdentity | src/ConnectionGroup.php:275-286 | The identity and all its bindings go, other identities stay; 1 exactly when it had none |
| Connections.ConnectionGroup.JoinGroupByConnectionId | src/ConnectionGroup.php:343-350 | 2 for an unregistered id, 1 for a member, each without change; otherwise 0 and exactly that membership is added |
| Connections.ConnectionGroup.LeaveGroupByConnectionId | src/ConnectionGroup.php:371-378 | 2 for an unregistered id, then `_leaveGroup`'s outcome; only that membership can go |
| Connections.ConnectionGroup.LeaveAllGroupsByConnectionId | src/ConnectionGroup.php:388-392 | The id lists no group afterwards and its handle is in none; no change for an unregistered id |
| Connections.ConnectionGroup.LeaveAllGroupsByIdentity | src/ConnectionGroup.php:380-386 | Every connection of the identity lists no group afterwards; other ids keep theirs |
| Connections.ConnectionGroup.JoinEach | src/ConnectionGroup.php:332-337 | Every id joins the group; the running minimum becomes 0 when some id was not a member, and at most 1 otherwise |
| Connections.ConnectionGroup.JoinGroupsByIdentity | src/ConnectionGroup.php:324-341 | Every (listed group, bound id) pair is recorded; 2 exactly when the identity has no connection, 0 exactly when some pair was new |
| Connections.ConnectionGroup.LeaveEach | src/ConnectionGroup.php:360-365 | Every id leaves the group; the running minimum becomes 0 when some id was a member, 1 when the group is missing |
| Connections.ConnectionGroup.LeaveGroupsByIdentity | src/ConnectionGroup.php:352-369 | Every listed pair is removed; 0 exactly when some pair was recorded, 1 exactly when none was and a listed group is missing for a bound identity, 2 otherwise |
| Connections.ConnectionGroup.RegistrySizes | src/ConnectionGroup.php:92-95 | The registry and the id map have the same size |
| Connections.ConnectionGroup.ConnectionCount | src/ConnectionGroup.php:579-582 | `getConnectionCount` and `get_IdCount` agree: the number of registered handles |
| Connections.ConnectionGroup.IsOnlineConnection | src/ConnectionGroup.php:536-539 | True exactly when some registered handle has that id |
| Connections.ConnectionGroup.DataById | src/ConnectionGroup.php:239-246 | The empty result exactly for an unregistered id; otherwise the data of the handle with that id |
| Connections.ConnectionGroup.IdentityOf | src/ConnectionGroup.php:299-302 | The identity of an id is `u` exactly when `u`'s set lists the id; none (0) otherwise |
| Connections.ConnectionGroup.ConnectionIdsOf | src/ConnectionGroup.php:565-568 | Exactly the ids whose identity is `u`, all registered |
| Connections.ConnectionGroup.IsOnlineIdentity | src/ConnectionGroup.php:531-534 | True exactly when some id is bound to the identity |
| Connections.ConnectionGroup.Identities | src/ConnectionGroup.php:547-554 | Exactly the identities that are online |
| Connections.ConnectionGroup.BoundConnectionIds | src/ConnectionGroup.php:560-563 | Exactly the bound ids, all registered |
| Connections.ConnectionGroup.BoundConnectionCount | src/ConnectionGroup.php:584-587 | The number of bound connection ids, never more than the registered connections |
| Connections.ConnectionGroup.GroupIds | src/ConnectionGroup.php:601-604 | Exactly the groups that some connection id lists |
| Connections.ConnectionGroup.GroupsOf | src/ConnectionGroup.php:607-610 | Exactly the groups whose members include the id's handle, all existing |
| Connections.ConnectionGroup.GroupCountOf | src/ConnectionGroup.php:619-622 | The number of the id's groups, at most the number of groups, 0 exactly when it is in none |
| Connections.ConnectionGroup.IsInGroup | src/ConnectionGroup.php:434-437 | True exactly when the id is registered and its handle is a member |
| Connections.ConnectionGroup.MemberCount | src/ConnectionGroup.php:643-646 | The member count equals the number of registered ids in the group |
| Connections.ConnectionGroup.MembersById | src/ConnectionGroup.php:643-646 | A group's members correspond one to one to the ids listing the group |
| Connections.ConnectionGroup.IsInGroupByIdentity | src/ConnectionGroup.php:423-432 | True exactly when the group id is truthy and some connection bound to the identity is in the group |
| Connections.ConnectionGroup.GroupsOfIdentity | src/ConnectionGroup.php:590-598 | Exactly the groups some connection of the identity is in, without repetition |
| Connections.ConnectionGroup.GroupCountOfIdentity | src/ConnectionGroup.php:613-616 | The number of distinct groups of the identity's connections; 0 exactly when none is in a group |
| Connections.ConnectionGroup.IdentitiesOfMembers | src/ConnectionGroup.php:625-641 | The identities of a group's members are the identities bound to the ids listing the group |
| Connections.ConnectionGroup.CountIdentities | src/ConnectionGroup.php:630-639 | The deduplicating loop counts each identity bound to a member once |
| Connections.ConnectionGroup.IdentityCountInGroup | src/ConnectionGroup.php:625-641 | The number of distinct identities bound to members of the group |
| Connections.ConnectionGroup.SendToConnectionId | src/ConnectionGroup.php:212-216 | Nothing for an unregistered id, the exception for a handle that cannot deliver, else one delivery to that id's handle |
| Connections.ConnectionGroup.Excluded | src/ConnectionGroup.php:175-176 | A connection is skipped exactly when its id is excluded or its bound identity is excluded |
| Connections.ConnectionGroup.GroupRecipients | src/ConnectionGroup.php:170-184 | Exactly the members whose id is not excluded and whose bound identity is not excluded |
| Connections.ConnectionGroup.SendToGroup | src/ConnectionGroup.php:416-419 | Fails exactly when a recipient cannot deliver; otherwise each recipient once and the count is their number |
| Connections.ConnectionGroup.IdentityRecipients | src/ConnectionGroup.php:394-400 | Exactly the handles of the identity's ids that are not excluded |
| Connections.ConnectionGroup.SendToIdentity | src/ConnectionGroup.php:394-400 | Fails exactly when a recipient cannot deliver; otherwise each recipient once |
| Connections.ConnectionGroup.SendToClient | src/ConnectionGroup.php:407-414 | A truthy identity fans out to it; otherwise one send to the connection id |
| Connections.ConnectionGroup.BroadcastRecipients | src/ConnectionGroup.php:461-464 | Exactly the registered handles whose id is not excluded |
| Connections.ConnectionGroup.Broadcast | src/ConnectionGroup.php:459-467 | Fails exactly when a recipient cannot deliver; otherwise each recipient once |
| Connections.ConnectionGroup.SendToGroupsOfConnection | src/ConnectionGroup.php:453-456 | The id's own handle receives one copy per group it is in whose id is truthy; nobody else receives anything; it fails exactly when there is such a group and the handle cannot deliver |
| Connections.ConnectionGroup.PartMeaning | src/ConnectionGroup.php:186-192 | Each copy is the delivery `send` makes to the id's handle, one per group with a truthy id: never more than its groups, and as many when none is named "0" or "" |
| Connections.ConnectionGroup.GroupScopedIdsMeaning | src/ConnectionGroup.php:440-450 | The ids reached are those bound to the identity, not excluded and in at least one group with a truthy id |
| Connections.ConnectionGroup.SendToGroupsOfIdentity | src/ConnectionGroup.php:440-450 | The log is the per-group copies of each reached id, each id once; it fails exactly when a reached id cannot deliver |
| Connections.ConnectionGroup.RelaySelection | src/ConnectionGroup.php:474-481 | The relay reports on exactly the registered ids that are not excluded and, when the include list is non-empty, are in it |
| Connections.ConnectionGroup.RelayData | src/ConnectionGroup.php:470-493 | One send to the target per selected id, carrying that id's stored data when the payload has none; nothing for a null target; the exception for a target that cannot deliver |
| Connections.ConnectionGroup.BroadcastToGroupOnce | src/ConnectionGroup.php:507-518 | One member of an existing group receives the message; nothing for a missing group |
| Connections.ConnectionGroup.BroadcastOncePerGroup | src/ConnectionGroup.php:496-505 | Each group in turn sends once to one of its members, tagged with the group's position; the positions are returned, null when there are no groups |
| Connections.ConnectionGroup.RandomConnection | src/ConnectionGroup.php:105-112 | Some registered handle, null exactly when none is registered |
| Connections.ConnectionGroup.SendToRandomConnection | src/ConnectionGroup.php:520-528 | True exactly when some handle is registered and the chosen one received the message |

## Left out

- The random token of `addConnection` (`openssl_random_pseudo_bytes`) is the parameter `freshId`; `AddConnection` requires it to be unused, which the source takes from randomness rather than checks.
- Connections.ConnectionGroup.AddConnection: requires that a new handle whose `_id` was set by the caller carries an id no registered handle has (`h !in connections && h.id.Some? ==> h.id.value !in connectionById`). Caller-set ids are assumed unique; the source would overwrite the id map entry, and the earlier handle would lose it.
- `array_rand` in `getRandConnection` and `broadcastToGroupOnce` is a nondeterministic choice: only "some member" is modelled, not uniformity.
- `broadcastToGroupOnce` on a missing group calls `array_rand` on an empty array, a warning with null in PHP 7 and a `ValueError` in PHP 8; the model sends nothing.
- `broadcastToAllGroupOnce` with no groups returns the undefined `$keys`, modelled as `None`.
- Connections.ConnectionGroup.BroadcastOncePerGroup: states only that a failure comes from some member that cannot deliver, because which member receives is a random choice.
- Connections.ConnectionGroup.SendToRandomConnection: states only that a failure comes from some registered handle that cannot deliver, for the same reason.
- Iteration order of `SplObjectStorage` and PHP arrays: loops pick elements in no fixed order, and the ghost outputs `order` and `chosen` name the order or member that was used.
- PHP loose typing: the `0` sentinel for "unbound" is `None`; the loose `in_array` comparisons are string equality (so an unbound connection is never excluded by an identity filter); `IsInGroup` (`isInGroupBy_Id`) returns a boolean, although the source returns the stored group id or false, so a caller testing it would read a group named "0" or "" as false.
- Payload shaping: a message is a body with an optional `data` field and an optional `message_key` tag; the nested `['data']['data']['message_key']` layout and `empty()` on arrays beyond absent, null, "" and "0" are not modelled.
- The Evenement event-emitter trait and its events, which the class never uses.
- The commented-out `close` call in `closeConnection`.
- `closeConnection` leaves the groups and drops the binding before it detaches the handle; the source detaches first. No step is observable in between, and the final state is the same.
- The inner loops of `joinGroupById` and `leaveGroupById` are separate methods (`JoinEach`, `LeaveEach`); the leave aggregate uses the intended step, and the step as written is under Findings.
- Connections.ConnectionGroup.CloseConnection and Connections.ConnectionGroup.Release drop the binding of every closed connection, as the release evidently intends; the source skips that cleanup for an identity "0" or "" (src/ConnectionGroup.php:70), which is modelled as written under Findings.
- `sendDataToConnection`'s exclude and include lists are taken as sets of connection ids, as the code uses them with `get_Ids`.
- A `send` that throws ends the fan-out; the exception is the result `failed`, and the deliveries before it are the log.
- `getGroupIdsById` returns a list without duplicates; the model returns the set.
- `getConnections` returns the storage object itself; the model exposes the same state as the fields `connections` and `connectionById`.
- The handle's `write` and `send` methods are the capability flags `hasWrite` and `hasSend`; the transport behind them is not part of this model.

## Findings

| source | as written | input that shows it | evidently intended | confidence | as-written member | corrected member |
|---|---|---|---|---|---|---|
| src/ConnectionGroup.php:352-369 | The running minimum compares each `_leaveGroup` result with `<`; a non-member returns null, `null < 2` holds, and no later code is below null | An identity with connections a1 and a2 (a1 bound first), group list "g", where a1 is not in the existing group g and a2 is: the pairs give null then 0 and the result is null | 0 as soon as one pair left, as for `joinGroupById` | not executed | Status.LeaveAsWrittenMasksSuccess | Status.LeaveFoldZero |
| src/ConnectionGroup.php:69-76 | The binding is dropped only under `if ($id)` | A connection bound to identity "0" and then closed keeps its binding to "0" although it is no longer registered | Every bound connection loses its binding on close | not executed | Binding.ReleaseAsWrittenKeepsFalsyBinding | Binding.ReleaseBindingConsistent |
