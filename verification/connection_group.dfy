/**
 * The in-memory registry of live connections: which handles are registered
 * (with their opaque data and connection ids), which groups they are in,
 * which identity each one is bound to, and the fan-out operations that pick
 * recipients from those indices.
 */
module Connections {
  import opened Wrappers
  import opened BiMultimap
  import opened Strings
  import opened Transport
  import opened Status
  import opened Binding
  import opened GroupIndex

  /** Every handle of `handles` carries an id, and `byId` maps exactly those ids back to their handles. */
  ghost predicate IdsAgree(handles: set<Handle>, byId: map<string, Handle>)
    reads handles
  {
    && (forall h :: h in handles ==> h.id.Some? && h.id.value in byId && byId[h.id.value] == h)
    && (forall c :: c in byId ==> byId[c] in handles && byId[c].id == Some(c))
  }

  /** Every connection id bound to an identity is registered. */
  ghost predicate BoundRegistered(identityOf: map<string, string>, byId: map<string, Handle>)
  {
    forall c :: c in identityOf ==> c in byId
  }

  class ConnectionGroup {
    /** Registered handles with the opaque data stored for each (null is `None`). */
    var connections: map<Handle, Option<Blob>>
    /** Connection id to its registered handle. */
    var connectionById: map<string, Handle>
    /** Group id to the handles that are members. */
    var groups: map<string, set<Handle>>
    /** Connection id to the ids of the groups it is in. */
    var groupsOfConnection: map<string, set<string>>
    /** Identity to the connection ids bound to it. */
    var connectionsOfIdentity: map<string, set<string>>
    /** Connection id to the identity it is bound to. */
    var identityOfConnection: map<string, string>

    /** Every registered handle carries an id, and the id map is exactly its inverse. */
    ghost predicate RegistryValid()
      reads this, connections.Keys
    {
      IdsAgree(connections.Keys, connectionById)
    }

    /** Group membership is recorded in both directions, no bucket is empty, and every member is registered. */
    ghost predicate GroupsValid()
      reads this
    {
      GroupsInv(connections.Keys, connectionById, groups, groupsOfConnection)
    }

    /** Identity bindings agree in both directions, no identity is kept without connections, and bound ids are registered. */
    ghost predicate BindingsValid()
      reads this
    {
      && Consistent(identityOfConnection, connectionsOfIdentity)
      && BoundRegistered(identityOfConnection, connectionById)
    }

    ghost predicate Valid()
      reads this, connections.Keys
    {
      RegistryValid() && GroupsValid() && BindingsValid()
    }

    /** Since each handle carries one id, the id map never names one handle twice. */
    lemma RegistryInjective()
      requires RegistryValid()
      ensures Injective(connectionById)
    {
      forall c1, c2 | c1 in connectionById && c2 in connectionById && connectionById[c1] == connectionById[c2]
        ensures c1 == c2
      {
        assert connectionById[c1].id == Some(c1) && connectionById[c2].id == Some(c2);
      }
    }

    constructor ()
      ensures Valid()
      ensures connections == map[] && connectionById == map[]
      ensures groups == map[] && groupsOfConnection == map[]
      ensures connectionsOfIdentity == map[] && identityOfConnection == map[]
    {
      connections := map[];
      connectionById := map[];
      groups := map[];
      groupsOfConnection := map[];
      connectionsOfIdentity := map[];
      identityOfConnection := map[];
      new;
      assert forall c :: Bucket(groupsOfConnection, c) == {};
      assert forall g :: Bucket(groups, g) == {};
      assert forall u :: Bucket(connectionsOfIdentity, u) == {};
    }

    // ---------------------------------------------------------------------
    // Connection registry

    /**
     * Registers `h` with `data`. A handle without an id gets `freshId` (the
     * random token); a handle that already has one keeps it. Registering an
     * already registered handle changes nothing and returns its id.
     */
    method AddConnection(h: Handle, data: Option<Blob>, freshId: string) returns (id: string)
      requires Valid()
      requires h.id.None? ==> freshId !in connectionById
      requires h !in connections && h.id.Some? ==> h.id.value !in connectionById
      modifies this, h
      ensures Valid()
      ensures id == if old(h.id).Some? then old(h.id).value else freshId
      ensures h.id == Some(id) && ConnectionById(id) == Some(h)
      ensures old(h in connections) ==> connections == old(connections) && connectionById == old(connectionById)
      ensures old(h !in connections) ==>
        connections == old(connections)[h := data] && connectionById == old(connectionById)[id := h]
      ensures |connections| == old(|connections|) + (if old(h in connections) then 0 else 1)
      ensures ConnectionData(h) == if old(h in connections) then old(connections[h]) else data
      ensures groups == old(groups) && groupsOfConnection == old(groupsOfConnection)
      ensures connectionsOfIdentity == old(connectionsOfIdentity) && identityOfConnection == old(identityOfConnection)
    {
      if h.id.None? {
        h.id := Some(freshId);
      }
      id := h.id.value;
      if h !in connections {
        Attach(h, data);
      }
    }

    /** The registration step of `addConnection`: `h`, which carries an unused id, joins the registry with `data`. */
    method Attach(h: Handle, data: Option<Blob>)
      requires Valid()
      requires h !in connections && h.id.Some? && h.id.value !in connectionById
      modifies this
      ensures Valid()
      ensures connections == old(connections)[h := data] && connectionById == old(connectionById)[h.id.value := h]
      ensures groups == old(groups) && groupsOfConnection == old(groupsOfConnection)
      ensures connectionsOfIdentity == old(connectionsOfIdentity) && identityOfConnection == old(identityOfConnection)
    {
      var id := h.id.value;
      ghost var handles := connections.Keys;
      GroupsInvRegister(handles, connectionById, groups, groupsOfConnection, h, id);
      assert handles + {h} == connections[h := data].Keys;
      connections := connections[h := data];
      connectionById := connectionById[id := h];
      assert RegistryValid() by {
        forall h' | h' in connections
          ensures h'.id.Some? && h'.id.value in connectionById && connectionById[h'.id.value] == h'
        {
          if h' != h { assert h' in handles; }
        }
        forall c | c in connectionById
          ensures connectionById[c] in connections && connectionById[c].id == Some(c)
        {
          if c != id { assert c in old(connectionById); }
        }
      }
    }

    /** `getConnectionBy_Id`: the registered handle whose id is `c`. */
    function ConnectionById(c: string): (r: Option<Handle>)
      requires Valid()
      reads this, connections.Keys
      ensures r.Some? ==> r.value in connections && r.value.id == Some(c)
      ensures r.None? ==> forall h :: h in connections ==> h.id != Some(c)
    {
      if c in connectionById then Some(connectionById[c]) else None
    }

    /** `ConnectionById` as the source hands it on: the handle, or null when the lookup misses. */
    function HandleOrNull(c: string): (h: Handle?)
      requires Valid()
      reads this, connections.Keys
      ensures h != null <==> c in connectionById
      ensures h != null ==> h in connections && h.id == Some(c)
    {
      match ConnectionById(c)
      case Some(h) => h
      case None => null
    }

    /** `getConnectionData`: the data stored with `h`, or null when `h` is not registered. */
    function ConnectionData(h: Handle): (r: Option<Blob>)
      reads this
      ensures h !in connections ==> r.None?
      ensures h in connections ==> r == connections[h]
    {
      if h in connections then connections[h] else None
    }

    // ---------------------------------------------------------------------
    // Group index

    /** `_leaveGroup`: removes `h` from group `g` in both directions and prunes emptied buckets. */
    method LeaveGroup(g: string, h: Handle?) returns (status: LeaveStatus)
      requires Valid()
      requires h != null ==> h in connections
      modifies this
      ensures Valid()
      ensures status == if h == null then NoConnection
                        else if g !in old(groups) then NoGroup
                        else if h !in old(groups)[g] then NotMember
                        else Left
      ensures status != Left ==> unchanged(this)
      ensures status == Left ==>
        groups == Remove(old(groups), g, h) && groupsOfConnection == Remove(old(groupsOfConnection), h.id.value, g)
      ensures connections == old(connections) && connectionById == old(connectionById)
      ensures connectionsOfIdentity == old(connectionsOfIdentity) && identityOfConnection == old(identityOfConnection)
    {
      if h == null {
        return NoConnection;
      }
      if g !in groups {
        return NoGroup;
      }
      var c := h.id.value;
      assert Bucket(groups, g) == groups[g];
      if g !in Bucket(groupsOfConnection, c) {
        assert h !in groups[g];
        return NotMember;
      }
      Unlink(g, c);
      return Left;
    }

    /** The update of `_leaveGroup` once membership is known: `g` loses the handle of `c`, and `c` loses `g`. */
    method Unlink(g: string, c: string)
      requires Valid()
      requires g in Bucket(groupsOfConnection, c)
      modifies this
      ensures Valid()
      ensures c in connectionById
      ensures groups == Remove(old(groups), g, connectionById[c])
      ensures groupsOfConnection == Remove(old(groupsOfConnection), c, g)
      ensures connections == old(connections) && connectionById == old(connectionById)
      ensures connectionsOfIdentity == old(connectionsOfIdentity) && identityOfConnection == old(identityOfConnection)
    {
      RegistryInjective();
      GroupsInvLeave(connections.Keys, connectionById, groups, groupsOfConnection, g, c);
      groups := Remove(groups, g, connectionById[c]);
      groupsOfConnection := Remove(groupsOfConnection, c, g);
    }

    /** `_joinGroup`: adds registered handle `h` to group `g`, creating the group lazily; 1 when already a member. */
    method JoinGroup(g: string, h: Handle) returns (status: nat)
      requires Valid()
      requires h in connections
      modifies this
      ensures Valid()
      ensures status == if h in Bucket(old(groups), g) then 1 else 0
      ensures status == 1 ==> unchanged(this)
      ensures status == 0 ==>
        groups == Insert(old(groups), g, h) && groupsOfConnection == Insert(old(groupsOfConnection), h.id.value, g)
      ensures connections == old(connections) && connectionById == old(connectionById)
      ensures connectionsOfIdentity == old(connectionsOfIdentity) && identityOfConnection == old(identityOfConnection)
    {
      if h in Bucket(groups, g) {
        return 1;
      }
      var c := h.id.value;
      RegistryInjective();
      GroupsInvJoin(connections.Keys, connectionById, groups, groupsOfConnection, g, c);
      groups := Insert(groups, g, h);
      groupsOfConnection := Insert(groupsOfConnection, c, g);
      return 0;
    }

    /** The groups a registered handle is in are exactly those its id lists. */
    lemma MembershipListed(h: Handle)
      requires Valid() && h in connections
      ensures forall g :: h in Bucket(groups, g) <==> g in Bucket(groupsOfConnection, h.id.value)
    {
      assert connectionById[h.id.value] == h;
    }

    /** An id that is not registered is in no group. */
    lemma UnregisteredListsNoGroup(c: string)
      requires Valid() && c !in connectionById
      ensures Bucket(groupsOfConnection, c) == {}
    {
      forall g ensures g !in Bucket(groupsOfConnection, c) { }
    }

    /** `_leaveAllGroup`: takes `h` out of every group it is in. */
    method LeaveAllGroups(h: Handle?)
      requires Valid()
      requires h != null ==> h in connections
      modifies this
      ensures Valid()
      ensures h == null ==> unchanged(this)
      ensures h != null ==> forall g, h' :: h' in Bucket(groups, g) <==> h' != h && h' in Bucket(old(groups), g)
      ensures h != null ==> groupsOfConnection == old(groupsOfConnection) - {h.id.value}
      ensures connections == old(connections) && connectionById == old(connectionById)
      ensures connectionsOfIdentity == old(connectionsOfIdentity) && identityOfConnection == old(identityOfConnection)
    {
      if h == null {
        return;
      }
      if h.id.value !in groupsOfConnection {
        MembershipListed(h);
        return;
      }
      var c := h.id.value;
      var todo := groupsOfConnection[c];
      while todo != {}
        invariant Valid()
        invariant connections == old(connections) && connectionById == old(connectionById)
        invariant connectionsOfIdentity == old(connectionsOfIdentity) && identityOfConnection == old(identityOfConnection)
        invariant todo == Bucket(groupsOfConnection, c)
        invariant forall g, h' :: h' in Bucket(groups, g) <==> h' in Bucket(old(groups), g) && (h' == h ==> g in todo)
        invariant forall c' :: c' != c ==> Bucket(groupsOfConnection, c') == Bucket(old(groupsOfConnection), c')
        decreases todo
      {
        var g :| g in todo;
        assert h in Bucket(groups, g) && g in groups;
        LeaveAllStep(old(groups), old(groupsOfConnection), groups, groupsOfConnection, h, c, g, todo);
        var status := LeaveGroup(g, h);
        todo := todo - {g};
      }
      BucketsDropKey(groupsOfConnection, old(groupsOfConnection), c);
    }

    /**
     * `closeConnection`: unregisters `h`, takes it out of every group (pruning
     * groups left empty) and drops its identity binding (dropping the
     * identity when it has no connection left). False, with nothing changed,
     * for a null or unregistered handle.
     */
    method CloseConnection(h: Handle?) returns (closed: bool)
      requires Valid()
      modifies this
      ensures Valid()
      ensures closed <==> h != null && old(h in connections)
      ensures !closed ==> unchanged(this)
      ensures closed ==> h.id.Some? && h.id == old(h.id)
      ensures closed ==> connections == old(connections) - {h} && connectionById == old(connectionById) - {h.id.value}
      ensures closed ==> forall g, h' :: h' in Bucket(groups, g) <==> h' != h && h' in Bucket(old(groups), g)
      ensures closed ==> groupsOfConnection == old(groupsOfConnection) - {h.id.value}
      ensures closed ==> identityOfConnection == old(identityOfConnection) - {h.id.value}
      ensures closed ==> forall u :: Bucket(connectionsOfIdentity, u) == Bucket(old(connectionsOfIdentity), u) - {h.id.value}
      ensures h != null ==> ConnectionData(h).None?
    {
      if h == null || h !in connections {
        return false;
      }
      var c := h.id.value;
      // The source detaches the handle first and then leaves its groups;
      // leaving first reaches the same state and keeps every step valid.
      LeaveAllGroups(h);
      Release(c);
      Unregister(h);
      return true;
    }

    /** The binding cleanup of `closeConnection`: connection id `c` loses its identity binding, if it has one. */
    method Release(c: string)
      requires Valid()
      modifies this
      ensures Valid()
      ensures (identityOfConnection, connectionsOfIdentity) == ReleaseBinding(old(identityOfConnection), old(connectionsOfIdentity), c)
      ensures connections == old(connections) && connectionById == old(connectionById)
      ensures groups == old(groups) && groupsOfConnection == old(groupsOfConnection)
    {
      ReleaseBindingConsistent(identityOfConnection, connectionsOfIdentity, c);
      var released := ReleaseBinding(identityOfConnection, connectionsOfIdentity, c);
      identityOfConnection, connectionsOfIdentity := released.0, released.1;
    }

    /** The detaching step of `closeConnection`, once `h` is in no group and bound to no identity: `h` and its id leave the registry. */
    method Unregister(h: Handle)
      requires Valid()
      requires h in connections && h.id.value !in groupsOfConnection && h.id.value !in identityOfConnection
      modifies this
      ensures Valid()
      ensures connections == old(connections) - {h} && connectionById == old(connectionById) - {h.id.value}
      ensures groups == old(groups) && groupsOfConnection == old(groupsOfConnection)
      ensures connectionsOfIdentity == old(connectionsOfIdentity) && identityOfConnection == old(identityOfConnection)
    {
      var c := h.id.value;
      assert connectionById[c] == h;
      MembershipListed(h);
      GroupsInvUnregister(connections.Keys, connectionById, groups, groupsOfConnection, h, c);
      ghost var handles := connections.Keys;
      assert forall h' :: h' in handles ==> h'.id.Some? && connectionById[h'.id.value] == h';
      assert handles - {h} == (connections - {h}).Keys;
      connections := connections - {h};
      connectionById := connectionById - {c};
      assert RegistryValid() by {
        forall h' | h' in connections
          ensures h'.id.Some? && h'.id.value in connectionById && connectionById[h'.id.value] == h'
        {
          assert h' in handles && h' != h;
        }
        forall c' | c' in connectionById
          ensures connectionById[c'] in connections && connectionById[c'].id == Some(c')
        {
          assert c' in old(connectionById) && c' != c;
        }
      }
    }

    // ---------------------------------------------------------------------
    // Identity binder

    /** `_bindIdAndConnection`: binds `h` to identity `u` unless it is already bound to any identity. */
    method BindHandle(u: string, h: Handle?) returns (status: nat)
      requires Valid()
      requires h != null ==> h in connections
      modifies this
      ensures Valid()
      ensures status == if h == null then 2 else if h.id.value in old(identityOfConnection) then 1 else 0
      ensures status != 0 ==> unchanged(this)
      ensures status == 0 ==>
        identityOfConnection == old(identityOfConnection)[h.id.value := u] &&
        connectionsOfIdentity == Insert(old(connectionsOfIdentity), u, h.id.value)
      ensures connections == old(connections) && connectionById == old(connectionById)
      ensures groups == old(groups) && groupsOfConnection == old(groupsOfConnection)
    {
      if h == null {
        return 2;
      }
      var c := h.id.value;
      if c in identityOfConnection {
        return 1;
      }
      BindConsistent(identityOfConnection, connectionsOfIdentity, u, c);
      connectionsOfIdentity := Insert(connectionsOfIdentity, u, c);
      identityOfConnection := identityOfConnection[c := u];
      return 0;
    }

    /**
     * `bindId`: binds connection id `c` to identity `u`. 2 when `c` is not
     * registered, 1 (and the existing binding stays) when `c` is already
     * bound to any identity, 0 when the binding is added in both directions.
     */
    method BindIdentity(u: string, c: string) returns (status: nat)
      requires Valid()
      modifies this
      ensures Valid()
      ensures status == if c !in old(connectionById) then 2 else if c in old(identityOfConnection) then 1 else 0
      ensures status != 0 ==> unchanged(this)
      ensures status == 0 ==>
        identityOfConnection == old(identityOfConnection)[c := u] &&
        connectionsOfIdentity == Insert(old(connectionsOfIdentity), u, c)
      ensures connections == old(connections) && connectionById == old(connectionById)
      ensures groups == old(groups) && groupsOfConnection == old(groupsOfConnection)
    {
      status := BindHandle(u, HandleOrNull(c));
    }

    /** `_unBindIdAnd_Id`: removes the pair (`u`, `c`) if it exists, dropping `u` when it has no connection left. */
    method UnbindPair(u: string, c: string) returns (status: nat)
      requires Valid()
      modifies this
      ensures Valid()
      ensures status == if c in Bucket(old(connectionsOfIdentity), u) then 0 else 1
      ensures status == 1 ==> unchanged(this)
      ensures status == 0 ==>
        identityOfConnection == old(identityOfConnection) - {c} &&
        connectionsOfIdentity == Remove(old(connectionsOfIdentity), u, c)
      ensures connections == old(connections) && connectionById == old(connectionById)
      ensures groups == old(groups) && groupsOfConnection == old(groupsOfConnection)
    {
      if c !in Bucket(connectionsOfIdentity, u) {
        return 1;
      }
      assert identityOfConnection[c] == u;
      Release(c);
      return 0;
    }

    /** `unBind_Id`: removes the binding of connection id `c`; 1 when it has none. */
    method UnbindConnection(c: string) returns (status: nat)
      requires Valid()
      modifies this
      ensures Valid()
      ensures status == if c in old(identityOfConnection) then 0 else 1
      ensures identityOfConnection == old(identityOfConnection) - {c}
      ensures forall u :: Bucket(connectionsOfIdentity, u) == Bucket(old(connectionsOfIdentity), u) - {c}
      ensures connections == old(connections) && connectionById == old(connectionById)
      ensures groups == old(groups) && groupsOfConnection == old(groupsOfConnection)
    {
      if c !in identityOfConnection {
        forall u ensures c !in Bucket(connectionsOfIdentity, u) { }
        return 1;
      }
      var u := identityOfConnection[c];
      status := UnbindPair(u, c);
    }

    /** `unBindId`: removes every connection bound to identity `u`; 1 when there was none. */
    method UnbindIdentity(u: string) returns (status: nat)
      requires Valid()
      modifies this
      ensures Valid()
      ensures status == if u in old(connectionsOfIdentity) then 0 else 1
      ensures u !in connectionsOfIdentity
      ensures forall u' :: u' != u ==> Bucket(connectionsOfIdentity, u') == Bucket(old(connectionsOfIdentity), u')
      ensures forall c :: c in identityOfConnection <==> c in old(identityOfConnection) && old(identityOfConnection)[c] != u
      ensures connections == old(connections) && connectionById == old(connectionById)
      ensures groups == old(groups) && groupsOfConnection == old(groupsOfConnection)
    {
      var ids := Bucket(connectionsOfIdentity, u);
      var todo := ids;
      while todo != {}
        invariant Valid()
        invariant todo == Bucket(connectionsOfIdentity, u)
        invariant forall u' :: u' != u ==> Bucket(connectionsOfIdentity, u') == Bucket(old(connectionsOfIdentity), u')
        invariant forall c :: c in identityOfConnection <==> c in old(identityOfConnection) && (old(identityOfConnection)[c] == u ==> c in todo)
        invariant connections == old(connections) && connectionById == old(connectionById)
        invariant groups == old(groups) && groupsOfConnection == old(groupsOfConnection)
        decreases todo
      {
        var c :| c in todo;
        var _ := UnbindPair(u, c);
        todo := todo - {c};
      }
      status := if ids == {} then 1 else 0;
    }

    // ---------------------------------------------------------------------
    // Group operations by connection id and by identity

    /** `joinGroupBy_Id`: 2 when `c` is not registered, 1 when it is already in `g`, 0 when it joins. */
    method JoinGroupByConnectionId(g: string, c: string) returns (status: nat)
      requires Valid()
      modifies this
      ensures Valid()
      ensures status == if c !in old(connectionById) then 2 else if g in Bucket(old(groupsOfConnection), c) then 1 else 0
      ensures status != 0 ==> unchanged(this)
      ensures forall c', g' :: g' in Bucket(groupsOfConnection, c') <==>
        g' in Bucket(old(groupsOfConnection), c') || (c' == c && g' == g && c in old(connectionById))
      ensures connections == old(connections) && connectionById == old(connectionById)
      ensures connectionsOfIdentity == old(connectionsOfIdentity) && identityOfConnection == old(identityOfConnection)
    {
      var h := HandleOrNull(c);
      if h == null {
        return 2;
      }
      MembershipListed(h);
      status := JoinGroup(g, h);
    }

    /** `leaveGroupBy_Id`: code 2 when `c` is not registered, otherwise what `_leaveGroup` reports. */
    method LeaveGroupByConnectionId(g: string, c: string) returns (status: LeaveStatus)
      requires Valid()
      modifies this
      ensures Valid()
      ensures status == if c !in old(connectionById) then NoConnection
                        else if g !in old(groups) then NoGroup
                        else if g !in Bucket(old(groupsOfConnection), c) then NotMember
                        else Left
      ensures status != Left ==> unchanged(this)
      ensures forall c', g' :: g' in Bucket(groupsOfConnection, c') <==>
        g' in Bucket(old(groupsOfConnection), c') && !(c' == c && g' == g)
      ensures connections == old(connections) && connectionById == old(connectionById)
      ensures connectionsOfIdentity == old(connectionsOfIdentity) && identityOfConnection == old(identityOfConnection)
    {
      var h := HandleOrNull(c);
      if h == null {
        UnregisteredListsNoGroup(c);
        return NoConnection;
      }
      MembershipListed(h);
      status := LeaveGroup(g, h);
    }

    /** `leaveAllGroupBy_Id`: takes connection id `c` out of every group; nothing happens when `c` is not registered. */
    method LeaveAllGroupsByConnectionId(c: string)
      requires Valid()
      modifies this
      ensures Valid()
      ensures groupsOfConnection == old(groupsOfConnection) - {c}
      ensures c !in old(connectionById) ==> unchanged(this)
      ensures c in old(connectionById) ==>
        forall g, h :: h in Bucket(groups, g) <==> h != old(connectionById)[c] && h in Bucket(old(groups), g)
      ensures connections == old(connections) && connectionById == old(connectionById)
      ensures connectionsOfIdentity == old(connectionsOfIdentity) && identityOfConnection == old(identityOfConnection)
    {
      var h := HandleOrNull(c);
      if h == null {
        UnregisteredListsNoGroup(c);
      }
      LeaveAllGroups(h);
    }

    /** `leaveAllGroupById`: takes every connection bound to identity `u` out of every group. */
    method LeaveAllGroupsByIdentity(u: string)
      requires Valid()
      modifies this
      ensures Valid()
      ensures groupsOfConnection == old(groupsOfConnection) - Bucket(old(connectionsOfIdentity), u)
      ensures connections == old(connections) && connectionById == old(connectionById)
      ensures connectionsOfIdentity == old(connectionsOfIdentity) && identityOfConnection == old(identityOfConnection)
    {
      var ids := Bucket(connectionsOfIdentity, u);
      var todo := ids;
      while todo != {}
        invariant Valid()
        invariant todo <= ids
        invariant groupsOfConnection == old(groupsOfConnection) - (ids - todo)
        invariant connections == old(connections) && connectionById == old(connectionById)
        invariant connectionsOfIdentity == old(connectionsOfIdentity) && identityOfConnection == old(identityOfConnection)
        decreases todo
      {
        var c :| c in todo;
        LeaveAllGroupsByConnectionId(c);
        assert old(groupsOfConnection) - (ids - todo) - {c} == old(groupsOfConnection) - (ids - (todo - {c}));
        todo := todo - {c};
      }
    }

    /**
     * The inner loop of `joinGroupById`: joins every connection id of `ids`
     * (all registered, as bound ids are) to group `g`, lowering the running
     * `state` to each `joinGroupBy_Id` code.
     */
    method JoinEach(g: string, ids: set<string>, state: nat) returns (r: nat)
      requires Valid()
      requires ids <= connectionById.Keys
      modifies this
      ensures Valid()
      ensures r == if ids == {} then state
                   else if SomeJoins([g], ids, old(groupsOfConnection)) then 0
                   else if state < 1 then state else 1
      ensures forall c, g' {:trigger g' in Bucket(groupsOfConnection, c)} {:trigger g' in Bucket(old(groupsOfConnection), c)} ::
        g' in Bucket(groupsOfConnection, c) <==> g' in Bucket(old(groupsOfConnection), c) || (g' == g && c in ids)
      ensures connections == old(connections) && connectionById == old(connectionById)
      ensures connectionsOfIdentity == old(connectionsOfIdentity) && identityOfConnection == old(identityOfConnection)
    {
      r := state;
      var todo := ids;
      while todo != {}
        invariant Valid()
        invariant todo <= ids
        invariant connections == old(connections) && connectionById == old(connectionById)
        invariant connectionsOfIdentity == old(connectionsOfIdentity) && identityOfConnection == old(identityOfConnection)
        invariant forall c, g' {:trigger g' in Bucket(groupsOfConnection, c)} {:trigger g' in Bucket(old(groupsOfConnection), c)} ::
          g' in Bucket(groupsOfConnection, c) <==> g' in Bucket(old(groupsOfConnection), c) || (g' == g && c in ids - todo)
        invariant r == if todo == ids then state
                       else if SomeJoins([g], ids - todo, old(groupsOfConnection)) then 0
                       else if state < 1 then state else 1
        decreases todo
      {
        var c :| c in todo;
        ghost var cur := groupsOfConnection;
        var s := JoinGroupByConnectionId(g, c);
        JoinEachStep(old(groupsOfConnection), cur, groupsOfConnection, ids, todo, g, c);
        r := if s < r then s else r;
        todo := todo - {c};
      }
      assert ids - todo == ids;
    }

    /**
     * `joinGroupById`: joins every connection bound to identity `u` to every
     * group of the comma-separated list `groupList`. The result is the lowest
     * code over all pairs, starting from 2: 2 when `u` has no connection,
     * 0 when at least one pair joined, 1 when every pair was already a member.
     */
    method JoinGroupsByIdentity(groupList: string, u: string) returns (state: nat)
      requires Valid()
      modifies this
      ensures Valid()
      ensures state == 2 <==> u !in old(connectionsOfIdentity)
      ensures state == 0 <==> SomeJoins(Explode(groupList), Bucket(old(connectionsOfIdentity), u), old(groupsOfConnection))
      ensures state <= 2
      ensures forall c, g {:trigger g in Bucket(groupsOfConnection, c)} {:trigger g in Bucket(old(groupsOfConnection), c)} ::
        g in Bucket(groupsOfConnection, c) <==>
        g in Bucket(old(groupsOfConnection), c) || (g in Explode(groupList) && c in Bucket(old(connectionsOfIdentity), u))
      ensures connections == old(connections) && connectionById == old(connectionById)
      ensures connectionsOfIdentity == old(connectionsOfIdentity) && identityOfConnection == old(identityOfConnection)
    {
      var ids := Bucket(connectionsOfIdentity, u);
      assert ids <= connectionById.Keys;
      var parts := Explode(groupList);
      ghost var before := groupsOfConnection;
      state := 2;
      for i := 0 to |parts|
        invariant Valid()
        invariant connections == old(connections) && connectionById == old(connectionById)
        invariant connectionsOfIdentity == old(connectionsOfIdentity) && identityOfConnection == old(identityOfConnection)
        invariant forall c, g {:trigger g in Bucket(groupsOfConnection, c)} {:trigger g in Bucket(before, c)} ::
          g in Bucket(groupsOfConnection, c) <==> g in Bucket(before, c) || (g in parts[..i] && c in ids)
        invariant state == if ids == {} || i == 0 then 2
                           else if SomeJoins(parts[..i], ids, before) then 0
                           else 1
      {
        ghost var cur := groupsOfConnection;
        state := JoinEach(parts[i], ids, state);
        JoinRound(before, cur, groupsOfConnection, parts, ids, i);
      }
      assert parts[..|parts|] == parts;
    }

    /**
     * The inner loop of `leaveGroupById`: takes every connection id of `ids`
     * (all registered, as bound ids are) out of group `g`, folding each
     * `leaveGroupBy_Id` outcome into the running `state` with the step the
     * aggregate evidently means.
     */
    method LeaveEach(g: string, ids: set<string>, state: nat) returns (r: nat)
      requires Valid()
      requires ids <= connectionById.Keys
      modifies this
      ensures Valid()
      ensures r == if state == 0 || SomeLeaves([g], ids, old(groupsOfConnection)) then 0
                   else if state == 1 || (ids != {} && g !in old(groups)) then 1
                   else state
      ensures r != 0 ==> groups == old(groups) && groupsOfConnection == old(groupsOfConnection)
      ensures forall c, g' {:trigger g' in Bucket(groupsOfConnection, c)} {:trigger g' in Bucket(old(groupsOfConnection), c)} ::
        g' in Bucket(groupsOfConnection, c) <==> g' in Bucket(old(groupsOfConnection), c) && !(g' == g && c in ids)
      ensures connections == old(connections) && connectionById == old(connectionById)
      ensures connectionsOfIdentity == old(connectionsOfIdentity) && identityOfConnection == old(identityOfConnection)
    {
      r := state;
      var todo := ids;
      while todo != {}
        invariant Valid()
        invariant todo <= ids
        invariant connections == old(connections) && connectionById == old(connectionById)
        invariant connectionsOfIdentity == old(connectionsOfIdentity) && identityOfConnection == old(identityOfConnection)
        invariant forall c, g' {:trigger g' in Bucket(groupsOfConnection, c)} {:trigger g' in Bucket(old(groupsOfConnection), c)} ::
          g' in Bucket(groupsOfConnection, c) <==> g' in Bucket(old(groupsOfConnection), c) && !(g' == g && c in ids - todo)
        invariant !SomeLeaves([g], ids - todo, old(groupsOfConnection)) ==>
          groups == old(groups) && groupsOfConnection == old(groupsOfConnection)
        invariant r == if state == 0 || SomeLeaves([g], ids - todo, old(groupsOfConnection)) then 0
                       else if state == 1 || (todo != ids && g !in old(groups)) then 1
                       else state
        decreases todo
      {
        var c :| c in todo;
        ghost var cur := groupsOfConnection;
        var s := LeaveGroupByConnectionId(g, c);
        LeaveEachStep(old(groupsOfConnection), cur, groupsOfConnection, ids, todo, g, c);
        r := LeaveStep(r, s);
        todo := todo - {c};
      }
      assert ids - todo == ids;
    }

    /**
     * `leaveGroupById`: takes every connection bound to identity `u` out of
     * every group of the comma-separated list `groupList`. The result is
     * the lowest code over all pairs, starting from 2, where a pair whose
     * connection is not a member of an existing group contributes no code:
     * 0 when at least one pair left, 1 when nothing left and some listed
     * group does not exist, 2 otherwise.
     */
    method LeaveGroupsByIdentity(groupList: string, u: string) returns (state: nat)
      requires Valid()
      modifies this
      ensures Valid()
      ensures state == 0 <==> SomeLeaves(Explode(groupList), Bucket(old(connectionsOfIdentity), u), old(groupsOfConnection))
      ensures state == 1 <==> state != 0 && u in old(connectionsOfIdentity) && SomeMissing(Explode(groupList), old(groups).Keys)
      ensures state <= 2
      ensures state != 0 ==> groups == old(groups) && groupsOfConnection == old(groupsOfConnection)
      ensures forall c, g {:trigger g in Bucket(groupsOfConnection, c)} {:trigger g in Bucket(old(groupsOfConnection), c)} ::
        g in Bucket(groupsOfConnection, c) <==>
        g in Bucket(old(groupsOfConnection), c) && !(g in Explode(groupList) && c in Bucket(old(connectionsOfIdentity), u))
      ensures connections == old(connections) && connectionById == old(connectionById)
      ensures connectionsOfIdentity == old(connectionsOfIdentity) && identityOfConnection == old(identityOfConnection)
    {
      var ids := Bucket(connectionsOfIdentity, u);
      assert ids <= connectionById.Keys;
      var parts := Explode(groupList);
      ghost var before, beforeGroups := groupsOfConnection, groups;
      state := 2;
      for i := 0 to |parts|
        invariant Valid()
        invariant connections == old(connections) && connectionById == old(connectionById)
        invariant connectionsOfIdentity == old(connectionsOfIdentity) && identityOfConnection == old(identityOfConnection)
        invariant forall c, g {:trigger g in Bucket(groupsOfConnection, c)} {:trigger g in Bucket(before, c)} ::
          g in Bucket(groupsOfConnection, c) <==> g in Bucket(before, c) && !(g in parts[..i] && c in ids)
        invariant state != 0 ==> groups == beforeGroups && groupsOfConnection == before
        invariant state == if SomeLeaves(parts[..i], ids, before) then 0
                           else if ids != {} && SomeMissing(parts[..i], beforeGroups.Keys) then 1
                           else 2
      {
        ghost var cur := groupsOfConnection;
        state := LeaveEach(parts[i], ids, state);
        LeaveRound(before, cur, groupsOfConnection, parts, ids, beforeGroups.Keys, i);
      }
      assert parts[..|parts|] == parts;
    }

    // ---------------------------------------------------------------------
    // Queries

    /** The id map pairs every registered handle with exactly one id, so both count the same. */
    lemma RegistrySizes()
      requires Valid()
      ensures |connections| == |connectionById|
    {
      RegistryInjective();
      InjectiveMapSize(connectionById);
      assert connectionById.Values == connections.Keys by {
        forall h | h in connections ensures h in connectionById.Values {
          assert connectionById[h.id.value] == h;
        }
      }
    }

    /** `getConnectionCount` and `get_IdCount`: the number of registered connections. */
    function ConnectionCount(): (n: nat)
      requires Valid()
      reads this, connections.Keys
      ensures n == |connections| && n == |connectionById|
    {
      RegistrySizes();
      |connectionById|
    }

    /** `isOnline_Id`: whether connection id `c` is registered. */
    function IsOnlineConnection(c: string): (r: bool)
      requires Valid()
      reads this, connections.Keys
      ensures r <==> exists h :: h in connections && h.id == Some(c)
    {
      if c in connectionById then assert connectionById[c] in connections; true else false
    }

    /** `get_IdData`: the data stored with connection id `c`; `None` (the empty array) when `c` is not registered. */
    function DataById(c: string): (r: Option<Option<Blob>>)
      requires Valid()
      reads this, connections.Keys
      ensures r.None? <==> !IsOnlineConnection(c)
      ensures r.Some? ==> exists h :: h in connections && h.id == Some(c) && r.value == ConnectionData(h)
    {
      if c in connectionById then Some(connections[connectionById[c]]) else None
    }

    /** `getIdBy_Id`: the identity connection id `c` is bound to, `None` for the source's 0. */
    function IdentityOf(c: string): (r: Option<string>)
      requires Valid()
      reads this, connections.Keys
      ensures forall u :: r == Some(u) <==> c in Bucket(connectionsOfIdentity, u)
    {
      if c in identityOfConnection then Some(identityOfConnection[c]) else None
    }

    /** `getBind_IdsById`: the connection ids bound to identity `u`. */
    function ConnectionIdsOf(u: string): (r: set<string>)
      requires Valid()
      reads this, connections.Keys
      ensures forall c :: c in r <==> IdentityOf(c) == Some(u)
      ensures r <= connectionById.Keys
    {
      Bucket(connectionsOfIdentity, u)
    }

    /** `isOnlineId`: whether some connection is bound to identity `u`. */
    function IsOnlineIdentity(u: string): (r: bool)
      requires Valid()
      reads this, connections.Keys
      ensures r <==> exists c :: IdentityOf(c) == Some(u)
    {
      var ids := Bucket(connectionsOfIdentity, u);
      if ids != {} then
        var c :| c in ids;
        assert IdentityOf(c) == Some(u);
        true
      else
        false
    }

    /** `getIds` and `getBindIds`: the identities with at least one bound connection. */
    function Identities(): (r: set<string>)
      requires Valid()
      reads this, connections.Keys
      ensures forall u :: u in r <==> IsOnlineIdentity(u)
    {
      connectionsOfIdentity.Keys
    }

    /** `getBind_Ids`: the connection ids that are bound to an identity. */
    function BoundConnectionIds(): (r: set<string>)
      requires Valid()
      reads this, connections.Keys
      ensures forall c :: c in r <==> IdentityOf(c).Some?
      ensures r <= connectionById.Keys
    {
      identityOfConnection.Keys
    }

    /** `getBind_IdCount`: the number of bound connection ids, never more than the registered ones. */
    function BoundConnectionCount(): (n: nat)
      requires Valid()
      reads this, connections.Keys
      ensures n == |BoundConnectionIds()|
      ensures n <= ConnectionCount()
    {
      SubsetSize(identityOfConnection.Keys, connectionById.Keys);
      |identityOfConnection|
    }

    /** `getGroupIds`: the groups that exist; each has at least one member. */
    function GroupIds(): (r: set<string>)
      requires Valid()
      reads this, connections.Keys
      ensures forall g :: g in r <==> exists c :: g in Bucket(groupsOfConnection, c)
    {
      assert forall g :: g in groups ==> exists c :: g in Bucket(groupsOfConnection, c) by {
        forall g | g in groups ensures exists c :: g in Bucket(groupsOfConnection, c) {
          var h :| h in groups[g];
          assert h in Bucket(groups, g) && h in connections;
          assert g in Bucket(groupsOfConnection, h.id.value);
        }
      }
      groups.Keys
    }

    /** `getGroupIdsBy_Id`: the groups connection id `c` is in. */
    function GroupsOf(c: string): (r: set<string>)
      requires Valid()
      reads this, connections.Keys
      ensures forall g :: g in r <==> c in connectionById && connectionById[c] in Bucket(groups, g)
      ensures r <= groups.Keys
    {
      Bucket(groupsOfConnection, c)
    }

    /** `getGroupCountBy_Id`: how many groups connection id `c` is in, at most the number of groups. */
    function GroupCountOf(c: string): (n: nat)
      requires Valid()
      reads this, connections.Keys
      ensures n == |GroupsOf(c)| && n <= |groups|
      ensures n == 0 <==> forall g :: !IsInGroup(g, c)
    {
      SubsetSize(GroupsOf(c), groups.Keys);
      var r := GroupsOf(c);
      if r == {} then 0 else var g :| g in r; assert IsInGroup(g, c); |r|
    }

    /** `isInGroupBy_Id` (`_isInGroup`): whether connection id `c` is a member of group `g`. */
    function IsInGroup(g: string, c: string): (r: bool)
      requires Valid()
      reads this, connections.Keys
      ensures r <==> c in connectionById && connectionById[c] in Bucket(groups, g)
    {
      g in Bucket(groupsOfConnection, c)
    }

    /** `getGroup_IdCount`: the number of members of `g`, which is the number of connection ids listing `g`. */
    function MemberCount(g: string): (n: nat)
      requires Valid()
      reads this, connections.Keys
      ensures n == |set c | c in connectionById && IsInGroup(g, c)|
    {
      MembersById(g);
      |Bucket(groups, g)|
    }

    /** The members of `g` are the handles of the connection ids that list `g`, one id each. */
    lemma MembersById(g: string)
      requires Valid()
      ensures |Bucket(groups, g)| == |set c | c in connectionById && IsInGroup(g, c)|
    {
      var ids := set c | c in connectionById && IsInGroup(g, c);
      var sub := map c | c in ids :: connectionById[c];
      RegistryInjective();
      assert forall a, b :: a in sub && b in sub && sub[a] == sub[b] ==> a == b;
      InjectiveMapSize(sub);
      assert sub.Keys == ids;
      forall h | h in Bucket(groups, g) ensures h in sub.Values {
        var c := h.id.value;
        assert h in connections && connectionById[c] == h;
        assert IsInGroup(g, c);
        assert c in ids && sub[c] == h;
      }
      forall h | h in sub.Values ensures h in Bucket(groups, g) {
        var c :| c in ids && sub[c] == h;
        assert IsInGroup(g, c);
      }
      assert sub.Values == Bucket(groups, g);
    }

    /**
     * The groups of all connections bound to identity `u`: the specification
     * that the merging loop of `GroupsOfIdentity` is proved against.
     */
    ghost function GroupsOfIdentitySpec(u: string): set<string>
      reads this
    {
      set c, g | c in Bucket(connectionsOfIdentity, u) && g in Bucket(groupsOfConnection, c) :: g
    }

    /** The identities bound to members of group `g`, each counted once. */
    ghost function IdentitiesInGroup(g: string): set<string>
      reads this
    {
      set c | c in identityOfConnection && g in Bucket(groupsOfConnection, c) :: identityOfConnection[c]
    }

    /**
     * `isInGroupById`: whether some connection bound to identity `u` is a
     * member of group `g`, as `_isInGroup` reads it: that check yields the
     * stored group id, so a group named "0" or "" never counts.
     */
    method IsInGroupByIdentity(g: string, u: string) returns (r: bool)
      requires Valid()
      ensures r <==> Truthy(g) && exists c :: c in ConnectionIdsOf(u) && IsInGroup(g, c)
    {
      var todo := Bucket(connectionsOfIdentity, u);
      while todo != {}
        invariant todo <= Bucket(connectionsOfIdentity, u)
        invariant forall c :: c in Bucket(connectionsOfIdentity, u) - todo ==> !(Truthy(g) && IsInGroup(g, c))
        decreases todo
      {
        var c :| c in todo;
        if Truthy(g) && IsInGroup(g, c) {
          return true;
        }
        todo := todo - {c};
      }
      return false;
    }

    /** `getGroupIdsById`: the groups of the connections bound to identity `u`, without repetition. */
    method GroupsOfIdentity(u: string) returns (r: set<string>)
      requires Valid()
      ensures r == GroupsOfIdentitySpec(u)
      ensures forall g :: g in r <==> exists c :: c in ConnectionIdsOf(u) && IsInGroup(g, c)
    {
      r := {};
      var ids := Bucket(connectionsOfIdentity, u);
      var todo := ids;
      while todo != {}
        invariant todo <= ids
        invariant r == set c, g | c in ids - todo && g in Bucket(groupsOfConnection, c) :: g
        decreases todo
      {
        var c :| c in todo;
        r := r + GroupsOf(c);
        todo := todo - {c};
      }
      assert ids - todo == ids;
      forall g ensures g in r <==> exists c :: c in ConnectionIdsOf(u) && IsInGroup(g, c) {
        if g in r {
          var c :| c in ids && g in Bucket(groupsOfConnection, c);
          assert c in ConnectionIdsOf(u) && IsInGroup(g, c);
        }
      }
    }

    /** `getGroupCountById`: how many distinct groups the connections of identity `u` are in. */
    method GroupCountOfIdentity(u: string) returns (n: nat)
      requires Valid()
      ensures n == |GroupsOfIdentitySpec(u)|
      ensures n == 0 <==> forall c, g :: c in ConnectionIdsOf(u) ==> !IsInGroup(g, c)
    {
      var gs := GroupsOfIdentity(u);
      n := |gs|;
    }

    /** The identities bound to the handles of `members`. */
    ghost function IdentitiesOf(members: set<Handle>): set<string>
      reads this, members
    {
      set h | h in members && h.id.Some? && h.id.value in identityOfConnection :: identityOfConnection[h.id.value]
    }

    /** The identities of a group's member handles are the identities bound to the connection ids listing the group. */
    lemma IdentitiesOfMembers(g: string)
      requires Valid()
      ensures IdentitiesOf(Bucket(groups, g)) == IdentitiesInGroup(g)
    {
      var members := Bucket(groups, g);
      forall u | u in IdentitiesInGroup(g) ensures u in IdentitiesOf(members) {
        var c :| c in identityOfConnection && g in Bucket(groupsOfConnection, c) && identityOfConnection[c] == u;
        assert connectionById[c] in members;
      }
      forall u | u in IdentitiesOf(members) ensures u in IdentitiesInGroup(g) {
        var h :| h in members && h.id.Some? && h.id.value in identityOfConnection && identityOfConnection[h.id.value] == u;
        MembershipListed(h);
      }
    }

    /** The loop of `getGroupIdCount`: counts the distinct identities bound to the handles of `members`. */
    method CountIdentities(members: set<Handle>) returns (n: nat)
      ensures n == |IdentitiesOf(members)|
    {
      var seen: set<string> := {};
      n := 0;
      var todo := members;
      while todo != {}
        invariant todo <= members
        invariant n == |seen|
        invariant seen == IdentitiesOf(members - todo)
        decreases todo
      {
        var h :| h in todo;
        if h.id.Some? && h.id.value in identityOfConnection && identityOfConnection[h.id.value] !in seen {
          var u := identityOfConnection[h.id.value];
          assert |seen + {u}| == |seen| + 1;
          seen := seen + {u};
          n := n + 1;
        }
        assert members - (todo - {h}) == (members - todo) + {h};
        todo := todo - {h};
      }
      assert members - todo == members;
    }

    /** `getGroupIdCount`: how many distinct identities are bound to members of group `g`. */
    method IdentityCountInGroup(g: string) returns (n: nat)
      requires Valid()
      ensures n == |IdentitiesInGroup(g)|
    {
      n := CountIdentities(Bucket(groups, g));
      IdentitiesOfMembers(g);
    }

    // ---------------------------------------------------------------------
    // Fan-out

    /** `_sendMessageTo_Id` (`sendMessageTo_Id`): `send` to the handle registered as `c`, nothing when there is none. */
    function SendToConnectionId(c: string, m: Message): (r: SendResult)
      requires Valid()
      reads this, connections.Keys
      ensures r.NotSent? <==> !IsOnlineConnection(c)
      ensures r.NoCapability? <==> c in connectionById && !CanDeliver(connectionById[c])
      ensures r.Sent? ==> r.delivery.to in connections && r.delivery.to.id == Some(c) &&
                          r.delivery == Delivery(r.delivery.to, ChannelOf(r.delivery.to), m)
    {
      Send(HandleOrNull(c), m)
    }

    /** Whether the fan-outs skip connection id `c`: its id is excluded, or it is bound to an excluded identity. */
    predicate Excluded(c: string, excludeIdentities: set<string>, excludeIds: set<string>): (r: bool)
      requires Valid()
      reads this, connections.Keys
      ensures r <==> c in excludeIds || (IdentityOf(c).Some? && IdentityOf(c).value in excludeIdentities)
    {
      c in excludeIds || (c in identityOfConnection && identityOfConnection[c] in excludeIdentities)
    }

    /** The members of `g` that `_sendMessageToGroup` delivers to. */
    function GroupRecipients(g: string, excludeIdentities: set<string>, excludeIds: set<string>): (r: set<Handle>)
      requires Valid()
      reads this, connections.Keys
      ensures r <= connections.Keys
      ensures forall c :: c in connectionById ==>
        (connectionById[c] in r <==> IsInGroup(g, c) && !Excluded(c, excludeIdentities, excludeIds))
    {
      assert forall h :: h in Bucket(groups, g) ==> h in connections && h.id.Some? && connectionById[h.id.value] == h;
      set h | h in Bucket(groups, g) && !Excluded(h.id.value, excludeIdentities, excludeIds)
    }

    /**
     * `_sendMessageToGroup` (`sendToGroup`): `send` to every member of `g`
     * that is not excluded by connection id or by bound identity, and count
     * the sends. A member without a delivery method raises the exception.
     */
    method SendToGroup(g: string, m: Message, excludeIdentities: set<string>, excludeIds: set<string>)
      returns (count: nat, log: seq<Delivery>, failed: bool)
      requires Valid()
      ensures failed <==> exists h :: h in GroupRecipients(g, excludeIdentities, excludeIds) && !CanDeliver(h)
      ensures Recipients(log) <= GroupRecipients(g, excludeIdentities, excludeIds) && Distinct(log) && Carries(log, m)
      ensures !failed ==> Recipients(log) == GroupRecipients(g, excludeIdentities, excludeIds)
      ensures !failed ==> count == |GroupRecipients(g, excludeIdentities, excludeIds)|
    {
      var targets := GroupRecipients(g, excludeIdentities, excludeIds);
      log, failed := SendEach(targets, m);
      count := |log|;
    }

    /** The handles of the connections bound to identity `u` whose ids are not excluded. */
    function IdentityRecipients(u: string, excludeIds: set<string>): (r: set<Handle>)
      requires Valid()
      reads this, connections.Keys
      ensures r <= connections.Keys
      ensures forall c :: c in connectionById ==>
        (connectionById[c] in r <==> c in ConnectionIdsOf(u) && c !in excludeIds)
    {
      assert forall c :: c in Bucket(connectionsOfIdentity, u) ==> c in connectionById;
      set c | c in Bucket(connectionsOfIdentity, u) && c !in excludeIds :: connectionById[c]
    }

    /** `sendMessageToId`: `send` to every connection bound to identity `u` except the excluded ids. */
    method SendToIdentity(u: string, m: Message, excludeIds: set<string>) returns (log: seq<Delivery>, failed: bool)
      requires Valid()
      ensures failed <==> exists h :: h in IdentityRecipients(u, excludeIds) && !CanDeliver(h)
      ensures Recipients(log) <= IdentityRecipients(u, excludeIds) && Distinct(log) && Carries(log, m)
      ensures !failed ==> Recipients(log) == IdentityRecipients(u, excludeIds)
    {
      log, failed := SendEach(IdentityRecipients(u, excludeIds), m);
    }

    /**
     * `sendToClient`: with a truthy identity `u`, the identity fan-out;
     * otherwise (the default identity is 0) a single send to connection id `c`.
     */
    method SendToClient(c: string, m: Message, u: string, excludeIds: set<string>) returns (log: seq<Delivery>, failed: bool)
      requires Valid()
      ensures Truthy(u) ==> (failed <==> exists h :: h in IdentityRecipients(u, excludeIds) && !CanDeliver(h))
      ensures Truthy(u) ==> Recipients(log) <= IdentityRecipients(u, excludeIds) && Distinct(log) && Carries(log, m)
      ensures Truthy(u) && !failed ==> Recipients(log) == IdentityRecipients(u, excludeIds)
      ensures !Truthy(u) ==> (failed <==> SendToConnectionId(c, m).NoCapability?)
      ensures !Truthy(u) ==> log == if SendToConnectionId(c, m).Sent? then [SendToConnectionId(c, m).delivery] else []
    {
      if Truthy(u) {
        log, failed := SendToIdentity(u, m, excludeIds);
      } else {
        var r := SendToConnectionId(c, m);
        log := if r.Sent? then [r.delivery] else [];
        failed := r.NoCapability?;
      }
    }

    /** The registered handles whose ids are not excluded. */
    function BroadcastRecipients(excludeIds: set<string>): (r: set<Handle>)
      requires Valid()
      reads this, connections.Keys
      ensures r <= connections.Keys
      ensures forall c :: c in connectionById ==> (connectionById[c] in r <==> c !in excludeIds)
    {
      set h | h in connections && h.id.value !in excludeIds
    }

    /** `broadcast`: `send` to every registered handle whose id is not excluded. */
    method Broadcast(m: Message, excludeIds: set<string>) returns (log: seq<Delivery>, failed: bool)
      requires Valid()
      ensures failed <==> exists h :: h in BroadcastRecipients(excludeIds) && !CanDeliver(h)
      ensures Recipients(log) <= BroadcastRecipients(excludeIds) && Distinct(log) && Carries(log, m)
      ensures !failed ==> Recipients(log) == BroadcastRecipients(excludeIds)
    {
      log, failed := SendEach(BroadcastRecipients(excludeIds), m);
    }

    /**
     * `_sendMessageToGroupByOnly_Id` (`sendMessageToGroupByOnly_Id`): for
     * each group connection id `c` is in, `_sendMessageToGroupBy_Id` sends to
     * `c` itself when `_isInGroup` reads as true, which is for every group
     * except one named "0" or "". So `c` receives one copy per such group and
     * no other member receives anything.
     */
    method SendToGroupsOfConnection(c: string, m: Message) returns (log: seq<Delivery>, failed: bool)
      requires Valid()
      ensures failed <==> SentGroups(GroupsOf(c)) != {} && !CanDeliver(connectionById[c])
      ensures failed ==> log == []
      ensures !failed ==> log == PartOf(connectionById, groupsOfConnection, c, m)
    {
      log, failed := SendPerGroup(HandleOrNull(c), m, GroupsOf(c));
    }

    /**
     * A part holds one copy of `send`'s delivery to connection id `c` per
     * group `c` is in with a truthy id: as many as its groups unless one is
     * named "0" or "".
     */
    lemma PartMeaning(c: string, m: Message)
      requires Valid()
      ensures var part := PartOf(connectionById, groupsOfConnection, c, m);
        && (forall i :: 0 <= i < |part| ==> SendToConnectionId(c, m) == Sent(part[i]))
        && (SendToConnectionId(c, m).Sent? ==> |part| == |SentGroups(GroupsOf(c))|)
        && |part| <= GroupCountOf(c)
        && ("" !in GroupsOf(c) && "0" !in GroupsOf(c) && SendToConnectionId(c, m).Sent? ==> |part| == GroupCountOf(c))
    {
      var sent := SentGroups(GroupsOf(c));
      SubsetSize(sent, GroupsOf(c));
      if "" !in GroupsOf(c) && "0" !in GroupsOf(c) {
        assert sent == GroupsOf(c);
      }
    }

    /** The connection ids whose copies `sendMessageToGroupByOnlyId` sends: bound to `u`, not excluded, in some group with a truthy id. */
    ghost function GroupScopedIds(u: string, excludeIds: set<string>): set<string>
      reads this
    {
      ScopedIds(Bucket(connectionsOfIdentity, u), excludeIds, groupsOfConnection)
    }

    /** The ids `sendMessageToGroupByOnlyId` reaches, in terms of the queries. */
    lemma GroupScopedIdsMeaning(u: string, excludeIds: set<string>)
      requires Valid()
      ensures forall c :: c in GroupScopedIds(u, excludeIds) <==>
        c in ConnectionIdsOf(u) && c !in excludeIds && exists g :: IsInGroup(g, c) && Truthy(g)
    {
      forall c ensures c in GroupScopedIds(u, excludeIds) <==>
        c in ConnectionIdsOf(u) && c !in excludeIds && exists g :: IsInGroup(g, c) && Truthy(g)
      {
        if c in GroupScopedIds(u, excludeIds) {
          var g :| g in SentGroups(Bucket(groupsOfConnection, c));
          assert IsInGroup(g, c) && Truthy(g);
        }
      }
    }

    /**
     * `sendMessageToGroupByOnlyId`: `_sendMessageToGroupByOnly_Id` for every
     * connection bound to identity `u` that is not excluded.
     */
    method SendToGroupsOfIdentity(u: string, m: Message, excludeIds: set<string>)
      returns (log: seq<Delivery>, failed: bool, ghost order: seq<string>)
      requires Valid()
      ensures failed <==> exists c :: c in GroupScopedIds(u, excludeIds) && !CanDeliver(connectionById[c])
      ensures log == LogOf(connectionById, groupsOfConnection, order, m)
      ensures forall i, j :: 0 <= i < j < |order| ==> order[i] != order[j]
      ensures forall i :: 0 <= i < |order| ==> order[i] in GroupScopedIds(u, excludeIds)
      ensures !failed ==> forall c :: c in GroupScopedIds(u, excludeIds) ==> c in order
    {
      log, failed, order := SendPerConnection(connectionById, groupsOfConnection, Bucket(connectionsOfIdentity, u), excludeIds, m);
      assert forall c :: c in GroupScopedIds(u, excludeIds) ==> c in connectionById;
    }

    /** The connection ids `sendDataToConnection` reports on: registered, not excluded, and in `onlyIds` unless that is empty. */
    ghost function RelaySelection(excludeIds: set<string>, onlyIds: set<string>): (r: set<string>)
      requires Valid()
      reads this, connections.Keys
      ensures forall c :: c in r <==> IsOnlineConnection(c) && c !in excludeIds && (onlyIds == {} || c in onlyIds)
    {
      set c | c in connectionById && c !in excludeIds && (onlyIds == {} || c in onlyIds)
    }

    /**
     * `sendDataToConnection`: for every selected connection id, `send` to
     * `to` the message with its `data` field filled from that connection's
     * stored data when the original field is empty. Nothing goes out for a
     * null `to`; a `to` without a delivery method raises the exception at
     * the first selected id. `order` is the ids reported, in order.
     */
    method RelayData(to: Handle?, m: Message, excludeIds: set<string>, onlyIds: set<string>)
      returns (log: seq<Delivery>, failed: bool, ghost order: seq<string>)
      requires Valid()
      ensures failed <==> to != null && !CanDeliver(to) && RelaySelection(excludeIds, onlyIds) != {}
      ensures to == null || failed ==> log == []
      ensures |order| == |log|
      ensures forall i :: 0 <= i < |log| ==>
        order[i] in connectionById && Send(to, Enrich(m, ConnectionData(connectionById[order[i]]))) == Sent(log[i])
      ensures to != null && !failed ==> Enumerates(order, RelaySelection(excludeIds, onlyIds))
    {
      ghost var selection := RelaySelection(excludeIds, onlyIds);
      ghost var byId, data := connectionById, connections;
      log, failed, order := [], false, [];
      var todo := connectionById.Keys;
      while todo != {}
        invariant todo <= byId.Keys
        invariant |order| == |log|
        invariant forall i :: 0 <= i < |log| ==>
          order[i] in byId && Send(to, Enrich(m, ConnectionData(byId[order[i]]))) == Sent(log[i])
        invariant to != null && CanDeliver(to) ==> Enumerates(order, selection - todo)
        invariant to == null ==> log == [] && order == []
        invariant to != null && !CanDeliver(to) ==> selection - todo == {} && log == []
        decreases todo
      {
        var c :| c in todo;
        if c !in excludeIds && (onlyIds == {} || c in onlyIds) {
          var h := HandleOrNull(c);
          var payload := Enrich(m, ConnectionData(h));
          var r := Send(to, payload);
          if r.NoCapability? {
            failed := true;
            return;
          }
          if r.Sent? {
            EnumeratesAppend(order, selection - todo, c);
            assert selection - (todo - {c}) == selection - todo + {c};
            log, order := log + [r.delivery], order + [c];
          } else {
            assert selection - (todo - {c}) == selection - todo + {c};
          }
        } else {
          assert selection - (todo - {c}) == selection - todo;
        }
        todo := todo - {c};
      }
      assert selection - todo == selection;
    }

    /**
     * `broadcastToGroupOnce`: `send` to one member of `g` chosen at random
     * (`chosen`); nothing for a group that does not exist.
     */
    method BroadcastToGroupOnce(g: string, m: Message) returns (log: seq<Delivery>, failed: bool, ghost chosen: Handle?)
      requires Valid()
      ensures chosen == null <==> g !in groups
      ensures chosen != null ==> chosen in groups[g] && (failed <==> !CanDeliver(chosen))
      ensures chosen == null ==> log == [] && !failed
      ensures chosen != null ==> log == if failed then [] else [Delivery(chosen, ChannelOf(chosen), m)]
      ensures g in groups ==> (failed <==> log == [])
      ensures |log| <= 1 && forall i :: 0 <= i < |log| ==>
        g in groups && log[i].to in groups[g] && CanDeliver(log[i].to) && log[i] == Delivery(log[i].to, ChannelOf(log[i].to), m)
    {
      var members := Bucket(groups, g);
      log, failed, chosen := [], false, null;
      if members != {} {
        var h :| h in members;
        chosen := h;
        var r := Send(h, m);
        if r.NoCapability? {
          failed := true;
        } else {
          log := [r.delivery];
        }
      }
    }

    /**
     * `broadcastToAllGroupOnce`: for every group, in the order of `order`,
     * the once-per-group send of the message tagged with the group's
     * position; the positions are returned, and nothing (PHP null) when
     * there are no groups.
     */
    method BroadcastOncePerGroup(m: Message) returns (keys: Option<seq<nat>>, log: seq<Delivery>, failed: bool, ghost order: seq<string>)
      requires Valid()
      ensures failed ==> exists g, h :: g in groups && h in groups[g] && !CanDeliver(h)
      ensures !failed ==> Enumerates(order, groups.Keys)
      ensures !failed ==> |log| == |order| && (keys.None? <==> groups == map[])
      ensures keys.Some? ==> |keys.value| == |order| && forall i :: 0 <= i < |order| ==> keys.value[i] == i
      ensures forall i :: 0 <= i < |log| ==>
        && i < |order| && order[i] in groups && log[i].to in groups[order[i]]
        && CanDeliver(log[i].to) && log[i] == Delivery(log[i].to, ChannelOf(log[i].to), m.(messageKey := Some(i)))
    {
      log, failed, order := [], false, [];
      var positions: seq<nat> := [];
      var todo := groups.Keys;
      while todo != {}
        invariant todo <= groups.Keys
        invariant |log| == |order| == |positions|
        invariant forall i :: 0 <= i < |positions| ==> positions[i] == i
        invariant Enumerates(order, groups.Keys - todo)
        invariant forall i :: 0 <= i < |log| ==>
          && order[i] in groups && log[i].to in groups[order[i]]
          && CanDeliver(log[i].to) && log[i] == Delivery(log[i].to, ChannelOf(log[i].to), m.(messageKey := Some(i)))
        decreases todo
      {
        var g :| g in todo;
        var key := |positions|;
        var part, f, chosen := BroadcastToGroupOnce(g, m.(messageKey := Some(key)));
        if f {
          failed := true;
          keys := None;
          return;
        }
        EnumeratesAppend(order, groups.Keys - todo, g);
        assert groups.Keys - (todo - {g}) == groups.Keys - todo + {g};
        log, order, positions := log + part, order + [g], positions + [key];
        todo := todo - {g};
      }
      assert groups.Keys - todo == groups.Keys;
      assert forall g :: g in groups ==> g in order;
      assert positions != [] ==> order[0] in groups;
      keys := if positions == [] then None else Some(positions);
    }

    /** `getRandConnection`: some registered handle, chosen at random; null when none is registered. */
    method RandomConnection() returns (h: Handle?)
      requires Valid()
      ensures h == null <==> ConnectionCount() == 0
      ensures h != null ==> h in connections
    {
      if connectionById == map[] {
        h := null;
      } else {
        var c :| c in connectionById;
        h := connectionById[c];
      }
    }

    /** `randSendToConnection`: `send` to a random registered handle; false when none is registered. */
    method SendToRandomConnection(m: Message) returns (sent: bool, log: seq<Delivery>, failed: bool)
      requires Valid()
      ensures sent <==> ConnectionCount() > 0 && !failed
      ensures failed ==> exists h :: h in connections && !CanDeliver(h)
      ensures !sent ==> log == []
      ensures sent ==>
        && |log| == 1 && log[0].to in connections && CanDeliver(log[0].to)
        && log[0] == Delivery(log[0].to, ChannelOf(log[0].to), m)
    {
      var h := RandomConnection();
      sent, log, failed := false, [], false;
      if h != null {
        var r := Send(h, m);
        if r.NoCapability? {
          failed := true;
        } else {
          sent, log := true, [r.delivery];
        }
      }
    }
  }
}
