/**
 * The group index as values: the two maps that record membership (group
 * to handles, connection id to group ids), the invariant that ties them to
 * the registry's id map, and the facts the registry's updates and loops
 * need about them.
 */
module GroupIndex {
  import opened BiMultimap
  import opened Strings
  import opened Transport

  /** No two connection ids name the same handle. */
  ghost predicate Injective(byId: map<string, Handle>)
  {
    forall c1, c2 :: c1 in byId && c2 in byId && byId[c1] == byId[c2] ==> c1 == c2
  }

  /**
   * The group index over registered `handles` with id map `byId`: both
   * directions agree, no bucket is empty, and every member is registered.
   */
  ghost predicate GroupsInv(handles: set<Handle>, byId: map<string, Handle>,
                            groups: map<string, set<Handle>>, groupsOf: map<string, set<string>>)
  {
    && NoEmptyBucket(groups)
    && NoEmptyBucket(groupsOf)
    && (forall g, h {:trigger h in Bucket(groups, g)} :: h in Bucket(groups, g) ==> h in handles)
    && (forall c, g {:trigger g in Bucket(groupsOf, c)} {:trigger byId[c] in Bucket(groups, g)} ::
          g in Bucket(groupsOf, c) <==> c in byId && byId[c] in Bucket(groups, g))
  }

  lemma GroupsInvJoin(handles: set<Handle>, byId: map<string, Handle>,
                      groups: map<string, set<Handle>>, groupsOf: map<string, set<string>>, g: string, c: string)
    requires GroupsInv(handles, byId, groups, groupsOf) && Injective(byId)
    requires c in byId && byId[c] in handles
    ensures GroupsInv(handles, byId, Insert(groups, g, byId[c]), Insert(groupsOf, c, g))
  {
    var groups', groupsOf' := Insert(groups, g, byId[c]), Insert(groupsOf, c, g);
    forall c', g' ensures g' in Bucket(groupsOf', c') <==> c' in byId && byId[c'] in Bucket(groups', g') {
      assert g' in Bucket(groupsOf, c') <==> c' in byId && byId[c'] in Bucket(groups, g');
      assert Bucket(groupsOf', c') == Bucket(groupsOf, c') + (if c' == c then {g} else {});
      assert Bucket(groups', g') == Bucket(groups, g') + (if g' == g then {byId[c]} else {});
      if c' in byId && byId[c'] == byId[c] { assert c' == c; }
    }
  }

  lemma GroupsInvLeave(handles: set<Handle>, byId: map<string, Handle>,
                       groups: map<string, set<Handle>>, groupsOf: map<string, set<string>>, g: string, c: string)
    requires GroupsInv(handles, byId, groups, groupsOf) && Injective(byId)
    requires c in byId
    ensures GroupsInv(handles, byId, Remove(groups, g, byId[c]), Remove(groupsOf, c, g))
  {
    var groups', groupsOf' := Remove(groups, g, byId[c]), Remove(groupsOf, c, g);
    forall c', g' ensures g' in Bucket(groupsOf', c') <==> c' in byId && byId[c'] in Bucket(groups', g') {
      assert g' in Bucket(groupsOf, c') <==> c' in byId && byId[c'] in Bucket(groups, g');
      assert Bucket(groupsOf', c') == Bucket(groupsOf, c') - (if c' == c then {g} else {});
      assert Bucket(groups', g') == Bucket(groups, g') - (if g' == g then {byId[c]} else {});
      if c' in byId && byId[c'] == byId[c] { assert c' == c; }
    }
  }

  lemma GroupsInvRegister(handles: set<Handle>, byId: map<string, Handle>,
                          groups: map<string, set<Handle>>, groupsOf: map<string, set<string>>, h: Handle, c: string)
    requires GroupsInv(handles, byId, groups, groupsOf)
    requires h !in handles && c !in byId
    ensures GroupsInv(handles + {h}, byId[c := h], groups, groupsOf)
  {
    forall c', g' ensures g' in Bucket(groupsOf, c') <==> c' in byId[c := h] && byId[c := h][c'] in Bucket(groups, g') {
      assert g' in Bucket(groupsOf, c') <==> c' in byId && byId[c'] in Bucket(groups, g');
      if c' == c { assert h !in Bucket(groups, g'); }
    }
  }

  lemma GroupsInvUnregister(handles: set<Handle>, byId: map<string, Handle>,
                            groups: map<string, set<Handle>>, groupsOf: map<string, set<string>>, h: Handle, c: string)
    requires GroupsInv(handles, byId, groups, groupsOf)
    requires c in byId && byId[c] == h && c !in groupsOf
    requires forall g :: h !in Bucket(groups, g)
    ensures GroupsInv(handles - {h}, byId - {c}, groups, groupsOf)
  {
    forall c', g' ensures g' in Bucket(groupsOf, c') <==> c' in byId - {c} && (byId - {c})[c'] in Bucket(groups, g') {
      assert g' in Bucket(groupsOf, c') <==> c' in byId && byId[c'] in Bucket(groups, g');
    }
  }

  /**
   * One step of taking `h` (with id `c`) out of all its groups: `groups`
   * and `groupsOf` lack exactly the memberships already given up, and
   * leaving one more group `g` keeps that description with `g` done.
   */
  lemma LeaveAllStep(groups0: map<string, set<Handle>>, groupsOf0: map<string, set<string>>,
                     groups: map<string, set<Handle>>, groupsOf: map<string, set<string>>,
                     h: Handle, c: string, g: string, todo: set<string>)
    requires forall g', h' :: h' in Bucket(groups, g') <==> h' in Bucket(groups0, g') && (h' == h ==> g' in todo)
    requires forall c' :: c' != c ==> Bucket(groupsOf, c') == Bucket(groupsOf0, c')
    ensures forall g', h' :: h' in Bucket(Remove(groups, g, h), g') <==>
      h' in Bucket(groups0, g') && (h' == h ==> g' in todo - {g})
    ensures forall c' :: c' != c ==> Bucket(Remove(groupsOf, c, g), c') == Bucket(groupsOf0, c')
  {
    var groups' := Remove(groups, g, h);
    forall g', h' ensures h' in Bucket(groups', g') <==> h' in Bucket(groups0, g') && (h' == h ==> g' in todo - {g}) {
      assert Bucket(groups', g') == Bucket(groups, g') - (if g' == g then {h} else {});
    }
  }

  /** Some group of `gs` and connection of `ids` form a pair that `before` does not list yet. */
  ghost predicate SomeJoins(gs: seq<string>, ids: set<string>, before: map<string, set<string>>)
  {
    exists g, c :: g in gs && c in ids && g !in Bucket(before, c)
  }

  /** Some group of `gs` and connection of `ids` form a pair that `before` lists. */
  ghost predicate SomeLeaves(gs: seq<string>, ids: set<string>, before: map<string, set<string>>)
  {
    exists g, c :: g in gs && c in ids && g in Bucket(before, c)
  }

  /** Some group of `gs` is not among the existing groups `known`. */
  ghost predicate SomeMissing(gs: seq<string>, known: set<string>)
  {
    exists g :: g in gs && g !in known
  }

  /**
   * One connection `c` of the inner join loop over group `g`: `cur` is
   * `start` with `g` added for the connections `ids - todo` already
   * visited, and `next` adds it for `c` as well.
   */
  lemma JoinEachStep(start: map<string, set<string>>, cur: map<string, set<string>>, next: map<string, set<string>>,
                     ids: set<string>, todo: set<string>, g: string, c: string)
    requires c in todo && todo <= ids
    requires forall c', g' {:trigger g' in Bucket(cur, c')} {:trigger g' in Bucket(start, c')} ::
      g' in Bucket(cur, c') <==> g' in Bucket(start, c') || (g' == g && c' in ids - todo)
    requires forall c', g' {:trigger g' in Bucket(next, c')} {:trigger g' in Bucket(cur, c')} ::
      g' in Bucket(next, c') <==> g' in Bucket(cur, c') || (c' == c && g' == g)
    ensures forall c', g' {:trigger g' in Bucket(next, c')} {:trigger g' in Bucket(start, c')} ::
      g' in Bucket(next, c') <==> g' in Bucket(start, c') || (g' == g && c' in ids - (todo - {c}))
    ensures g in Bucket(cur, c) <==> g in Bucket(start, c)
    ensures SomeJoins([g], ids - (todo - {c}), start) <==> SomeJoins([g], ids - todo, start) || g !in Bucket(start, c)
  {
    assert g in Bucket(cur, c) <==> g in Bucket(start, c) || (g == g && c in ids - todo);
    forall c', g' ensures g' in Bucket(next, c') <==> g' in Bucket(start, c') || (g' == g && c' in ids - (todo - {c})) {
      assert g' in Bucket(cur, c') <==> g' in Bucket(start, c') || (g' == g && c' in ids - todo);
    }
    if g !in Bucket(start, c) {
      assert g in [g] && c in ids - (todo - {c});
    }
    if SomeJoins([g], ids - (todo - {c}), start) {
      var g', c' :| g' in [g] && c' in ids - (todo - {c}) && g' !in Bucket(start, c');
      assert c' in ids - todo || c' == c;
    }
  }

  /**
   * One connection `c` of the inner leave loop over group `g`: `cur` is
   * `start` with `g` removed for the connections `ids - todo` already
   * visited, and `next` removes it for `c` as well.
   */
  lemma LeaveEachStep(start: map<string, set<string>>, cur: map<string, set<string>>, next: map<string, set<string>>,
                      ids: set<string>, todo: set<string>, g: string, c: string)
    requires c in todo && todo <= ids
    requires forall c', g' {:trigger g' in Bucket(cur, c')} {:trigger g' in Bucket(start, c')} ::
      g' in Bucket(cur, c') <==> g' in Bucket(start, c') && !(g' == g && c' in ids - todo)
    requires forall c', g' {:trigger g' in Bucket(next, c')} {:trigger g' in Bucket(cur, c')} ::
      g' in Bucket(next, c') <==> g' in Bucket(cur, c') && !(c' == c && g' == g)
    ensures forall c', g' {:trigger g' in Bucket(next, c')} {:trigger g' in Bucket(start, c')} ::
      g' in Bucket(next, c') <==> g' in Bucket(start, c') && !(g' == g && c' in ids - (todo - {c}))
    ensures g in Bucket(cur, c) <==> g in Bucket(start, c)
    ensures SomeLeaves([g], ids - (todo - {c}), start) <==> SomeLeaves([g], ids - todo, start) || g in Bucket(start, c)
  {
    assert g in Bucket(cur, c) <==> g in Bucket(start, c) && !(g == g && c in ids - todo);
    forall c', g' ensures g' in Bucket(next, c') <==> g' in Bucket(start, c') && !(g' == g && c' in ids - (todo - {c})) {
      assert g' in Bucket(cur, c') <==> g' in Bucket(start, c') && !(g' == g && c' in ids - todo);
    }
    if g in Bucket(start, c) {
      assert g in [g] && c in ids - (todo - {c});
    }
    if SomeLeaves([g], ids - (todo - {c}), start) {
      var g', c' :| g' in [g] && c' in ids - (todo - {c}) && g' in Bucket(start, c');
      assert c' in ids - todo || c' == c;
    }
  }

  /**
   * One group `parts[i]` of the outer join loop: `cur` is `before` plus
   * every pair of `parts[..i]` and `ids`, and `next` adds `parts[i]` for
   * every connection of `ids`.
   */
  lemma JoinRound(before: map<string, set<string>>, cur: map<string, set<string>>, next: map<string, set<string>>,
                  parts: seq<string>, ids: set<string>, i: nat)
    requires i < |parts|
    requires forall c, g {:trigger g in Bucket(cur, c)} {:trigger g in Bucket(before, c)} ::
      g in Bucket(cur, c) <==> g in Bucket(before, c) || (g in parts[..i] && c in ids)
    requires forall c, g {:trigger g in Bucket(next, c)} {:trigger g in Bucket(cur, c)} ::
      g in Bucket(next, c) <==> g in Bucket(cur, c) || (g == parts[i] && c in ids)
    ensures forall c, g {:trigger g in Bucket(next, c)} {:trigger g in Bucket(before, c)} ::
      g in Bucket(next, c) <==> g in Bucket(before, c) || (g in parts[..i + 1] && c in ids)
    ensures SomeJoins(parts[..i + 1], ids, before) <==> SomeJoins(parts[..i], ids, before) || SomeJoins([parts[i]], ids, cur)
  {
    assert parts[..i + 1] == parts[..i] + [parts[i]];
    forall c, g ensures g in Bucket(next, c) <==> g in Bucket(before, c) || (g in parts[..i + 1] && c in ids) {
      assert g in Bucket(cur, c) <==> g in Bucket(before, c) || (g in parts[..i] && c in ids);
    }
    if SomeJoins([parts[i]], ids, cur) {
      var g, c :| g in [parts[i]] && c in ids && g !in Bucket(cur, c);
      assert parts[i] in Bucket(cur, c) <==> parts[i] in Bucket(before, c) || (parts[i] in parts[..i] && c in ids);
      assert parts[i] in parts[..i + 1] && parts[i] !in Bucket(before, c);
    }
    if SomeJoins(parts[..i + 1], ids, before) && !SomeJoins(parts[..i], ids, before) {
      var g, c :| g in parts[..i + 1] && c in ids && g !in Bucket(before, c);
      assert g !in parts[..i];
      assert g == parts[i] && parts[i] !in Bucket(cur, c);
      assert g in [parts[i]];
    }
  }

  /**
   * One group `parts[i]` of the outer leave loop: `cur` is `before`
   * without every pair of `parts[..i]` and `ids`, and `next` removes
   * `parts[i]` for every connection of `ids` as well.
   */
  lemma LeaveRound(before: map<string, set<string>>, cur: map<string, set<string>>, next: map<string, set<string>>,
                   parts: seq<string>, ids: set<string>, known: set<string>, i: nat)
    requires i < |parts|
    requires forall c, g {:trigger g in Bucket(cur, c)} {:trigger g in Bucket(before, c)} ::
      g in Bucket(cur, c) <==> g in Bucket(before, c) && !(g in parts[..i] && c in ids)
    requires forall c, g {:trigger g in Bucket(next, c)} {:trigger g in Bucket(cur, c)} ::
      g in Bucket(next, c) <==> g in Bucket(cur, c) && !(g == parts[i] && c in ids)
    ensures forall c, g {:trigger g in Bucket(next, c)} {:trigger g in Bucket(before, c)} ::
      g in Bucket(next, c) <==> g in Bucket(before, c) && !(g in parts[..i + 1] && c in ids)
    ensures SomeLeaves(parts[..i + 1], ids, before) <==> SomeLeaves(parts[..i], ids, before) || SomeLeaves([parts[i]], ids, cur)
    ensures SomeMissing(parts[..i + 1], known) <==> SomeMissing(parts[..i], known) || parts[i] !in known
  {
    assert parts[..i + 1] == parts[..i] + [parts[i]];
    forall c, g ensures g in Bucket(next, c) <==> g in Bucket(before, c) && !(g in parts[..i + 1] && c in ids) {
      assert g in Bucket(cur, c) <==> g in Bucket(before, c) && !(g in parts[..i] && c in ids);
    }
    if SomeLeaves([parts[i]], ids, cur) {
      var g, c :| g in [parts[i]] && c in ids && g in Bucket(cur, c);
      assert parts[i] in Bucket(cur, c) <==> parts[i] in Bucket(before, c) && !(parts[i] in parts[..i] && c in ids);
      assert parts[i] in parts[..i + 1] && parts[i] in Bucket(before, c);
    }
    if SomeLeaves(parts[..i + 1], ids, before) && !SomeLeaves(parts[..i], ids, before) {
      var g, c :| g in parts[..i + 1] && c in ids && g in Bucket(before, c);
      assert g !in parts[..i];
      assert g == parts[i] && parts[i] in Bucket(cur, c);
      assert g in [parts[i]];
    }
    if parts[i] !in known {
      assert parts[i] in parts[..i + 1];
    }
    if SomeMissing(parts[..i + 1], known) && !SomeMissing(parts[..i], known) {
      var g :| g in parts[..i + 1] && g !in known;
      assert g !in parts[..i];
    }
  }

  /** An injective map has as many values as keys. */
  lemma {:induction false} InjectiveMapSize<K, V>(m: map<K, V>)
    requires forall a, b :: a in m && b in m && m[a] == m[b] ==> a == b
    ensures |m.Values| == |m.Keys|
    decreases |m.Keys|
  {
    if m.Keys != {} {
      var k :| k in m;
      var m' := m - {k};
      InjectiveMapSize(m');
      assert m'.Keys == m.Keys - {k};
      assert m'.Values == m.Values - {m[k]} by {
        forall v | v in m.Values - {m[k]} ensures v in m'.Values {
          var k' :| k' in m && m[k'] == v;
          assert k' != k && m'[k'] == v;
        }
      }
    }
  }

  /** A subset is no larger than its superset. */
  lemma {:induction false} SubsetSize<T>(a: set<T>, b: set<T>)
    requires a <= b
    ensures |a| <= |b|
    decreases |b|
  {
    if a != {} {
      var x :| x in a;
      SubsetSize(a - {x}, b - {x});
    }
  }

  /** `n` copies of `x`. */
  function Copies<T>(x: T, n: nat): (r: seq<T>)
    ensures |r| == n
    ensures forall i :: 0 <= i < n ==> r[i] == x
  {
    if n == 0 then [] else Copies(x, n - 1) + [x]
  }

  /**
   * The groups of `groups` for which `_isInGroup` reads as true. The index
   * stores each group id as its own value and `_isInGroup` returns that
   * value, so a group named "0" or "" reads as false.
   */
  function SentGroups(groups: set<string>): (r: set<string>)
    ensures r <= groups
    ensures forall g :: g in groups ==> (g in r <==> Truthy(g))
  {
    set g | g in groups && Truthy(g)
  }

  /**
   * What the group-scoped send delivers for connection id `c`: one copy of
   * `m` to the handle registered as `c` for each group `c` is in whose id is
   * truthy, through the handle's own channel; nothing when there is no such
   * handle or it has no delivery method.
   */
  function PartOf(byId: map<string, Handle>, groupsOf: map<string, set<string>>, c: string, m: Message): seq<Delivery>
  {
    if c in byId && CanDeliver(byId[c])
    then Copies(Delivery(byId[c], ChannelOf(byId[c]), m), |SentGroups(Bucket(groupsOf, c))|)
    else []
  }

  /**
   * The loop of `_sendMessageToGroupByOnly_Id` over the groups of one
   * connection: `_sendMessageToGroupBy_Id` sends to `to` once for each of
   * `groups` whose `_isInGroup` value is truthy. A handle without a delivery
   * method raises the exception on the first such group, before anything is
   * delivered; a null handle receives nothing.
   */
  method SendPerGroup(to: Handle?, m: Message, groups: set<string>) returns (log: seq<Delivery>, failed: bool)
    ensures failed <==> SentGroups(groups) != {} && to != null && !CanDeliver(to)
    ensures log == if to != null && CanDeliver(to) then Copies(Delivery(to, ChannelOf(to), m), |SentGroups(groups)|) else []
  {
    log, failed := [], false;
    ghost var sent := 0;
    var todo := groups;
    while todo != {}
      invariant todo <= groups
      invariant sent + |SentGroups(todo)| == |SentGroups(groups)|
      invariant SentGroups(todo) != SentGroups(groups) ==> to == null || CanDeliver(to)
      invariant log == if to != null && CanDeliver(to) then Copies(Delivery(to, ChannelOf(to), m), sent) else []
      decreases todo
    {
      var g :| g in todo;
      if Truthy(g) {
        var r := Send(to, m);
        if r.NoCapability? {
          failed := true;
          return;
        }
        if r.Sent? {
          log := log + [r.delivery];
        }
        sent := sent + 1;
        assert SentGroups(todo - {g}) == SentGroups(todo) - {g};
      } else {
        assert SentGroups(todo - {g}) == SentGroups(todo);
      }
      todo := todo - {g};
    }
  }

  /** The parts for the connection ids of `order`, one after the other. */
  function LogOf(byId: map<string, Handle>, groupsOf: map<string, set<string>>, order: seq<string>, m: Message): seq<Delivery>
    decreases |order|
  {
    if order == [] then [] else LogOf(byId, groupsOf, order[..|order| - 1], m) + PartOf(byId, groupsOf, order[|order| - 1], m)
  }

  /** Appending one more connection id adds its part at the end. */
  lemma LogOfAppend(byId: map<string, Handle>, groupsOf: map<string, set<string>>, order: seq<string>, c: string, m: Message)
    ensures LogOf(byId, groupsOf, order + [c], m) == LogOf(byId, groupsOf, order, m) + PartOf(byId, groupsOf, c, m)
  {
    assert (order + [c])[..|order|] == order;
  }

  /** `order` lists every element of `s` exactly once and nothing else. */
  ghost predicate Enumerates(order: seq<string>, s: set<string>)
  {
    && (forall i, j :: 0 <= i < j < |order| ==> order[i] != order[j])
    && (forall i :: 0 <= i < |order| ==> order[i] in s)
    && (forall x :: x in s ==> x in order)
  }

  /** Listing one more element keeps the enumeration. */
  lemma EnumeratesAppend(order: seq<string>, s: set<string>, x: string)
    requires Enumerates(order, s) && x !in s
    ensures Enumerates(order + [x], s + {x})
  {
    var order' := order + [x];
    forall i | 0 <= i < |order| ensures order'[i] == order[i] { }
  }

  /** The connection ids of `ids` that are not excluded and are in some group with a truthy id. */
  ghost function ScopedIds(ids: set<string>, excludeIds: set<string>, groupsOf: map<string, set<string>>): set<string>
  {
    set c | c in ids && c !in excludeIds && SentGroups(Bucket(groupsOf, c)) != {}
  }

  /**
   * The loop of `sendMessageToGroupByOnlyId`: for every connection id of
   * `ids` that is not excluded, the per-group send of
   * `_sendMessageToGroupByOnly_Id` to the handle registered as that id. The
   * first handle without a delivery method raises the exception and ends
   * the loop. `order` is the ids whose parts make up the log, in order.
   */
  method SendPerConnection(byId: map<string, Handle>, groupsOf: map<string, set<string>>,
                           ids: set<string>, excludeIds: set<string>, m: Message)
    returns (log: seq<Delivery>, failed: bool, ghost order: seq<string>)
    ensures failed <==> exists c :: c in ScopedIds(ids, excludeIds, groupsOf) && c in byId && !CanDeliver(byId[c])
    ensures log == LogOf(byId, groupsOf, order, m)
    ensures forall i, j :: 0 <= i < j < |order| ==> order[i] != order[j]
    ensures forall i :: 0 <= i < |order| ==> order[i] in ScopedIds(ids, excludeIds, groupsOf)
    ensures !failed ==> forall c :: c in ScopedIds(ids, excludeIds, groupsOf) ==> c in order
  {
    ghost var targets := ScopedIds(ids, excludeIds, groupsOf);
    ghost var ready := set c | c in targets && (c !in byId || CanDeliver(byId[c]));
    log, failed, order := [], false, [];
    var todo := ids;
    while todo != {}
      invariant todo <= ids
      invariant targets - todo <= ready
      invariant log == LogOf(byId, groupsOf, order, m)
      invariant Enumerates(order, targets - todo)
      decreases todo
    {
      var c :| c in todo;
      ghost var order' := if c in targets then order + [c] else order;
      ScopedStep(byId, groupsOf, targets, todo, order, c, m);
      if c !in excludeIds {
        var to := if c in byId then byId[c] else null;
        var part, f := SendPerGroup(to, m, Bucket(groupsOf, c));
        if f {
          failed := true;
          return;
        }
        assert part == if c in targets then PartOf(byId, groupsOf, c, m) else [];
        log := log + part;
      }
      order := order';
      todo := todo - {c};
    }
    assert targets <= ready;
  }

  /** One id of the loop above: listing it, when it is a target, extends the enumeration and the log by its part. */
  lemma ScopedStep(byId: map<string, Handle>, groupsOf: map<string, set<string>>,
                   targets: set<string>, todo: set<string>, order: seq<string>, c: string, m: Message)
    requires c in todo && Enumerates(order, targets - todo)
    ensures var order' := if c in targets then order + [c] else order;
      && Enumerates(order', targets - (todo - {c}))
      && LogOf(byId, groupsOf, order', m)
         == LogOf(byId, groupsOf, order, m) + (if c in targets then PartOf(byId, groupsOf, c, m) else [])
  {
    if c in targets {
      LogOfAppend(byId, groupsOf, order, c, m);
      EnumeratesAppend(order, targets - todo, c);
      assert targets - (todo - {c}) == targets - todo + {c};
    } else {
      assert targets - (todo - {c}) == targets - todo;
    }
  }
}
