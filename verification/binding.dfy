/**
 * The identity binding as values: the connection-to-identity map and the
 * identity-to-connections map, the agreement between them, binding a
 * connection, and dropping the binding of a connection that is being
 * closed (the identity goes when its set of connections becomes empty).
 */
module Binding {
  import opened BiMultimap
  import opened Strings

  type Bindings = (map<string, string>, map<string, set<string>>)

  /** Forward and reverse maps agree: `c` is in `u`'s set exactly when `c` is bound to `u`. */
  ghost predicate Consistent(identityOf: map<string, string>, connectionsOf: map<string, set<string>>)
  {
    && NoEmptyBucket(connectionsOf)
    && (forall u, c {:trigger c in Bucket(connectionsOf, u)} :: c in Bucket(connectionsOf, u) ==> c in identityOf && identityOf[c] == u)
    && (forall c :: c in identityOf ==> c in Bucket(connectionsOf, identityOf[c]))
  }

  /** Binding a connection that has no identity yet keeps both directions in agreement. */
  lemma BindConsistent(identityOf: map<string, string>, connectionsOf: map<string, set<string>>, u: string, c: string)
    requires Consistent(identityOf, connectionsOf) && c !in identityOf
    ensures Consistent(identityOf[c := u], Insert(connectionsOf, u, c))
  {
    var identityOf', connectionsOf' := identityOf[c := u], Insert(connectionsOf, u, c);
    forall u', c' | c' in Bucket(connectionsOf', u') ensures c' in identityOf' && identityOf'[c'] == u' {
      if c' != c || u' != u { assert c' in Bucket(connectionsOf, u'); }
    }
    forall c' | c' in identityOf' ensures c' in Bucket(connectionsOf', identityOf'[c']) {
      if c' != c { assert c' in Bucket(connectionsOf, identityOf[c']); }
    }
  }

  /** The binding cleanup of `closeConnection`, done for every bound connection. */
  function ReleaseBinding(identityOf: map<string, string>, connectionsOf: map<string, set<string>>, c: string): (r: Bindings)
    ensures r.0 == identityOf - {c}
    ensures forall u :: Bucket(r.1, u) == if c in identityOf && u == identityOf[c] then Bucket(connectionsOf, u) - {c} else Bucket(connectionsOf, u)
  {
    if c in identityOf then (identityOf - {c}, Remove(connectionsOf, identityOf[c], c))
    else (identityOf, connectionsOf)
  }

  /** Releasing keeps the two maps consistent and leaves `c` bound nowhere. */
  lemma ReleaseBindingConsistent(identityOf: map<string, string>, connectionsOf: map<string, set<string>>, c: string)
    requires Consistent(identityOf, connectionsOf)
    ensures Consistent(ReleaseBinding(identityOf, connectionsOf, c).0, ReleaseBinding(identityOf, connectionsOf, c).1)
    ensures forall u :: c !in Bucket(ReleaseBinding(identityOf, connectionsOf, c).1, u)
  {
    var r := ReleaseBinding(identityOf, connectionsOf, c);
    if c in identityOf {
      assert r.1 == Remove(connectionsOf, identityOf[c], c);
    }
    forall u | c in Bucket(connectionsOf, u) ensures c in identityOf && u == identityOf[c] { }
  }

  /**
   * The same cleanup as written: the binding is dropped only when the bound
   * identity is truthy (`if ($id)`), so an identity "0" or "" stays bound.
   */
  function ReleaseBindingAsWritten(identityOf: map<string, string>, connectionsOf: map<string, set<string>>, c: string): (r: Bindings)
    ensures r == ReleaseBinding(identityOf, connectionsOf, c) <==> c !in identityOf || Truthy(identityOf[c])
  {
    if c in identityOf && Truthy(identityOf[c]) then ReleaseBinding(identityOf, connectionsOf, c)
    else (identityOf, connectionsOf)
  }

  /** As written, a connection bound to "0" or "" keeps its binding after it is closed. */
  lemma ReleaseAsWrittenKeepsFalsyBinding(identityOf: map<string, string>, connectionsOf: map<string, set<string>>, c: string)
    requires Consistent(identityOf, connectionsOf)
    requires c in identityOf && identityOf[c] in {"", "0"}
    ensures var r := ReleaseBindingAsWritten(identityOf, connectionsOf, c);
      c in r.0 && c in Bucket(r.1, identityOf[c])
    ensures c !in ReleaseBinding(identityOf, connectionsOf, c).0
  {
  }
}
