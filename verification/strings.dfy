/** The string conventions of the source: `explode(',', …)` and PHP truthiness. */
module Strings {

  /**
   * The pieces of `s` between commas, as `explode(',', s)` gives them:
   * always at least one piece, empty pieces kept, no piece holds a comma.
   */
  function Explode(s: string): (parts: seq<string>)
    ensures |parts| >= 1
    ensures forall i :: 0 <= i < |parts| ==> ',' !in parts[i]
    decreases |s|
  {
    if s == [] then [""]
    else
      var rest := Explode(s[1..]);
      if s[0] == ',' then [""] + rest
      else [[s[0]] + rest[0]] + rest[1..]
  }

  /** `implode(',', parts)`: the pieces joined with one comma between neighbours. */
  function Implode(parts: seq<string>): string
    requires |parts| >= 1
    decreases |parts|
  {
    if |parts| == 1 then parts[0] else parts[0] + "," + Implode(parts[1..])
  }

  /** Joining the pieces of `s` gives `s` back. */
  lemma {:induction false} ImplodeExplode(s: string)
    ensures Implode(Explode(s)) == s
    decreases |s|
  {
    if s != [] {
      var rest := Explode(s[1..]);
      ImplodeExplode(s[1..]);
      if s[0] == ',' {
        assert ([""] + rest)[1..] == rest;
        assert s == [','] + s[1..];
      } else if |rest| == 1 {
        assert s == [s[0]] + rest[0];
      } else {
        var parts := [[s[0]] + rest[0]] + rest[1..];
        assert parts[1..] == rest[1..];
        assert s == [s[0]] + s[1..];
      }
    }
  }

  /** A string without commas explodes into itself alone. */
  lemma {:induction false} ExplodeNoComma(a: string)
    requires ',' !in a
    ensures Explode(a) == [a]
    decreases |a|
  {
    if a != [] {
      assert ',' !in a[1..] by {
        forall i | 0 <= i < |a[1..]| ensures a[1..][i] != ',' { assert a[1..][i] == a[i + 1]; }
      }
      ExplodeNoComma(a[1..]);
      assert a == [a[0]] + a[1..];
    }
  }

  /** A comma-free first piece followed by a comma splits off as the first piece. */
  lemma {:induction false} ExplodeCons(a: string, b: string)
    requires ',' !in a
    ensures Explode(a + "," + b) == [a] + Explode(b)
    decreases |a|
  {
    if a == [] {
      assert a + "," + b == [','] + b;
      assert (a + "," + b)[1..] == b;
    } else {
      assert ',' !in a[1..] by {
        forall i | 0 <= i < |a[1..]| ensures a[1..][i] != ',' { assert a[1..][i] == a[i + 1]; }
      }
      ExplodeCons(a[1..], b);
      var s := a + "," + b;
      assert s[0] == a[0];
      assert s[1..] == a[1..] + "," + b;
      assert a == [a[0]] + a[1..];
    }
  }

  /** Exploding comma-free pieces joined by commas gives the pieces back. */
  lemma {:induction false} ExplodeImplode(parts: seq<string>)
    requires |parts| >= 1
    requires forall i :: 0 <= i < |parts| ==> ',' !in parts[i]
    ensures Explode(Implode(parts)) == parts
    decreases |parts|
  {
    if |parts| == 1 {
      ExplodeNoComma(parts[0]);
    } else {
      ExplodeImplode(parts[1..]);
      ExplodeCons(parts[0], Implode(parts[1..]));
      assert parts == [parts[0]] + parts[1..];
    }
  }

  /** PHP's truthiness of a string: only "" and "0" are false. */
  predicate Truthy(s: string): (r: bool)
    ensures r <==> s !in {"", "0"}
    ensures |s| >= 2 ==> r
  {
    s != "" && s != "0"
  }
}
