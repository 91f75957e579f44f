/** Facts about the directory operations that the handler properties are
    built from: how unlinking and writing change the prefix scans. */
module DirectoryFacts {
  import opened Wrappers
  import opened Directory

  /** Two prefixes of one name are prefixes of each other. */
  lemma PrefixesOfOneName(a: string, b: string, s: string)
    requires a <= s && b <= s
    ensures a <= b || b <= a
  {
    if |a| <= |b| {
      assert a == s[..|a|] == b[..|a|];
    } else {
      assert b == s[..|b|] == a[..|b|];
    }
  }

  /** Prefixes neither of which extends the other: no file name can start
      with both. */
  predicate Incomparable(p: string, q: string) {
    !(p <= q) && !(q <= p)
  }

  lemma IncomparableExclusive(p: string, q: string, e: Entry)
    requires Incomparable(p, q) && Matches(e, p)
    ensures !Matches(e, q)
  {
    if Matches(e, q) {
      PrefixesOfOneName(p, q, e.name);
    }
  }

  /** Counting distributes over concatenation of listings. */
  lemma {:induction false} CountConcat(a: Dir, b: Dir, p: string)
    ensures CountMatches(a + b, p) == CountMatches(a, p) + CountMatches(b, p)
    decreases |a|
  {
    if a == [] {
      assert a + b == b;
    } else {
      assert (a + b)[1..] == a[1..] + b;
      CountConcat(a[1..], b, p);
    }
  }

  function Indicator(e: Entry, p: string): nat {
    if Matches(e, p) then 1 else 0
  }

  lemma CountRemoveAt(d: Dir, i: nat, p: string)
    requires i < |d|
    ensures CountMatches(RemoveAt(d, i), p) + Indicator(d[i], p) == CountMatches(d, p)
  {
    assert d == d[..i] + ([d[i]] + d[i + 1..]);
    CountConcat(d[..i], [d[i]] + d[i + 1..], p);
    CountConcat([d[i]], d[i + 1..], p);
    CountConcat(d[..i], d[i + 1..], p);
  }

  lemma CountUpdate(d: Dir, i: nat, e: Entry, p: string)
    requires i < |d|
    ensures CountMatches(d[i := e], p) + Indicator(d[i], p) == CountMatches(d, p) + Indicator(e, p)
  {
    var u := d[i := e];
    assert d == d[..i] + ([d[i]] + d[i + 1..]);
    assert u == d[..i] + ([e] + d[i + 1..]);
    CountConcat(d[..i], [d[i]] + d[i + 1..], p);
    CountConcat([d[i]], d[i + 1..], p);
    CountConcat(d[..i], [e] + d[i + 1..], p);
    CountConcat([e], d[i + 1..], p);
  }

  /** Writing a name that starts with `p` adds a slot entry only when the
      name is new; overwriting keeps the count. */
  lemma CountWrite(d: Dir, name: string, bytes: Bytes, p: string)
    ensures CountMatches(Write(d, name, bytes), p) ==
      CountMatches(d, p) + (if IndexOfName(d, name).None? then Indicator(Entry(name, bytes), p) else 0)
  {
    match IndexOfName(d, name)
    case None =>
      CountConcat(d, [Entry(name, bytes)], p);
    case Some(i) =>
      CountUpdate(d, i, Entry(name, bytes), p);
  }

  /** Evicting removes one slot entry exactly when the slot had one. */
  lemma CountEvict(d: Dir, p: string)
    ensures CountMatches(Evict(d, p), p) == if NoMatch(d, p) then 0 else CountMatches(d, p) - 1
  {
    match FirstWithPrefix(d, p)
    case None =>
    case Some(i) =>
      CountRemoveAt(d, i, p);
  }

  /** Evicting through an incomparable prefix leaves the count for `q`. */
  lemma CountEvictOther(d: Dir, p: string, q: string)
    requires Incomparable(p, q)
    ensures CountMatches(Evict(d, p), q) == CountMatches(d, q)
  {
    match FirstWithPrefix(d, p)
    case None =>
    case Some(i) =>
      CountRemoveAt(d, i, q);
      IncomparableExclusive(p, q, d[i]);
  }

  /** A listing with one slot entry at most has none left after eviction. */
  lemma EvictEmptiesSlot(d: Dir, p: string)
    requires CountMatches(d, p) <= 1
    ensures NoMatch(Evict(d, p), p)
  {
    CountEvict(d, p);
  }

  /** The first match is unique. */
  lemma FirstMatchUnique(d: Dir, p: string, i: int, j: int)
    requires IsFirstMatch(d, p, i) && IsFirstMatch(d, p, j)
    ensures i == j
  {
  }

  /** Unlinking an entry outside slot `q` keeps the first `q` name. */
  lemma FirstNameRemoveAt(d: Dir, i: nat, q: string)
    requires i < |d| && !Matches(d[i], q)
    ensures FirstNameWithPrefix(RemoveAt(d, i), q) == FirstNameWithPrefix(d, q)
  {
    var r := RemoveAt(d, i);
    match FirstWithPrefix(d, q)
    case None =>
      assert NoMatch(r, q) by {
        forall j | 0 <= j < |r| ensures !Matches(r[j], q) {
          if j < i { assert r[j] == d[j]; } else { assert r[j] == d[j + 1]; }
        }
      }
    case Some(k) =>
      var k' := if k < i then k else k - 1;
      assert r[k'] == d[k];
      assert IsFirstMatch(r, q, k') by {
        forall j | 0 <= j < k' ensures !Matches(r[j], q) {
          if j < i { assert r[j] == d[j]; } else { assert r[j] == d[j + 1]; }
        }
      }
      FirstMatchUnique(r, q, k', FirstWithPrefix(r, q).value);
  }

  /** Overwriting an entry outside slot `q` with one outside it keeps the
      first `q` name. */
  lemma FirstNameUpdate(d: Dir, i: nat, e: Entry, q: string)
    requires i < |d| && !Matches(d[i], q) && !Matches(e, q)
    ensures FirstNameWithPrefix(d[i := e], q) == FirstNameWithPrefix(d, q)
  {
    var u := d[i := e];
    match FirstWithPrefix(d, q)
    case None =>
      assert NoMatch(u, q) by {
        forall j | 0 <= j < |u| ensures !Matches(u[j], q) {
          if j != i { assert u[j] == d[j]; }
        }
      }
    case Some(k) =>
      assert IsFirstMatch(u, q, k) by {
        forall j | 0 <= j < k ensures !Matches(u[j], q) {
          if j != i { assert u[j] == d[j]; }
        }
      }
      FirstMatchUnique(u, q, k, FirstWithPrefix(u, q).value);
  }

  /** Appending an entry outside slot `q` keeps the first `q` name. */
  lemma FirstNameAppend(d: Dir, e: Entry, q: string)
    requires !Matches(e, q)
    ensures FirstNameWithPrefix(d + [e], q) == FirstNameWithPrefix(d, q)
  {
    var u := d + [e];
    match FirstWithPrefix(d, q)
    case None =>
      assert NoMatch(u, q) by {
        forall j | 0 <= j < |u| ensures !Matches(u[j], q) {
          if j < |d| { assert u[j] == d[j]; }
        }
      }
    case Some(k) =>
      assert IsFirstMatch(u, q, k);
      FirstMatchUnique(u, q, k, FirstWithPrefix(u, q).value);
  }

  /** Writing a name outside slot `q` keeps the first `q` name. */
  lemma FirstNameWrite(d: Dir, name: string, bytes: Bytes, q: string)
    requires !(q <= name)
    ensures FirstNameWithPrefix(Write(d, name, bytes), q) == FirstNameWithPrefix(d, q)
  {
    match IndexOfName(d, name)
    case None =>
      FirstNameAppend(d, Entry(name, bytes), q);
    case Some(i) =>
      FirstNameUpdate(d, i, Entry(name, bytes), q);
  }

  /** Evicting through an incomparable prefix keeps the first `q` name. */
  lemma FirstNameEvict(d: Dir, p: string, q: string)
    requires Incomparable(p, q)
    ensures FirstNameWithPrefix(Evict(d, p), q) == FirstNameWithPrefix(d, q)
  {
    match FirstWithPrefix(d, p)
    case None =>
    case Some(i) =>
      IncomparableExclusive(p, q, d[i]);
      FirstNameRemoveAt(d, i, q);
  }

  /** Writing keeps names distinct: an existing name is overwritten in place. */
  lemma WritePreservesDistinct(d: Dir, name: string, bytes: Bytes)
    requires DistinctNames(d)
    ensures DistinctNames(Write(d, name, bytes))
  {
    match IndexOfName(d, name)
    case None =>
      var u := d + [Entry(name, bytes)];
      assert forall j :: 0 <= j < |d| ==> u[j] == d[j];
    case Some(i) =>
      var u := d[i := Entry(name, bytes)];
      assert forall j :: 0 <= j < |d| && j != i ==> u[j] == d[j];
  }

  lemma RemoveAtPreservesDistinct(d: Dir, i: nat)
    requires i < |d| && DistinctNames(d)
    ensures DistinctNames(RemoveAt(d, i))
  {
    var r := RemoveAt(d, i);
    forall a, b | 0 <= a < b < |r| ensures r[a].name != r[b].name {
      var a' := if a < i then a else a + 1;
      var b' := if b < i then b else b + 1;
      assert r[a] == d[a'] && r[b] == d[b'];
    }
  }

  /** After unlinking the one entry of a name, no entry of that name is left. */
  lemma RemoveAtDropsName(d: Dir, i: nat)
    requires i < |d| && DistinctNames(d)
    ensures forall j :: 0 <= j < |RemoveAt(d, i)| ==> RemoveAt(d, i)[j].name != d[i].name
  {
    var r := RemoveAt(d, i);
    forall j | 0 <= j < |r| ensures r[j].name != d[i].name {
      if j < i { assert r[j] == d[j]; } else { assert r[j] == d[j + 1]; }
    }
  }

  /** An entry appended to a slot with no entries is its only entry. */
  lemma AppendToEmptySlot(d: Dir, e: Entry, p: string)
    requires NoMatch(d, p) && Matches(e, p)
    ensures CountMatches(d + [e], p) == 1
    ensures forall i :: 0 <= i < |d + [e]| && Matches((d + [e])[i], p) ==> (d + [e])[i] == e
  {
    CountConcat(d, [e], p);
    assert CountMatches([e], p) == 1 by {
      assert [e][1..] == [];
    }
    assert forall i :: 0 <= i < |d| ==> (d + [e])[i] == d[i];
  }
}
