/** The order in which pandas' `groupby` visits subject ids: groups are sorted
    by key, and Python compares strings code point by code point, a proper
    prefix coming first. */
module SubjectOrder {

  /** Python's `a < b` on `str`; never true of equal strings. */
  predicate Below(a: string, b: string)
    ensures Below(a, b) ==> a != b
    decreases |a|
  {
    if a == [] then b != []
    else if b == [] then false
    else if a[0] == b[0] then Below(a[1..], b[1..])
    else a[0] < b[0]
  }

  /** `a` and `b` agree on their first `k` code points and `a` is the
      lesser at position `k`: it has ended there while `b` goes on, or both
      go on and `a`'s code point is smaller. */
  predicate DiffersBelowAt(a: string, b: string, k: nat)
  {
    && k <= |a| && k <= |b| && a[..k] == b[..k]
    && ((k == |a| && k < |b|) || (k < |a| && k < |b| && a[k] < b[k]))
  }

  /** `Below` is the lexicographic order: `a` comes first exactly when, at the
      first position where the two differ, `a` is the lesser. */
  lemma {:induction false} BelowIsLexicographic(a: string, b: string)
    ensures Below(a, b) <==> exists k: nat :: DiffersBelowAt(a, b, k)
    decreases |a|
  {
    if a != [] && b != [] && a[0] == b[0] {
      BelowIsLexicographic(a[1..], b[1..]);
      if Below(a, b) {
        var k: nat :| DiffersBelowAt(a[1..], b[1..], k);
        assert a[..k + 1] == [a[0]] + a[1..][..k] && b[..k + 1] == [b[0]] + b[1..][..k];
        assert DiffersBelowAt(a, b, k + 1);
      }
      if exists k: nat :: DiffersBelowAt(a, b, k) {
        var k: nat :| DiffersBelowAt(a, b, k);
        if k == 0 {
          assert false;
        }
        assert a[1..][..k - 1] == a[..k][1..] && b[1..][..k - 1] == b[..k][1..];
        assert DiffersBelowAt(a[1..], b[1..], k - 1);
      }
    } else if a == [] {
      if b != [] { assert DiffersBelowAt(a, b, 0); }
    } else if b != [] {
      if a[0] < b[0] { assert DiffersBelowAt(a, b, 0); }
      if exists k: nat :: DiffersBelowAt(a, b, k) {
        var k: nat :| DiffersBelowAt(a, b, k);
        assert k == 0 || a[..k][0] == b[..k][0];
      }
    }
  }

  lemma {:induction false} BelowTransitive(a: string, b: string, c: string)
    requires Below(a, b) && Below(b, c)
    ensures Below(a, c)
    decreases |a|
  {
    if a != [] && b != [] && c != [] && a[0] == b[0] && b[0] == c[0] {
      BelowTransitive(a[1..], b[1..], c[1..]);
    }
  }

  lemma {:induction false} BelowTotal(a: string, b: string)
    ensures a == b || Below(a, b) || Below(b, a)
    decreases |a|
  {
    if a != [] && b != [] && a[0] == b[0] {
      BelowTotal(a[1..], b[1..]);
      if a[1..] == b[1..] {
        assert a == [a[0]] + a[1..] && b == [b[0]] + b[1..];
      }
    }
  }

  /** Sorted with no repeated key, as the keys of a groupby are. */
  predicate StrictlyAscending(ks: seq<string>)
  {
    forall i, j :: 0 <= i < j < |ks| ==> Below(ks[i], ks[j])
  }

  /** Adds a key to an ascending key list unless it is already there. */
  function InsertKey(k: string, ks: seq<string>): (r: seq<string>)
    requires StrictlyAscending(ks)
    ensures StrictlyAscending(r)
    ensures forall x :: x in r <==> x == k || x in ks
    decreases |ks|
  {
    if ks == [] then [k]
    else if k == ks[0] then ks
    else if Below(k, ks[0]) then
      assert forall j :: 0 < j < |ks| ==> Below(k, ks[j]) by {
        forall j | 0 < j < |ks| ensures Below(k, ks[j]) {
          BelowTransitive(k, ks[0], ks[j]);
        }
      }
      [k] + ks
    else
      BelowTotal(k, ks[0]);
      var tail := InsertKey(k, ks[1..]);
      assert forall j :: 0 <= j < |tail| ==> Below(ks[0], tail[j]) by {
        forall j | 0 <= j < |tail| ensures Below(ks[0], tail[j]) {
          assert tail[j] in tail;
        }
      }
      [ks[0]] + tail
  }

  /** An ascending key list has as many entries as it has distinct keys. */
  lemma {:induction false} AscendingCardinality(ks: seq<string>, keys: set<string>)
    requires StrictlyAscending(ks)
    requires forall x :: x in keys <==> x in ks
    ensures |keys| == |ks|
  {
    if ks == [] {
      assert keys == {};
    } else {
      var tail := ks[1..];
      assert ks == [ks[0]] + tail;
      assert ks[0] !in tail by {
        forall i | 0 <= i < |tail| ensures tail[i] != ks[0] {
          assert Below(ks[0], ks[i + 1]);
        }
      }
      assert forall i, j :: 0 <= i < j < |tail| ==> Below(tail[i], tail[j]) by {
        forall i, j | 0 <= i < j < |tail| ensures Below(tail[i], tail[j]) {
          assert tail[i] == ks[i + 1] && tail[j] == ks[j + 1];
        }
      }
      AscendingCardinality(tail, keys - {ks[0]});
    }
  }
}
