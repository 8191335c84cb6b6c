/**
  Python's insertion-ordered `dict` with string keys (the library's
  title -> Show table and its username -> User table), written as the list
  of its items.  `Put` is `d[k] = v`: a new key goes to the end, an existing
  key keeps its place and only its value changes.
*/
module Dict {
  import opened Wrappers
  import opened Text

  type Items<V> = seq<(string, V)>

  predicate HasKey<V>(d: Items<V>, k: string)
  {
    exists i :: 0 <= i < |d| && d[i].0 == k
  }

  predicate DistinctKeys<V>(d: Items<V>)
  {
    forall i, j :: 0 <= i < j < |d| ==> d[i].0 != d[j].0
  }

  /** Where key `k` sits in the items. */
  function IndexOf<V>(d: Items<V>, k: string): (i: nat)
    requires HasKey(d, k)
    ensures i < |d| && d[i].0 == k
    ensures forall j :: 0 <= j < i ==> d[j].0 != k
  {
    if d[0].0 == k then 0 else 1 + IndexOf(d[1..], k)
  }

  /** `d[k]` */
  function Get<V>(d: Items<V>, k: string): V
    requires HasKey(d, k)
  {
    d[IndexOf(d, k)].1
  }

  /** `d.values()`, in insertion order. */
  function Values<V>(d: Items<V>): (vs: seq<V>)
    ensures |vs| == |d|
    ensures forall i :: 0 <= i < |d| ==> vs[i] == d[i].1
  {
    seq(|d|, i requires 0 <= i < |d| => d[i].1)
  }

  /** `d[k] = v` */
  function Put<V>(d: Items<V>, k: string, v: V): (r: Items<V>)
    requires DistinctKeys(d)
    ensures DistinctKeys(r)
    ensures HasKey(r, k) && Get(r, k) == v
    ensures forall k' :: k' != k ==> (HasKey(r, k') <==> HasKey(d, k'))
    ensures forall k' :: k' != k && HasKey(d, k') ==> Get(r, k') == Get(d, k')
    ensures forall k' :: HasKey(d, k') ==> IndexOf(r, k') == IndexOf(d, k')
    ensures HasKey(d, k) ==> |r| == |d|
    ensures !HasKey(d, k) ==> r == d + [(k, v)]
  {
    if HasKey(d, k) then
      var i := IndexOf(d, k);
      var r := d[i := (k, v)];
      assert r[i].0 == k;
      assert forall k' :: HasKey(d, k') ==> IndexOf(r, k') == IndexOf(d, k') by {
        forall k' | HasKey(d, k') ensures HasKey(r, k') && IndexOf(r, k') == IndexOf(d, k') {
          var j := IndexOf(d, k');
          assert r[j].0 == k';
        }
      }
      r
    else
      var r := d + [(k, v)];
      assert r[|d|].0 == k;
      assert forall k' :: HasKey(d, k') ==> IndexOf(r, k') == IndexOf(d, k') by {
        forall k' | HasKey(d, k') ensures HasKey(r, k') && IndexOf(r, k') == IndexOf(d, k') {
          var j := IndexOf(d, k');
          assert r[j].0 == k';
        }
      }
      r
  }

  /** A key that was present keeps its place when another key is assigned. */
  lemma PutKeepsPlace<V>(d: Items<V>, k: string, v: V, a: string)
    requires DistinctKeys(d) && HasKey(d, a)
    ensures HasKey(Put(d, k, v), a) && IndexOf(Put(d, k, v), a) == IndexOf(d, a)
  {
  }

  /** `d[k] = v` changes no item but the one under `k`, which it replaces in place or appends. */
  lemma PutItems<V>(d: Items<V>, k: string, v: V)
    requires DistinctKeys(d)
    ensures HasKey(d, k) ==> Put(d, k, v) == d[IndexOf(d, k) := (k, v)]
    ensures forall i :: 0 <= i < |Put(d, k, v)| ==> Put(d, k, v)[i] == (k, v) || (i < |d| && Put(d, k, v)[i] == d[i])
  {
  }

  /** A table that only grew at the end still maps every old key to its old value. */
  lemma PrefixGet<V>(d: Items<V>, d': Items<V>, k: string)
    requires DistinctKeys(d') && |d| <= |d'| && d'[..|d|] == d && HasKey(d, k)
    ensures HasKey(d', k) && Get(d', k) == Get(d, k)
  {
    var i := IndexOf(d, k);
    assert d'[i] == d'[..|d|][i] == d[i];
    var j := IndexOf(d', k);
    assert j == i;
  }

  /** `list(d.keys())` */
  function Keys<V>(d: Items<V>): (ks: seq<string>)
    ensures |ks| == |d|
  {
    seq(|d|, i requires 0 <= i < |d| => d[i].0)
  }

  lemma HasKeyKeys<V>(d: Items<V>, k: string)
    ensures HasKey(d, k) <==> k in Keys(d)
  {
    if HasKey(d, k) {
      var i :| 0 <= i < |d| && d[i].0 == k;
      assert Keys(d)[i] == k;
    }
    if k in Keys(d) {
      var i :| 0 <= i < |Keys(d)| && Keys(d)[i] == k;
      assert d[i].0 == k;
    }
  }

  /**
    The strings of `s` without repeats, each where it first appears: the keys,
    in order, of a dict that was empty and had `s`'s strings assigned in turn.
  */
  function FirstAppearances(s: seq<string>): seq<string>
  {
    if s == [] then []
    else
      var before := FirstAppearances(s[..|s| - 1]);
      if s[|s| - 1] in before then before else before + [s[|s| - 1]]
  }

  /** Every string of `s` appears exactly once, and nothing else does. */
  lemma {:induction false} FirstAppearancesSpec(s: seq<string>)
    ensures forall x :: x in FirstAppearances(s) <==> x in s
    ensures forall i, j :: 0 <= i < j < |FirstAppearances(s)| ==> FirstAppearances(s)[i] != FirstAppearances(s)[j]
  {
    if s != [] {
      var init := s[..|s| - 1];
      FirstAppearancesSpec(init);
      assert s == init + [s[|s| - 1]];
    }
  }

  /** A list without repeats is its own first appearances. */
  lemma {:induction false} FirstAppearancesDistinct(s: seq<string>)
    requires forall i, j :: 0 <= i < j < |s| ==> s[i] != s[j]
    ensures FirstAppearances(s) == s
  {
    if s != [] {
      var init := s[..|s| - 1];
      FirstAppearancesDistinct(init);
      assert s[|s| - 1] !in init by {
        forall i | 0 <= i < |init| ensures init[i] != s[|s| - 1] {
          assert init[i] == s[i];
        }
      }
      assert s == init + [s[|s| - 1]];
    }
  }

  /** Assigning `b`'s keys after a dict built from `a` gives the key order of assigning `a + b`. */
  lemma {:induction false} FirstAppearancesAbsorb(a: seq<string>, b: seq<string>)
    ensures FirstAppearances(FirstAppearances(a) + b) == FirstAppearances(a + b)
  {
    if b == [] {
      FirstAppearancesSpec(a);
      FirstAppearancesDistinct(FirstAppearances(a));
      assert FirstAppearances(a) + b == FirstAppearances(a);
      assert a + b == a;
    } else {
      var init, c := b[..|b| - 1], b[|b| - 1];
      FirstAppearancesAbsorb(a, init);
      assert (FirstAppearances(a) + b)[..|FirstAppearances(a) + b| - 1] == FirstAppearances(a) + init;
      assert (a + b)[..|a + b| - 1] == a + init;
    }
  }

  /**
    `d[k] = v` in a dict whose keys are the first appearances of `s`: the
    keys become the first appearances of `s + [k]`, whether `k` kept its place
    or was appended.
  */
  lemma AssignKeyOrder<V>(d: Items<V>, d': Items<V>, s: seq<string>, k: string)
    requires Keys(d) == FirstAppearances(s)
    requires |d'| == if HasKey(d, k) then |d| else |d| + 1
    requires forall i :: 0 <= i < |d| ==> d'[i].0 == d[i].0
    requires |d| < |d'| ==> d'[|d|].0 == k
    ensures Keys(d') == FirstAppearances(s + [k])
  {
    HasKeyKeys(d, k);
    assert (s + [k])[..|s|] == s;
    if HasKey(d, k) {
      assert Keys(d') == Keys(d);
    } else {
      assert Keys(d') == Keys(d) + [k];
    }
  }

  /** The first item whose key equals `key` once both are lower-cased. */
  function FirstFolded<V>(d: Items<V>, key: string): Option<V>
  {
    if d == [] then None
    else if Lower(d[0].0) == Lower(key) then Some(d[0].1)
    else FirstFolded(d[1..], key)
  }

  /**
    The lookup policy of `get_user` and `get_show`: the exact key if present,
    otherwise the first key, in insertion order, that matches case-insensitively,
    otherwise nothing.
  */
  function Resolve<V>(d: Items<V>, key: string): Option<V>
  {
    if HasKey(d, key) then Some(Get(d, key)) else FirstFolded(d, key)
  }

  lemma {:induction false} FirstFoldedSpec<V>(d: Items<V>, key: string)
    ensures FirstFolded(d, key).None? <==> forall i :: 0 <= i < |d| ==> Lower(d[i].0) != Lower(key)
    ensures FirstFolded(d, key).Some? ==>
      exists i :: 0 <= i < |d| && Lower(d[i].0) == Lower(key) && FirstFolded(d, key).value == d[i].1
                  && forall j :: 0 <= j < i ==> Lower(d[j].0) != Lower(key)
  {
    if d != [] && Lower(d[0].0) != Lower(key) {
      FirstFoldedSpec(d[1..], key);
      if FirstFolded(d[1..], key).Some? {
        var i :| 0 <= i < |d[1..]| && Lower(d[1..][i].0) == Lower(key) && FirstFolded(d[1..], key).value == d[1..][i].1
                 && forall j :: 0 <= j < i ==> Lower(d[1..][j].0) != Lower(key);
        assert Lower(d[i + 1].0) == Lower(key);
        assert forall j :: 0 <= j < i + 1 ==> Lower(d[j].0) != Lower(key) by {
          forall j | 0 <= j < i + 1 ensures Lower(d[j].0) != Lower(key) {
            if j > 0 { assert d[j] == d[1..][j - 1]; }
          }
        }
      } else {
        forall i | 0 <= i < |d| ensures Lower(d[i].0) != Lower(key) {
          if i > 0 { assert d[i] == d[1..][i - 1]; }
        }
      }
    }
  }

  /**
    The three outcomes of the lookup policy: the exact entry wins; failing that
    the first case-insensitive match; and nothing is found exactly when no key
    matches case-insensitively.
  */
  lemma ResolveSpec<V>(d: Items<V>, key: string)
    ensures HasKey(d, key) ==> Resolve(d, key) == Some(Get(d, key))
    ensures Resolve(d, key).None? <==> forall i :: 0 <= i < |d| ==> Lower(d[i].0) != Lower(key)
    ensures !HasKey(d, key) && Resolve(d, key).Some? ==>
      exists i :: 0 <= i < |d| && Lower(d[i].0) == Lower(key) && Resolve(d, key).value == d[i].1
                  && forall j :: 0 <= j < i ==> Lower(d[j].0) != Lower(key)
  {
    FirstFoldedSpec(d, key);
    if HasKey(d, key) {
      var i := IndexOf(d, key);
      assert Lower(d[i].0) == Lower(key);
    }
  }

  /** The scan `get_user` and `get_show` run: exact key first, then a case-insensitive pass. */
  method Lookup<V>(d: Items<V>, key: string) returns (r: Option<V>)
    ensures r == Resolve(d, key)
  {
    if HasKey(d, key) {
      return Some(Get(d, key));
    }
    var lowered := Lower(key);
    var i := 0;
    while i < |d|
      invariant 0 <= i <= |d|
      invariant FirstFolded(d, key) == FirstFolded(d[i..], key)
    {
      if Lower(d[i].0) == lowered {
        return Some(d[i].1);
      }
      assert d[i..][1..] == d[i + 1..];
      i := i + 1;
    }
    return None;
  }
}
