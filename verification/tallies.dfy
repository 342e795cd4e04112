/**
 * Insertion-ordered counters, as built by the `map.set(k, (map.get(k) ?? 0) + 1)`
 * idiom on a JavaScript `Map` or plain object: a key is appended the first
 * time it is counted and keeps its position afterwards.
 */
module Tallies {

  datatype Entry<K> = Entry(key: K, count: nat)

  /** An association list; `Object.fromEntries` of a `Map` keeps this order. */
  type Tally<K> = seq<Entry<K>>

  predicate DistinctKeys<K(==)>(t: Tally<K>)
  {
    forall i, j :: 0 <= i < j < |t| ==> t[i].key != t[j].key
  }

  predicate AllPositive<K>(t: Tally<K>)
  {
    forall i :: 0 <= i < |t| ==> t[i].count > 0
  }

  /** A well-formed tally: no key twice and no zero entry. */
  predicate Valid<K(==)>(t: Tally<K>)
  {
    DistinctKeys(t) && AllPositive(t)
  }

  /** The keys the tally holds an entry for. */
  function Keys<K(!new)>(t: Tally<K>): (r: set<K>)
    ensures forall k :: k in r <==> exists i :: 0 <= i < |t| && t[i].key == k
  {
    set i | 0 <= i < |t| :: t[i].key
  }

  lemma KeysCons<K(!new)>(e: Entry<K>, t: Tally<K>)
    ensures Keys([e] + t) == {e.key} + Keys(t)
  {
    var s := [e] + t;
    forall k | k in Keys(s) ensures k in {e.key} + Keys(t) {
      var i :| 0 <= i < |s| && s[i].key == k;
      if i > 0 {
        assert t[i - 1] == s[i];
      }
    }
    forall k | k in Keys(t) ensures k in Keys(s) {
      var i :| 0 <= i < |t| && t[i].key == k;
      assert s[i + 1] == t[i];
    }
    assert s[0] == e;
  }

  /** `map.get(k) ?? 0`: the count of the first entry for `k`, or zero. */
  function Get<K(==,!new)>(t: Tally<K>, k: K): (r: nat)
    ensures k !in Keys(t) ==> r == 0
    ensures AllPositive(t) ==> (r > 0 <==> k in Keys(t))
  {
    if t == [] then 0
    else if t[0].key == k then t[0].count
    else
      assert forall i :: 0 <= i < |t[1..]| ==> t[1..][i] == t[i + 1];
      Get(t[1..], k)
  }

  /** The keys in entry order (`[...map.keys()]`). */
  function KeySeq<K>(t: Tally<K>): (r: seq<K>)
    ensures |r| == |t|
    ensures forall i :: 0 <= i < |t| ==> r[i] == t[i].key
  {
    if t == [] then [] else [t[0].key] + KeySeq(t[1..])
  }

  /** The sum of all counts (`Object.values(...)` added up). */
  function Sum<K>(t: Tally<K>): nat
  {
    if t == [] then 0 else t[0].count + Sum(t[1..])
  }

  /**
   * `map.set(k, (map.get(k) ?? 0) + 1)`: the first entry for `k` is
   * incremented in place, or a new entry `(k, 1)` is appended at the end.
   */
  function Bump<K(==,!new)>(t: Tally<K>, k: K): (r: Tally<K>)
    ensures Get(r, k) == Get(t, k) + 1
    ensures forall k' :: k' != k ==> Get(r, k') == Get(t, k')
    ensures k !in Keys(t) ==> r == t + [Entry(k, 1)]
    ensures k in Keys(t) ==> KeySeq(r) == KeySeq(t)
  {
    if t == [] then [Entry(k, 1)]
    else if t[0].key == k then [Entry(k, t[0].count + 1)] + t[1..]
    else
      var rest := Bump(t[1..], k);
      assert t == [t[0]] + t[1..];
      KeysCons(t[0], t[1..]);
      [t[0]] + rest
  }

  /** Bumping adds the key to the key set and nothing else. */
  lemma {:induction false} BumpKeys<K(!new)>(t: Tally<K>, k: K)
    ensures Keys(Bump(t, k)) == Keys(t) + {k}
  {
    if t != [] && t[0].key != k {
      BumpKeys(t[1..], k);
      assert t == [t[0]] + t[1..];
      KeysCons(t[0], t[1..]);
      KeysCons(t[0], Bump(t[1..], k));
    } else if t != [] {
      assert t == [t[0]] + t[1..];
      KeysCons(t[0], t[1..]);
      KeysCons(Entry(k, t[0].count + 1), t[1..]);
    }
  }

  /** Bumping adds exactly one to the sum of the counts. */
  lemma {:induction false} BumpSum<K(!new)>(t: Tally<K>, k: K)
    ensures Sum(Bump(t, k)) == Sum(t) + 1
  {
    if t != [] && t[0].key != k {
      BumpSum(t[1..], k);
      assert ([t[0]] + Bump(t[1..], k))[1..] == Bump(t[1..], k);
    } else if t != [] {
      assert ([Entry(k, t[0].count + 1)] + t[1..])[1..] == t[1..];
    }
  }

  /** A tally has distinct keys exactly when its head's key is new and its tail has distinct keys. */
  lemma DistinctKeysCons<K(!new)>(e: Entry<K>, t: Tally<K>)
    ensures DistinctKeys([e] + t) <==> e.key !in Keys(t) && DistinctKeys(t)
  {
    var r := [e] + t;
    assert forall i :: 0 <= i < |t| ==> r[i + 1] == t[i];
    if e.key !in Keys(t) && DistinctKeys(t) {
      forall i, j | 0 <= i < j < |r| ensures r[i].key != r[j].key {
        if i == 0 {
          assert r[j] == t[j - 1];
        } else {
          assert r[i] == t[i - 1] && r[j] == t[j - 1];
        }
      }
    }
    if DistinctKeys(r) {
      forall i | 0 <= i < |t| ensures t[i].key != e.key {
        assert r[0].key != r[i + 1].key;
      }
      forall i, j | 0 <= i < j < |t| ensures t[i].key != t[j].key {
        assert r[i + 1].key != r[j + 1].key;
      }
    }
  }

  /** Bumping keeps the keys distinct. */
  lemma {:induction false} BumpDistinct<K(!new)>(t: Tally<K>, k: K)
    requires DistinctKeys(t)
    ensures DistinctKeys(Bump(t, k))
  {
    if t != [] {
      assert t == [t[0]] + t[1..];
      DistinctKeysCons(t[0], t[1..]);
      if t[0].key != k {
        BumpDistinct(t[1..], k);
        BumpKeys(t[1..], k);
        DistinctKeysCons(t[0], Bump(t[1..], k));
      } else {
        DistinctKeysCons(Entry(k, t[0].count + 1), t[1..]);
      }
    }
  }

  /** Bumping keeps every count positive. */
  lemma {:induction false} BumpPositive<K(!new)>(t: Tally<K>, k: K)
    requires AllPositive(t)
    ensures AllPositive(Bump(t, k))
  {
    if t != [] && t[0].key != k {
      BumpPositive(t[1..], k);
      assert forall i :: 1 <= i < |t| ==> t[1..][i - 1] == t[i];
      var r := Bump(t, k);
      assert forall i :: 1 <= i < |r| ==> r[i] == Bump(t[1..], k)[i - 1];
    } else if t != [] {
      var r := Bump(t, k);
      assert forall i :: 1 <= i < |r| ==> r[i] == t[i];
    }
  }

  /** Bumping keeps a tally well formed. */
  lemma BumpValid<K(!new)>(t: Tally<K>, k: K)
    requires Valid(t)
    ensures Valid(Bump(t, k))
  {
    BumpDistinct(t, k);
    BumpPositive(t, k);
  }

  /** The number of elements of `s` that satisfy `p`. */
  function CountWhere<T>(s: seq<T>, p: T -> bool): (r: nat)
    ensures r <= |s|
  {
    if s == [] then 0
    else CountWhere(s[..|s| - 1], p) + (if p(s[|s| - 1]) then 1 else 0)
  }

  /** When every element passes, all of them are counted. */
  lemma {:induction false} CountWhereAll<T>(s: seq<T>, keep: T -> bool)
    requires forall x :: keep(x)
    ensures CountWhere(s, keep) == |s|
  {
    if s != [] {
      CountWhereAll(s[..|s| - 1], keep);
    }
  }

  /** The number of elements of `s` that pass `keep` and have key `k`. */
  function CountKey<T, K(==)>(s: seq<T>, keep: T -> bool, key: T -> K, k: K): (r: nat)
    ensures r <= CountWhere(s, keep)
  {
    if s == [] then 0
    else CountKey(s[..|s| - 1], keep, key, k) + (if keep(s[|s| - 1]) && key(s[|s| - 1]) == k then 1 else 0)
  }

  /** Counting one more element: the step every counting loop takes. */
  lemma CountWhereSnoc<T>(s: seq<T>, i: nat, p: T -> bool)
    requires i < |s|
    ensures CountWhere(s[..i + 1], p) == CountWhere(s[..i], p) + (if p(s[i]) then 1 else 0)
  {
    assert s[..i + 1][..i] == s[..i];
  }

  /**
   * The distinct keys of the elements of `s` that pass `keep`, each where it
   * first occurs: the order in which a counting loop over `s` first sets them.
   */
  function FirstSeen<T, K(==)>(s: seq<T>, keep: T -> bool, key: T -> K): seq<K>
  {
    if s == [] then []
    else
      var before := FirstSeen(s[..|s| - 1], keep, key);
      var x := s[|s| - 1];
      if keep(x) && key(x) !in before then before + [key(x)] else before
  }

  /**
   * `t` tabulates the elements of `s` that pass `keep` by `key`: it is well
   * formed, holds one entry per key that occurs, in first-seen order, each
   * entry's count is the number of such elements with that key, and the
   * counts add up to the number of elements counted.
   */
  ghost predicate Tabulates<T(!new), K(!new)>(t: Tally<K>, s: seq<T>, keep: T -> bool, key: T -> K)
  {
    && Valid(t)
    && (forall k :: Get(t, k) == CountKey(s, keep, key, k))
    && Keys(t) == (set x | x in s && keep(x) :: key(x))
    && KeySeq(t) == FirstSeen(s, keep, key)
    && Sum(t) == CountWhere(s, keep)
  }

  /** The empty tally tabulates the empty prefix. */
  lemma TabulatesEmpty<T(!new), K(!new)>(s: seq<T>, keep: T -> bool, key: T -> K)
    ensures Tabulates([], s[..0], keep, key)
  {
    assert s[..0] == [];
  }

  /** One loop step: bump the key of the next element when it passes `keep`. */
  lemma TabulatesStep<T(!new), K(!new)>(t: Tally<K>, s: seq<T>, i: nat, keep: T -> bool, key: T -> K)
    requires i < |s|
    requires Tabulates(t, s[..i], keep, key)
    ensures Tabulates(if keep(s[i]) then Bump(t, key(s[i])) else t, s[..i + 1], keep, key)
  {
    if keep(s[i]) {
      TabulatesCounted(t, s, i, keep, key);
    } else {
      TabulatesSkipped(t, s, i, keep, key);
    }
  }

  lemma TabulatesCounted<T(!new), K(!new)>(t: Tally<K>, s: seq<T>, i: nat, keep: T -> bool, key: T -> K)
    requires i < |s| && keep(s[i])
    requires Tabulates(t, s[..i], keep, key)
    ensures Tabulates(Bump(t, key(s[i])), s[..i + 1], keep, key)
  {
    var t' := Bump(t, key(s[i]));
    StepCounts(t, t', s, i, keep, key);
    StepTallyKeys(t, t', s, i, keep, key);
    StepSum(t, t', s, i, keep, key);
    StepOrder(t, t', s, i, keep, key);
    BumpValid(t, key(s[i]));
  }

  lemma TabulatesSkipped<T(!new), K(!new)>(t: Tally<K>, s: seq<T>, i: nat, keep: T -> bool, key: T -> K)
    requires i < |s| && !keep(s[i])
    requires Tabulates(t, s[..i], keep, key)
    ensures Tabulates(t, s[..i + 1], keep, key)
  {
    StepCounts(t, t, s, i, keep, key);
    StepTallyKeys(t, t, s, i, keep, key);
    StepSum(t, t, s, i, keep, key);
    StepOrder(t, t, s, i, keep, key);
  }

  /** A key has an entry exactly when it occurs in the key sequence. */
  lemma InKeysIffInKeySeq<K(!new)>(t: Tally<K>, k: K)
    ensures k in Keys(t) <==> k in KeySeq(t)
  {
    if k in Keys(t) {
      var i :| 0 <= i < |t| && t[i].key == k;
      assert KeySeq(t)[i] == k;
    }
  }

  /** Appending an entry appends its key. */
  lemma KeySeqSnoc<K>(t: Tally<K>, e: Entry<K>)
    ensures KeySeq(t + [e]) == KeySeq(t) + [e.key]
  {
    var r := KeySeq(t + [e]);
    assert forall i :: 0 <= i < |t| ==> r[i] == (t + [e])[i].key == t[i].key;
  }

  /** One loop step keeps the keys in first-seen order. */
  lemma StepOrder<T, K(!new)>(t: Tally<K>, t': Tally<K>, s: seq<T>, i: nat, keep: T -> bool, key: T -> K)
    requires i < |s|
    requires t' == if keep(s[i]) then Bump(t, key(s[i])) else t
    requires KeySeq(t) == FirstSeen(s[..i], keep, key)
    ensures KeySeq(t') == FirstSeen(s[..i + 1], keep, key)
  {
    assert s[..i + 1][..i] == s[..i];
    assert s[..i + 1][i] == s[i];
    if keep(s[i]) {
      InKeysIffInKeySeq(t, key(s[i]));
      if key(s[i]) !in Keys(t) {
        KeySeqSnoc(t, Entry(key(s[i]), 1));
      }
    }
  }

  lemma StepSum<T, K(!new)>(t: Tally<K>, t': Tally<K>, s: seq<T>, i: nat, keep: T -> bool, key: T -> K)
    requires i < |s|
    requires t' == if keep(s[i]) then Bump(t, key(s[i])) else t
    requires Sum(t) == CountWhere(s[..i], keep)
    ensures Sum(t') == CountWhere(s[..i + 1], keep)
  {
    CountWhereSnoc(s, i, keep);
    if keep(s[i]) {
      BumpSum(t, key(s[i]));
    }
  }

  lemma StepTallyKeys<T(!new), K(!new)>(t: Tally<K>, t': Tally<K>, s: seq<T>, i: nat, keep: T -> bool, key: T -> K)
    requires i < |s|
    requires t' == if keep(s[i]) then Bump(t, key(s[i])) else t
    requires Keys(t) == (set x | x in s[..i] && keep(x) :: key(x))
    ensures Keys(t') == (set x | x in s[..i + 1] && keep(x) :: key(x))
  {
    StepKeys(s, i, keep, key);
    if keep(s[i]) {
      BumpKeys(t, key(s[i]));
    }
  }

  lemma StepCounts<T, K(!new)>(t: Tally<K>, t': Tally<K>, s: seq<T>, i: nat, keep: T -> bool, key: T -> K)
    requires i < |s|
    requires t' == if keep(s[i]) then Bump(t, key(s[i])) else t
    requires forall k :: Get(t, k) == CountKey(s[..i], keep, key, k)
    ensures forall k :: Get(t', k) == CountKey(s[..i + 1], keep, key, k)
  {
    assert s[..i + 1][..i] == s[..i];
  }

  lemma StepKeys<T(!new), K>(s: seq<T>, i: nat, keep: T -> bool, key: T -> K)
    requires i < |s|
    ensures (set x | x in s[..i + 1] && keep(x) :: key(x))
         == (set x | x in s[..i] && keep(x) :: key(x)) + (if keep(s[i]) then {key(s[i])} else {})
  {
    assert s[..i + 1] == s[..i] + [s[i]];
  }
}
